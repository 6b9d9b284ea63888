/** Request validation for sign-up and sign-in (backend/src/feature/auth/validators.rs). */
module AuthValidators {
  import opened Wrappers
  import opened Errors
  import opened AuthDomain

  const EmailAndPasswordExpected := "email and/or password is expected"

  /** `Validator::email_and_password_not_empty`: 400 when either field is empty. */
  function EmailAndPasswordNotEmpty(request: CustomerDtoRequest): (r: Result<()>)
    ensures r.Ok? <==> request.email != [] && request.password != []
    ensures r.Err? ==> r.error == Fail(BadRequest, EmailAndPasswordExpected)
  {
    if request.email == [] || request.password == [] then Err(Fail(BadRequest, EmailAndPasswordExpected))
    else Ok(())
  }
}

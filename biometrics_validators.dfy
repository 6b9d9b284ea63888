/** Request validation for biometric records (src/feature/biometrics/validators.rs). */
module BiometricsValidators {
  import opened Wrappers
  import opened Errors
  import opened Uuid
  import opened BiometricsDomain

  const CustomerIdAndImageExpected := "customer_id and/or image_path is expected"
  const CustomerIdExpected := "customer_id is expected"

  /** `Validator::customer_id_and_image_not_empty`: 400 when the text of the id or the image
      path is empty. The text of a UUID is never empty, so only the path decides; a nil id
      passes. */
  function CustomerIdAndImageNotEmpty(request: BiometricDtoRequest): (r: Result<()>)
    ensures r.Ok? <==> request.imagePath != []
    ensures r.Err? ==> r.error == Fail(BadRequest, CustomerIdAndImageExpected)
  {
    if ToText(request.customerId) == [] || request.imagePath == [] then Err(Fail(BadRequest, CustomerIdAndImageExpected))
    else Ok(())
  }

  /** `Validator::customer_id_not_empty`: 400 exactly when the id is nil. */
  function CustomerIdNotEmpty(customerId: Uuid): (r: Result<()>)
    ensures r.Ok? <==> !IsNil(customerId)
    ensures r.Err? ==> r.error == Fail(BadRequest, CustomerIdExpected)
  {
    if IsNil(customerId) || ToText(customerId) == [] then Err(Fail(BadRequest, CustomerIdExpected))
    else Ok(())
  }

  /** A version 7 id, as sign-up hands out, always passes. */
  lemma Version7Passes(customerId: Uuid)
    requires IsVersion7(customerId)
    ensures CustomerIdNotEmpty(customerId) == Ok(())
  {
    Version7IsNotNil(customerId);
  }
}

/** Correlation tags attached to error responses and their log lines
    (backend/src/infra/observability.rs). */
module Observability {
  import opened Wrappers

  /** `Tags`: the only tag is the optional id of the user the request is about. */
  datatype Tags = Tags(userId: Option<string>)

  /** The derived `Default`: no user id. */
  function DefaultTags(): (t: Tags)
    ensures t.userId.None?
  {
    Tags(None)
  }

  /** `ToTags::to_tags` for `&Tags`: a field-by-field clone. The result equals the
      input, so applying it twice is the same as applying it once. */
  function ToTags(tags: Tags): (r: Tags)
    ensures r.userId == tags.userId
    ensures r == tags
  {
    Tags(tags.userId)
  }
}

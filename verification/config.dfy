/**
 * The factory's option check: both credentials must be present before any
 * client is built, and the region falls back to a default.
 */
module Config {
  import opened Common

  const DefaultRegion: string := "eu-west-1"

  datatype ConfigError = MissingAccessKeyId | MissingSecretAccessKey

  datatype Settings = Settings(accessKeyId: string, secretAccessKey: string, region: string)

  /**
   * JavaScript truthiness of a string option: `None` stands for `undefined`
   * or `null`, and the empty string is falsy as well.
   */
  predicate Present(v: Option<string>) {
    v.Some? && v.value != []
  }

  /**
   * Construction succeeds exactly when both credentials are present; a
   * missing access key is reported before a missing secret, and an absent
   * region becomes the default one. For the region, `None` stands for
   * `undefined` only: the destructuring default does not replace `null`,
   * and a `null` region is not modelled.
   */
  function Configure(accessKeyId: Option<string>, secretAccessKey: Option<string>, region: Option<string>)
    : (r: Result<Settings, ConfigError>)
    ensures r.Ok? <==> Present(accessKeyId) && Present(secretAccessKey)
    ensures !Present(accessKeyId) ==> r == Err(MissingAccessKeyId)
    ensures Present(accessKeyId) && !Present(secretAccessKey) ==> r == Err(MissingSecretAccessKey)
    ensures r.Ok? ==> r.value.accessKeyId == accessKeyId.value && r.value.secretAccessKey == secretAccessKey.value
    ensures r.Ok? && region.None? ==> r.value.region == DefaultRegion
    ensures r.Ok? && region.Some? ==> r.value.region == region.value
  {
    if !Present(accessKeyId) then Err(MissingAccessKeyId)
    else if !Present(secretAccessKey) then Err(MissingSecretAccessKey)
    else Ok(Settings(accessKeyId.value, secretAccessKey.value, if region.None? then DefaultRegion else region.value))
  }
}

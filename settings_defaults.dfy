/** The per-field defaulting rules shared by the two Go services' `SetDefaults`:
    a setting left out of the JSON file decodes to its zero value (0, "" or a nil
    pointer) and is then replaced by a default. */
module SettingsDefaults {
  import opened Wrappers

  /** Go's `math.MaxInt` on the 64-bit platforms the services run on. */
  const MaxInt: int := 0x7FFF_FFFF_FFFF_FFFF

  /** The retry count behind the `*int` pointer: nil becomes `unset`, 0 means
      "retry without limit" and becomes `MaxInt`, any other count is kept. */
  function RetryDefault(retryCount: Option<int>, unset: int): (r: Option<int>)
    requires unset != 0
    ensures r.Some? && r.value != 0
    ensures retryCount.None? ==> r.value == unset
    ensures retryCount == Some(0) ==> r.value == MaxInt
    ensures retryCount.Some? && retryCount.value != 0 ==> r == retryCount
  {
    if retryCount.None? then Some(unset)
    else if retryCount.value == 0 then Some(MaxInt)
    else retryCount
  }

  /** An integer setting whose zero value means "not configured". */
  function IntDefault(v: int, default: int): (r: int)
    requires default != 0
    ensures r != 0
    ensures v != 0 ==> r == v
    ensures v == 0 ==> r == default
  {
    if v == 0 then default else v
  }

  /** A string setting whose empty value means "not configured". */
  function StringDefault(s: string, default: string): (r: string)
    requires default != ""
    ensures r != ""
    ensures s != "" ==> r == s
    ensures s == "" ==> r == default
  {
    if s == "" then default else s
  }

  /** Defaulting a retry count leaves it unchanged exactly when it was already set to
      a non-zero count; a second application changes nothing. */
  lemma RetryDefaultFixed(retryCount: Option<int>, unset: int)
    requires unset != 0
    ensures RetryDefault(retryCount, unset) == retryCount <==> retryCount.Some? && retryCount.value != 0
    ensures RetryDefault(RetryDefault(retryCount, unset), unset) == RetryDefault(retryCount, unset)
  {
  }

  /** An integer setting is left as it is exactly when it is configured; a second
      application changes nothing. */
  lemma IntDefaultFixed(v: int, default: int)
    requires default != 0
    ensures IntDefault(v, default) == v <==> v != 0
    ensures IntDefault(IntDefault(v, default), default) == IntDefault(v, default)
  {
  }

  /** A string setting is left as it is exactly when it is configured; a second
      application changes nothing. */
  lemma StringDefaultFixed(s: string, default: string)
    requires default != ""
    ensures StringDefault(s, default) == s <==> s != ""
    ensures StringDefault(StringDefault(s, default), default) == StringDefault(s, default)
  {
  }
}

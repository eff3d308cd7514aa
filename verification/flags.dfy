/** `use_agentic`: whether a request runs the agentic pipeline, decided by
    a query parameter, then a header, then the global setting. */
module Flags {
  import opened Wrappers

  /** The `agentic` query parameter, the `X-RB-Agentic` header and the
      truthiness of the `RB_AGENTIC` setting. */
  datatype Request = Request(query: Option<string>, header: Option<string>, setting: bool)

  /** The only value that switches the pipeline on. */
  const On := "1"

  /** `use_agentic(request)`. */
  function UseAgentic(r: Request): (b: bool)
    ensures r.query.Some? ==> (b <==> r.query.value == On)
    ensures r.query.None? && r.header.Some? ==> (b <==> r.header.value == On)
    ensures r.query.None? && r.header.None? ==> b == r.setting
  {
    match r.query
    case Some(q) => q == On
    case None =>
      match r.header
      case Some(h) => h == On
      case None => r.setting
  }

  /** A present query parameter overrides the header and the setting. */
  lemma QueryDecides(r: Request, header: Option<string>, setting: bool)
    requires r.query.Some?
    ensures UseAgentic(r) == UseAgentic(Request(r.query, header, setting))
  {
  }

  /** A value other than exactly "1", such as "true", switches it off. */
  lemma OnlyOneSwitchesOn(r: Request)
    ensures r.query.Some? && r.query.value != On ==> !UseAgentic(r)
    ensures r.query.None? && r.header.Some? && r.header.value != On ==> !UseAgentic(r)
  {
  }
}

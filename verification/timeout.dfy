/** The `timeout` query parameter of `GET /api/discover`: the length of the
    network discovery window, in milliseconds, with a floor and no ceiling. */
module Timeout {
  import opened Wrappers
  import opened Numbers

  /** The shortest discovery window the server allows. */
  const MinTimeout: int := 2000

  /** The query text used when the parameter is absent or empty. */
  const DefaultQuery: string := "5000"

  /** `Math.max(2000, parseInt(req.query.timeout || '5000', 10))`. None is
      NaN: text without leading digits parses to NaN and `Math.max` passes
      NaN through. */
  function RequestTimeout(query: Option<string>): (r: Option<int>)
    ensures r.Some? ==> r.value >= MinTimeout
    ensures query.None? || query == Some("") ==> r == Some(5000)
  {
    var text := if query.None? || query.value == "" then DefaultQuery else query.value;
    DefaultQueryValue();
    match ParseInt(text)
    case None => None
    case Some(t) => Some(if t < MinTimeout then MinTimeout else t)
  }

  /** The default text parses to 5000. */
  lemma DefaultQueryValue()
    ensures ParseInt(DefaultQuery) == Some(5000)
  {
    ParseIntOfDecimal("", "", 5000, "");
    assert "" + "" + NatToString(5000) + "" == DefaultQuery;
  }

  /** A non-empty parameter is parsed as it stands. */
  lemma RequestTimeoutOfText(query: string)
    requires query != ""
    ensures RequestTimeout(Some(query)) == match ParseInt(query)
      case None => None
      case Some(t) => Some(if t < MinTimeout then MinTimeout else t)
  {
  }

  /** For any integer written in decimal, the window is `max(2000, t)`: at
      least the floor, and exactly `t` from the floor upwards. */
  lemma RequestTimeoutOfInteger(sign: string, n: nat)
    requires sign == "" || sign == "-"
    ensures var t := if sign == "-" then -(n as int) else n;
      RequestTimeout(Some(sign + NatToString(n))) == Some(if t < MinTimeout then MinTimeout else t)
  {
    RequestTimeoutOfText(sign + NatToString(n));
    ParseIntOfSigned(sign, n);
  }

  /** A value without digits, like "fast", gives NaN rather than a window. */
  lemma RequestTimeoutNaN(query: string)
    requires query != ""
    requires forall k :: 0 <= k < |query| ==> !IsDigit(query[k])
    ensures RequestTimeout(Some(query)).None?
  {
    RequestTimeoutOfText(query);
    ParseIntNoDigits(query);
  }
}

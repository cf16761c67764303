/** Decimal text and numbers: JavaScript's `parseInt(s, 10)` and the way a
    template literal renders a non-negative integer. */
module Numbers {
  import opened Wrappers
  import opened Text

  predicate IsDigit(c: char) {
    '0' <= c <= '9'
  }

  predicate AllDigits(s: string) {
    forall k :: 0 <= k < |s| ==> IsDigit(s[k])
  }

  function DigitChar(d: nat): char
    requires d < 10
  {
    (48 + d) as char
  }

  /** The number a run of decimal digits denotes. */
  function DigitsValue(s: string): nat
    requires AllDigits(s)
    decreases |s|
  {
    if |s| == 0 then 0
    else 10 * DigitsValue(s[..|s| - 1]) + (s[|s| - 1] as int - 48)
  }

  /** `String(n)` (and `${n}`) for a natural number: its shortest decimal
      digits, which read back as `n`. */
  function NatToString(n: nat): (s: string)
    ensures |s| >= 1 && AllDigits(s)
    ensures DigitsValue(s) == n
    ensures s[0] == '0' ==> n == 0
  {
    if n < 10 then [DigitChar(n)]
    else
      var s := NatToString(n / 10) + [DigitChar(n % 10)];
      assert s[..|s| - 1] == NatToString(n / 10);
      s
  }

  /** End of the run of decimal digits that starts at `i`. */
  function SkipDigits(s: string, i: nat): (j: nat)
    requires i <= |s|
    ensures i <= j <= |s|
    ensures forall k :: i <= k < j ==> IsDigit(s[k])
    ensures j < |s| ==> !IsDigit(s[j])
    decreases |s| - i
  {
    if i == |s| || !IsDigit(s[i]) then i else SkipDigits(s, i + 1)
  }

  lemma SkipDigitsAt(s: string, i: nat, j: nat)
    requires i <= j <= |s|
    requires forall k :: i <= k < j ==> IsDigit(s[k])
    requires j < |s| ==> !IsDigit(s[j])
    ensures SkipDigits(s, i) == j
  {
  }

  /** The value of the digits at the start of `t`; None when `t` does not
      start with a digit. */
  function LeadingNumber(t: string): Option<nat> {
    var k := SkipDigits(t, 0);
    if k == 0 then None else Some(DigitsValue(t[..k]))
  }

  /** The number at the start of `t`, read with an optional sign. */
  function SignedNumber(t: string): Option<int> {
    if |t| > 0 && (t[0] == '+' || t[0] == '-') then
      match LeadingNumber(t[1..])
      case Some(v) => Some(if t[0] == '-' then -(v as int) else v)
      case None => None
    else
      match LeadingNumber(t)
      case Some(v) => Some(v)
      case None => None
  }

  /** `parseInt(s, 10)`: skip leading white space, take an optional sign,
      read the longest run of digits; None stands for NaN (no digits). */
  function ParseInt(s: string): Option<int> {
    SignedNumber(s[SkipSpace(s, 0)..])
  }

  /** parseInt reads back what NatToString writes, whatever white space
      comes before it, whatever sign it carries and whatever non-digit text
      follows it. */
  lemma ParseIntOfDecimal(lead: string, sign: string, n: nat, rest: string)
    requires AllSpace(lead)
    requires sign == "" || sign == "+" || sign == "-"
    requires rest == [] || !IsDigit(rest[0])
    ensures ParseInt(lead + sign + NatToString(n) + rest) == Some(if sign == "-" then -(n as int) else n)
  {
    var d := NatToString(n);
    var body := sign + (d + rest);
    assert lead + sign + d + rest == lead + body;
    assert body[0] == if sign == "" then d[0] else sign[0];
    SpaceThenStop(lead, body);
    assert (lead + body)[|lead|..] == body;
    SignedDecimal(sign, n, rest);
  }

  /** The same without surrounding text: a signed decimal number. */
  lemma ParseIntOfSigned(sign: string, n: nat)
    requires sign == "" || sign == "+" || sign == "-"
    ensures ParseInt(sign + NatToString(n)) == Some(if sign == "-" then -(n as int) else n)
  {
    var s := sign + NatToString(n);
    SignedDecimalAlone(sign, n);
    SignedDecimalStart(sign, n);
    assert s[0..] == s;
  }

  lemma SignedDecimalAlone(sign: string, n: nat)
    requires sign == "" || sign == "+" || sign == "-"
    ensures SignedNumber(sign + NatToString(n)) == Some(if sign == "-" then -(n as int) else n)
  {
    SignedDecimal(sign, n, "");
    assert NatToString(n) + "" == NatToString(n);
  }

  lemma SignedDecimalStart(sign: string, n: nat)
    requires sign == "" || sign == "+" || sign == "-"
    ensures SkipSpace(sign + NatToString(n), 0) == 0
  {
    var d := NatToString(n);
    var s := sign + d;
    assert s[0] == if sign == "" then d[0] else sign[0];
  }

  lemma SignedDecimal(sign: string, n: nat, rest: string)
    requires sign == "" || sign == "+" || sign == "-"
    requires rest == [] || !IsDigit(rest[0])
    ensures SignedNumber(sign + (NatToString(n) + rest)) == Some(if sign == "-" then -(n as int) else n)
  {
    var d := NatToString(n);
    var tail := d + rest;
    var body := sign + tail;
    DigitsThenStop(d, rest);
    assert tail[..|d|] == d;
    assert LeadingNumber(tail) == Some(n);
    if sign != "" {
      assert body[1..] == tail;
    } else {
      assert body == tail;
      assert IsDigit(tail[0]);
    }
  }

  lemma SpaceThenStop(lead: string, body: string)
    requires AllSpace(lead)
    requires body != [] && !IsSpace(body[0])
    ensures SkipSpace(lead + body, 0) == |lead|
  {
    var t := lead + body;
    assert forall k :: 0 <= k < |lead| ==> t[k] == lead[k];
    assert t[|lead|] == body[0];
    SkipSpaceAt(t, 0, |lead|);
  }

  lemma DigitsThenStop(d: string, rest: string)
    requires AllDigits(d)
    requires rest == [] || !IsDigit(rest[0])
    ensures SkipDigits(d + rest, 0) == |d|
  {
    var t := d + rest;
    assert forall k :: 0 <= k < |d| ==> t[k] == d[k];
    assert |d| < |t| ==> t[|d|] == rest[0];
    SkipDigitsAt(t, 0, |d|);
  }

  /** Text without a single digit parses to NaN. */
  lemma ParseIntNoDigits(s: string)
    requires forall k :: 0 <= k < |s| ==> !IsDigit(s[k])
    ensures ParseInt(s).None?
  {
  }
}

/** The POSIX local-printer reader: parsing the text `lpstat -p -d` prints
    into printer records, marking the system default destination. */
module Lpstat {
  import opened Wrappers
  import opened Text
  import Seqs

  /** One `printer ...` line. `isDefault` stands for the `default: true`
      key, which is set only on the default destination and absent
      otherwise. */
  datatype LpstatPrinter = LpstatPrinter(name: string, raw: string, description: string, isDefault: bool)

  /** What one trimmed line of output contributes. */
  datatype LineKind =
    | PrinterLine(name: string, description: string)
    | DefaultLine(destination: string)
    | OtherLine

  const PrinterPrefix: string := "printer "
  const DefaultPrefix: string := "system default destination:"

  /** The regular expression `^printer\s+([^\s]+)\s+(.*)$` and its two
      groups. Its match is unique: the name is the whole non-space run after
      the first white-space run, and the description is everything after
      the white-space run that follows; `.` refuses line terminators, so a
      description holding one makes the match fail. */
  function MatchPrinter(line: string): (m: Option<(string, string)>)
    ensures m.Some? ==> |m.value.0| > 0 && NoSpace(m.value.0)
    ensures m.Some? ==> NoLineTerminator(m.value.1) && (m.value.1 == [] || !IsSpace(m.value.1[0]))
  {
    if !StartsWith(line, "printer") then None
    else
      var b := SkipSpace(line, 7);
      var c := SkipNonSpace(line, b);
      var d := SkipSpace(line, c);
      if b == 7 || c == b || d == c || !NoLineTerminator(line[d..]) then None
      else
        assert forall k :: 0 <= k < c - b ==> line[b..c][k] == line[b + k];
        Some((line[b..c], line[d..]))
  }

  /** Every line made of "printer", white space, a non-space name, white
      space and a description matches exactly when the description has no
      line terminator, and its groups are that name and that description.
      `MatchPrinterOnlyLanguage` states the converse. */
  lemma MatchPrinterLanguage(w1: string, name: string, w2: string, desc: string)
    requires |w1| > 0 && AllSpace(w1)
    requires |name| > 0 && NoSpace(name)
    requires |w2| > 0 && AllSpace(w2)
    requires desc == [] || !IsSpace(desc[0])
    ensures MatchPrinter("printer" + w1 + name + w2 + desc)
         == if NoLineTerminator(desc) then Some((name, desc)) else None
  {
    PrinterLineHead(w1, name, w2, desc);
    PrinterLineName(w1, name, w2, desc);
    PrinterLineTail(w1, name, w2, desc);
  }

  /** Only such lines match: a matching line is "printer", a white-space
      run, the name group, a white-space run and the description group. */
  lemma MatchPrinterOnlyLanguage(line: string)
    ensures MatchPrinter(line).Some? ==>
      var name, desc := MatchPrinter(line).value.0, MatchPrinter(line).value.1;
      exists w1, w2 :: && |w1| > 0 && AllSpace(w1) && |w2| > 0 && AllSpace(w2)
                       && line == "printer" + w1 + name + w2 + desc
  {
    if MatchPrinter(line).Some? {
      var b := SkipSpace(line, 7);
      var c := SkipNonSpace(line, b);
      var d := SkipSpace(line, c);
      var w1, w2 := line[7..b], line[c..d];
      assert AllSpace(w1) && AllSpace(w2);
      assert line == line[..7] + w1 + line[b..c] + w2 + line[d..];
    }
  }

  /** The keyword, then the first white-space run. */
  lemma PrinterLineHead(w1: string, name: string, w2: string, desc: string)
    requires AllSpace(w1) && |name| > 0 && NoSpace(name)
    ensures var line := "printer" + w1 + name + w2 + desc;
      StartsWith(line, "printer") && SkipSpace(line, 7) == 7 + |w1|
  {
    var line := "printer" + w1 + name + w2 + desc;
    assert line[..7] == "printer";
    assert line[7..] == w1 + (name + w2 + desc);
    SkipSpaceOver(line, 7, w1, name + w2 + desc);
  }

  /** The name group: the non-space run after the first white-space run. */
  lemma PrinterLineName(w1: string, name: string, w2: string, desc: string)
    requires NoSpace(name) && |w2| > 0 && AllSpace(w2)
    ensures var line := "printer" + w1 + name + w2 + desc;
      var b := 7 + |w1|;
      SkipNonSpace(line, b) == b + |name| && line[b..b + |name|] == name
  {
    var line := "printer" + w1 + name + w2 + desc;
    var b := 7 + |w1|;
    assert line[b..] == name + (w2 + desc);
    SkipNonSpaceOver(line, b, name, w2 + desc);
    assert line[b..b + |name|] == line[b..][..|name|];
  }

  /** The second white-space run, then the description group. */
  lemma PrinterLineTail(w1: string, name: string, w2: string, desc: string)
    requires AllSpace(w2) && (desc == [] || !IsSpace(desc[0]))
    ensures var line := "printer" + w1 + name + w2 + desc;
      var c := 7 + |w1| + |name|;
      SkipSpace(line, c) == c + |w2| && line[c + |w2|..] == desc
  {
    var line := "printer" + w1 + name + w2 + desc;
    var c := 7 + |w1| + |name|;
    assert line[c..] == w2 + desc;
    SkipSpaceOver(line, c, w2, desc);
  }

  /** A `printer` line with a name but no description, such as
      "printer HP", does not match. */
  lemma MatchPrinterNeedsDescription(w1: string, name: string)
    requires AllSpace(w1)
    requires NoSpace(name)
    ensures MatchPrinter("printer" + w1 + name).None?
  {
    var line := "printer" + w1 + name;
    var b := 7 + |w1|;
    assert line[..7] == "printer";
    assert forall k :: 7 <= k < b ==> line[k] == w1[k - 7];
    assert forall k :: b <= k < |line| ==> line[k] == name[k - b];
    SkipSpaceAt(line, 7, b);
    SkipNonSpaceAt(line, b, |line|);
  }

  /** `line.split(':', 2)[1].trim()`: the text between the first and the
      second colon, trimmed. */
  function DestinationOf(line: string): string
    requires ':' in line
  {
    Trim(Split(line, ':')[1])
  }

  /** The destination named on a `system default destination:` line is the
      trimmed text after the prefix, up to any further colon. */
  lemma DestinationOfLine(v: string, rest: string)
    requires ':' !in v
    requires rest == [] || rest[0] == ':'
    ensures DestinationOf(DefaultPrefix + v + rest) == Trim(v)
  {
    DefaultPrefixEndsInColon();
    SplitSecond("system default destination", ':', v, rest);
  }

  lemma DefaultPrefixEndsInColon()
    ensures DefaultPrefix == "system default destination" + [':']
    ensures ':' !in "system default destination"
  {
  }

  /** A destination whose name holds a colon is cut at that colon: the
      default line for "a:b" names "a". */
  lemma DestinationCutAtColon(a: string, b: string)
    requires |a| > 0 && NoSpace(a) && ':' !in a
    requires ':' !in b
    ensures DestinationOf(DefaultPrefix + " " + (a + ":" + b)) == a
  {
    var v := " " + a;
    assert ':' !in v;
    DestinationOfLine(v, ":" + b);
    assert DefaultPrefix + v + (":" + b) == DefaultPrefix + " " + (a + ":" + b);
    TrimAfterSpace(a);
  }

  /** One leading space is trimmed off a name. */
  lemma TrimAfterSpace(a: string)
    requires |a| > 0 && NoSpace(a)
    ensures Trim(" " + a) == a
  {
    TrimOfPadded(" ", a, "");
    assert " " + a + "" == " " + a;
  }

  /** The evidently intended reading of a default line: everything after
      the first colon, trimmed, so that a destination may hold colons. */
  function DestinationAfterColon(line: string): string
    requires ':' in line
  {
    var i := Find(line, ':', 0);
    assert line[i] == ':' by { FindFound(line, ':'); }
    Trim(line[i + 1..])
  }

  /** The intended reading returns the whole trimmed text after the
      prefix, colons included; where that text has no colon it agrees
      with `split(':', 2)[1].trim()`. */
  lemma DestinationAfterColonOfLine(v: string)
    ensures DestinationAfterColon(DefaultPrefix + v) == Trim(v)
    ensures ':' !in v ==> DestinationAfterColon(DefaultPrefix + v) == DestinationOf(DefaultPrefix + v)
  {
    DefaultPrefixEndsInColon();
    var p := "system default destination";
    FindAfter(p, ':', v);
    assert (p + [':'] + v)[|p| + 1..] == v;
    if ':' !in v {
      DestinationOfLine(v, []);
      assert DefaultPrefix + v + [] == DefaultPrefix + v;
    }
  }

  /** What a line contributes, after trimming; mirrors the branches of the
      per-line callback. */
  function Classify(line: string): LineKind {
    if line == [] then OtherLine
    else if StartsWith(line, PrinterPrefix) then
      match MatchPrinter(line)
      case Some(m) => PrinterLine(m.0, m.1)
      case None => OtherLine
    else if StartsWith(line, DefaultPrefix) then
      assert line[26] == DefaultPrefix[26];
      DefaultLine(DestinationOf(line))
    else OtherLine
  }

  /** The record a raw output line yields, if any. */
  function RecordOf(line: string): Option<LpstatPrinter> {
    var t := Trim(line);
    match Classify(t)
    case PrinterLine(n, d) => Some(LpstatPrinter(n, t, d, false))
    case _ => None
  }

  /** The destination a raw output line names, if it is a default line. */
  function DestinationLineOf(line: string): Option<string> {
    match Classify(Trim(line))
    case DefaultLine(v) => Some(v)
    case _ => None
  }

  /** The value of the last `system default destination:` line. */
  function LastDestination(lines: seq<string>): Option<string> {
    var vs := Seqs.FilterMap(lines, DestinationLineOf);
    if |vs| == 0 then None else Some(vs[|vs| - 1])
  }

  /** Sets `default` on the printers whose name is `destination`, when the
      destination is a non-empty string; nothing else changes. */
  function MarkDefault(printers: seq<LpstatPrinter>, destination: Option<string>): (r: seq<LpstatPrinter>)
    ensures |r| == |printers|
    ensures forall i :: 0 <= i < |r| ==> r[i].(isDefault := printers[i].isDefault) == printers[i]
  {
    if destination.Some? && destination.value != "" then
      seq(|printers|, i requires 0 <= i < |printers| =>
        if printers[i].name == destination.value then printers[i].(isDefault := true) else printers[i])
    else printers
  }

  /** `parseLpstat(output)`. */
  function ParseLpstat(output: string): seq<LpstatPrinter> {
    var lines := SplitLines(output);
    MarkDefault(Seqs.FilterMap(lines, RecordOf), LastDestination(lines))
  }

  /** One record per `printer` line that matches, in line order; its raw
      text is the trimmed line and its name and description are the
      regex's groups. Blank lines, default lines and any other line yield no
      record. */
  lemma {:induction false} ParseLpstatRecords(output: string)
    ensures var lines := SplitLines(output);
      var r := ParseLpstat(output);
      var hits := Seqs.Hits(lines, RecordOf);
      && |r| == |hits|
      && (forall i, i' :: 0 <= i < i' < |hits| ==> hits[i] < hits[i'])
      && (forall i :: 0 <= i < |r| ==>
            && hits[i] < |lines|
            && r[i].raw == Trim(lines[hits[i]])
            && Classify(r[i].raw) == PrinterLine(r[i].name, r[i].description))
      && (forall j :: 0 <= j < |lines| ==> (Classify(Trim(lines[j])).PrinterLine? <==> j in hits))
  {
    var lines := SplitLines(output);
    var plain := Seqs.FilterMap(lines, RecordOf);
    RecordsOf(lines);
    var r := ParseLpstat(output);
    assert r == MarkDefault(plain, LastDestination(lines));
    forall i | 0 <= i < |r|
      ensures r[i].raw == plain[i].raw && r[i].name == plain[i].name && r[i].description == plain[i].description
    {
      assert r[i].(isDefault := plain[i].isDefault) == plain[i];
    }
  }

  /** Which lines yield a record, and what the record holds. */
  lemma RecordLine(line: string)
    ensures RecordOf(line).Some? <==> Classify(Trim(line)).PrinterLine?
    ensures RecordOf(line).Some? ==>
      var p := RecordOf(line).value;
      p.raw == Trim(line) && Classify(p.raw) == PrinterLine(p.name, p.description) && !p.isDefault
  {
  }

  /** The records before the default is marked. */
  lemma {:induction false} RecordsOf(lines: seq<string>)
    ensures var plain := Seqs.FilterMap(lines, RecordOf);
      var hits := Seqs.Hits(lines, RecordOf);
      && |plain| == |hits|
      && (forall i, i' :: 0 <= i < i' < |hits| ==> hits[i] < hits[i'])
      && (forall i :: 0 <= i < |plain| ==>
            && hits[i] < |lines|
            && plain[i].raw == Trim(lines[hits[i]])
            && Classify(plain[i].raw) == PrinterLine(plain[i].name, plain[i].description)
            && !plain[i].isDefault)
      && (forall j :: 0 <= j < |lines| ==> (Classify(Trim(lines[j])).PrinterLine? <==> j in hits))
  {
    Seqs.FilterMapHits(lines, RecordOf);
    var hits := Seqs.Hits(lines, RecordOf);
    var plain := Seqs.FilterMap(lines, RecordOf);
    forall i | 0 <= i < |plain|
      ensures && hits[i] < |lines|
              && plain[i].raw == Trim(lines[hits[i]])
              && Classify(plain[i].raw) == PrinterLine(plain[i].name, plain[i].description)
              && !plain[i].isDefault
    {
      RecordLine(lines[hits[i]]);
    }
    forall j | 0 <= j < |lines|
      ensures Classify(Trim(lines[j])).PrinterLine? <==> j in hits
    {
      RecordLine(lines[j]);
    }
  }

  /** Line `j` is a default line naming `v`, and no later line is a default
      line. */
  predicate LastDefaultLine(lines: seq<string>, j: nat, v: string)
    requires j < |lines|
  {
    && Classify(Trim(lines[j])) == DefaultLine(v)
    && forall k :: j < k < |lines| ==> !Classify(Trim(lines[k])).DefaultLine?
  }

  /** The last default line decides: `LastDestination` is None exactly when
      there is no default line, and otherwise the value of a default line
      after which no other default line follows. */
  lemma {:induction false} LastDestinationIsLast(lines: seq<string>)
    ensures LastDestination(lines).None? <==>
      forall j :: 0 <= j < |lines| ==> !Classify(Trim(lines[j])).DefaultLine?
    ensures LastDestination(lines).Some? ==>
      exists j :: 0 <= j < |lines| && LastDefaultLine(lines, j, LastDestination(lines).value)
  {
    LastDestinationNone(lines);
    LastDestinationWitness(lines);
  }

  lemma DefaultLineOf(line: string)
    ensures Classify(Trim(line)).DefaultLine? <==> DestinationLineOf(line).Some?
    ensures DestinationLineOf(line).Some? ==> Classify(Trim(line)) == DefaultLine(DestinationLineOf(line).value)
  {
  }

  lemma {:induction false} LastDestinationNone(lines: seq<string>)
    ensures LastDestination(lines).None? <==>
      forall j :: 0 <= j < |lines| ==> !Classify(Trim(lines[j])).DefaultLine?
  {
    Seqs.FilterMapLast(lines, DestinationLineOf);
    forall j | 0 <= j < |lines|
      ensures Classify(Trim(lines[j])).DefaultLine? <==> DestinationLineOf(lines[j]).Some?
    {
      DefaultLineOf(lines[j]);
    }
  }

  lemma {:induction false} LastDestinationWitness(lines: seq<string>)
    ensures LastDestination(lines).Some? ==>
      exists j :: 0 <= j < |lines| && LastDefaultLine(lines, j, LastDestination(lines).value)
  {
    if LastDestination(lines).Some? {
      var j := LastDestinationAt(lines);
      LastDefaultLineHolds(lines, j, LastDestination(lines).value);
    }
  }

  /** The position of the line the last destination comes from. */
  lemma LastDestinationAt(lines: seq<string>) returns (j: nat)
    requires LastDestination(lines).Some?
    ensures j < |lines| && DestinationLineOf(lines[j]) == LastDestination(lines)
    ensures forall k :: j < k < |lines| ==> DestinationLineOf(lines[k]).None?
  {
    j := Seqs.FilterMapLastAt(lines, DestinationLineOf);
  }

  lemma LastDefaultLineHolds(lines: seq<string>, j: nat, v: string)
    requires j < |lines| && DestinationLineOf(lines[j]) == Some(v)
    requires forall k :: j < k < |lines| ==> DestinationLineOf(lines[k]).None?
    ensures LastDefaultLine(lines, j, v)
  {
    DefaultLineOf(lines[j]);
    forall k | j < k < |lines|
      ensures !Classify(Trim(lines[k])).DefaultLine?
    {
      DefaultLineOf(lines[k]);
    }
  }

  /** `default` is set on exactly the records named like the last default
      destination, provided it is non-empty; with no default line no record
      is marked; nothing else about any record changes. */
  lemma {:induction false} ParseLpstatDefault(output: string)
    ensures var lines := SplitLines(output);
      var r := ParseLpstat(output);
      var plain := Seqs.FilterMap(lines, RecordOf);
      var d := LastDestination(lines);
      && |r| == |plain|
      && (forall i :: 0 <= i < |r| ==> r[i].(isDefault := false) == plain[i])
      && (forall i :: 0 <= i < |r| ==> (r[i].isDefault <==> d.Some? && d.value != "" && r[i].name == d.value))
  {
    RecordsOf(SplitLines(output));
  }
}

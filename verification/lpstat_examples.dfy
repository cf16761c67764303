/** The typical output of `lpstat -p -d`, one `printer` line followed by the
    default destination naming that printer, parsed end to end; and the
    same output for a printer whose name holds a colon. */
module LpstatExamples {
  import opened Wrappers
  import opened Text
  import opened Lpstat
  import Seqs

  /** The `printer` line for `name` with status text `desc`. */
  function PrinterLineText(name: string, desc: string): string {
    "printer " + name + " " + desc
  }

  /** The default-destination line naming `name`. */
  function DefaultLineText(name: string): string {
    DefaultPrefix + " " + name
  }

  /** A printer name and status text as `lpstat` lists them. */
  predicate Listed(name: string, desc: string) {
    && |name| > 0 && NoSpace(name)
    && |desc| > 0 && Tight(desc) && NoLineTerminator(desc)
  }

  /** A listed printer whose name holds no colon. */
  predicate WellFormed(name: string, desc: string) {
    Listed(name, desc) && ':' !in name
  }

  lemma JoinThree(l0: string, l1: string)
    ensures Text.Join([l0, l1, ""], "\n") == l0 + "\n" + l1 + "\n"
  {
    assert [l1, ""][1..] == [""];
    assert Text.Join([l1, ""], "\n") == l1 + "\n" + "";
    assert [l0, l1, ""][1..] == [l1, ""];
  }

  /** Two lines, each ended by a line feed, split into those two lines and
      the empty text after the last line feed. */
  lemma LinesOfTwo(l0: string, l1: string)
    requires '\n' !in l0 && '\n' !in l1 && !EndsWithCr(l0) && !EndsWithCr(l1)
    ensures SplitLines(l0 + "\n" + l1 + "\n") == [l0, l1, ""]
  {
    JoinThree(l0, l1);
    SplitLinesJoin([l0, l1, ""], "\n");
  }

  lemma PrinterLineIsTrimmed(name: string, desc: string)
    requires Listed(name, desc)
    ensures Trim(PrinterLineText(name, desc)) == PrinterLineText(name, desc)
  {
    var l := PrinterLineText(name, desc);
    assert l[0] == 'p';
    assert l[|l| - 1] == desc[|desc| - 1];
    TrimOfPadded("", l, "");
    assert "" + l + "" == l;
  }

  lemma PrinterLineMatches(name: string, desc: string)
    requires Listed(name, desc)
    ensures Classify(PrinterLineText(name, desc)) == PrinterLine(name, desc)
  {
    var l := PrinterLineText(name, desc);
    assert l == "printer" + " " + name + " " + desc;
    MatchPrinterLanguage(" ", name, " ", desc);
    assert l[..|PrinterPrefix|] == PrinterPrefix;
  }

  lemma DefaultLineIsTrimmed(name: string)
    requires |name| > 0 && NoSpace(name)
    ensures Trim(DefaultLineText(name)) == DefaultLineText(name)
  {
    var l := DefaultLineText(name);
    assert l[0] == 's';
    assert l[|l| - 1] == name[|name| - 1];
    TrimOfPadded("", l, "");
    assert "" + l + "" == l;
  }

  lemma DefaultLineDestination(name: string)
    requires |name| > 0 && NoSpace(name) && ':' !in name
    ensures DestinationOf(DefaultLineText(name)) == name
  {
    var v := " " + name;
    assert ':' !in v;
    DestinationOfLine(v, "");
    assert DefaultPrefix + v + "" == DefaultLineText(name);
    TrimAfterSpace(name);
  }

  lemma DefaultLineNames(name: string)
    requires |name| > 0 && NoSpace(name)
    ensures ':' in DefaultLineText(name)
    ensures Classify(DefaultLineText(name)) == DefaultLine(DestinationOf(DefaultLineText(name)))
  {
    var l := DefaultLineText(name);
    assert l[26] == ':';
    assert l[0] != PrinterPrefix[0];
    assert l[..|DefaultPrefix|] == DefaultPrefix;
  }

  lemma RecordsOfTwo(name: string, desc: string)
    requires Listed(name, desc)
    ensures var l0, l1 := PrinterLineText(name, desc), DefaultLineText(name);
      Seqs.FilterMap([l0, l1, ""], RecordOf) == [LpstatPrinter(name, l0, desc, false)]
  {
    var l0, l1 := PrinterLineText(name, desc), DefaultLineText(name);
    PrinterLineIsTrimmed(name, desc);
    PrinterLineMatches(name, desc);
    DefaultLineIsTrimmed(name);
    DefaultLineNames(name);
    assert Trim("") == "";
    assert RecordOf("") == None;
    assert RecordOf(l1) == None;
    assert RecordOf(l0) == Some(LpstatPrinter(name, l0, desc, false));
    Seqs.FilterMapAppend([l0, l1], [""], RecordOf);
    Seqs.FilterMapAppend([l0], [l1], RecordOf);
    assert [l0, l1] + [""] == [l0, l1, ""];
    assert [l0] + [l1] == [l0, l1];
  }

  lemma DestinationOfTwo(name: string, desc: string)
    requires Listed(name, desc)
    ensures var l0, l1 := PrinterLineText(name, desc), DefaultLineText(name);
      ':' in l1 && LastDestination([l0, l1, ""]) == Some(DestinationOf(l1))
  {
    var l0, l1 := PrinterLineText(name, desc), DefaultLineText(name);
    PrinterLineIsTrimmed(name, desc);
    PrinterLineMatches(name, desc);
    DefaultLineIsTrimmed(name);
    DefaultLineNames(name);
    assert Trim("") == "";
    assert DestinationLineOf("") == None;
    assert DestinationLineOf(l1) == Some(DestinationOf(l1));
    assert DestinationLineOf(l0) == None;
    Seqs.FilterMapAppend([l0, l1], [""], DestinationLineOf);
    Seqs.FilterMapAppend([l0], [l1], DestinationLineOf);
    assert [l0, l1] + [""] == [l0, l1, ""];
    assert [l0] + [l1] == [l0, l1];
  }

  /** A printer line followed by a default line for the same name, each
      ended by a line feed, yields exactly one record: that printer, its
      trimmed line as raw text, its status text as description, marked as
      the default exactly when the default line's destination is its name. */
  lemma ParseLpstatTwoLines(name: string, desc: string)
    requires Listed(name, desc)
    ensures var l1 := DefaultLineText(name);
      ':' in l1
      && ParseLpstat(PrinterLineText(name, desc) + "\n" + l1 + "\n")
         == [LpstatPrinter(name, PrinterLineText(name, desc), desc, DestinationOf(l1) == name)]
  {
    var l0, l1 := PrinterLineText(name, desc), DefaultLineText(name);
    TwoLinesText(name, desc);
    RecordsOfTwo(name, desc);
    DestinationOfTwo(name, desc);
    var p := LpstatPrinter(name, l0, desc, false);
    assert ParseLpstat(l0 + "\n" + l1 + "\n") == MarkDefault([p], Some(DestinationOf(l1)));
    MarkOne(p, DestinationOf(l1));
  }

  /** The text of the two lines splits into them and an empty last line. */
  lemma TwoLinesText(name: string, desc: string)
    requires Listed(name, desc)
    ensures var l0, l1 := PrinterLineText(name, desc), DefaultLineText(name);
      SplitLines(l0 + "\n" + l1 + "\n") == [l0, l1, ""]
  {
    var l0, l1 := PrinterLineText(name, desc), DefaultLineText(name);
    assert '\n' !in l0 && !EndsWithCr(l0) by {
      assert forall k :: 0 <= k < |desc| ==> l0[|l0| - |desc| + k] == desc[k];
      assert l0[|l0| - 1] == desc[|desc| - 1];
    }
    assert '\n' !in l1 && !EndsWithCr(l1) by {
      assert l1[|l1| - 1] == name[|name| - 1];
    }
    LinesOfTwo(l0, l1);
  }

  /** Marking a single unmarked record. */
  lemma MarkOne(p: LpstatPrinter, d: string)
    requires !p.isDefault
    ensures MarkDefault([p], Some(d)) == [p.(isDefault := d != "" && p.name == d)]
  {
  }

  /** A printer line followed by the default destination naming the same
      printer, each ended by a line feed, yields exactly one record: that
      printer, its trimmed line as raw text, its status text as description,
      and marked as the default. */
  lemma ParseLpstatSingleDefault(name: string, desc: string)
    requires WellFormed(name, desc)
    ensures ParseLpstat(PrinterLineText(name, desc) + "\n" + DefaultLineText(name) + "\n")
         == [LpstatPrinter(name, PrinterLineText(name, desc), desc, true)]
  {
    ParseLpstatTwoLines(name, desc);
    DefaultLineDestination(name);
  }

  /** As written, the same output for the printer "a:b" marks no printer
      as the default: the default line is cut at its second colon and
      names "a". */
  lemma ParseLpstatColonName(a: string, b: string, desc: string)
    requires |a| > 0 && ':' !in a && ':' !in b
    requires Listed(a + ":" + b, desc)
    ensures ParseLpstat(PrinterLineText(a + ":" + b, desc) + "\n" + DefaultLineText(a + ":" + b) + "\n")
         == [LpstatPrinter(a + ":" + b, PrinterLineText(a + ":" + b, desc), desc, false)]
  {
    var name := a + ":" + b;
    ColonNameDestination(a, b);
    assert |a| < |name|;
    ParseLpstatTwoLines(name, desc);
  }

  lemma NoSpacePrefix(a: string, rest: string)
    requires NoSpace(a + rest)
    ensures NoSpace(a)
  {
    assert forall k :: 0 <= k < |a| ==> a[k] == (a + rest)[k];
  }

  /** The default line for "a:b" names "a". */
  lemma ColonNameDestination(a: string, b: string)
    requires |a| > 0 && ':' !in a && ':' !in b
    requires NoSpace(a + ":" + b)
    ensures DestinationOf(DefaultLineText(a + ":" + b)) == a
  {
    var name := a + ":" + b;
    assert name == a + (":" + b);
    NoSpacePrefix(a, ":" + b);
    DestinationCutAtColon(a, b);
  }

  /** Read after the first colon, the default line names the whole
      printer name, colons included. */
  lemma DefaultLineIntended(name: string)
    requires |name| > 0 && NoSpace(name)
    ensures DestinationAfterColon(DefaultLineText(name)) == name
  {
    var v := " " + name;
    assert DefaultLineText(name) == DefaultPrefix + v;
    DestinationAfterColonOfLine(v);
    TrimAfterSpace(name);
  }
}

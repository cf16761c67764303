/** The Windows local-printer reader: normalising the JSON the PowerShell
    printer query prints, and the CSV rows of the older `wmic` query it
    falls back to. */
module Windows {
  import opened Wrappers
  import opened Text
  import opened Json
  import Seqs

  /** One printer from the PowerShell query; each field is the value read
      from the JSON (None is `undefined`), and `status` is None when the key
      is absent. */
  datatype WinPrinter = WinPrinter(name: Option<Value>, share: Option<Value>, port: Option<Value>, status: Option<Value>)

  /** `d.Name || d.name`. */
  function NameOf(d: Value): Option<Value> {
    Or(Member(d, "Name"), Member(d, "name"))
  }

  /** The record for one element of a JSON array. */
  function ArrayEntry(d: Value): WinPrinter {
    WinPrinter(NameOf(d), Member(d, "ShareName"), Member(d, "PortName"), Or(Member(d, "PrinterStatus"), Some(JNull)))
  }

  /** The record for a JSON document that is a single object. */
  function ObjectEntry(d: Value): WinPrinter {
    WinPrinter(NameOf(d), Member(d, "ShareName"), Member(d, "PortName"), None)
  }

  /** The shape normalisation inside the `try`. None is the TypeError
      thrown when an array element is `null` (reading `d.Name` of null);
      the caller turns it into an empty list. */
  function FromJson(data: Value): (r: Option<seq<WinPrinter>>)
    ensures data.JArray? ==> (r.None? <==> JNull in data.items)
    ensures data.JArray? && r.Some? ==> |r.value| == |data.items|
    ensures data.JObject? ==> r.Some? && |r.value| == 1
    ensures !data.JArray? && !data.JObject? ==> r == Some([])
  {
    match data
    case JArray(items) =>
      if JNull in items then None
      else Some(seq(|items|, i requires 0 <= i < |items| => ArrayEntry(items[i])))
    case JObject(_) => Some([ObjectEntry(data)])
    case _ => Some([])
  }

  /** Each element of an array without nulls yields the record at its own
      position: named by its `Name` when that is truthy and by its `name`
      otherwise, carrying its `ShareName` and `PortName`, and a status that
      is its `PrinterStatus` when truthy and null otherwise. */
  lemma FromJsonArray(items: seq<Value>)
    requires JNull !in items
    ensures var r := FromJson(JArray(items));
      && r.Some? && |r.value| == |items|
      && forall i :: 0 <= i < |items| ==>
           && r.value[i].name == (if Truthy(Member(items[i], "Name")) then Member(items[i], "Name") else Member(items[i], "name"))
           && r.value[i].share == Member(items[i], "ShareName")
           && r.value[i].port == Member(items[i], "PortName")
           && r.value[i].status == (if Truthy(Member(items[i], "PrinterStatus")) then Member(items[i], "PrinterStatus") else Some(JNull))
  {
  }

  /** A single object is normalised as a one-element array holding it would
      be, except that its record has no `status` key. */
  lemma FromJsonObjectLikeSingleton(members: map<string, Value>)
    ensures var o := JObject(members);
      && FromJson(JArray([o])).Some?
      && FromJson(o) == Some([FromJson(JArray([o])).value[0].(status := None)])
  {
  }

  /** `NonEmpty` is `filter(Boolean)` on strings. */
  function NonEmpty(line: string): Option<string> {
    if line == "" then None else Some(line)
  }

  /** The name a CSV row of `wmic printer get Name /format:csv` yields: its
      second column, unless the row has fewer than two columns or is the
      header, whose second column is `Name`. */
  function WmicRow(line: string): Option<string> {
    var parts := Split(line, ',');
    if |parts| >= 2 && parts[1] != "Name" then Some(parts[1]) else None
  }

  /** The fallback loop: split into lines, drop empty ones, keep the names
      of qualifying rows. */
  function WmicNames(output: string): seq<string> {
    Seqs.FilterMap(Seqs.FilterMap(SplitLines(output), NonEmpty), WmicRow)
  }

  /** One name per non-empty line that has at least two columns and whose
      second column is not `Name`, in line order, and that name is the
      second column. */
  lemma {:induction false} WmicNamesRows(output: string)
    ensures var lines := SplitLines(output);
      var names := WmicNames(output);
      var hits := Seqs.Hits(lines, WmicRow);
      && |names| == |hits|
      && (forall i, i' :: 0 <= i < i' < |hits| ==> hits[i] < hits[i'])
      && (forall i :: 0 <= i < |names| ==> hits[i] < |lines| && names[i] == Split(lines[hits[i]], ',')[1])
      && (forall j :: 0 <= j < |lines| ==>
            (j in hits <==> lines[j] != "" && |Split(lines[j], ',')| >= 2 && Split(lines[j], ',')[1] != "Name"))
  {
    WmicNamesSkipEmpty(output);
    WmicRowsOf(SplitLines(output));
  }

  /** Dropping empty lines first does not change the names. */
  lemma WmicNamesSkipEmpty(output: string)
    ensures WmicNames(output) == Seqs.FilterMap(SplitLines(output), WmicRow)
  {
    WmicLine("");
    Seqs.FilterMapAfterFilter(SplitLines(output), NonEmpty, WmicRow);
  }

  /** Which lines yield a name, and which name. */
  lemma WmicLine(line: string)
    ensures WmicRow(line).Some? <==> line != "" && |Split(line, ',')| >= 2 && Split(line, ',')[1] != "Name"
    ensures WmicRow(line).Some? ==> WmicRow(line).value == Split(line, ',')[1]
  {
    if line == "" {
      FindNone("", ',');
    }
  }

  lemma {:induction false} WmicRowsOf(lines: seq<string>)
    ensures var names := Seqs.FilterMap(lines, WmicRow);
      var hits := Seqs.Hits(lines, WmicRow);
      && |names| == |hits|
      && (forall i, i' :: 0 <= i < i' < |hits| ==> hits[i] < hits[i'])
      && (forall i :: 0 <= i < |names| ==> hits[i] < |lines| && names[i] == Split(lines[hits[i]], ',')[1])
      && (forall j :: 0 <= j < |lines| ==>
            (j in hits <==> lines[j] != "" && |Split(lines[j], ',')| >= 2 && Split(lines[j], ',')[1] != "Name"))
  {
    Seqs.FilterMapHits(lines, WmicRow);
    var hits := Seqs.Hits(lines, WmicRow);
    var names := Seqs.FilterMap(lines, WmicRow);
    forall i | 0 <= i < |names|
      ensures hits[i] < |lines| && names[i] == Split(lines[hits[i]], ',')[1]
    {
      WmicLine(lines[hits[i]]);
    }
    forall j | 0 <= j < |lines|
      ensures j in hits <==> lines[j] != "" && |Split(lines[j], ',')| >= 2 && Split(lines[j], ',')[1] != "Name"
    {
      WmicLine(lines[j]);
    }
  }

  /** A row written from comma-free columns yields its second column,
      unless that column is `Name`. */
  lemma WmicRowOfColumns(columns: seq<string>)
    requires |columns| >= 2
    requires forall m :: 0 <= m < |columns| ==> ',' !in columns[m]
    ensures WmicRow(Join(columns, ",")) == if columns[1] == "Name" then None else Some(columns[1])
  {
    SplitJoin(columns, ',');
  }

  /** Lines are not trimmed, so a header that still carries a carriage
      return (a line ending in "\r\r\n") is not recognised and yields the
      name "Name\r". */
  lemma WmicHeaderWithCarriageReturn()
    ensures WmicRow("Node,Name\r") == Some("Name\r")
  {
    WmicRowOfColumns(["Node", "Name\r"]);
    assert Join(["Node", "Name\r"], ",") == "Node,Name\r";
  }

  /** The lines of `wmic ... /format:csv` output, which ends every line
      with "\r\r\n": a blank line, the header, one row per printer. */
  function WmicOutput(node: string, name: string): string {
    "\r\r\n" + "Node,Name\r\r\n" + node + "," + name + "\r\r\n"
  }

  lemma WmicOutputLines(node: string, name: string)
    requires '\n' !in node && '\n' !in name
    ensures SplitLines(WmicOutput(node, name)) == ["\r", "Node,Name\r", node + "," + name + "\r", ""]
  {
    var row := node + "," + name + "\r";
    var lines := ["\r", "Node,Name\r", row, ""];
    JoinFour("\r", "Node,Name\r", row, "", "\r\n");
    assert "\r" + "\r\n" + ("Node,Name\r" + "\r\n" + (row + "\r\n" + "")) == WmicOutput(node, name);
    assert '\n' !in row by {
      assert forall k :: 0 <= k < |row| ==> row[k] in node || row[k] == ',' || row[k] in name || row[k] == '\r';
    }
    SplitLinesJoin(lines, "\r\n");
  }

  lemma JoinFour(a: string, b: string, c: string, d: string, eol: string)
    ensures Join([a, b, c, d], eol) == a + eol + (b + eol + (c + eol + d))
  {
    assert [c, d][1..] == [d];
    assert Join([c, d], eol) == c + eol + d;
    assert [b, c, d][1..] == [c, d];
    assert Join([b, c, d], eol) == b + eol + (c + eol + d);
    assert [a, b, c, d][1..] == [b, c, d];
  }

  /** The rows of `WmicOutput` as a row reader sees them: the trailing
      empty line is dropped and the blank line yields nothing. */
  lemma KeptRows(row: string, read: string -> Option<string>)
    requires row != ""
    requires read("\r").None? && read(row).Some?
    ensures Seqs.FilterMap(Seqs.FilterMap(["\r", "Node,Name\r", row, ""], NonEmpty), read)
         == (match read("Node,Name\r") case Some(h) => [h] case None => []) + [read(row).value]
  {
    var kept := ["\r", "Node,Name\r", row];
    var lines := ["\r", "Node,Name\r", row, ""];
    assert lines[..3] == kept;
    assert lines[3] == "";
    assert Seqs.FilterMap(lines, NonEmpty) == Seqs.FilterMap(kept, NonEmpty);
    assert forall m :: 0 <= m < |kept| ==> kept[m] != "";
    Seqs.FilterMapEvery(kept, NonEmpty, kept);
    var head := match read("Node,Name\r") case Some(h) => [h] case None => [];
    assert kept[..2] == ["\r", "Node,Name\r"];
    assert kept[..2][..1] == ["\r"];
    assert kept[..2][..1][..0] == [];
    assert Seqs.FilterMap(kept[..2][..1], read) == [];
    assert Seqs.FilterMap(kept[..2], read) == head;
    assert Seqs.FilterMap(kept, read) == head + [read(row).value];
  }

  lemma BlankRow()
    ensures WmicRow("\r").None? && WmicRowClean("\r").None?
  {
    SplitWhole("\r", ',');
    assert DropCrs("\r") == DropCrs("");
    SplitWhole("", ',');
  }

  lemma HeaderRowClean()
    ensures WmicRowClean("Node,Name\r").None?
  {
    assert DropCrs("Node,Name\r") == "Node,Name" by {
      assert "Node,Name\r"[..9] == "Node,Name";
    }
    WmicRowOfColumns(["Node", "Name"]);
    assert Join(["Node", "Name"], ",") == "Node,Name";
  }

  lemma DataRow(node: string, name: string)
    requires ',' !in node && ',' !in name
    ensures WmicRow(node + "," + name + "\r") == Some(name + "\r")
  {
    var last := name + "\r";
    assert ',' !in last by {
      assert forall k :: 0 <= k < |last| ==> last[k] in name || last[k] == '\r';
    }
    assert last != "Name" by {
      if |last| == 4 {
        assert last[3] == '\r' && "Name"[3] == 'e';
      }
    }
    WmicRowOfColumns([node, last]);
    assert Join([node, last], ",") == node + "," + name + "\r";
  }

  lemma DataRowClean(node: string, name: string)
    requires ',' !in node && ',' !in name
    requires !EndsWithCr(name) && name != "Name"
    ensures WmicRowClean(node + "," + name + "\r") == Some(name)
  {
    var row := node + "," + name;
    WmicRowCleanIgnoresCr(row);
    assert !EndsWithCr(row) by {
      if name == "" {
        assert row[|row| - 1] == ',';
      } else {
        assert row[|row| - 1] == name[|name| - 1];
      }
    }
    WmicRowOfColumns([node, name]);
    assert Join([node, name], ",") == row;
  }

  /** Every name keeps the carriage return that `/\r?\n/` leaves behind,
      and the header comes back as a printer called "Name\r". */
  lemma WmicKeepsCarriageReturns(node: string, name: string)
    requires '\n' !in node && '\n' !in name && ',' !in node && ',' !in name
    ensures WmicNames(WmicOutput(node, name)) == ["Name\r", name + "\r"]
  {
    WmicOutputLines(node, name);
    WmicHeaderWithCarriageReturn();
    BlankRow();
    DataRow(node, name);
    KeptRows(node + "," + name + "\r", WmicRow);
  }

  /** Every trailing carriage return removed. */
  function DropCrs(s: string): (t: string)
    ensures !EndsWithCr(t)
    decreases |s|
  {
    if EndsWithCr(s) then DropCrs(s[..|s| - 1]) else s
  }

  /** The evidently intended row reading: the line without its trailing
      carriage returns. */
  function WmicRowClean(line: string): Option<string> {
    WmicRow(DropCrs(line))
  }

  /** The evidently intended fallback loop. */
  function WmicNamesClean(output: string): seq<string> {
    Seqs.FilterMap(Seqs.FilterMap(SplitLines(output), NonEmpty), WmicRowClean)
  }

  /** A trailing carriage return does not change what a row yields. */
  lemma WmicRowCleanIgnoresCr(line: string)
    ensures WmicRowClean(line + "\r") == WmicRowClean(line)
  {
    assert (line + "\r")[..|line|] == line;
  }

  /** On the same output the intended reading skips the header and keeps
      the printer name as written. */
  lemma WmicCleanNames(node: string, name: string)
    requires '\n' !in node && '\n' !in name && ',' !in node && ',' !in name
    requires !EndsWithCr(name) && name != "Name"
    ensures WmicNamesClean(WmicOutput(node, name)) == [name]
  {
    WmicOutputLines(node, name);
    BlankRow();
    HeaderRowClean();
    DataRowClean(node, name);
    KeptRows(node + "," + name + "\r", WmicRowClean);
  }
}

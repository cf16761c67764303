/** String primitives with the semantics of the JavaScript built-ins the
    printer parsers call: `String.prototype.trim`, the regex class `\s`,
    `String.prototype.split` with a one-character separator, and
    `split(/\r?\n/)`. Strings are sequences of Unicode code points. */
module Text {

  /** The code points JavaScript counts as WhiteSpace or LineTerminator:
      exactly what `trim` strips and what the regex class `\s` matches. */
  predicate IsSpace(c: char) {
    var n := c as int;
    || n == 0x09 || n == 0x0A || n == 0x0B || n == 0x0C || n == 0x0D || n == 0x20
    || n == 0xA0 || n == 0x1680 || 0x2000 <= n <= 0x200A
    || n == 0x2028 || n == 0x2029 || n == 0x202F || n == 0x205F
    || n == 0x3000 || n == 0xFEFF
  }

  /** The code points the regex `.` refuses to match. */
  predicate IsLineTerminator(c: char) {
    c == '\n' || c == '\r' || c as int == 0x2028 || c as int == 0x2029
  }

  predicate AllSpace(s: string) {
    forall k :: 0 <= k < |s| ==> IsSpace(s[k])
  }

  predicate NoSpace(s: string) {
    forall k :: 0 <= k < |s| ==> !IsSpace(s[k])
  }

  predicate NoLineTerminator(s: string) {
    forall k :: 0 <= k < |s| ==> !IsLineTerminator(s[k])
  }

  predicate StartsWith(s: string, prefix: string) {
    |prefix| <= |s| && s[..|prefix|] == prefix
  }

  /** Neither begins nor ends with white space. */
  predicate Tight(s: string) {
    s == [] || (!IsSpace(s[0]) && !IsSpace(s[|s| - 1]))
  }

  /** End of the white-space run that starts at `i`. */
  function SkipSpace(s: string, i: nat): (j: nat)
    requires i <= |s|
    ensures i <= j <= |s|
    ensures forall k :: i <= k < j ==> IsSpace(s[k])
    ensures j < |s| ==> !IsSpace(s[j])
    decreases |s| - i
  {
    if i == |s| || !IsSpace(s[i]) then i else SkipSpace(s, i + 1)
  }

  /** End of the run of non-white-space characters that starts at `i`. */
  function SkipNonSpace(s: string, i: nat): (j: nat)
    requires i <= |s|
    ensures i <= j <= |s|
    ensures forall k :: i <= k < j ==> !IsSpace(s[k])
    ensures j < |s| ==> IsSpace(s[j])
    decreases |s| - i
  {
    if i == |s| || IsSpace(s[i]) then i else SkipNonSpace(s, i + 1)
  }

  /** Start of the white-space run that ends at `j`. */
  function BackSpace(s: string, j: nat): (i: nat)
    requires j <= |s|
    ensures i <= j
    ensures forall k :: i <= k < j ==> IsSpace(s[k])
    ensures 0 < i ==> !IsSpace(s[i - 1])
  {
    if j == 0 || !IsSpace(s[j - 1]) then j else BackSpace(s, j - 1)
  }

  /** A white-space run is determined by where it starts and where it stops. */
  lemma SkipSpaceAt(s: string, i: nat, j: nat)
    requires i <= j <= |s|
    requires forall k :: i <= k < j ==> IsSpace(s[k])
    requires j < |s| ==> !IsSpace(s[j])
    ensures SkipSpace(s, i) == j
  {
  }

  lemma SkipNonSpaceAt(s: string, i: nat, j: nat)
    requires i <= j <= |s|
    requires forall k :: i <= k < j ==> !IsSpace(s[k])
    requires j < |s| ==> IsSpace(s[j])
    ensures SkipNonSpace(s, i) == j
  {
  }

  /** Where `s` continues with the white space `w` and then a non-space,
      the run of white space at `i` is exactly `w`. */
  lemma SkipSpaceOver(s: string, i: nat, w: string, rest: string)
    requires i <= |s| && s[i..] == w + rest
    requires AllSpace(w) && (rest == [] || !IsSpace(rest[0]))
    ensures SkipSpace(s, i) == i + |w|
  {
    assert forall k :: i <= k < i + |w| ==> s[k] == s[i..][k - i];
    if i + |w| < |s| {
      assert s[i + |w|] == s[i..][|w|];
    }
    SkipSpaceAt(s, i, i + |w|);
  }

  /** Where `s` continues with the non-space text `w` and then white space
      or its end, the run of non-space at `i` is exactly `w`. */
  lemma SkipNonSpaceOver(s: string, i: nat, w: string, rest: string)
    requires i <= |s| && s[i..] == w + rest
    requires NoSpace(w) && (rest == [] || IsSpace(rest[0]))
    ensures SkipNonSpace(s, i) == i + |w|
  {
    assert forall k :: i <= k < i + |w| ==> s[k] == s[i..][k - i];
    if i + |w| < |s| {
      assert s[i + |w|] == s[i..][|w|];
    }
    SkipNonSpaceAt(s, i, i + |w|);
  }

  /** `s.trim()`: the result is a slice of `s` that neither begins nor ends
      with white space, and everything cut away is white space. */
  function Trim(s: string): (t: string)
    ensures Tight(t)
    ensures |t| <= |s|
  {
    var lo := SkipSpace(s, 0);
    var hi := BackSpace(s, |s|);
    if lo < hi then s[lo..hi] else []
  }

  /** Trim is characterised by its input's decomposition: whatever text
      sits between two runs of white space and is itself tight is what
      Trim returns. */
  lemma {:induction false} TrimOfPadded(a: string, t: string, b: string)
    requires AllSpace(a) && AllSpace(b) && Tight(t)
    ensures Trim(a + t + b) == t
  {
    var s := a + t + b;
    if t == [] {
      assert s == a + b;
      PaddedBlank(a, b);
    } else {
      PaddedStart(a, t, b);
      PaddedEnd(a, t, b);
      assert s[|a|..|a| + |t|] == t;
    }
  }

  /** Padding alone is one white-space run. */
  lemma PaddedBlank(a: string, b: string)
    requires AllSpace(a) && AllSpace(b)
    ensures SkipSpace(a + b, 0) == |a + b|
  {
    var s := a + b;
    forall k | 0 <= k < |s|
      ensures IsSpace(s[k])
    {
      if k < |a| { assert s[k] == a[k]; } else { assert s[k] == b[k - |a|]; }
    }
    SkipSpaceAt(s, 0, |s|);
  }

  /** The leading white-space run of a padded text is the padding. */
  lemma PaddedStart(a: string, t: string, b: string)
    requires AllSpace(a) && t != [] && !IsSpace(t[0])
    ensures SkipSpace(a + t + b, 0) == |a|
  {
    var s := a + t + b;
    assert s[|a|] == t[0];
    assert forall k :: 0 <= k < |a| ==> s[k] == a[k];
    SkipSpaceAt(s, 0, |a|);
  }

  /** The trailing white-space run of a padded text is the padding. */
  lemma PaddedEnd(a: string, t: string, b: string)
    requires AllSpace(b) && t != [] && !IsSpace(t[|t| - 1])
    ensures BackSpace(a + t + b, |a + t + b|) == |a| + |t|
  {
    var s := a + t + b;
    assert s[|a| + |t| - 1] == t[|t| - 1];
    assert forall k :: |a| + |t| <= k < |s| ==> s[k] == b[k - |a| - |t|];
  }

  /** Trimming twice is trimming once. */
  lemma TrimIdempotent(s: string)
    ensures Trim(Trim(s)) == Trim(s)
  {
    TrimOfPadded([], Trim(s), []);
    assert [] + Trim(s) + [] == Trim(s);
  }

  /** Index of the first `c` at or after `i`, or `|s|` when there is none. */
  function Find(s: string, c: char, i: nat): (j: nat)
    requires i <= |s|
    ensures i <= j <= |s|
    ensures forall k :: i <= k < j ==> s[k] != c
    ensures j < |s| ==> s[j] == c
    decreases |s| - i
  {
    if i == |s| || s[i] == c then i else Find(s, c, i + 1)
  }

  /** The first occurrence of `c` in `p + [c] + r` is right after `p` when
      `p` does not contain `c`. */
  lemma FindAfter(p: string, c: char, r: string)
    requires c !in p
    ensures Find(p + [c] + r, c, 0) == |p|
  {
    var s := p + [c] + r;
    assert forall k :: 0 <= k < |p| ==> s[k] == p[k] && p[k] in p;
    assert s[|p|] == c;
  }

  lemma FindFound(s: string, c: char)
    requires c in s
    ensures Find(s, c, 0) < |s|
  {
    var k :| 0 <= k < |s| && s[k] == c;
  }

  lemma FindNone(s: string, c: char)
    requires c !in s
    ensures Find(s, c, 0) == |s|
  {
    assert forall k :: 0 <= k < |s| ==> s[k] in s;
  }

  /** `s.split(sep)` for a one-character separator: the pieces between
      separators, one more piece than there are separators. */
  function Split(s: string, sep: char): (parts: seq<string>)
    ensures |parts| >= 1
    ensures forall m :: 0 <= m < |parts| ==> sep !in parts[m]
    ensures sep in s <==> |parts| >= 2
    decreases |s|
  {
    var i := Find(s, sep, 0);
    if i == |s| then
      assert forall k :: 0 <= k < |s| ==> s[k] != sep;
      [s]
    else
      assert s[i] in s;
      [s[..i]] + Split(s[i + 1..], sep)
  }

  /** Text before the first separator is the first piece; the rest is
      split on its own. */
  lemma SplitFirst(p: string, sep: char, r: string)
    requires sep !in p
    ensures Split(p + [sep] + r, sep) == [p] + Split(r, sep)
  {
    var s := p + [sep] + r;
    FindAfter(p, sep, r);
    assert s[..|p|] == p;
    assert s[|p| + 1..] == r;
  }

  /** Text without the separator is a single piece. */
  lemma SplitWhole(s: string, sep: char)
    requires sep !in s
    ensures Split(s, sep) == [s]
  {
    FindNone(s, sep);
  }

  /** The first piece is the text before the first separator. */
  lemma SplitFirstPiece(v: string, sep: char, rest: string)
    requires sep !in v
    requires rest == [] || rest[0] == sep
    ensures Split(v + rest, sep)[0] == v
  {
    if rest == [] {
      assert v + rest == v;
      SplitWhole(v, sep);
    } else {
      var t := rest[1..];
      assert v + rest == v + [sep] + t;
      SplitFirst(v, sep, t);
    }
  }

  /** The second piece is the text between the first and the second
      separator. */
  lemma SplitSecond(p: string, sep: char, v: string, rest: string)
    requires sep !in p && sep !in v
    requires rest == [] || rest[0] == sep
    ensures |Split(p + [sep] + v + rest, sep)| >= 2
    ensures Split(p + [sep] + v + rest, sep)[1] == v
  {
    var tail := Split(v + rest, sep);
    assert p + [sep] + v + rest == p + [sep] + (v + rest);
    SplitFirst(p, sep, v + rest);
    assert Split(p + [sep] + v + rest, sep) == [p] + tail;
    SplitFirstPiece(v, sep, rest);
    assert tail[0] == v;
  }

  /** `parts.join(sep)`. */
  function Join(parts: seq<string>, sep: string): string
    decreases |parts|
  {
    if |parts| == 0 then []
    else if |parts| == 1 then parts[0]
    else parts[0] + sep + Join(parts[1..], sep)
  }

  /** Joining the pieces of a split with the separator restores the input. */
  lemma {:induction false} JoinSplit(s: string, sep: char)
    ensures Join(Split(s, sep), [sep]) == s
    decreases |s|
  {
    var i := Find(s, sep, 0);
    if i < |s| {
      var rest := Split(s[i + 1..], sep);
      JoinSplit(s[i + 1..], sep);
      assert Split(s, sep) == [s[..i]] + rest;
      assert ([s[..i]] + rest)[1..] == rest;
      assert s == s[..i] + [sep] + s[i + 1..];
    }
  }

  /** Splitting a join of separator-free pieces gives the pieces back. */
  lemma {:induction false} SplitJoin(parts: seq<string>, sep: char)
    requires |parts| >= 1
    requires forall m :: 0 <= m < |parts| ==> sep !in parts[m]
    ensures Split(Join(parts, [sep]), sep) == parts
    decreases |parts|
  {
    if |parts| == 1 {
      FindNone(parts[0], sep);
    } else {
      var p := parts[0];
      var r := Join(parts[1..], [sep]);
      var s := Join(parts, [sep]);
      assert s == p + [sep] + r;
      FindAfter(p, sep, r);
      assert s[..|p|] == p;
      assert s[|p| + 1..] == r;
      SplitJoin(parts[1..], sep);
      assert [p] + parts[1..] == parts;
    }
  }

  /** Drops one carriage return at the end of `s`. */
  function DropCr(s: string): string {
    if |s| > 0 && s[|s| - 1] == '\r' then s[..|s| - 1] else s
  }

  /** `s.split(/\r?\n/)`: split at every line feed, taking a carriage
      return right before it along with it. */
  function SplitLines(s: string): (lines: seq<string>)
    ensures |lines| >= 1
    ensures forall m :: 0 <= m < |lines| ==> '\n' !in lines[m]
    decreases |s|
  {
    var i := Find(s, '\n', 0);
    if i == |s| then
      assert forall k :: 0 <= k < |s| ==> s[k] != '\n';
      [s]
    else
      assert forall k :: 0 <= k < i ==> s[..i][k] != '\n';
      [DropCr(s[..i])] + SplitLines(s[i + 1..])
  }

  predicate EndsWithCr(s: string) {
    |s| > 0 && s[|s| - 1] == '\r'
  }

  /** Lines joined with "\r\n", or with "\n", split back into the same
      lines, provided no line holds a line feed; with "\n" a line other
      than the last must not end in a carriage return, which the split
      would take with the line feed. */
  lemma {:induction false} SplitLinesJoin(lines: seq<string>, eol: string)
    requires eol == "\n" || eol == "\r\n"
    requires |lines| >= 1
    requires forall m :: 0 <= m < |lines| ==> '\n' !in lines[m]
    requires eol == "\n" ==> forall m :: 0 <= m < |lines| - 1 ==> !EndsWithCr(lines[m])
    ensures SplitLines(Join(lines, eol)) == lines
    decreases |lines|
  {
    if |lines| == 1 {
      FindNone(lines[0], '\n');
    } else {
      var rest := lines[1..];
      LinesTail(lines, eol);
      SplitLinesJoin(rest, eol);
      SplitLinesCons(lines[0], eol, Join(rest, eol));
      assert [lines[0]] + rest == lines;
    }
  }

  /** The lines after the first still meet the conditions of `SplitLinesJoin`. */
  lemma LinesTail(lines: seq<string>, eol: string)
    requires |lines| >= 2
    requires forall m :: 0 <= m < |lines| ==> '\n' !in lines[m]
    requires eol == "\n" ==> forall m :: 0 <= m < |lines| - 1 ==> !EndsWithCr(lines[m])
    ensures forall m :: 0 <= m < |lines| - 1 ==> '\n' !in lines[1..][m]
    ensures eol == "\n" ==> forall m :: 0 <= m < |lines| - 2 ==> !EndsWithCr(lines[1..][m])
  {
    assert forall m :: 0 <= m < |lines| - 1 ==> lines[1..][m] == lines[m + 1];
  }

  /** One line and its terminator come off the front of the text. */
  lemma SplitLinesCons(p: string, eol: string, r: string)
    requires eol == "\n" || eol == "\r\n"
    requires '\n' !in p
    requires eol == "\n" ==> !EndsWithCr(p)
    ensures SplitLines(p + eol + r) == [p] + SplitLines(r)
  {
    var s := p + eol + r;
    var head := p + eol[..|eol| - 1];
    assert '\n' !in head;
    assert s == head + ['\n'] + r;
    FindAfter(head, '\n', r);
    assert s[..|head|] == head;
    assert DropCr(head) == p;
    assert s[|head| + 1..] == r;
  }

  /** `split(/\r?\n/)` on any text: the pieces between line feeds, each
      but the last with one trailing carriage return removed. */
  lemma {:induction false} SplitLinesPieces(s: string)
    ensures var ps, ls := Split(s, '\n'), SplitLines(s);
      && |ls| == |ps|
      && ls[|ls| - 1] == ps[|ps| - 1]
      && forall m :: 0 <= m < |ps| - 1 ==> ls[m] == DropCr(ps[m])
    decreases |s|
  {
    var i := Find(s, '\n', 0);
    if i < |s| {
      var t := s[i + 1..];
      SplitLinesPieces(t);
      var ps, ls := Split(s, '\n'), SplitLines(s);
      assert ps == [s[..i]] + Split(t, '\n');
      assert ls == [DropCr(s[..i])] + SplitLines(t);
    }
  }

  /** Without carriage returns, splitting into lines is splitting at "\n",
      so joining the lines with "\n" restores the text. */
  lemma {:induction false} SplitLinesWithoutCr(s: string)
    requires '\r' !in s
    ensures SplitLines(s) == Split(s, '\n')
    ensures Join(SplitLines(s), "\n") == s
    decreases |s|
  {
    var i := Find(s, '\n', 0);
    if i < |s| {
      assert '\r' !in s[i + 1..];
      SplitLinesWithoutCr(s[i + 1..]);
      if |s[..i]| > 0 {
        assert s[..i][i - 1] in s;
      }
      assert DropCr(s[..i]) == s[..i];
    }
    JoinSplit(s, '\n');
  }
}

/** Python's string methods, as far as NetWatcher's parsers use them. */
module Text {

  // str.isspace for one character.
  predicate IsSpace(c: char) {
    var n := c as int;
    9 <= n <= 13 || 28 <= n <= 32 || n == 0x85 || n == 0xA0 || n == 0x1680 || 0x2000 <= n <= 0x200A
    || n == 0x2028 || n == 0x2029 || n == 0x202F || n == 0x205F || n == 0x3000
  }

  // The characters at which str.splitlines breaks; each of them is white space.
  predicate IsLineBreak(c: char) {
    var n := c as int;
    10 <= n <= 13 || 28 <= n <= 30 || n == 0x85 || n == 0x2028 || n == 0x2029
  }

  ghost predicate OneLine(s: string) {
    forall c | c in s :: !IsLineBreak(c)
  }

  // ---------------------------------------------------------------- strip

  function LStrip(s: string): (r: string)
    ensures |r| <= |s| && r == s[|s| - |r|..]
    ensures r != "" ==> !IsSpace(r[0])
    ensures forall i | 0 <= i < |s| - |r| :: IsSpace(s[i])
  {
    if s != "" && IsSpace(s[0]) then LStrip(s[1..]) else s
  }

  function RStrip(s: string): (r: string)
    ensures |r| <= |s| && r == s[..|r|]
    ensures r != "" ==> !IsSpace(r[|r| - 1])
    ensures forall i | |r| <= i < |s| :: IsSpace(s[i])
  {
    if s != "" && IsSpace(s[|s| - 1]) then RStrip(s[..|s| - 1]) else s
  }

  function Strip(s: string): string {
    RStrip(LStrip(s))
  }

  predicate Stripped(s: string) {
    s == "" || (!IsSpace(s[0]) && !IsSpace(s[|s| - 1]))
  }

  lemma StripStrips(s: string)
    ensures Stripped(Strip(s))
    ensures forall c | c in Strip(s) :: c in s
  {
    hide LStrip, RStrip, IsSpace;
    var l := LStrip(s);
    var r := RStrip(l);
    if r != "" { assert r[0] == l[0]; }
    forall c | c in r ensures c in s {
      var i :| 0 <= i < |r| && r[i] == c;
      assert l[i] == c && s[|s| - |l| + i] == c;
    }
  }

  lemma StripFixes(s: string)
    ensures Strip(s) == s <==> Stripped(s)
  {
    StripStrips(s);
    if Stripped(s) && s != "" {
      assert LStrip(s) == s;
      assert RStrip(s) == s;
    }
  }

  lemma StripKeepsFirst(s: string)
    requires s != "" && !IsSpace(s[0])
    ensures Strip(s) != "" && Strip(s)[0] == s[0]
  {
    assert LStrip(s) == s;
  }

  ghost predicate AllSpace(s: string) {
    forall i | 0 <= i < |s| :: IsSpace(s[i])
  }

  // A text that ends in a visible character shields whatever precedes it from rstrip.
  lemma {:induction false} RStripAppend(a: string, b: string)
    requires a != "" && !IsSpace(a[|a| - 1])
    ensures RStrip(a + b) == a + RStrip(b)
  {
    if b == "" {
      assert a + b == a;
    } else {
      assert (a + b)[..|a + b| - 1] == a + b[..|b| - 1];
      if IsSpace(b[|b| - 1]) {
        RStripAppend(a, b[..|b| - 1]);
      }
    }
  }

  lemma {:induction false} RStripCons(c: char, t: string)
    ensures RStrip([c] + t) == if RStrip(t) == "" && IsSpace(c) then "" else [c] + RStrip(t)
  {
    var s := [c] + t;
    if t == "" {
      assert s == [c];
      assert s[..0] == "";
    } else {
      assert s[..|s| - 1] == [c] + t[..|t| - 1];
      if IsSpace(t[|t| - 1]) {
        RStripCons(c, t[..|t| - 1]);
      }
    }
  }

  /** The two sides can be stripped in either order. */
  lemma {:induction false} StripCommutes(s: string)
    ensures Strip(s) == LStrip(RStrip(s))
  {
    if s != "" {
      var c, t := s[0], s[1..];
      assert s == [c] + t;
      RStripCons(c, t);
      if IsSpace(c) {
        StripCommutes(t);
        if RStrip(t) != "" {
          assert ([c] + RStrip(t))[1..] == RStrip(t);
        }
      }
    }
  }

  // ---------------------------------------------------------------- lower

  // ASCII only; every other character is its own lower case here.
  function LowerChar(c: char): char {
    if 'A' <= c <= 'Z' then (c as int + 32) as char else c
  }

  function Lower(s: string): (r: string)
    ensures |r| == |s|
    ensures forall i | 0 <= i < |s| :: r[i] == LowerChar(s[i])
  {
    if s == "" then "" else [LowerChar(s[0])] + Lower(s[1..])
  }

  lemma LowerAppend(a: string, b: string)
    ensures Lower(a + b) == Lower(a) + Lower(b)
  {
  }

  lemma LowerIdempotent(s: string)
    ensures Lower(Lower(s)) == Lower(s)
  {
  }

  lemma LowerKeepsStripped(s: string)
    requires Stripped(s)
    ensures Stripped(Lower(s))
  {
  }

  // ---------------------------------------------------------------- find, count, split

  // str.find, with |s| instead of -1 when the character is absent.
  function IndexOf(s: string, c: char): (k: nat)
    ensures k <= |s|
    ensures k < |s| ==> s[k] == c
    ensures forall i | 0 <= i < k :: s[i] != c
  {
    if s == "" || s[0] == c then 0 else 1 + IndexOf(s[1..], c)
  }

  lemma IndexOfAt(s: string, c: char, k: nat)
    requires k < |s| && s[k] == c && forall i | 0 <= i < k :: s[i] != c
    ensures IndexOf(s, c) == k
  {
  }

  lemma IndexOfAbsent(s: string, c: char)
    ensures IndexOf(s, c) == |s| <==> c !in s
  {
    var k := IndexOf(s, c);
    if k < |s| {
      assert s[k] in s;
    }
  }

  function Count(s: string, c: char): (n: nat)
    ensures n == 0 <==> c !in s
  {
    if s == "" then 0 else (if s[0] == c then 1 else 0) + Count(s[1..], c)
  }

  function BreakAt(s: string): (k: nat)
    ensures k <= |s|
    ensures k < |s| ==> IsLineBreak(s[k])
    ensures forall i | 0 <= i < k :: !IsLineBreak(s[i])
  {
    if s == "" || IsLineBreak(s[0]) then 0 else 1 + BreakAt(s[1..])
  }

  // "\r\n" counts as one break.
  function BreakWidth(s: string, k: nat): (w: nat)
    requires k < |s|
    ensures 1 <= w && k + w <= |s|
  {
    if s[k] == '\r' && k + 1 < |s| && s[k + 1] == '\n' then 2 else 1
  }

  function SplitLines(s: string): seq<string>
    decreases |s|
  {
    if s == "" then []
    else
      var k := BreakAt(s);
      if k == |s| then [s] else [s[..k]] + SplitLines(s[k + BreakWidth(s, k)..])
  }

  lemma {:induction false} SplitLinesAreLines(s: string)
    ensures forall l | l in SplitLines(s) :: OneLine(l)
    decreases |s|
  {
    if s != "" {
      var k := BreakAt(s);
      if k == |s| {
        assert SplitLines(s) == [s];
        forall c | c in s ensures !IsLineBreak(c) { var i :| 0 <= i < |s| && s[i] == c; }
      } else {
        SplitLinesAreLines(s[k + BreakWidth(s, k)..]);
        forall c | c in s[..k] ensures !IsLineBreak(c) { var i :| 0 <= i < k && s[i] == c; }
      }
    }
  }

  // "\n".join(lines)
  function JoinLines(lines: seq<string>): string {
    if lines == [] then ""
    else if |lines| == 1 then lines[0]
    else lines[0] + "\n" + JoinLines(lines[1..])
  }

  lemma SplitFirstLine(line: string, rest: string)
    requires OneLine(line)
    ensures SplitLines(line + "\n" + rest) == [line] + SplitLines(rest)
  {
    var s := line + "\n" + rest;
    assert s[|line|] == '\n';
    assert forall i | 0 <= i < |line| :: s[i] == line[i] && line[i] in line;
    BreakAtFirst(s, |line|);
    assert BreakWidth(s, |line|) == 1;
    assert s[..|line|] == line && s[|line| + 1..] == rest;
  }

  lemma BreakAtFirst(s: string, k: nat)
    requires k < |s| && IsLineBreak(s[k]) && forall i | 0 <= i < k :: !IsLineBreak(s[i])
    ensures BreakAt(s) == k
  {
  }

  lemma SplitOneLine(line: string)
    requires OneLine(line) && line != ""
    ensures SplitLines(line) == [line]
  {
    forall i | 0 <= i < |line| ensures !IsLineBreak(line[i]) { assert line[i] in line; }
  }

  /** Printing lines and splitting them again gives the same lines. */
  lemma {:induction false} JoinThenSplit(lines: seq<string>)
    requires forall l | l in lines :: OneLine(l) && l != ""
    ensures SplitLines(JoinLines(lines)) == lines
  {
    if |lines| == 1 {
      assert lines[0] in lines;
      SplitOneLine(lines[0]);
    } else if |lines| > 1 {
      assert lines[0] in lines;
      forall l | l in lines[1..] ensures OneLine(l) && l != "" { assert l in lines; }
      JoinThenSplit(lines[1..]);
      SplitFirstLine(lines[0], JoinLines(lines[1..]));
    }
  }

  lemma SplitAt(s: string, k: nat, rest: string)
    requires k == BreakAt(s) < |s| && rest == s[k + BreakWidth(s, k)..]
    ensures SplitLines(s) == [s[..k]] + SplitLines(rest)
  {
    hide BreakWidth, IsLineBreak, BreakAt;
  }

  lemma SplitUnfolds(s: string)
    requires BreakAt(s) < |s|
    ensures SplitLines(s) == [s[..BreakAt(s)]] + SplitLines(s[BreakAt(s) + BreakWidth(s, BreakAt(s))..])
  {
    hide BreakWidth, IsLineBreak, BreakAt, SplitLines;
    var k := BreakAt(s);
    SplitAt(s, k, s[k + BreakWidth(s, k)..]);
  }

  lemma SameStart(s: string, t: string, k: nat)
    requires k < |t| && t <= s && IsLineBreak(t[k]) && (k + 1 == |t| ==> t[k] == '\n')
    ensures s[..k] == t[..k] && BreakWidth(s, k) == BreakWidth(t, k)
    ensures k + 1 < |t| ==> k + BreakWidth(t, k) <= |t|
  {
  }

  /** A terminated first part is split by itself, also when it ends in "\r\n". */
  lemma {:induction false} SplitAppend(a: string, b: string)
    ensures SplitLines(a + "\n" + b) == SplitLines(a + "\n") + SplitLines(b)
    decreases |a|
  {
    hide SplitLines, BreakWidth, BreakAt;
    var t := a + "\n";
    var s := t + b;
    assert t[|a|] == '\n';
    var k := BreakAt(t);
    assert k <= |a|;
    BreakAtFirst(s, k);
    SplitUnfolds(t);
    SplitUnfolds(s);
    SameStart(s, t, k);
    var w := BreakWidth(t, k);
    if k + w <= |a| {
      SplitAppend(a[k + w..], b);
      assert t[k + w..] == a[k + w..] + "\n";
      assert s[k + w..] == t[k + w..] + b;
    } else {
      assert k + w == |t|;
      assert s[k + w..] == b && t[k + w..] == "";
      SplitNothing();
    }
  }

  lemma SplitNothing()
    ensures SplitLines("") == []
  {
  }

  // ---------------------------------------------------------------- what stripping leaves

  ghost predicate Visible(s: string, i: int) {
    0 <= i < |s| && !IsSpace(s[i])
  }

  /** What is stripped away holds no visible character. */
  lemma StripSpans(s: string, i: int, j: int)
    requires Visible(s, i) && Visible(s, j) && i <= j
    ensures |Strip(s)| > j - i
  {
    var l := LStrip(s);
    var d := |s| - |l|;
    assert d <= i;
    assert l[j - d] == s[j];
  }

  // Where the stripped text lies.
  lemma StripLies(s: string) returns (i: int, j: int)
    requires Strip(s) != ""
    ensures Visible(s, i) && Visible(s, j) && i <= j && Strip(s) == s[i..j + 1]
  {
    var l := LStrip(s);
    var r := Strip(s);
    i := |s| - |l|;
    j := i + |r| - 1;
    assert l[0] == r[0] && l[|r| - 1] == r[|r| - 1];
  }

  lemma StripNothing(s: string)
    ensures Strip(s) == "" <==> AllSpace(s)
  {
    if Strip(s) != "" {
      var i, j := StripLies(s);
    }
  }

  lemma {:induction false} SpaceAtEnd(a: string, b: string)
    requires AllSpace(b)
    ensures Strip(a + b) == Strip(a)
  {
    if b == "" {
      assert a + b == a;
    } else {
      var c := b[..|b| - 1];
      assert (a + b)[..|a + b| - 1] == a + c;
      SpaceAtEnd(a, c);
      StripCommutes(a + b);
      StripCommutes(a + c);
      assert RStrip(a + b) == RStrip(a + c);
    }
  }

  lemma {:induction false} SpaceAtStart(a: string, b: string)
    requires AllSpace(a)
    ensures Strip(a + b) == Strip(b)
  {
    if a == "" {
      assert a + b == b;
    } else {
      assert (a + b)[0] == a[0] && (a + b)[1..] == a[1..] + b;
      SpaceAtStart(a[1..], b);
    }
  }

  // A part of a text strips to no more than the text.
  lemma StripPart(s: string, a: nat, b: nat)
    requires a <= b <= |s|
    ensures |Strip(s[a..b])| <= |Strip(s)|
  {
    hide Strip, IsSpace;
    var t := s[a..b];
    if Strip(t) != "" {
      var i, j := StripLies(t);
      assert s[a + i] == t[i] && s[a + j] == t[j];
      StripSpans(s, a + i, a + j);
    }
  }

  // And to less when something visible follows it.
  lemma StripPrefix(s: string, k: nat, p: nat)
    requires k <= p && Visible(s, p)
    ensures |Strip(s[..k])| < |Strip(s)|
  {
    if Strip(s[..k]) == "" {
      StripSpans(s, p, p);
    } else {
      var i, j := StripLies(s[..k]);
      StripSpans(s, i, p);
    }
  }

  lemma SliceOfSlice(s: string, d: nat, a: nat, b: nat)
    requires d <= |s| && a <= b <= |s| - d
    ensures s[d..][a..b] == s[d + a..d + b]
  {
  }

  /** Every line is a piece of the text. */
  lemma {:induction false} LinesArePieces(s: string, line: string) returns (a: nat, b: nat)
    requires line in SplitLines(s)
    ensures a <= b <= |s| && line == s[a..b]
    decreases |s|
  {
    hide BreakWidth, BreakAt;
    var k := BreakAt(s);
    a, b := 0, k;
    if k == |s| {
      assert SplitLines(s) == [s];
    } else if line != s[..k] {
      var d := k + BreakWidth(s, k);
      a, b := LinesArePieces(s[d..], line);
      SliceOfSlice(s, d, a, b);
      a, b := d + a, d + b;
    }
  }

  lemma BreaksAreSpace(c: char)
    requires IsLineBreak(c)
    ensures IsSpace(c)
  {
  }

  lemma BreakAfter(s: string, r: string)
    requires r <= s && OneLine(r)
    ensures BreakAt(s) >= |r|
  {
    hide BreakAt, IsLineBreak;
    assert forall i | 0 <= i < |r| :: s[i] == r[i] && r[i] in r;
  }

  lemma VisibleAfterBreak(s: string) returns (i: nat)
    requires !OneLine(RStrip(s))
    ensures BreakAt(s) <= i && Visible(s, i)
  {
    hide BreakAt, RStrip, IsSpace, IsLineBreak;
    var r := RStrip(s);
    var c :| c in r && IsLineBreak(c);
    var k :| 0 <= k < |r| && r[k] == c;
    assert s[k] == c;
    i := |r| - 1;
    assert s[i] == r[i];
  }

  // rstrip keeps a text on one line exactly when nothing visible follows its first line break.
  lemma OneLineButSpace(s: string)
    ensures OneLine(RStrip(s)) <==> forall i | BreakAt(s) <= i < |s| :: IsSpace(s[i])
  {
    hide BreakAt, RStrip, IsSpace, IsLineBreak;
    if OneLine(RStrip(s)) {
      BreakAfter(s, RStrip(s));
    } else {
      var i := VisibleAfterBreak(s);
    }
  }
}

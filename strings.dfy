/** Text helpers used by every component: prefixes, occurrences, joining and splitting. */
module Strings {

  /** p is a prefix of s. */
  predicate IsPrefix(p: string, s: string)
  {
    |p| <= |s| && s[..|p|] == p
  }

  /** p is a suffix of s. */
  predicate IsSuffix(p: string, s: string)
  {
    |p| <= |s| && s[|s| - |p|..] == p
  }

  lemma PrefixOfAppend(a: string, b: string)
    ensures IsPrefix(a, a + b)
  {
    assert (a + b)[..|a|] == a;
  }

  lemma SuffixOfAppend(a: string, b: string)
    ensures IsSuffix(b, a + b)
  {
    assert (a + b)[|a|..] == b;
  }

  lemma PrefixTransitive(p: string, q: string, s: string)
    requires IsPrefix(p, q) && IsPrefix(q, s)
    ensures IsPrefix(p, s)
  {
    assert s[..|p|] == s[..|q|][..|p|];
  }

  /** pat occurs in s starting at index k. */
  predicate OccursAt(s: string, pat: string, k: int)
  {
    0 <= k <= |s| && IsPrefix(pat, s[k..])
  }

  /** pat occurs somewhere in s (an unanchored regular-expression search for a fixed text). */
  predicate Contains(s: string, pat: string)
  {
    exists k :: 0 <= k <= |s| && OccursAt(s, pat, k)
  }

  /** The greatest index k <= j at which pat occurs in s, or -1 when there is none. */
  function LastOccurrence(s: string, pat: string, j: int): (k: int)
    requires -1 <= j <= |s|
    ensures -1 <= k <= j
    ensures k >= 0 ==> OccursAt(s, pat, k)
    ensures forall q :: k < q <= j ==> !OccursAt(s, pat, q)
    decreases j + 1
  {
    if j < 0 then -1
    else if OccursAt(s, pat, j) then j
    else LastOccurrence(s, pat, j - 1)
  }

  /** Python's "".join(ls), as built by appending each line in turn. */
  function Concat(ls: seq<string>): string
  {
    if ls == [] then "" else Concat(ls[..|ls| - 1]) + ls[|ls| - 1]
  }

  lemma {:induction false} ConcatAppend(a: seq<string>, b: seq<string>)
    ensures Concat(a + b) == Concat(a) + Concat(b)
    decreases |b|
  {
    if b == [] {
      assert a + b == a;
    } else {
      var b', last := b[..|b| - 1], b[|b| - 1];
      var ab := a + b;
      assert ab[..|ab| - 1] == a + b' && ab[|ab| - 1] == last;
      assert Concat(ab) == Concat(a + b') + last;
      ConcatAppend(a, b');
      assert Concat(b) == Concat(b') + last;
    }
  }

  /** The text of the first k lines is a prefix of the text of all of them. */
  lemma ConcatPrefix(ls: seq<string>, k: nat)
    requires k <= |ls|
    ensures IsPrefix(Concat(ls[..k]), Concat(ls))
  {
    var a, b := ls[..k], ls[k..];
    assert a + b == ls;
    ConcatAppend(a, b);
    PrefixOfAppend(Concat(a), Concat(b));
  }

  lemma ConcatCons(x: string, rest: seq<string>)
    ensures Concat([x] + rest) == x + Concat(rest)
  {
    ConcatAppend([x], rest);
    assert [x][..0] == [];
  }

  lemma ConcatSingle(x: string)
    ensures Concat([x]) == x
  {
    assert [x][..0] == [];
  }

  /** A slice from b to e, inclusive of e when e is inside: its first element, the middle, then element e. */
  lemma ConcatAround(ls: seq<string>, b: nat, e: nat)
    requires b < e <= |ls|
    ensures e < |ls| ==> Concat(ls[b..e + 1]) == ls[b] + Concat(ls[b + 1..e]) + ls[e]
    ensures e == |ls| ==> Concat(ls[b..e]) == ls[b] + Concat(ls[b + 1..e])
  {
    assert ls[b..e] == [ls[b]] + ls[b + 1..e];
    ConcatCons(ls[b], ls[b + 1..e]);
    if e < |ls| {
      assert ls[b..e + 1] == ls[b..e] + [ls[e]];
      ConcatAppend(ls[b..e], [ls[e]]);
      ConcatSingle(ls[e]);
    }
  }

  /** JavaScript's ls.join(sep). */
  function Join(ls: seq<string>, sep: string): string
  {
    if |ls| == 0 then "" else if |ls| == 1 then ls[0] else ls[0] + sep + Join(ls[1..], sep)
  }

  /** s holds no line feed. */
  predicate NoNewline(s: string)
  {
    forall j :: 0 <= j < |s| ==> s[j] != '\n'
  }

  lemma NoNewlineAppend(a: string, b: string)
    requires NoNewline(a) && NoNewline(b)
    ensures NoNewline(a + b)
  {
    forall j | 0 <= j < |a + b|
      ensures (a + b)[j] != '\n'
    {
      if j >= |a| {
        assert (a + b)[j] == b[j - |a|];
      }
    }
  }

  lemma NoNewlineSlice(s: string, i: nat, j: nat)
    requires NoNewline(s) && i <= j <= |s|
    ensures NoNewline(s[i..j])
  {
    forall k | 0 <= k < j - i
      ensures s[i..j][k] != '\n'
    {
      assert s[i..j][k] == s[i + k];
    }
  }

  /** No line of ls holds a line feed. */
  predicate NoNewlines(ls: seq<string>)
  {
    forall i :: 0 <= i < |ls| ==> NoNewline(ls[i])
  }

  lemma NoNewlinesAppend(a: seq<string>, b: seq<string>)
    requires NoNewlines(a) && NoNewlines(b)
    ensures NoNewlines(a + b)
  {
    forall i | 0 <= i < |a + b|
      ensures NoNewline((a + b)[i])
    {
      if i < |a| {
        assert (a + b)[i] == a[i];
      } else {
        assert (a + b)[i] == b[i - |a|];
      }
    }
  }

  lemma NoNewlinesSlice(a: seq<string>, i: nat, j: nat)
    requires NoNewlines(a) && i <= j <= |a|
    ensures NoNewlines(a[i..j])
  {
    forall k | 0 <= k < j - i
      ensures NoNewline(a[i..j][k])
    {
      assert a[i..j][k] == a[i + k];
    }
  }

  /** Concatenation is associative; stated generically, so that equal elements need no further unfolding. */
  lemma AppendAssoc<T>(a: seq<T>, b: seq<T>, c: seq<T>)
    ensures (a + b) + c == a + (b + c)
  {
  }

  /** Index of the first line feed in s at or after i, or |s| when there is none. */
  function NewlineFrom(s: string, i: nat): (k: nat)
    requires i <= |s|
    ensures i <= k <= |s|
    ensures k < |s| ==> s[k] == '\n'
    decreases |s| - i
  {
    if i == |s| || s[i] == '\n' then i else NewlineFrom(s, i + 1)
  }

  /** Index of the first line feed in s, or |s| when there is none. */
  function FirstNewline(s: string): (k: nat)
    ensures k <= |s|
    ensures k < |s| ==> s[k] == '\n'
  {
    NewlineFrom(s, 0)
  }

  lemma {:induction false} NewlineFromFirst(s: string, i: nat)
    requires i <= |s|
    ensures forall j :: i <= j < NewlineFrom(s, i) ==> s[j] != '\n'
    decreases |s| - i
  {
    if i < |s| && s[i] != '\n' {
      NewlineFromFirst(s, i + 1);
    }
  }

  /** No line feed comes before the first one. */
  lemma FirstNewlineFirst(s: string)
    ensures NoNewline(s[..FirstNewline(s)])
  {
    NewlineFromFirst(s, 0);
    var k := FirstNewline(s);
    forall j | 0 <= j < k
      ensures s[..k][j] != '\n'
    {
      assert s[..k][j] == s[j];
    }
  }

  lemma {:induction false} NewlineFromAfter(x: string, rest: string, i: nat)
    requires NoNewline(x) && i <= |x|
    ensures NewlineFrom(x + "\n" + rest, i) == |x|
    decreases |x| - i
  {
    var s := x + "\n" + rest;
    if i < |x| {
      assert s[i] == x[i];
      NewlineFromAfter(x, rest, i + 1);
    } else {
      assert s[i] == '\n';
    }
  }

  /** The first line feed of x + "\n" + rest, for a line-feed-free x, is the one after x. */
  lemma FirstNewlineAfter(x: string, rest: string)
    requires NoNewline(x)
    ensures FirstNewline(x + "\n" + rest) == |x|
  {
    NewlineFromAfter(x, rest, 0);
  }

  lemma {:induction false} NewlineFromExtends(a: string, c: string, i: nat)
    requires i <= |a| && NewlineFrom(a, i) < |a|
    ensures NewlineFrom(a + c, i) == NewlineFrom(a, i)
    decreases |a| - i
  {
    assert (a + c)[i] == a[i];
    if a[i] != '\n' {
      NewlineFromExtends(a, c, i + 1);
    }
  }

  /** Text appended after a line feed does not move the first line feed. */
  lemma FirstNewlineExtends(a: string, c: string)
    requires FirstNewline(a) < |a|
    ensures FirstNewline(a + c) == FirstNewline(a)
  {
    NewlineFromExtends(a, c, 0);
  }

  /** The rows of a text: the pieces between its line feeds. A text always has at least one row. */
  function Split(s: string): (rows: seq<string>)
    ensures |rows| >= 1
    decreases |s|
  {
    if FirstNewline(s) == |s| then [s] else [s[..FirstNewline(s)]] + Split(s[FirstNewline(s) + 1..])
  }

  /** The rows of a text hold no line feed. */
  lemma {:induction false} SplitNoNewlines(s: string)
    ensures NoNewlines(Split(s))
    decreases |s|
  {
    var k := FirstNewline(s);
    FirstNewlineFirst(s);
    if k < |s| {
      SplitNoNewlines(s[k + 1..]);
      NoNewlinesAppend([s[..k]], Split(s[k + 1..]));
    } else {
      assert s[..k] == s;
    }
  }

  lemma SplitSingle(s: string)
    requires NoNewline(s)
    ensures Split(s) == [s]
  {
  }

  /** A text with a line feed splits into the row before its first one and the rows after it. */
  lemma SplitAtFirst(s: string)
    requires FirstNewline(s) < |s|
    ensures Split(s) == [s[..FirstNewline(s)]] + Split(s[FirstNewline(s) + 1..])
  {
  }

  /** Splitting at a line feed splits the two sides independently. */
  lemma {:induction false} SplitAround(a: string, b: string)
    ensures Split(a + "\n" + b) == Split(a) + Split(b)
    decreases |a|
  {
    if FirstNewline(a) == |a| {
      SplitAroundRow(a, b);
    } else {
      var k := FirstNewline(a);
      SplitAround(a[k + 1..], b);
      SplitAroundStep(a, b);
    }
  }

  /** SplitAround when a is a single row. */
  lemma SplitAroundRow(a: string, b: string)
    requires FirstNewline(a) == |a|
    ensures Split(a + "\n" + b) == Split(a) + Split(b)
  {
    var s := a + "\n" + b;
    calc {
      Split(s);
    == { FirstNewlineFirst(a); assert a[..|a|] == a; FirstNewlineAfter(a, b); SplitAtFirst(s); assert s[..|a|] == a && s[|a| + 1..] == b; }
      [a] + Split(b);
    }
  }

  /** Text appended to a text with a line feed only extends its last rows. */
  lemma SplitExtends(a: string, b: string)
    requires FirstNewline(a) < |a|
    ensures Split(a + "\n" + b) == [a[..FirstNewline(a)]] + Split(a[FirstNewline(a) + 1..] + "\n" + b)
  {
    var k := FirstNewline(a);
    var s := a + "\n" + b;
    assert s == a + ("\n" + b);
    FirstNewlineExtends(a, "\n" + b);
    SplitAtFirst(s);
    assert s[..k] == a[..k];
    assert s[k + 1..] == a[k + 1..] + "\n" + b;
  }

  /** SplitAround for a text a with a line feed, given it for the part of a after that line feed. */
  lemma SplitAroundStep(a: string, b: string)
    requires FirstNewline(a) < |a|
    requires Split(a[FirstNewline(a) + 1..] + "\n" + b) == Split(a[FirstNewline(a) + 1..]) + Split(b)
    ensures Split(a + "\n" + b) == Split(a) + Split(b)
  {
    var k := FirstNewline(a);
    var a' := a[k + 1..];
    SplitExtends(a, b);
    SplitAtFirst(a);
    ConsChain(a[..k], Split(a + "\n" + b), Split(a' + "\n" + b), Split(a'), Split(b), Split(a));
  }

  /** If s is x before m, m is p then q, and r is x before p, then s is r then q. */
  lemma ConsChain<T>(x: T, s: seq<T>, m: seq<T>, p: seq<T>, q: seq<T>, r: seq<T>)
    requires s == [x] + m && m == p + q && r == [x] + p
    ensures s == r + q
  {
  }

  /** Splitting the JavaScript join of line-feed-free rows with "\n" gives the rows back. */
  lemma {:induction false} SplitJoin(ls: seq<string>)
    requires |ls| >= 1
    requires NoNewlines(ls)
    ensures Split(Join(ls, "\n")) == ls
  {
    if |ls| == 1 {
      SplitSingle(ls[0]);
    } else {
      calc {
        Split(Join(ls, "\n"));
        Split(ls[0] + "\n" + Join(ls[1..], "\n"));
      == { SplitAround(ls[0], Join(ls[1..], "\n")); }
        Split(ls[0]) + Split(Join(ls[1..], "\n"));
      == { SplitSingle(ls[0]); NoNewlinesSlice(ls, 1, |ls|); SplitJoin(ls[1..]); }
        [ls[0]] + ls[1..];
        ls;
      }
    }
  }

  /** Joining line-feed-free texts with a line-feed-free separator gives a line-feed-free text. */
  lemma {:induction false} JoinNoNewline(ls: seq<string>, sep: string)
    requires NoNewline(sep)
    requires NoNewlines(ls)
    ensures NoNewline(Join(ls, sep))
  {
    if |ls| > 1 {
      JoinNoNewline(ls[1..], sep);
      var rest := Join(ls[1..], sep);
      forall j | 0 <= j < |ls[0] + sep + rest|
        ensures (ls[0] + sep + rest)[j] != '\n'
      {
        if j < |ls[0]| {
        } else if j < |ls[0]| + |sep| {
          assert (ls[0] + sep + rest)[j] == sep[j - |ls[0]|];
        } else {
          assert (ls[0] + sep + rest)[j] == rest[j - |ls[0]| - |sep|];
        }
      }
    }
  }

  /**
   * Python's readlines: the text cut after each line feed, each line keeping
   * its line feed; a last line without one is kept when it is not empty.
   */
  function ReadLines(s: string): (ls: seq<string>)
    ensures Concat(ls) == s
    ensures NonEmptyLines(ls)
    decreases |s|
  {
    if s == [] then []
    else
      var k := FirstNewline(s);
      if k == |s| then
        ConcatSingle(s);
        [s]
      else
        var rest := ReadLines(s[k + 1..]);
        ReadLinesStep(s[..k + 1], s[k + 1..], rest);
        assert s[..k + 1] + s[k + 1..] == s;
        [s[..k + 1]] + rest
  }

  /** Each line is non-empty and holds no line feed before its last character, which is a line feed on every line but the last. */
  predicate LinesCut(ls: seq<string>)
  {
    forall i :: 0 <= i < |ls| ==>
      |ls[i]| > 0 && NoNewline(ls[i][..|ls[i]| - 1]) && (i < |ls| - 1 ==> ls[i][|ls[i]| - 1] == '\n')
  }

  /** A line ending at its only line feed, in front of cut lines, keeps them cut. */
  lemma LinesCutCons(x: string, rest: seq<string>)
    requires |x| > 0 && NoNewline(x[..|x| - 1]) && x[|x| - 1] == '\n' && LinesCut(rest)
    ensures LinesCut([x] + rest)
  {
    var ls := [x] + rest;
    forall i | 0 <= i < |ls|
      ensures |ls[i]| > 0 && NoNewline(ls[i][..|ls[i]| - 1]) && (i < |ls| - 1 ==> ls[i][|ls[i]| - 1] == '\n')
    {
      if i > 0 {
        assert ls[i] == rest[i - 1];
      }
    }
  }

  /** A text without a line feed is read as one line. */
  lemma ReadLinesLast(s: string)
    requires s != [] && FirstNewline(s) == |s|
    ensures ReadLines(s) == [s]
  {
  }

  /** A single non-empty line with no line feed before its end is cut. */
  lemma LinesCutSingle(x: string)
    requires |x| > 0 && NoNewline(x[..|x| - 1])
    ensures LinesCut([x])
  {
    assert [x][0] == x;
  }

  /** A text with a line feed is read as the part up to it, which is cut there, then the lines of the rest. */
  lemma ReadLinesFirst(s: string, x: string, rest: string, tail: seq<string>)
    requires NoNewline(x) && s == x + "\n" + rest && tail == ReadLines(rest) && LinesCut(tail)
    ensures LinesCut(ReadLines(s))
  {
    ReadLinesCons(x, rest);
    assert (x + "\n")[..|x|] == x;
    LinesCutCons(x + "\n", tail);
  }

  /** readlines cuts exactly at the line feeds: with Concat(ReadLines(s)) == s this fixes the lines. */
  lemma {:induction false} ReadLinesCut(s: string)
    ensures LinesCut(ReadLines(s))
    decreases |s|
  {
    if s != [] {
      var k := FirstNewline(s);
      if k == |s| {
        FirstNewlineFirst(s);
        assert s[..|s| - 1] == s[..k][..|s| - 1];
        ReadLinesLast(s);
        LinesCutSingle(s);
      } else {
        var x, rest := s[..k], s[k + 1..];
        FirstNewlineFirst(s);
        assert s == x + "\n" + rest;
        ReadLinesCut(rest);
        ReadLinesFirst(s, x, rest, ReadLines(rest));
      }
    }
  }

  /** Every line is non-empty. */
  predicate NonEmptyLines(ls: seq<string>)
  {
    forall i :: 0 <= i < |ls| ==> |ls[i]| > 0
  }

  /** A non-empty first line before lines that rebuild a text rebuilds the first line then that text. */
  lemma ReadLinesStep(x: string, tail: string, rest: seq<string>)
    requires |x| > 0 && Concat(rest) == tail && NonEmptyLines(rest)
    ensures Concat([x] + rest) == x + tail && NonEmptyLines([x] + rest)
  {
    ConcatCons(x, rest);
    forall i | 0 <= i < |[x] + rest|
      ensures |([x] + rest)[i]| > 0
    {
      if i > 0 {
        assert ([x] + rest)[i] == rest[i - 1];
      }
    }
  }

  /** The lines readlines gives for a saved buffer: every row but the last with a line feed, and the last row unless it is empty. */
  function SavedLines(rows: seq<string>): (ls: seq<string>)
    requires |rows| >= 1
  {
    var n := if rows[|rows| - 1] == "" then |rows| - 1 else |rows|;
    seq(n, i requires 0 <= i < n => if i < |rows| - 1 then rows[i] + "\n" else rows[i])
  }

  lemma ReadLinesCons(x: string, rest: string)
    requires NoNewline(x)
    ensures ReadLines(x + "\n" + rest) == [x + "\n"] + ReadLines(rest)
  {
    var s := x + "\n" + rest;
    FirstNewlineAfter(x, rest);
    assert s[..|x| + 1] == x + "\n";
    assert s[|x| + 1..] == rest;
  }

  lemma SavedLinesCons(rows: seq<string>)
    requires |rows| >= 2
    ensures SavedLines(rows) == [rows[0] + "\n"] + SavedLines(rows[1..])
  {
    var a := SavedLines(rows);
    var b := [rows[0] + "\n"] + SavedLines(rows[1..]);
    assert |a| == |b|;
    forall i | 0 <= i < |a|
      ensures a[i] == b[i]
    {
      if i > 0 {
        assert rows[1..][i - 1] == rows[i];
      }
    }
  }

  /** Saving the rows joined by line feeds and reading them back gives the saved lines. */
  lemma {:induction false} ReadLinesOfJoin(rows: seq<string>)
    requires |rows| >= 1 && NoNewlines(rows)
    ensures ReadLines(Join(rows, "\n")) == SavedLines(rows)
    decreases |rows|
  {
    if |rows| == 1 {
      if rows[0] != "" {
        assert FirstNewline(rows[0]) == |rows[0]|;
      }
    } else {
      assert Join(rows, "\n") == rows[0] + "\n" + Join(rows[1..], "\n");
      ReadLinesCons(rows[0], Join(rows[1..], "\n"));
      ReadLinesOfJoin(rows[1..]);
      SavedLinesCons(rows);
    }
  }
}

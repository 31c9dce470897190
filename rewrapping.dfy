/**
 * Paragraph rewrap and rejoin for LaTeX text in an editor buffer. The editor
 * is Atom's: a sequence of rows that never hold a line feed and are never
 * fewer than one.
 */
module Rewrapping {
  import opened Wrappers
  import opened Strings

  /** The width rewrapped lines aim for, indent included. */
  const LineWidth: int := 80
  /** The wrap loop's cap on iterations. */
  const MaxIterations: nat := 150

  // ---------------------------------------------------------------------
  // JavaScript whitespace and trim
  // ---------------------------------------------------------------------

  /** JavaScript's `\s`, which is also what String.prototype.trim strips. */
  predicate IsSpace(c: char)
  {
    ('\t' <= c <= '\r') || c == ' ' || c == '\U{A0}' || c == '\U{1680}' || ('\U{2000}' <= c <= '\U{200A}')
    || c == '\U{2028}' || c == '\U{2029}' || c == '\U{202F}' || c == '\U{205F}' || c == '\U{3000}' || c == '\U{FEFF}'
  }

  /** `/^\s*$/`: nothing but whitespace. */
  predicate IsBlank(s: string)
  {
    forall j :: 0 <= j < |s| ==> IsSpace(s[j])
  }

  /** Length of the whitespace run that starts s. */
  function LeadingSpace(s: string): (k: nat)
    ensures k <= |s| && IsBlank(s[..k])
    ensures k < |s| ==> !IsSpace(s[k])
  {
    if s == [] || !IsSpace(s[0]) then 0
    else
      var k := 1 + LeadingSpace(s[1..]);
      assert s[..k] == [s[0]] + s[1..][..k - 1];
      k
  }

  /** Start of the whitespace run that ends s. */
  function TrailingStart(s: string): (k: nat)
    ensures k <= |s| && IsBlank(s[k..])
    ensures k > 0 ==> !IsSpace(s[k - 1])
  {
    if s == [] || !IsSpace(s[|s| - 1]) then |s|
    else
      var k := TrailingStart(s[..|s| - 1]);
      assert s[k..] == s[..|s| - 1][k..] + [s[|s| - 1]];
      k
  }

  /** Leading whitespace removed. */
  function TrimStart(s: string): string
  {
    if s != [] && IsSpace(s[0]) then TrimStart(s[1..]) else s
  }

  /** Trailing whitespace removed. */
  function TrimEnd(s: string): string
  {
    if s != [] && IsSpace(s[|s| - 1]) then TrimEnd(s[..|s| - 1]) else s
  }

  /** String.prototype.trim. */
  function Trim(s: string): string
  {
    TrimEnd(TrimStart(s))
  }

  lemma {:induction false} TrimStartDrops(s: string)
    ensures TrimStart(s) == s[LeadingSpace(s)..]
    decreases |s|
  {
    if s != [] && IsSpace(s[0]) {
      TrimStartDrops(s[1..]);
    }
  }

  lemma {:induction false} TrimEndDrops(s: string)
    ensures TrimEnd(s) == s[..TrailingStart(s)]
    decreases |s|
  {
    if s != [] && IsSpace(s[|s| - 1]) {
      TrimEndDrops(s[..|s| - 1]);
    }
  }

  /** Trimming keeps a slice: what follows the leading whitespace, up to the trailing whitespace. */
  lemma TrimSlice(s: string) returns (a: nat, e: nat)
    ensures a <= e <= |s| && Trim(s) == s[a..e]
    ensures IsBlank(s[..a]) && IsBlank(s[e..])
    ensures a < e ==> !IsSpace(s[a]) && !IsSpace(s[e - 1])
  {
    a := LeadingSpace(s);
    var rest := s[a..];
    var b := TrailingStart(rest);
    e := a + b;
    TrimStartDrops(s);
    TrimEndDrops(rest);
    assert rest[..b] == s[a..e];
    assert rest[b..] == s[e..];
    if b > 0 {
      assert rest[0] == s[a] && rest[b - 1] == s[e - 1];
    }
  }

  /** Trimming a row leaves a row. */
  lemma TrimNoNewline(s: string)
    requires NoNewline(s)
    ensures NoNewline(Trim(s))
  {
    var a, e := TrimSlice(s);
    forall j | 0 <= j < e - a
      ensures Trim(s)[j] != '\n'
    {
      assert Trim(s)[j] == s[a + j];
    }
  }

  /** The characters of s that are not whitespace, in order. */
  function NonSpace(s: string): string
  {
    if s == [] then [] else (if IsSpace(s[0]) then [] else [s[0]]) + NonSpace(s[1..])
  }

  lemma {:induction false} NonSpaceAppend(a: string, b: string)
    ensures NonSpace(a + b) == NonSpace(a) + NonSpace(b)
    decreases |a|
  {
    if a != [] {
      assert (a + b)[1..] == a[1..] + b;
      NonSpaceAppend(a[1..], b);
    } else {
      assert a + b == b;
    }
  }

  lemma {:induction false} NonSpaceBlank(s: string)
    requires IsBlank(s)
    ensures NonSpace(s) == ""
    decreases |s|
  {
    if s != [] {
      NonSpaceBlank(s[1..]);
    }
  }

  /** Trimming drops only whitespace. */
  lemma TrimKeepsText(s: string)
    ensures NonSpace(Trim(s)) == NonSpace(s)
  {
    var a, b := TrimSlice(s);
    assert s == s[..a] + s[a..b] + s[b..];
    NonSpaceAppend(s[..a] + s[a..b], s[b..]);
    NonSpaceAppend(s[..a], s[a..b]);
    NonSpaceBlank(s[..a]);
    NonSpaceBlank(s[b..]);
  }

  /** l is x with whitespace around it: what `^\s*x\s*$` matches. */
  predicate Padded(l: string, x: string)
  {
    exists p :: 0 <= p && p + |x| <= |l| && IsBlank(l[..p]) && l[p..p + |x|] == x && IsBlank(l[p + |x|..])
  }

  /** Blank up to a non-space at p: the leading whitespace ends at p. */
  lemma LeadingSpaceAt(l: string, p: nat)
    requires p < |l| && IsBlank(l[..p]) && !IsSpace(l[p])
    ensures LeadingSpace(l) == p
  {
  }

  /** The `^\s*x\s*$` test as the script can run it: skip the leading whitespace, find x, then only whitespace. */
  predicate PaddedAt(l: string, x: string)
  {
    var p := LeadingSpace(l);
    OccursAt(l, x, p) && IsBlank(l[p + |x|..])
  }

  /** Skipping the leading whitespace and finding x there is a match of the regex. */
  lemma PaddedAtIsPadded(l: string, x: string)
    requires PaddedAt(l, x)
    ensures Padded(l, x)
  {
    var p := LeadingSpace(l);
    assert l[p..][..|x|] == l[p..p + |x|];
    assert IsBlank(l[..p]) && l[p..p + |x|] == x && IsBlank(l[p + |x|..]);
  }

  /** For a text x that starts with a non-space, every match of the regex starts where the leading whitespace ends. */
  lemma PaddedIsPaddedAt(l: string, x: string)
    requires |x| > 0 && !IsSpace(x[0]) && Padded(l, x)
    ensures PaddedAt(l, x)
  {
    var q :| 0 <= q && q + |x| <= |l| && IsBlank(l[..q]) && l[q..q + |x|] == x && IsBlank(l[q + |x|..]);
    assert l[q] == x[0] by {
      assert l[q] == l[q..q + |x|][0];
    }
    LeadingSpaceAt(l, q);
    assert l[q..][..|x|] == l[q..q + |x|];
  }

  /** For a text x that starts with a non-space, skipping the leading whitespace finds x exactly when the regex matches. */
  lemma PaddedAtMatches(l: string, x: string)
    requires |x| > 0 && !IsSpace(x[0])
    ensures PaddedAt(l, x) <==> Padded(l, x)
  {
    if PaddedAt(l, x) {
      PaddedAtIsPadded(l, x);
    }
    if Padded(l, x) {
      PaddedIsPaddedAt(l, x);
    }
  }

  // ---------------------------------------------------------------------
  // Line classifiers
  // ---------------------------------------------------------------------

  /** `\\name\{[^\}]*\}` matches at p: the command, an opening brace, and a closing brace later on. */
  predicate CommandAt(l: string, p: int, name: string)
  {
    OccursAt(l, "\\" + name + "{", p) && '}' in l[p + |name| + 2..]
  }

  /** A sectioning or environment command with a brace group. */
  predicate HasStructureCommand(l: string)
  {
    exists p :: 0 <= p < |l| &&
      (CommandAt(l, p, "begin") || CommandAt(l, p, "end") || CommandAt(l, p, "section")
       || CommandAt(l, p, "subsection") || CommandAt(l, p, "chapter") || CommandAt(l, p, "paragraph"))
  }

  /** `(^|[^\\])%`: a comment sign not preceded by a backslash. */
  predicate HasUnescapedPercent(l: string)
  {
    exists p :: 0 <= p < |l| && l[p] == '%' && (p == 0 || l[p - 1] != '\\')
  }

  /** `^\s*\\(pause)\s*$`, decided by PaddedAt (PauseLineMatches). */
  predicate IsPauseLine(l: string)
  {
    PaddedAt(l, "\\pause")
  }

  /** `^\s*(\${1,2}|\\\[|\\\])\s*$`, decided by PaddedAt (MathDelimiterLineMatches). */
  predicate IsMathDelimiterLine(l: string)
  {
    PaddedAt(l, "$") || PaddedAt(l, "$$") || PaddedAt(l, "\\[") || PaddedAt(l, "\\]")
  }

  /** The pause test is the regex: the line is \pause with whitespace around it. */
  lemma PauseLineMatches(l: string)
    ensures IsPauseLine(l) <==> Padded(l, "\\pause")
  {
    PaddedAtMatches(l, "\\pause");
  }

  /** The math delimiter test is the regex: the line is $, $$, \[ or \] with whitespace around it. */
  lemma MathDelimiterLineMatches(l: string)
    ensures IsMathDelimiterLine(l) <==>
      Padded(l, "$") || Padded(l, "$$") || Padded(l, "\\[") || Padded(l, "\\]")
  {
    PaddedAtMatches(l, "$");
    PaddedAtMatches(l, "$$");
    PaddedAtMatches(l, "\\[");
    PaddedAtMatches(l, "\\]");
  }

  /** empty_line_for_latex: a line that ends a paragraph. */
  predicate IsEmptyLine(l: string)
  {
    IsBlank(l) || HasStructureCommand(l) || HasUnescapedPercent(l) || IsPauseLine(l) || IsMathDelimiterLine(l)
  }

  /** `\\name` at column k, then whitespace or '['. */
  predicate ItemAt(l: string, k: nat, name: string)
  {
    var m := k + 1 + |name|;
    OccursAt(l, "\\" + name, k) && m < |l| && (IsSpace(l[m]) || l[m] == '[')
  }

  /** line_begins_with_item: `^\s*\\(item|exerc|subexe)(\s|\[[^\]]*)`. */
  predicate IsItemLine(l: string)
  {
    var k := LeadingSpace(l);
    ItemAt(l, k, "item") || ItemAt(l, k, "exerc") || ItemAt(l, k, "subexe")
  }

  /** The regular expression's own reading: a blank run of any length k, then `\\name` and whitespace or '['. */
  predicate ItemAfter(l: string, k: int, name: string)
  {
    0 <= k <= |l| && IsBlank(l[..k]) && ItemAt(l, k, name)
  }

  /** The computed test implies the regular expression's reading. */
  lemma ItemLineIsItem(l: string)
    requires IsItemLine(l)
    ensures exists k :: ItemAfter(l, k, "item") || ItemAfter(l, k, "exerc") || ItemAfter(l, k, "subexe")
  {
    var k := LeadingSpace(l);
    assert ItemAfter(l, k, "item") || ItemAfter(l, k, "exerc") || ItemAfter(l, k, "subexe");
  }

  /** The regular expression's reading implies the computed test: the blank run before the backslash is the whole leading run. */
  lemma ItemIsItemLine(l: string, k: int)
    requires ItemAfter(l, k, "item") || ItemAfter(l, k, "exerc") || ItemAfter(l, k, "subexe")
    ensures IsItemLine(l)
  {
    assert l[k..][0] == '\\';
    LeadingSpaceAt(l, k);
  }

  /** line_begins_with_item agrees with `^\s*\\(item|exerc|subexe)(\s|\[[^\]]*)` in both directions. */
  lemma ItemLineMatches(l: string)
    ensures IsItemLine(l) <==> exists k :: ItemAfter(l, k, "item") || ItemAfter(l, k, "exerc") || ItemAfter(l, k, "subexe")
  {
    if IsItemLine(l) {
      ItemLineIsItem(l);
    }
    if exists k :: ItemAfter(l, k, "item") || ItemAfter(l, k, "exerc") || ItemAfter(l, k, "subexe") {
      var k :| ItemAfter(l, k, "item") || ItemAfter(l, k, "exerc") || ItemAfter(l, k, "subexe");
      ItemIsItemLine(l, k);
    }
  }

  /** `/^(\s*)\S/`: the indent of a line that has text, else "". */
  function StartIndent(l: string): (ind: string)
    ensures IsPrefix(ind, l) && IsBlank(ind)
    ensures ind != "" ==> |ind| < |l| && !IsSpace(l[|ind|])
    ensures ind == "" ==> IsBlank(l) || !IsSpace(l[0])
  {
    var k := LeadingSpace(l);
    if k < |l| then l[..k] else ""
  }

  // ---------------------------------------------------------------------
  // Paragraph bounds
  // ---------------------------------------------------------------------

  /** The paragraph goes on upwards from row j: j is not an item and the row above it is not empty. */
  predicate Continues(rows: seq<string>, j: nat)
    requires j < |rows|
  {
    j > 0 && !IsItemLine(rows[j]) && !IsEmptyLine(rows[j - 1])
  }

  /** The paragraph goes on downwards into row j: j is not empty, nor an item when the paragraph is one. */
  predicate Extends(rows: seq<string>, j: nat, isItem: bool)
    requires j < |rows|
  {
    !IsEmptyLine(rows[j]) && !(isItem && IsItemLine(rows[j]))
  }

  /** Where the backward paragraph search from row cur stops. */
  function ParagraphStart(rows: seq<string>, cur: nat): (f: nat)
    requires cur < |rows|
    ensures f <= cur
    ensures !Continues(rows, f)
    ensures forall j :: f < j <= cur ==> Continues(rows, j)
  {
    if Continues(rows, cur) then ParagraphStart(rows, cur - 1) else cur
  }

  /** Row by row, whether the paragraph extends into it. */
  function ExtendsMask(rows: seq<string>, isItem: bool): (m: seq<bool>)
    ensures |m| == |rows| && forall j :: 0 <= j < |rows| ==> m[j] == Extends(rows, j, isItem)
  {
    seq(|rows|, j requires 0 <= j < |rows| => Extends(rows, j, isItem))
  }

  /** From row cur, the last row of the run of rows marked in m that follows it. */
  function RunEnd(m: seq<bool>, cur: nat): (t: nat)
    requires cur < |m|
    ensures cur <= t < |m|
    decreases |m| - cur
  {
    if cur < |m| - 1 && m[cur + 1] then RunEnd(m, cur + 1) else cur
  }

  /** The run ends at t when every row up to t is marked and the row after t is not. */
  lemma {:induction false} RunEndIs(m: seq<bool>, cur: nat, t: nat)
    requires cur <= t < |m|
    requires forall j :: cur < j <= t ==> m[j]
    requires t == |m| - 1 || !m[t + 1]
    ensures RunEnd(m, cur) == t
    decreases t - cur
  {
    if cur < t {
      RunEndIs(m, cur + 1, t);
    }
  }

  /** The run stops at the last row or before an unmarked row, and every row it passes is marked. */
  lemma {:induction false} RunEndBounds(m: seq<bool>, cur: nat)
    requires cur < |m|
    ensures var t := RunEnd(m, cur);
      (t == |m| - 1 || !m[t + 1]) && forall j :: cur < j <= t ==> m[j]
    decreases |m| - cur
  {
    if cur < |m| - 1 && m[cur + 1] {
      RunEndBounds(m, cur + 1);
    }
  }

  /** Where the forward paragraph search from row cur stops; an item paragraph also stops before the next item. */
  function ParagraphEnd(rows: seq<string>, cur: nat, isItem: bool): (t: nat)
    requires cur < |rows|
    ensures cur <= t < |rows|
  {
    RunEnd(ExtendsMask(rows, isItem), cur)
  }

  /** The forward search ends at t when every row up to t extends the paragraph and the row after t does not. */
  lemma ParagraphEndIs(rows: seq<string>, cur: nat, isItem: bool, t: nat)
    requires cur <= t < |rows|
    requires forall j :: cur < j <= t ==> Extends(rows, j, isItem)
    requires t == |rows| - 1 || !Extends(rows, t + 1, isItem)
    ensures ParagraphEnd(rows, cur, isItem) == t
  {
    RunEndIs(ExtendsMask(rows, isItem), cur, t);
  }

  /** The forward search stops at the last row or before a row the paragraph does not extend into. */
  lemma ParagraphEndStops(rows: seq<string>, cur: nat, isItem: bool)
    requires cur < |rows|
    ensures var t := ParagraphEnd(rows, cur, isItem);
      t == |rows| - 1 || !Extends(rows, t + 1, isItem)
  {
    var m := ExtendsMask(rows, isItem);
    RunEndBounds(m, cur);
  }

  /** Every row the forward search passes extends the paragraph. */
  lemma ParagraphEndExtends(rows: seq<string>, cur: nat, isItem: bool, j: nat)
    requires cur < |rows| && cur < j <= ParagraphEnd(rows, cur, isItem)
    ensures Extends(rows, j, isItem)
  {
    var m := ExtendsMask(rows, isItem);
    RunEndBounds(m, cur);
    assert m[j];
  }

  /** The cursor row and, when text is selected, the selection's first and last rows lie in the buffer. */
  predicate PositionsIn(rows: seq<string>, cur: nat, sel: Option<(nat, nat)>)
  {
    cur < |rows| && (sel.Some? ==> sel.value.0 < |rows| && sel.value.1 < |rows|)
  }

  /** The rows domyrewrap works on, or None when it aborts on an empty cursor line. */
  function Paragraph(rows: seq<string>, cur: nat, sel: Option<(nat, nat)>): (r: Option<(nat, nat)>)
    requires PositionsIn(rows, cur, sel)
    ensures r.Some? ==> r.value.0 <= r.value.1 < |rows|
    ensures sel.Some? ==> r.Some? && {r.value.0, r.value.1} == {sel.value.0, sel.value.1}
    ensures sel.None? ==> (r.None? <==> IsEmptyLine(rows[cur]))
    ensures sel.None? && r.Some? ==> r.value.0 <= cur <= r.value.1
  {
    match sel
    case Some((a, b)) => Some(if a <= b then (a, b) else (b, a))
    case None =>
      if IsEmptyLine(rows[cur]) then None
      else
        var f := ParagraphStart(rows, cur);
        Some((f, ParagraphEnd(rows, cur, IsItemLine(rows[f]))))
  }

  /** Every line trimmed. */
  function TrimAll(ls: seq<string>): (r: seq<string>)
    ensures |r| == |ls| && forall j :: 0 <= j < |ls| ==> r[j] == Trim(ls[j])
  {
    seq(|ls|, j requires 0 <= j < |ls| => Trim(ls[j]))
  }

  /** The paragraph's text: its rows trimmed and joined by one space. */
  function ParagraphText(rows: seq<string>, f: nat, t: nat): string
    requires f <= t < |rows|
  {
    Join(TrimAll(rows[f..t + 1]), " ")
  }

  lemma NonSpaceConcatStep(ls: seq<string>)
    requires |ls| >= 1
    ensures NonSpace(Concat(ls)) == NonSpace(ls[0]) + NonSpace(Concat(ls[1..]))
  {
    assert ls == [ls[0]] + ls[1..];
    ConcatCons(ls[0], ls[1..]);
    NonSpaceAppend(ls[0], Concat(ls[1..]));
  }

  lemma NonSpaceJoinStep(y: string, rest: string)
    ensures NonSpace(y + " " + rest) == NonSpace(y) + NonSpace(rest)
  {
    assert IsBlank(" ");
    NonSpaceBlank(" ");
    NonSpaceAppend(y + " ", rest);
    NonSpaceAppend(y, " ");
  }

  /** Trimming and joining with spaces changes only whitespace. */
  lemma {:induction false} JoinTrimmedKeepsText(ls: seq<string>)
    ensures NonSpace(Join(TrimAll(ls), " ")) == NonSpace(Concat(ls))
    decreases |ls|
  {
    if |ls| == 1 {
      assert Join(TrimAll(ls), " ") == Trim(ls[0]);
      NonSpaceConcatStep(ls);
      TrimKeepsText(ls[0]);
    } else if |ls| > 1 {
      var rest := Join(TrimAll(ls[1..]), " ");
      assert Join(TrimAll(ls), " ") == Trim(ls[0]) + " " + rest by {
        assert TrimAll(ls)[1..] == TrimAll(ls[1..]);
      }
      JoinTrimmedKeepsText(ls[1..]);
      NonSpaceJoinStep(Trim(ls[0]), rest);
      TrimKeepsText(ls[0]);
      NonSpaceConcatStep(ls);
    }
  }

  // ---------------------------------------------------------------------
  // The wrap loop
  // ---------------------------------------------------------------------

  /** text.charAt(k) is whitespace; outside the text charAt gives "", which is not. */
  predicate SpaceAt(s: string, k: int)
  {
    0 <= k < |s| && IsSpace(s[k])
  }

  /** The backward search: from column w down to 1 the first whitespace, else 0; a column <= 0 stays. */
  function BackBreak(s: string, w: int): (r: int)
    ensures w <= 0 ==> r == w
    ensures w > 0 ==> 0 <= r <= w && (r > 0 ==> SpaceAt(s, r))
    ensures forall q :: r < q <= w ==> !SpaceAt(s, q)
    decreases if w < 0 then 0 else w
  {
    if w <= 0 || SpaceAt(s, w) then w else BackBreak(s, w - 1)
  }

  /** The forward search: the first whitespace at or after column w, else |s|. */
  function ForwardBreak(s: string, w: int): (r: int)
    requires 0 <= w <= |s|
    ensures w <= r <= |s| && (r < |s| ==> SpaceAt(s, r))
    ensures forall q :: w <= q < r ==> !SpaceAt(s, q)
    decreases |s| - w
  {
    if w == |s| || SpaceAt(s, w) then w else ForwardBreak(s, w + 1)
  }

  /** Backing up over the whitespace just before the break, never below column 1. */
  function BreakStart(s: string, w: int): (r: int)
    ensures w <= 1 ==> r == w
    ensures w > 1 ==> 1 <= r <= w && (r > 1 ==> !SpaceAt(s, r - 1))
    ensures forall q :: r <= q < w ==> SpaceAt(s, q)
    decreases if w < 0 then 0 else w
  {
    if w - 1 > 0 && SpaceAt(s, w - 1) then BreakStart(s, w - 1) else w
  }

  /** JavaScript's s.substr(start, length). */
  function Substr(s: string, start: int, length: int): string
  {
    var from := if start < 0 then (if |s| + start < 0 then 0 else |s| + start) else if start > |s| then |s| else start;
    var n := if length < 0 then 0 else if length > |s| - from then |s| - from else length;
    s[from..from + n]
  }

  /** JavaScript's s.substr(start): from start to the end. */
  function SubstrFrom(s: string, start: int): string
  {
    Substr(s, start, |s|)
  }

  /** Where one pass of the wrap loop breaks text, or None when it leaves the loop at `break`. */
  function BreakPoint(text: string, wc: int): Option<int>
    requires |text| >= wc
  {
    var back := BackBreak(text, wc);
    if back == 0 then
      var fwd := ForwardBreak(text, wc);
      if fwd == |text| then None else Some(BreakStart(text, fwd))
    else Some(BreakStart(text, back))
  }

  /** What the loop pushes once it stops: the rest of the text, when there is any. */
  function Residue(text: string): seq<string>
  {
    if |text| > 0 then [text] else []
  }

  /** The chunks the wrap loop emits (indent not yet added), from iteration `count` on. */
  function WrapChunks(text: string, wc: int, count: nat): seq<string>
    decreases if count < MaxIterations then MaxIterations - count else 0
  {
    if |text| < wc || count >= MaxIterations then Residue(text)
    else
      match BreakPoint(text, wc)
      case None => Residue(text)
      case Some(w) => [Substr(text, 0, w)] + WrapChunks(Trim(SubstrFrom(text, w)), wc, count + 1)
  }

  /** For a column >= 0 the break point lies inside the text, so substr is plain slicing. */
  lemma BreakPointInText(text: string, wc: int)
    requires 0 <= wc <= |text|
    requires BreakPoint(text, wc).Some?
    ensures 0 <= BreakPoint(text, wc).value <= |text|
    ensures Substr(text, 0, BreakPoint(text, wc).value) == text[..BreakPoint(text, wc).value]
    ensures SubstrFrom(text, BreakPoint(text, wc).value) == text[BreakPoint(text, wc).value..]
  {
  }

  /** Wrapping with a column >= 0 loses and reorders nothing but whitespace. */
  lemma {:induction false} WrapKeepsText(text: string, wc: int, count: nat)
    requires wc >= 0
    ensures NonSpace(Concat(WrapChunks(text, wc, count))) == NonSpace(text)
    decreases if count < MaxIterations then MaxIterations - count else 0
  {
    if |text| < wc || count >= MaxIterations || BreakPoint(text, wc).None? {
      if |text| > 0 {
        assert WrapChunks(text, wc, count) == [text];
        ConcatSingle(text);
      }
    } else {
      var w := BreakPoint(text, wc).value;
      BreakPointInText(text, wc);
      var rest := Trim(text[w..]);
      WrapKeepsText(rest, wc, count + 1);
      TrimKeepsText(text[w..]);
      ConcatCons(text[..w], WrapChunks(rest, wc, count + 1));
      NonSpaceAppend(text[..w], Concat(WrapChunks(rest, wc, count + 1)));
      assert text == text[..w] + text[w..];
      NonSpaceAppend(text[..w], text[w..]);
    }
  }

  /** The loop runs at most MaxIterations times, so at most one more chunk is emitted. */
  lemma {:induction false} WrapChunkCount(text: string, wc: int, count: nat)
    requires count <= MaxIterations
    ensures |WrapChunks(text, wc, count)| <= MaxIterations + 1 - count
    decreases MaxIterations - count
  {
    if |text| >= wc && count < MaxIterations && BreakPoint(text, wc).Some? {
      var w := BreakPoint(text, wc).value;
      WrapChunkCount(Trim(SubstrFrom(text, w)), wc, count + 1);
    }
  }

  /** No whitespace after the first character: a chunk the wrap cannot break. */
  predicate IsWord(c: string)
  {
    forall j :: 1 <= j < |c| ==> !IsSpace(c[j])
  }

  /** One pass of the wrap loop, for a column inside the text: the chunk before the break, then the trimmed rest. */
  lemma WrapChunksStep(text: string, wc: int, count: nat)
    requires 0 <= wc <= |text| && count < MaxIterations && BreakPoint(text, wc).Some?
    ensures var w := BreakPoint(text, wc).value;
      0 <= w <= |text| && WrapChunks(text, wc, count) == [text[..w]] + WrapChunks(Trim(text[w..]), wc, count + 1)
  {
    BreakPointInText(text, wc);
  }

  /** Chunks that are non-empty and no wider than wc unless they are words, or the last of cap chunks. */
  predicate WellWrapped(chunks: seq<string>, wc: int, cap: int)
  {
    forall i :: 0 <= i < |chunks| ==>
      |chunks[i]| > 0 && (|chunks[i]| <= wc || IsWord(chunks[i]) || (i == |chunks| - 1 && |chunks| == cap))
  }

  lemma WellWrappedCons(c: string, tail: seq<string>, wc: int, cap: int)
    requires |c| > 0 && (|c| <= wc || IsWord(c)) && WellWrapped(tail, wc, cap - 1)
    ensures WellWrapped([c] + tail, wc, cap)
  {
    var chunks := [c] + tail;
    forall i | 0 <= i < |chunks|
      ensures |chunks[i]| > 0 && (|chunks[i]| <= wc || IsWord(chunks[i]) || (i == |chunks| - 1 && |chunks| == cap))
    {
      if i > 0 {
        assert chunks[i] == tail[i - 1];
      }
    }
  }

  /** The chunk a pass of the loop cuts off is non-empty, and no wider than the column unless it is a word. */
  lemma HeadChunk(text: string, wc: int)
    requires 1 <= wc <= |text| && BreakPoint(text, wc).Some?
    ensures var w := BreakPoint(text, wc).value;
      0 < w <= |text| && (w <= wc || IsWord(text[..w]))
  {
    var w := BreakPoint(text, wc).value;
    if BackBreak(text, wc) == 0 {
      var fwd := ForwardBreak(text, wc);
      assert w == fwd by {
        if fwd > 1 {
          assert !SpaceAt(text, fwd - 1);
        }
      }
      assert IsWord(text[..w]) by {
        forall j | 1 <= j < w
          ensures !IsSpace(text[..w][j])
        {
          assert !SpaceAt(text, j);
        }
      }
    }
  }

  /** The chunk the loop leaves with is no wider than the column, or a word, or the residue at the cap. */
  lemma LastChunk(text: string, wc: int, count: nat)
    requires wc >= 1 && count <= MaxIterations
    requires |text| < wc || count >= MaxIterations || BreakPoint(text, wc).None?
    ensures WellWrapped(WrapChunks(text, wc, count), wc, MaxIterations + 1 - count)
  {
    if |text| >= wc && count < MaxIterations {
      assert IsWord(text) by {
        forall j | 1 <= j < |text|
          ensures !IsSpace(text[j])
        {
          assert !SpaceAt(text, j);
        }
      }
    }
  }

  /**
   * With a positive column every chunk is non-empty, and each is no wider than
   * the column unless it is an unbreakable word, or the last chunk left over
   * when the iteration cap is reached.
   */
  lemma {:induction false} WrapChunkWidth(text: string, wc: int, count: nat)
    requires wc >= 1 && count <= MaxIterations
    ensures WellWrapped(WrapChunks(text, wc, count), wc, MaxIterations + 1 - count)
    decreases MaxIterations - count
  {
    if |text| < wc || count >= MaxIterations || BreakPoint(text, wc).None? {
      LastChunk(text, wc, count);
    } else {
      var w := BreakPoint(text, wc).value;
      assert 0 <= w <= |text| by { BreakPointInText(text, wc); }
      WrapChunkWidth(Trim(text[w..]), wc, count + 1);
      WrapChunkWidthStep(text, wc, count);
    }
  }

  /** A pass of the loop keeps the chunks well wrapped, given that the rest of the loop does. */
  lemma WrapChunkWidthStep(text: string, wc: int, count: nat)
    requires 1 <= wc <= |text| && count < MaxIterations && BreakPoint(text, wc).Some?
    requires 0 <= BreakPoint(text, wc).value <= |text|
    requires WellWrapped(WrapChunks(Trim(text[BreakPoint(text, wc).value..]), wc, count + 1), wc, MaxIterations - count)
    ensures WellWrapped(WrapChunks(text, wc, count), wc, MaxIterations + 1 - count)
  {
    var w := BreakPoint(text, wc).value;
    WrapChunksStep(text, wc, count);
    HeadChunk(text, wc);
    WellWrappedCons(text[..w], WrapChunks(Trim(text[w..]), wc, count + 1), wc, MaxIterations + 1 - count);
  }

  /** Every chunk behind the indent. */
  function Indented(indent: string, chunks: seq<string>): (r: seq<string>)
    ensures |r| == |chunks|
  {
    if chunks == [] then [] else [indent + chunks[0]] + Indented(indent, chunks[1..])
  }

  /** Row i of the indented chunks is chunk i behind the indent. */
  lemma {:induction false} IndentedAt(indent: string, chunks: seq<string>, i: nat)
    requires i < |chunks|
    ensures Indented(indent, chunks)[i] == indent + chunks[i]
  {
    if i > 0 {
      IndentedAt(indent, chunks[1..], i - 1);
    }
  }

  /** Indenting one more chunk adds one more row. */
  lemma {:induction false} IndentedAppend(indent: string, chunks: seq<string>, c: string)
    ensures Indented(indent, chunks + [c]) == Indented(indent, chunks) + [indent + c]
  {
    if chunks != [] {
      assert (chunks + [c])[1..] == chunks[1..] + [c];
      IndentedAppend(indent, chunks[1..], c);
    }
  }

  /** The wrap column the source computes: negative for an indent wider than the line. */
  function WrapColumnAsWritten(indent: string): int
  {
    LineWidth - |indent|
  }

  /** The wrap column, kept at zero or more so that text is only ever split at whitespace. */
  function WrapColumn(indent: string): (wc: nat)
    ensures |indent| <= LineWidth ==> wc == WrapColumnAsWritten(indent)
    ensures |indent| > LineWidth ==> wc == 0
  {
    if |indent| <= LineWidth then LineWidth - |indent| else 0
  }

  /** With column -1 a one-character text survives every pass: substr(0, -1) is "" and substr(-1) is its last character. */
  lemma {:induction false} NegativeColumnKeepsLastCharacter(c: char, wc: int, count: nat)
    requires wc == -1 && !IsSpace(c) && count <= MaxIterations
    ensures Concat(WrapChunks([c], wc, count)) == [c]
    decreases MaxIterations - count
  {
    if count < MaxIterations {
      NegativeColumnKeepsLastCharacter(c, wc, count + 1);
      NegativeColumnPass(c, wc, count);
    } else {
      WrapChunksStops([c], wc, count);
      ConcatSingle([c]);
    }
  }

  /** One pass at column -1 over a one-character text adds only an empty chunk. */
  lemma NegativeColumnPass(c: char, wc: int, count: nat)
    requires wc == -1 && !IsSpace(c) && count < MaxIterations
    requires Concat(WrapChunks([c], wc, count + 1)) == [c]
    ensures Concat(WrapChunks([c], wc, count)) == [c]
  {
    var rest := WrapChunks([c], wc, count + 1);
    calc {
      Concat(WrapChunks([c], wc, count));
    == { NegativeColumnStep([c], wc, count); assert [c][|[c]| - 1] == c; }
      Concat([""] + rest);
    == { ConcatCons("", rest); }
      "" + Concat(rest);
    }
  }

  /** With the column at -1 every pass breaks at -1: an empty chunk, and the text's last character goes on. */
  lemma NegativeColumnStep(s: string, wc: int, count: nat)
    requires wc == -1 && |s| >= 1 && !IsSpace(s[|s| - 1]) && count < MaxIterations
    ensures WrapChunks(s, wc, count) == [""] + WrapChunks([s[|s| - 1]], wc, count + 1)
  {
    var last := [s[|s| - 1]];
    assert BackBreak(s, wc) == wc;
    assert BreakStart(s, wc) == wc;
    assert BreakPoint(s, wc) == Some(wc);
    assert Substr(s, 0, wc) == "";
    assert SubstrFrom(s, wc) == last by {
      assert s[|s| - 1..|s|] == last;
    }
    assert Trim(last) == last;
    WrapChunksUnfold(s, wc, count);
  }

  /** With column -1 any text ending in a non-space comes out as its last character. */
  lemma NegativeColumnKeepsLast(s: string, wc: int, count: nat)
    requires wc == -1 && |s| >= 1 && !IsSpace(s[|s| - 1]) && count < MaxIterations
    ensures Concat(WrapChunks(s, wc, count)) == [s[|s| - 1]]
  {
    var c := s[|s| - 1];
    NegativeColumnStep(s, wc, count);
    ConcatCons("", WrapChunks([c], wc, count + 1));
    NegativeColumnKeepsLastCharacter(c, wc, count + 1);
  }

  /** A text of two or more non-space-ended characters holds more non-space characters than its last one alone. */
  lemma LastCharacterLosesText(text: string)
    requires |text| >= 2 && !IsSpace(text[0]) && !IsSpace(text[|text| - 1])
    ensures NonSpace([text[|text| - 1]]) != NonSpace(text)
  {
    var c := text[|text| - 1];
    var middle := text[1..|text| - 1];
    assert text[1..] == middle + [c];
    NonSpaceAppend(middle, [c]);
    assert NonSpace([c]) == [c];
    assert |NonSpace(text)| >= 2;
  }

  /**
   * Under an indent of 81 characters the source's column is -1, and a
   * paragraph that starts and ends with a non-space comes out as its last
   * character alone ("ab" becomes "b").
   */
  lemma AsWrittenColumnLosesText(indent: string, text: string)
    requires |indent| == LineWidth + 1
    requires |text| >= 2 && !IsSpace(text[0]) && !IsSpace(text[|text| - 1])
    ensures WrapColumnAsWritten(indent) == -1
    ensures Concat(WrapChunks(text, WrapColumnAsWritten(indent), 0)) == [text[|text| - 1]]
    ensures NonSpace(Concat(WrapChunks(text, WrapColumnAsWritten(indent), 0))) != NonSpace(text)
  {
    NegativeColumnKeepsLast(text, WrapColumnAsWritten(indent), 0);
    LastCharacterLosesText(text);
  }

  /**
   * Every wrapped line is the paragraph's indent and a non-empty chunk, and
   * fits in the line width unless its chunk is an unbreakable word or the
   * residue left at the iteration cap.
   */
  lemma WrappedLineWidth(indent: string, text: string, i: nat)
    requires |indent| < LineWidth
    requires i < |WrapChunks(text, WrapColumn(indent), 0)|
    ensures var chunks := WrapChunks(text, WrapColumn(indent), 0);
      var line := Indented(indent, chunks)[i];
      && line == indent + chunks[i]
      && |line| > |indent|
      && (|line| <= LineWidth || IsWord(chunks[i]) || (i == |chunks| - 1 && |chunks| == MaxIterations + 1))
  {
    var chunks := WrapChunks(text, WrapColumn(indent), 0);
    IndentedAt(indent, chunks, i);
    WrapChunkWidth(text, WrapColumn(indent), 0);
  }

  /** The corrected column keeps every non-space character of the paragraph, whatever the indent. */
  lemma RewrapKeepsText(rows: seq<string>, f: nat, t: nat)
    requires f <= t < |rows|
    ensures NonSpace(Concat(WrapChunks(ParagraphText(rows, f, t), WrapColumn(StartIndent(rows[f])), 0)))
         == NonSpace(Concat(rows[f..t + 1]))
  {
    WrapKeepsText(ParagraphText(rows, f, t), WrapColumn(StartIndent(rows[f])), 0);
    JoinTrimmedKeepsText(rows[f..t + 1]);
  }

  /** The loop ends when the text is narrower than the column or the cap is reached. */
  lemma WrapChunksStops(text: string, wc: int, count: nat)
    requires |text| < wc || count >= MaxIterations
    ensures WrapChunks(text, wc, count) == Residue(text)
  {
  }

  /** One pass of the wrap loop: the chunk before the break point, then the trimmed rest; no break point ends it. */
  lemma WrapChunksUnfold(text: string, wc: int, count: nat)
    requires |text| >= wc && count < MaxIterations
    ensures BreakPoint(text, wc).None? ==> WrapChunks(text, wc, count) == Residue(text)
    ensures BreakPoint(text, wc).Some? ==>
      WrapChunks(text, wc, count)
      == [Substr(text, 0, BreakPoint(text, wc).value)] + WrapChunks(Trim(SubstrFrom(text, BreakPoint(text, wc).value)), wc, count + 1)
  {
  }

  /** The wrap loop's backward search for whitespace, from the wrap column down to column 1. */
  method SearchBack(text: string, wrapColumn: int) returns (wrapAt: int)
    ensures wrapAt == BackBreak(text, wrapColumn)
  {
    wrapAt := wrapColumn;
    while wrapAt > 0 && !SpaceAt(text, wrapAt)
      invariant wrapColumn <= 0 ==> wrapAt == wrapColumn
      invariant wrapColumn > 0 ==> 0 <= wrapAt <= wrapColumn
      invariant BackBreak(text, wrapAt) == BackBreak(text, wrapColumn)
      decreases wrapAt
    {
      wrapAt := wrapAt - 1;
    }
  }

  /** The wrap loop's forward search for whitespace, from the wrap column to the end of the text. */
  method SearchForward(text: string, wrapColumn: int) returns (wrapAt: int)
    requires 0 <= wrapColumn <= |text|
    ensures wrapAt == ForwardBreak(text, wrapColumn)
  {
    wrapAt := wrapColumn;
    while wrapAt < |text| && !SpaceAt(text, wrapAt)
      invariant wrapColumn <= wrapAt <= |text|
      invariant ForwardBreak(text, wrapAt) == ForwardBreak(text, wrapColumn)
      decreases |text| - wrapAt
    {
      wrapAt := wrapAt + 1;
    }
  }

  /** The wrap loop's step back over the whitespace before the break. */
  method BackOverSpace(text: string, found: int) returns (wrapAt: int)
    ensures wrapAt == BreakStart(text, found)
  {
    wrapAt := found;
    while wrapAt - 1 > 0 && SpaceAt(text, wrapAt - 1)
      invariant BreakStart(text, wrapAt) == BreakStart(text, found)
      decreases wrapAt
    {
      wrapAt := wrapAt - 1;
    }
  }

  /**
   * One pass of the wrap loop keeps its invariants: from the lines, chunks,
   * text and count before the pass to the ones after it, the lines are the
   * chunks behind the indent, and the chunks so far and the chunks of the
   * rest make the whole.
   */
  lemma WrapLoopStep(indent: string, lines: seq<string>, done: seq<string>, text: string, count: nat,
                     wc: int, text0: string, w: int,
                     lines': seq<string>, done': seq<string>, text': string, count': nat)
    requires |text| >= wc && count < MaxIterations && BreakPoint(text, wc) == Some(w)
    requires lines == Indented(indent, done)
    requires done + WrapChunks(text, wc, count) == WrapChunks(text0, wc, 0)
    requires lines' == lines + [indent + Substr(text, 0, w)] && done' == done + [Substr(text, 0, w)]
    requires text' == Trim(SubstrFrom(text, w)) && count' == count + 1
    ensures lines' == Indented(indent, done')
    ensures done' + WrapChunks(text', wc, count') == WrapChunks(text0, wc, 0)
  {
    WrapChunksUnfold(text, wc, count);
    AppendAssoc(done, [Substr(text, 0, w)], WrapChunks(text', wc, count'));
    IndentedAppend(indent, done, Substr(text, 0, w));
  }

  /** When the wrap loop stops, what is left of the text is the last chunk, unless it is empty. */
  lemma WrapLoopEnd(done: seq<string>, text: string, wc: int, count: nat, text0: string)
    requires done + WrapChunks(text, wc, count) == WrapChunks(text0, wc, 0)
    requires |text| < wc || count >= MaxIterations || BreakPoint(text, wc).None?
    ensures done + Residue(text) == WrapChunks(text0, wc, 0)
  {
    if |text| < wc || count >= MaxIterations {
      WrapChunksStops(text, wc, count);
    } else {
      WrapChunksUnfold(text, wc, count);
    }
  }

  /** The search in one pass of the wrap loop: back from the column, else forward, then back over the spaces. */
  method FindBreak(text: string, wrapColumn: int) returns (r: Option<int>)
    requires |text| >= wrapColumn
    ensures r == BreakPoint(text, wrapColumn)
  {
    var wrapAt := SearchBack(text, wrapColumn);
    if wrapAt == 0 {
      wrapAt := SearchForward(text, wrapColumn);
      if wrapAt == |text| {
        return None;
      }
    }
    wrapAt := BackOverSpace(text, wrapAt);
    return Some(wrapAt);
  }

  /** The wrap loop of domyrewrap, with its three break-point searches. */
  method WrapLines(text0: string, indent: string, wrapColumn: int) returns (newlines: seq<string>)
    ensures newlines == Indented(indent, WrapChunks(text0, wrapColumn, 0))
  {
    var text := text0;
    newlines := [];
    ghost var done: seq<string> := [];
    var countloop := 0;
    while |text| >= wrapColumn && countloop < MaxIterations
      invariant countloop <= MaxIterations
      invariant newlines == Indented(indent, done)
      invariant done + WrapChunks(text, wrapColumn, countloop) == WrapChunks(text0, wrapColumn, 0)
      decreases MaxIterations - countloop
    {
      var wrapAt := FindBreak(text, wrapColumn);
      if wrapAt.None? {
        break;
      }
      ghost var lines0, done0, text1, count0 := newlines, done, text, countloop;
      var chunk := Substr(text, 0, wrapAt.value);
      newlines := newlines + [indent + chunk];
      done := done + [chunk];
      countloop := countloop + 1;
      text := Trim(SubstrFrom(text, wrapAt.value));
      WrapLoopStep(indent, lines0, done0, text1, count0, wrapColumn, text0, wrapAt.value, newlines, done, text, countloop);
    }
    WrapLoopEnd(done, text, wrapColumn, countloop, text0);
    if |text| > 0 {
      IndentedAppend(indent, done, text);
      newlines := newlines + [indent + text];
    } else {
      assert done + Residue(text) == done;
    }
  }

  // ---------------------------------------------------------------------
  // The editor buffer
  // ---------------------------------------------------------------------

  /** Rows that could be an editor buffer. */
  predicate ValidRows(rows: seq<string>)
  {
    |rows| >= 1 && NoNewlines(rows)
  }

  /** Deleting row n; deleting the only row leaves one empty row. */
  function RowsWithout(rows: seq<string>, n: nat): (r: seq<string>)
    requires n < |rows|
    ensures |rows| > 1 ==> |r| == |rows| - 1
  {
    if |rows| == 1 then [""] else rows[..n] + rows[n + 1..]
  }

  /** Rows f..t deleted one at a time; deleting every row leaves one empty row. */
  function RowsRemoved(rows: seq<string>, f: nat, t: nat): seq<string>
    requires f <= t < |rows|
  {
    if f == 0 && t == |rows| - 1 then [""] else rows[..f] + rows[t + 1..]
  }

  /** Deleting row f once more after i of the rows f..t are gone. */
  lemma RemovedStep(rows: seq<string>, f: nat, t: nat, i: nat)
    requires f + i <= t < |rows|
    ensures var r := rows[..f] + rows[f + i..];
      f < |r| && RowsWithout(r, f) ==
        if f + i < t then rows[..f] + rows[f + i + 1..] else RowsRemoved(rows, f, t)
  {
    var r := rows[..f] + rows[f + i..];
    assert r[..f] == rows[..f];
    assert r[f + 1..] == rows[f + i + 1..];
  }

  /**
   * Typing s at the start of row n. A row past the end is clipped to the end
   * of the buffer; the line feeds in s split the affected row.
   */
  function RowsInserting(rows: seq<string>, n: nat, s: string): seq<string>
    requires |rows| >= 1
  {
    if n < |rows| then rows[..n] + Split(s + rows[n]) + rows[n + 1..]
    else
      var last := |rows| - 1;
      rows[..last] + Split(rows[last] + s)
  }

  lemma RowsInsertingValid(rows: seq<string>, n: nat, s: string)
    requires ValidRows(rows)
    ensures ValidRows(RowsInserting(rows, n, s))
  {
    var row := if n < |rows| then n else |rows| - 1;
    var joined := if n < |rows| then s + rows[n] else rows[row] + s;
    var mid := Split(joined);
    SplitNoNewlines(joined);
    NoNewlinesSlice(rows, 0, row);
    NoNewlinesSlice(rows, row + 1, |rows|);
    NoNewlinesAppend(rows[..row], mid);
    NoNewlinesAppend(rows[..row] + mid, rows[row + 1..]);
    assert RowsInserting(rows, n, s) == rows[..row] + mid + rows[row + 1..];
  }

  /** The paragraph rows f..t replaced by ins, as removing them and inserting at row f leaves the buffer. */
  function Replace(rows: seq<string>, f: nat, t: nat, ins: seq<string>): seq<string>
    requires f <= t < |rows|
  {
    if t < |rows| - 1 then rows[..f] + ins + rows[t + 1..]
    else if f > 0 then rows[..f] + ins + [""]
    else [""] + ins + [""]
  }

  /** Deleting rows leaves rows without line feeds. */
  lemma RemovedValid(rows: seq<string>, f: nat, t: nat)
    requires ValidRows(rows) && f <= t < |rows|
    ensures ValidRows(RowsRemoved(rows, f, t))
  {
    if !(f == 0 && t == |rows| - 1) {
      NoNewlinesSlice(rows, 0, f);
      NoNewlinesSlice(rows, t + 1, |rows|);
      NoNewlinesAppend(rows[..f], rows[t + 1..]);
    } else {
      assert NoNewline("");
    }
  }

  /** Text then a line feed typed before a row: the text's rows, then the row. */
  lemma SplitBefore(text: string, x: string)
    requires NoNewline(x)
    ensures Split("" + text + "\n" + x) == Split(text) + [x]
  {
    calc {
      Split("" + text + "\n" + x);
    == { assert "" + text + "\n" + x == text + "\n" + x; }
      Split(text + "\n" + x);
    == { SplitAround(text, x); }
      Split(text) + Split(x);
    == { SplitSingle(x); }
      Split(text) + [x];
    }
  }

  /** A line feed, text and a line feed typed after a row: the row, the text's rows, then an empty row. */
  lemma SplitAfter(x: string, text: string)
    requires NoNewline(x)
    ensures Split(x + ("\n" + text + "\n")) == [x] + Split(text) + [""]
  {
    calc {
      Split(x + ("\n" + text + "\n"));
    == { assert x + ("\n" + text + "\n") == x + "\n" + (text + "\n" + ""); }
      Split(x + "\n" + (text + "\n" + ""));
    == { SplitAround(x, text + "\n" + ""); }
      Split(x) + Split(text + "\n" + "");
    == { SplitAround(text, ""); }
      Split(x) + (Split(text) + Split(""));
    == { SplitSingle(x); assert NoNewline(""); SplitSingle(""); }
      [x] + (Split(text) + [""]);
    }
  }

  /** A paragraph with rows after it: the text goes in before the row that followed it. */
  lemma EditReplacesInside(rows: seq<string>, f: nat, t: nat, text: string)
    requires f <= t < |rows| - 1 && NoNewline(rows[t + 1])
    ensures RowsInserting(RowsRemoved(rows, f, t), f, "" + text + "\n") == Replace(rows, f, t, Split(text))
  {
    var R := RowsRemoved(rows, f, t);
    var x, front, back, ins := rows[t + 1], rows[..f], rows[t + 2..], Split(text);
    assert R == front + ([x] + back) by {
      assert rows[t + 1..] == [x] + back;
    }
    calc {
      RowsInserting(R, f, "" + text + "\n");
    == { assert R[..f] == front && R[f] == x && R[f + 1..] == back; }
      front + Split("" + text + "\n" + x) + back;
    == { SplitBefore(text, x); }
      front + (ins + [x]) + back;
    == { AppendAssoc(ins, [x], back); AppendAssoc(front, ins + [x], back); AppendAssoc(front, ins, [x] + back); }
      front + ins + ([x] + back);
    == { assert rows[t + 1..] == [x] + back; }
      Replace(rows, f, t, ins);
    }
  }

  /** A last paragraph after other rows: the text goes in at the end of the row before it, behind a line feed. */
  lemma EditReplacesLast(rows: seq<string>, f: nat, t: nat, text: string)
    requires 0 < f <= t == |rows| - 1 && NoNewline(rows[f - 1])
    ensures RowsInserting(RowsRemoved(rows, f, t), f, "\n" + text + "\n") == Replace(rows, f, t, Split(text))
  {
    var R := RowsRemoved(rows, f, t);
    var x, front, ins := rows[f - 1], rows[..f - 1], Split(text);
    assert R == front + [x] by {
      assert rows[..f] == front + [x];
    }
    calc {
      RowsInserting(R, f, "\n" + text + "\n");
    == { assert R[..f - 1] == front && R[f - 1] == x; }
      front + Split(x + ("\n" + text + "\n"));
    == { SplitAfter(x, text); }
      front + ([x] + ins + [""]);
    == { AppendAssoc(front, [x] + ins, [""]); AppendAssoc(front, [x], ins); }
      (front + [x]) + ins + [""];
    == { assert rows[..f] == front + [x]; }
      Replace(rows, f, t, ins);
    }
  }

  /** The whole buffer as the paragraph: the text goes into the one empty row left, behind a line feed. */
  lemma EditReplacesAll(rows: seq<string>, t: nat, text: string)
    requires t == |rows| - 1
    ensures RowsInserting(RowsRemoved(rows, 0, t), 0, "\n" + text + "\n") == Replace(rows, 0, t, Split(text))
  {
    calc {
      RowsInserting(RowsRemoved(rows, 0, t), 0, "\n" + text + "\n");
      RowsInserting([""], 0, "\n" + text + "\n");
    == { assert [""][..0] == [] && [""][1..] == []; }
      Split("\n" + text + "\n" + "");
    == { assert "\n" + text + "\n" + "" == "" + ("\n" + text + "\n"); assert NoNewline(""); SplitAfter("", text); }
      [""] + Split(text) + [""];
      Replace(rows, 0, t, Split(text));
    }
  }

  /** Removing rows f..t and inserting text (behind a line feed when t was the last row) at row f. */
  lemma EditReplaces(rows: seq<string>, f: nat, t: nat, text: string)
    requires ValidRows(rows) && f <= t < |rows|
    ensures ValidRows(RowsRemoved(rows, f, t))
    ensures RowsInserting(RowsRemoved(rows, f, t), f, (if t == |rows| - 1 then "\n" else "") + text + "\n")
         == Replace(rows, f, t, Split(text))
  {
    RemovedValid(rows, f, t);
    if t < |rows| - 1 {
      EditReplacesInside(rows, f, t, text);
    } else if f > 0 {
      EditReplacesLast(rows, f, t, text);
    } else {
      EditReplacesAll(rows, t, text);
    }
  }

  /**
   * The editor as the rewrap sees it: its rows, the cursor row, and the
   * first and last rows of the selection when text is selected.
   */
  class Editor {
    var rows: seq<string>
    var cursorRow: nat
    var selection: Option<(nat, nat)>

    ghost predicate Valid()
      reads this
    {
      ValidRows(rows)
    }

    constructor (rows0: seq<string>, cursor: nat, sel: Option<(nat, nat)>)
      requires ValidRows(rows0)
      ensures Valid() && rows == rows0 && cursorRow == cursor && selection == sel
    {
      rows, cursorRow, selection := rows0, cursor, sel;
    }

    /** remove_line. */
    method RemoveLine(n: nat)
      requires Valid() && n < |rows|
      modifies this`rows
      ensures Valid()
      ensures rows == RowsWithout(old(rows), n)
    {
      if |rows| == 1 {
        rows := [""];
      } else {
        var r := rows[..n] + rows[n + 1..];
        forall i | 0 <= i < |r|
          ensures NoNewline(r[i])
        {
          if i >= n {
            assert r[i] == rows[i + 1];
          }
        }
        rows := r;
      }
    }

    /** insert_line: the text and a line feed typed at the start of row n. */
    method InsertLine(n: nat, text: string)
      requires Valid()
      modifies this`rows
      ensures Valid()
      ensures rows == RowsInserting(old(rows), n, text + "\n")
    {
      RowsInsertingValid(rows, n, text + "\n");
      rows := RowsInserting(rows, n, text + "\n");
    }

    /** remove_many_lines: returns rows fromLine..toLine in order and deletes them. */
    method RemoveManyLines(fromLine: nat, toLine: nat) returns (removed: seq<string>)
      requires Valid() && fromLine <= toLine < |rows|
      modifies this`rows
      ensures Valid()
      ensures removed == old(rows)[fromLine..toLine + 1]
      ensures rows == RowsRemoved(old(rows), fromLine, toLine)
    {
      ghost var start := rows;
      var n := toLine - fromLine + 1;
      removed := [];
      var i := 0;
      while i < n
        invariant 0 <= i <= n && Valid()
        invariant removed == start[fromLine..fromLine + i]
        invariant i < n ==> rows == start[..fromLine] + start[fromLine + i..]
        invariant i == n ==> rows == RowsRemoved(start, fromLine, toLine)
      {
        assert rows[fromLine] == start[fromLine + i];
        assert start[fromLine..fromLine + i + 1] == start[fromLine..fromLine + i] + [start[fromLine + i]];
        removed := removed + [rows[fromLine]];
        RemovedStep(start, fromLine, toLine, i);
        RemoveLine(fromLine);
        i := i + 1;
      }
    }
  }

  /** The text domyrewrap inserts, without the leading line feed. */
  function NewText(rows: seq<string>, f: nat, t: nat, joinonly: bool): string
    requires f <= t < |rows|
  {
    var indent := StartIndent(rows[f]);
    var text := ParagraphText(rows, f, t);
    if joinonly then indent + text
    else Join(Indented(indent, WrapChunks(text, WrapColumn(indent), 0)), "\n")
  }

  /** The buffer after domyrewrap. */
  function Rewrapped(rows: seq<string>, cur: nat, sel: Option<(nat, nat)>, joinonly: bool): (r: seq<string>)
    requires PositionsIn(rows, cur, sel)
    ensures sel.None? && IsEmptyLine(rows[cur]) ==> r == rows
    ensures joinonly && Paragraph(rows, cur, sel).Some? && Paragraph(rows, cur, sel).value.0 == Paragraph(rows, cur, sel).value.1
      ==> r == rows
  {
    var p := Paragraph(rows, cur, sel);
    if p.None? then rows
    else
      var (f, t) := p.value;
      if f == t && joinonly then rows else Replace(rows, f, t, Split(NewText(rows, f, t, joinonly)))
  }

  /** Rows of the buffer hold no line feed, so neither does anything cut from them. */
  lemma ParagraphTextNoNewline(rows: seq<string>, f: nat, t: nat)
    requires ValidRows(rows) && f <= t < |rows|
    ensures NoNewline(ParagraphText(rows, f, t)) && NoNewline(StartIndent(rows[f]))
  {
    var tl := TrimAll(rows[f..t + 1]);
    forall j | 0 <= j < |tl|
      ensures NoNewline(tl[j])
    {
      TrimNoNewline(rows[f + j]);
    }
    JoinNoNewline(tl, " ");
  }

  /** Rejoining puts the paragraph on one row: its indent, then its trimmed rows joined by spaces. */
  lemma RejoinMakesOneRow(rows: seq<string>, cur: nat, sel: Option<(nat, nat)>)
    requires ValidRows(rows) && PositionsIn(rows, cur, sel)
    requires Paragraph(rows, cur, sel).Some? && Paragraph(rows, cur, sel).value.0 < Paragraph(rows, cur, sel).value.1
    ensures var (f, t) := Paragraph(rows, cur, sel).value;
      Rewrapped(rows, cur, sel, true) == Replace(rows, f, t, [StartIndent(rows[f]) + ParagraphText(rows, f, t)])
  {
    var (f, t) := Paragraph(rows, cur, sel).value;
    ParagraphTextNoNewline(rows, f, t);
    var line := StartIndent(rows[f]) + ParagraphText(rows, f, t);
    assert NoNewline(line) by {
      forall j | 0 <= j < |line|
        ensures line[j] != '\n'
      {
        if j >= |StartIndent(rows[f])| {
          assert line[j] == ParagraphText(rows, f, t)[j - |StartIndent(rows[f])|];
        }
      }
    }
    SplitSingle(line);
  }

  /** Rewrapping puts the wrapped lines, each behind the paragraph's indent, in place of the paragraph. */
  lemma RewrapMakesWrappedRows(rows: seq<string>, cur: nat, sel: Option<(nat, nat)>)
    requires ValidRows(rows) && PositionsIn(rows, cur, sel)
    requires Paragraph(rows, cur, sel).Some?
    ensures var (f, t) := Paragraph(rows, cur, sel).value;
      var indent := StartIndent(rows[f]);
      var lines := Indented(indent, WrapChunks(ParagraphText(rows, f, t), WrapColumn(indent), 0));
      Rewrapped(rows, cur, sel, false) == Replace(rows, f, t, if lines == [] then [""] else lines)
  {
    var (f, t) := Paragraph(rows, cur, sel).value;
    var indent := StartIndent(rows[f]);
    var text := ParagraphText(rows, f, t);
    var chunks := WrapChunks(text, WrapColumn(indent), 0);
    var lines := Indented(indent, chunks);
    if lines != [] {
      ParagraphTextNoNewline(rows, f, t);
      ChunksNoNewline(text, WrapColumn(indent), 0);
      IndentedNoNewlines(indent, chunks);
      SplitJoin(lines);
    }
  }

  /** One pass of the wrap loop adds a chunk without line feeds in front of the rest's chunks. */
  lemma ChunksNoNewlineStep(text: string, wc: int, count: nat, w: int, rest: string)
    requires |text| >= wc && count < MaxIterations && BreakPoint(text, wc) == Some(w)
    requires NoNewline(text) && rest == Trim(SubstrFrom(text, w)) && NoNewlines(WrapChunks(rest, wc, count + 1))
    ensures NoNewlines(WrapChunks(text, wc, count))
  {
    SubstrNoNewline(text, 0, w);
    WrapChunksUnfold(text, wc, count);
    NoNewlinesAppend([Substr(text, 0, w)], WrapChunks(rest, wc, count + 1));
  }

  /** Chunks are pieces of the text, so they hold no line feed when it holds none. */
  lemma {:induction false} ChunksNoNewline(text: string, wc: int, count: nat)
    requires NoNewline(text)
    ensures NoNewlines(WrapChunks(text, wc, count))
    decreases if count < MaxIterations then MaxIterations - count else 0
  {
    if |text| >= wc && count < MaxIterations && BreakPoint(text, wc).Some? {
      var w := BreakPoint(text, wc).value;
      var rest := Trim(SubstrFrom(text, w));
      SubstrNoNewline(text, w, |text|);
      TrimNoNewline(SubstrFrom(text, w));
      ChunksNoNewline(rest, wc, count + 1);
      ChunksNoNewlineStep(text, wc, count, w, rest);
    } else if |text| > 0 {
      assert WrapChunks(text, wc, count) == [text];
    }
  }

  lemma SubstrNoNewline(s: string, start: int, length: int)
    requires NoNewline(s)
    ensures NoNewline(Substr(s, start, length))
  {
    var from := if start < 0 then (if |s| + start < 0 then 0 else |s| + start) else if start > |s| then |s| else start;
    var n := if length < 0 then 0 else if length > |s| - from then |s| - from else length;
    NoNewlineSlice(s, from, from + n);
  }

  lemma IndentedNoNewlines(indent: string, chunks: seq<string>)
    requires NoNewline(indent) && NoNewlines(chunks)
    ensures NoNewlines(Indented(indent, chunks))
  {
    forall i | 0 <= i < |chunks|
      ensures NoNewline(Indented(indent, chunks)[i])
    {
      IndentedAt(indent, chunks, i);
      NoNewlineAppend(indent, chunks[i]);
    }
  }

  /** The first part of domyrewrap: the selected rows, or the paragraph around the cursor; None aborts the edit. */
  method FindParagraph(rows: seq<string>, cursorRow: nat, selection: Option<(nat, nat)>) returns (r: Option<(nat, nat)>)
    requires PositionsIn(rows, cursorRow, selection)
    ensures r == Paragraph(rows, cursorRow, selection)
  {
    var fromLine: nat := cursorRow;
    var toLine: nat := fromLine;
    if selection.Some? {
      fromLine := selection.value.0;
      toLine := selection.value.1;
      if fromLine > toLine {
        fromLine, toLine := toLine, fromLine;
      }
      return Some((fromLine, toLine));
    }
    if IsEmptyLine(rows[fromLine]) {
      return None;
    }
    fromLine := ScanUp(rows, cursorRow);
    var isitem := IsItemLine(rows[fromLine]);
    toLine := ScanDown(rows, cursorRow, isitem);
    return Some((fromLine, toLine));
  }

  /** The backward paragraph search: up from the cursor row while the paragraph continues. */
  method ScanUp(rows: seq<string>, cursorRow: nat) returns (fromLine: nat)
    requires cursorRow < |rows|
    ensures fromLine == ParagraphStart(rows, cursorRow)
  {
    fromLine := cursorRow;
    while Continues(rows, fromLine)
      invariant fromLine <= cursorRow
      invariant ParagraphStart(rows, fromLine) == ParagraphStart(rows, cursorRow)
      decreases fromLine
    {
      fromLine := fromLine - 1;
    }
  }

  /** The forward paragraph search: down from the cursor row while the paragraph extends. */
  method ScanDown(rows: seq<string>, cursorRow: nat, isitem: bool) returns (toLine: nat)
    requires cursorRow < |rows|
    ensures toLine == ParagraphEnd(rows, cursorRow, isitem)
  {
    toLine := cursorRow;
    while toLine < |rows| - 1 && Extends(rows, toLine + 1, isitem)
      invariant cursorRow <= toLine < |rows|
      invariant forall j :: cursorRow < j <= toLine ==> Extends(rows, j, isitem)
    {
      toLine := toLine + 1;
    }
    ParagraphEndIs(rows, cursorRow, isitem, toLine);
  }

  /** Each removed row trimmed in place. */
  method TrimLines(lines0: seq<string>) returns (lines: seq<string>)
    ensures lines == TrimAll(lines0)
  {
    lines := lines0;
    var i := 0;
    while i < |lines|
      invariant i <= |lines| == |lines0|
      invariant forall j :: 0 <= j < i ==> lines[j] == Trim(lines0[j])
      invariant forall j :: i <= j < |lines| ==> lines[j] == lines0[j]
    {
      lines := lines[i := Trim(lines[i])];
      i := i + 1;
    }
  }

  /** domyrewrap: rewrap (or, with joinonly, rejoin) the paragraph at the cursor or the selected rows. */
  method DoMyRewrap(e: Editor, joinonly: bool)
    requires e.Valid() && PositionsIn(e.rows, e.cursorRow, e.selection)
    modifies e`rows
    ensures e.Valid()
    ensures e.rows == Rewrapped(old(e.rows), e.cursorRow, e.selection, joinonly)
  {
    var bounds := FindParagraph(e.rows, e.cursorRow, e.selection);
    if bounds.None? {
      return;
    }
    var fromLine := bounds.value.0;
    var toLine := bounds.value.1;
    if fromLine == toLine && joinonly {
      return;
    }
    ReplaceParagraph(e, fromLine, toLine, joinonly);
  }

  /** The second part of domyrewrap: rows fromLine..toLine give way to the rejoined or rewrapped text. */
  method ReplaceParagraph(e: Editor, fromLine: nat, toLine: nat, joinonly: bool)
    requires e.Valid() && fromLine <= toLine < |e.rows|
    modifies e`rows
    ensures e.Valid()
    ensures e.rows == Replace(old(e.rows), fromLine, toLine, Split(NewText(old(e.rows), fromLine, toLine, joinonly)))
  {
    ghost var rows0 := e.rows;
    var startIndent := StartIndent(e.rows[fromLine]);
    var wrapColumn := WrapColumn(startIndent);
    var beginLine := if toLine == |e.rows| - 1 then "\n" else "";
    ghost var inserted := NewText(rows0, fromLine, toLine, joinonly);
    EditReplaces(rows0, fromLine, toLine, inserted);
    var lines := e.RemoveManyLines(fromLine, toLine);
    ghost var removed := lines;
    assert removed == rows0[fromLine..toLine + 1];
    lines := TrimLines(lines);
    var text := Join(lines, " ");
    assert text == ParagraphText(rows0, fromLine, toLine) by {
      assert lines == TrimAll(rows0[fromLine..toLine + 1]);
    }
    if joinonly {
      AppendAssoc(beginLine, startIndent, text);
      e.InsertLine(fromLine, beginLine + startIndent + text);
      return;
    }
    var newlines := WrapLines(text, startIndent, wrapColumn);
    assert Join(newlines, "\n") == inserted;
    e.InsertLine(fromLine, beginLine + Join(newlines, "\n"));
  }

  /** myrewrap. */
  method MyRewrap(e: Editor)
    requires e.Valid() && PositionsIn(e.rows, e.cursorRow, e.selection)
    modifies e`rows
    ensures e.Valid()
    ensures e.rows == Rewrapped(old(e.rows), e.cursorRow, e.selection, false)
  {
    DoMyRewrap(e, false);
  }

  /** myrejoin. */
  method MyRejoin(e: Editor)
    requires e.Valid() && PositionsIn(e.rows, e.cursorRow, e.selection)
    modifies e`rows
    ensures e.Valid()
    ensures e.rows == Rewrapped(old(e.rows), e.cursorRow, e.selection, true)
  {
    DoMyRewrap(e, true);
  }
}

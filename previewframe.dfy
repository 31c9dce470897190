/**
 * The frame-excerpt script: find the preamble (in the target file or in a
 * sibling file), cut the requested frame out of the target file, and assemble
 * a standalone document from the two. Files are given as their lines, each
 * line with its terminator, as `readlines` produces them.
 */
module PreviewFrame {
  import opened Wrappers
  import opened Strings

  /** The script's fixed name for the excerpt it writes. */
  const TempFile: string := "beamerprevframe.tex"
  /** has_preamble looks at no more than this many leading lines. */
  const PreambleWindow: nat := 20

  const ClassMarker: string := "\\documentclass"
  const BodyMarker: string := "\\begin{document}"
  const FrameBegin: string := "\\begin{frame}"
  const FrameShort: string := "\\frame{"
  const FrameEnd: string := "\\end{frame}"
  const DocumentOpen: string := "\\begin{document}\n"
  const DocumentClose: string := "\\end{document}\n"

  /** The two exceptions the script raises. */
  datatype Error = NoPreambleFound | NoFrameFound

  /** A file as read from disk: its path and its lines. */
  datatype SourceFile = SourceFile(path: string, lines: seq<string>)

  // ---------------------------------------------------------------------
  // Line classifiers
  // ---------------------------------------------------------------------

  /** Python's `\s` in a text pattern: the characters str.isspace accepts. */
  predicate IsSpace(c: char)
  {
    c == ' ' || ('\t' <= c <= '\r') || ('\U{1C}' <= c <= '\U{1F}') || c == '\U{85}' || c == '\U{A0}'
    || c == '\U{1680}' || ('\U{2000}' <= c <= '\U{200A}') || c == '\U{2028}' || c == '\U{2029}'
    || c == '\U{202F}' || c == '\U{205F}' || c == '\U{3000}'
  }

  /** Length of the run of whitespace that starts l. */
  function LeadingSpace(l: string): (k: nat)
    ensures k <= |l|
    ensures forall j :: 0 <= j < k ==> IsSpace(l[j])
    ensures k < |l| ==> !IsSpace(l[k])
  {
    if l == [] || !IsSpace(l[0]) then 0 else 1 + LeadingSpace(l[1..])
  }

  /** `re.match(r'\s*' + pat, l)`, computed by skipping the whole whitespace run. */
  predicate MatchesAfterSpace(l: string, pat: string)
  {
    IsPrefix(pat, l[LeadingSpace(l)..])
  }

  /** l starts with k whitespace characters followed by pat. */
  predicate SpaceThen(l: string, k: int, pat: string)
  {
    0 <= k <= |l| && (forall j :: 0 <= j < k ==> IsSpace(l[j])) && IsPrefix(pat, l[k..])
  }

  /**
   * Skipping the whole whitespace run is exact: for a pattern that starts with
   * a non-space, some split into whitespace and pattern exists iff the
   * maximal one works.
   */
  lemma MatchesAfterSpaceExact(l: string, pat: string)
    requires |pat| > 0 && !IsSpace(pat[0])
    ensures MatchesAfterSpace(l, pat) <==> exists k :: SpaceThen(l, k, pat)
  {
    var m := LeadingSpace(l);
    if MatchesAfterSpace(l, pat) {
      assert SpaceThen(l, m, pat);
    }
    forall k | SpaceThen(l, k, pat)
      ensures k == m
    {
      assert l[k..][0] == pat[0];
    }
  }

  /** `re.match(r'\s*\\documentclass', l)`. */
  predicate IsClassLine(l: string)
  {
    MatchesAfterSpace(l, ClassMarker)
  }

  /** `re.match(r'\s*\\begin\{document\}', l)`. */
  predicate IsBodyStart(l: string)
  {
    MatchesAfterSpace(l, BodyMarker)
  }

  /** `re.match(r'(\\begin\{frame\}|\\frame\{)', l)`: a frame opens at column 0. */
  predicate IsFrameOpen(l: string)
  {
    IsPrefix(FrameBegin, l) || IsPrefix(FrameShort, l)
  }

  /** `re.match(r'\\end\{frame\}', l)`: a frame closes at column 0. */
  predicate IsFrameClose(l: string)
  {
    IsPrefix(FrameEnd, l)
  }

  lemma OpenIsNotClose(l: string)
    ensures !(IsFrameOpen(l) && IsFrameClose(l))
  {
    if IsFrameClose(l) {
      assert l[1] == FrameEnd[1] == 'e';
      assert FrameBegin[1] == 'b' && FrameShort[1] == 'f';
    }
  }

  // ---------------------------------------------------------------------
  // Preamble discovery
  // ---------------------------------------------------------------------

  /** One of the first PreambleWindow lines declares the document class. */
  predicate DeclaresClass(lines: seq<string>)
  {
    exists i :: 0 <= i < |lines| && i < PreambleWindow && IsClassLine(lines[i])
  }

  /** Lines after the window are never examined. */
  lemma {:induction false} DeclaresClassIgnoresTail(lines: seq<string>, tail: seq<string>)
    requires |lines| >= PreambleWindow
    ensures DeclaresClass(lines) <==> DeclaresClass(lines[..PreambleWindow] + tail)
  {
    var other := lines[..PreambleWindow] + tail;
    if DeclaresClass(lines) {
      var i :| 0 <= i < |lines| && i < PreambleWindow && IsClassLine(lines[i]);
      assert other[i] == lines[i];
    }
    if DeclaresClass(other) {
      var i :| 0 <= i < |other| && i < PreambleWindow && IsClassLine(other[i]);
      assert other[i] == lines[i];
    }
  }

  /** has_preamble: counts the lines it visits and gives up after the window. */
  method HasPreamble(lines: seq<string>) returns (b: bool)
    ensures b == DeclaresClass(lines)
  {
    var i := 0;
    while i < |lines|
      invariant i <= |lines| && i <= PreambleWindow
      invariant forall k :: 0 <= k < i ==> !IsClassLine(lines[k])
    {
      var l := lines[i];
      i := i + 1;
      if i > PreambleWindow {
        break;
      }
      if IsClassLine(l) {
        return true;
      }
    }
    return false;
  }

  /** Index of the first line that starts the document body, or |lines| when none does. */
  function BodyStart(lines: seq<string>): (k: nat)
    ensures k <= |lines|
    ensures forall j :: 0 <= j < k ==> !IsBodyStart(lines[j])
    ensures k < |lines| ==> IsBodyStart(lines[k])
  {
    if lines == [] || IsBodyStart(lines[0]) then 0 else 1 + BodyStart(lines[1..])
  }

  /** The preamble: the text of every line before the body starts. */
  function Preamble(lines: seq<string>): string
  {
    Concat(lines[..BodyStart(lines)])
  }

  /** extract_pramble: accumulates lines until the body starts. */
  method ExtractPreamble(lines: seq<string>) returns (s: string)
    ensures s == Preamble(lines)
  {
    s := "";
    var i := 0;
    while i < |lines|
      invariant i <= BodyStart(lines)
      invariant s == Concat(lines[..i])
    {
      if IsBodyStart(lines[i]) {
        break;
      }
      assert lines[..i + 1][..i] == lines[..i];
      s := s + lines[i];
      i := i + 1;
    }
  }

  /** The preamble is a prefix of the whole file, and the whole file when the body never starts. */
  lemma PreambleIsPrefix(lines: seq<string>)
    ensures IsPrefix(Preamble(lines), Concat(lines))
    ensures BodyStart(lines) == |lines| ==> Preamble(lines) == Concat(lines)
  {
    var k := BodyStart(lines);
    ConcatPrefix(lines, k);
    if k == |lines| {
      assert lines[..k] == lines;
    }
  }

  /** os.path.basename: the part of a path after its last '/'. */
  function Basename(p: string): (b: string)
    ensures IsSuffix(b, p) && '/' !in b
    ensures |b| < |p| ==> p[|p| - |b| - 1] == '/'
  {
    if p == [] || p[|p| - 1] == '/' then []
    else
      var b := Basename(p[..|p| - 1]) + [p[|p| - 1]];
      assert p[..|p| - 1][|p| - |b|..] + [p[|p| - 1]] == p[|p| - |b|..];
      b
  }

  /** A sibling file whose preamble find_preamble may take. */
  predicate Eligible(file: string, c: SourceFile)
  {
    c.path != file && DeclaresClass(c.lines) && Basename(c.path) != TempFile
  }

  /** Index of the first eligible candidate at or after i, or |cands| when none is. */
  function FirstEligible(file: string, cands: seq<SourceFile>, i: nat): (k: nat)
    requires i <= |cands|
    ensures i <= k <= |cands|
    ensures forall j :: i <= j < k ==> !Eligible(file, cands[j])
    ensures k < |cands| ==> Eligible(file, cands[k])
    decreases |cands| - i
  {
    if i == |cands| || Eligible(file, cands[i]) then i else FirstEligible(file, cands, i + 1)
  }

  /**
   * Where the preamble comes from: the file itself when it declares its
   * class, otherwise the first eligible candidate in the order given.
   */
  function ChoosePreamble(file: string, lines: seq<string>, cands: seq<SourceFile>): (r: Result<string, Error>)
    ensures DeclaresClass(lines) ==> r == Ok(Preamble(lines))
    ensures r.Err? <==> !DeclaresClass(lines) && forall j :: 0 <= j < |cands| ==> !Eligible(file, cands[j])
    ensures r.Err? ==> r.error == NoPreambleFound
    ensures !DeclaresClass(lines) && r.Ok? ==>
      exists i :: 0 <= i < |cands| && Eligible(file, cands[i]) && r.value == Preamble(cands[i].lines)
        && forall j :: 0 <= j < i ==> !Eligible(file, cands[j])
  {
    if DeclaresClass(lines) then Ok(Preamble(lines))
    else
      var k := FirstEligible(file, cands, 0);
      if k < |cands| then Ok(Preamble(cands[k].lines)) else Err(NoPreambleFound)
  }

  /** find_preamble over the candidate files (the directory listing, in its own order). */
  method FindPreamble(file: string, lines: seq<string>, cands: seq<SourceFile>) returns (r: Result<string, Error>)
    ensures r == ChoosePreamble(file, lines, cands)
  {
    var own := HasPreamble(lines);
    if own {
      var p := ExtractPreamble(lines);
      return Ok(p);
    }
    var i := 0;
    while i < |cands|
      invariant i <= |cands|
      invariant FirstEligible(file, cands, i) == FirstEligible(file, cands, 0)
    {
      var c := cands[i];
      if file == c.path {
        i := i + 1;
        continue;
      }
      var has := HasPreamble(c.lines);
      if has {
        if Basename(c.path) == TempFile {
          i := i + 1;
          continue;
        }
        var p := ExtractPreamble(c.lines);
        return Ok(p);
      }
      i := i + 1;
    }
    return Err(NoPreambleFound);
  }

  // ---------------------------------------------------------------------
  // Frame boundaries
  // ---------------------------------------------------------------------

  /** Number of frame-open lines among lines[lo..hi]. */
  function CountOpen(lines: seq<string>, lo: int, hi: int): (n: nat)
    requires 0 <= lo <= hi <= |lines|
    ensures n <= hi - lo
    decreases hi - lo
  {
    if lo == hi then 0 else CountOpen(lines, lo, hi - 1) + (if IsFrameOpen(lines[hi - 1]) then 1 else 0)
  }

  lemma {:induction false} CountPositive(lines: seq<string>, lo: int, hi: int, j: int)
    requires 0 <= lo <= j < hi <= |lines| && IsFrameOpen(lines[j])
    ensures CountOpen(lines, lo, hi) >= 1
    decreases hi - lo
  {
    if j < hi - 1 {
      CountPositive(lines, lo, hi - 1, j);
    }
  }

  lemma {:induction false} CountZero(lines: seq<string>, lo: int, hi: int)
    requires 0 <= lo <= hi <= |lines|
    requires forall j :: lo <= j < hi ==> !IsFrameOpen(lines[j])
    ensures CountOpen(lines, lo, hi) == 0
    decreases hi - lo
  {
    if lo < hi {
      CountZero(lines, lo, hi - 1);
    }
  }

  /** A count above k passes through k on a frame-open line. */
  lemma {:induction false} CountPassesThrough(lines: seq<string>, lo: int, hi: int, k: nat) returns (j: nat)
    requires 0 <= lo <= hi <= |lines| && CountOpen(lines, lo, hi) > k
    ensures lo <= j < hi && IsFrameOpen(lines[j]) && CountOpen(lines, lo, j) == k
    decreases hi - lo
  {
    if CountOpen(lines, lo, hi - 1) > k {
      j := CountPassesThrough(lines, lo, hi - 1, k);
    } else {
      j := hi - 1;
    }
  }

  /** The scan counts frame-open lines from no further down than count 0. */
  function Need(count: int): nat
  {
    if count < 0 then 0 else count
  }

  /**
   * Scanning lines[i], lines[i-1], ..., lines[0]: the frame-open line with
   * exactly k further frame-open lines after it up to line i.
   */
  function OpenBack(lines: seq<string>, i: int, k: nat): (r: Option<nat>)
    requires i < |lines|
    ensures i < 0 ==> r.None?
    ensures i >= 0 ==> (r.None? <==> CountOpen(lines, 0, i + 1) <= k)
    ensures r.Some? ==> r.value <= i && IsFrameOpen(lines[r.value]) && CountOpen(lines, r.value + 1, i + 1) == k
    decreases if i < 0 then 0 else i + 1
  {
    if i < 0 then None
    else if IsFrameOpen(lines[i]) then (if k == 0 then Some(i) else OpenBack(lines, i - 1, k - 1))
    else OpenBack(lines, i - 1, k)
  }

  /**
   * The forward scan stops at line i when it opens a frame after at least
   * nafter opens, or closes one after exactly nafter opens.
   */
  predicate Stops(lines: seq<string>, linenum: nat, nafter: int, i: nat)
    requires linenum < i < |lines|
  {
    var n := CountOpen(lines, linenum + 1, i);
    (IsFrameOpen(lines[i]) && n >= nafter) || (IsFrameClose(lines[i]) && n == nafter)
  }

  /** The first line at or after i where the forward scan stops, or |lines|. */
  function FrameStop(lines: seq<string>, linenum: nat, nafter: int, i: nat): (e: nat)
    requires linenum < i <= |lines|
    ensures i <= e <= |lines|
    ensures e < |lines| ==> Stops(lines, linenum, nafter, e)
    ensures forall j :: i <= j < e ==> !Stops(lines, linenum, nafter, j)
    decreases |lines| - i
  {
    if i == |lines| || Stops(lines, linenum, nafter, i) then i else FrameStop(lines, linenum, nafter, i + 1)
  }

  /** The boundary lines of the excerpt: (begin_line, end_line), or None when no frame is found. */
  function FrameBounds(lines: seq<string>, linenum: int, nbefore: int, nafter: int): (r: Option<(nat, nat)>)
    requires linenum < |lines|
    ensures r.None? <==> linenum < 0 || CountOpen(lines, 0, linenum + 1) <= Need(nbefore)
    ensures r.Some? ==> r.value.0 <= linenum < r.value.1 <= |lines|
  {
    match OpenBack(lines, linenum, Need(nbefore))
    case None => None
    case Some(b) => Some((b, FrameStop(lines, linenum, nafter, linenum + 1)))
  }

  /** More frames after never move the end line back. */
  lemma EndLineMonotone(lines: seq<string>, linenum: nat, nafter: nat)
    requires linenum < |lines|
    ensures FrameStop(lines, linenum, nafter, linenum + 1) <= FrameStop(lines, linenum, nafter + 1, linenum + 1)
  {
    var e := FrameStop(lines, linenum, nafter, linenum + 1);
    var e' := FrameStop(lines, linenum, nafter + 1, linenum + 1);
    if e' < |lines| {
      var n := CountOpen(lines, linenum + 1, e');
      if IsFrameOpen(lines[e']) && n >= nafter + 1 {
        assert Stops(lines, linenum, nafter, e');
      } else {
        var j := CountPassesThrough(lines, linenum + 1, e', nafter);
        assert Stops(lines, linenum, nafter, j);
      }
    }
  }

  /**
   * For a negative nafter the end line is not monotone: a close line right
   * after the cursor stops the scan at nafter 0, but at nafter -1 no close
   * line ever stops it and the next frame's open line does.
   */
  lemma NegativeAfterNotMonotone(lines: seq<string>)
    requires lines == [FrameBegin + "\n", "x\n", FrameEnd + "\n", FrameBegin + "\n"]
    ensures FrameStop(lines, 1, 0, 2) == 2
    ensures FrameStop(lines, 1, -1, 2) == 3
  {
    assert IsFrameClose(lines[2]) && !IsFrameOpen(lines[2]) by {
      assert lines[2][..|FrameEnd|] == FrameEnd;
      OpenIsNotClose(lines[2]);
    }
    assert IsFrameOpen(lines[3]) by {
      assert lines[3][..|FrameBegin|] == FrameBegin;
    }
    assert CountOpen(lines, 2, 3) == 0;
    assert Stops(lines, 1, 0, 2);
    assert !Stops(lines, 1, -1, 2);
    assert Stops(lines, 1, -1, 3);
  }

  /**
   * With no frames before or after, a target line inside a frame whose body
   * holds no frame markers yields exactly that frame's open and close lines.
   */
  lemma SingleFrameBounds(lines: seq<string>, b: nat, e: nat, linenum: nat)
    requires b <= linenum < e < |lines|
    requires IsFrameOpen(lines[b]) && IsFrameClose(lines[e])
    requires forall j :: b < j < e ==> !IsFrameOpen(lines[j]) && !IsFrameClose(lines[j])
    ensures FrameBounds(lines, linenum, 0, 0) == Some((b, e))
  {
    CountPositive(lines, 0, linenum + 1, b);
    var r := OpenBack(lines, linenum, 0);
    var b' := r.value;
    if b' < b {
      CountPositive(lines, b' + 1, linenum + 1, b);
    }
    CountZero(lines, linenum + 1, e);
    OpenIsNotClose(lines[e]);
    assert Stops(lines, linenum, 0, e);
    var e' := FrameStop(lines, linenum, 0, linenum + 1);
  }

  // ---------------------------------------------------------------------
  // Boundary rewrites (the three re.sub calls)
  // ---------------------------------------------------------------------

  /** Where `$` matches: before a final line feed, else at the end. */
  function LineEnd(l: string): (e: nat)
    ensures e <= |l|
  {
    if |l| > 0 && l[|l| - 1] == '\n' then |l| - 1 else |l|
  }

  /** A frame marker starts at column k of l. */
  predicate OpensAt(l: string, k: int)
  {
    OccursAt(l, FrameBegin, k) || OccursAt(l, FrameShort, k)
  }

  /** The last column <= j where a frame marker starts, or -1. */
  function LastOpen(l: string, j: int): (k: int)
    requires -1 <= j <= |l|
    ensures -1 <= k <= j
    ensures k >= 0 ==> OpensAt(l, k)
    ensures forall q :: k < q <= j ==> !OpensAt(l, q)
  {
    var a := LastOccurrence(l, FrameBegin, j);
    var c := LastOccurrence(l, FrameShort, j);
    if a >= c then a else c
  }

  /**
   * `re.sub(r'^.*(\\begin\{frame\}|\\frame\{)', r'\1', l)`: `.` stops at a line
   * feed, so the line keeps what follows its last marker before the first line feed.
   */
  function TrimBegin(l: string): (t: string)
    requires IsFrameOpen(l)
    ensures IsSuffix(t, l) && IsFrameOpen(t)
    ensures |l| - |t| == LastOpen(l, FirstNewline(l))
  {
    assert OpensAt(l, 0);
    var k := LastOpen(l, FirstNewline(l));
    assert k >= 0;
    l[k..]
  }

  /** `re.sub(r'^(.*)(\\begin\{frame\}|\\frame\{).*$', r'\1', l)`: the text before the last marker. */
  function TrimEndOpen(l: string): (t: string)
    requires IsFrameOpen(l)
    ensures FirstNewline(l) < LineEnd(l) ==> t == l
    ensures FirstNewline(l) >= LineEnd(l) ==> IsSuffix(l[LineEnd(l)..], t) && IsPrefix(t[..|t| - (|l| - LineEnd(l))], l)
    ensures FirstNewline(l) >= LineEnd(l) ==> |t| - (|l| - LineEnd(l)) == LastOpen(l, LineEnd(l))
  {
    var e := LineEnd(l);
    if FirstNewline(l) < e then l
    else
      assert OpensAt(l, 0);
      var k := LastOpen(l, e);
      assert (l[..k] + l[e..])[..k] == l[..k];
      l[..k] + l[e..]
  }

  /** `re.sub(r'^(.*\\end\{frame\}).*$', r'\1', l)`: the text up to the last close marker. */
  function TrimEndClose(l: string): (t: string)
    requires IsFrameClose(l)
    ensures FirstNewline(l) < LineEnd(l) ==> t == l
    ensures FirstNewline(l) >= LineEnd(l) ==> IsSuffix(FrameEnd + l[LineEnd(l)..], t)
    ensures FirstNewline(l) >= LineEnd(l) ==>
      |t| - (|l| - LineEnd(l)) == LastOccurrence(l, FrameEnd, LineEnd(l)) + |FrameEnd|
      && IsPrefix(t[..|t| - (|l| - LineEnd(l))], l)
  {
    var e := LineEnd(l);
    if FirstNewline(l) < e then l
    else
      assert OccursAt(l, FrameEnd, 0);
      var k := LastOccurrence(l, FrameEnd, e);
      assert l[k..][..|FrameEnd|] == l[k..k + |FrameEnd|];
      l[..k + |FrameEnd|] + l[e..]
  }

  /** The lines after extract_frame's in-place rewrite of the two boundary lines. */
  function BoundaryRewrite(lines: seq<string>, b: nat, e: nat): (r: seq<string>)
    requires b < e <= |lines| && IsFrameOpen(lines[b])
    requires e < |lines| ==> IsFrameOpen(lines[e]) || IsFrameClose(lines[e])
    ensures |r| == |lines|
    ensures forall j :: 0 <= j < |lines| && j != b && j != e ==> r[j] == lines[j]
    ensures r[b] == TrimBegin(lines[b])
    ensures e < |lines| ==> r[e] == EndRewrite(lines[e])
  {
    var r := lines[b := TrimBegin(lines[b])];
    if e == |lines| then r else r[e := EndRewrite(lines[e])]
  }

  /** The rewrite of the end line: line 80 for a line that opens the next frame, line 86 for a close. */
  function EndRewrite(l: string): string
    requires IsFrameOpen(l) || IsFrameClose(l)
  {
    if IsFrameOpen(l) then TrimEndOpen(l) else TrimEndClose(l)
  }

  function Min(a: int, b: int): int
  {
    if a <= b then a else b
  }

  /** The text of lines[b..e] (clamped to the file) once the boundary lines are rewritten. */
  function Excerpt(lines: seq<string>, b: nat, e: nat): string
    requires b < e <= |lines| && IsFrameOpen(lines[b])
    requires e < |lines| ==> IsFrameOpen(lines[e]) || IsFrameClose(lines[e])
  {
    Concat(BoundaryRewrite(lines, b, e)[b..Min(e + 1, |lines|)])
  }

  /** The excerpt is the rewritten begin line, the lines strictly between verbatim, then the rewritten end line. */
  lemma ExcerptText(lines: seq<string>, b: nat, e: nat)
    requires b < e <= |lines| && IsFrameOpen(lines[b])
    requires e < |lines| ==> IsFrameOpen(lines[e]) || IsFrameClose(lines[e])
    ensures Excerpt(lines, b, e)
         == TrimBegin(lines[b]) + Concat(lines[b + 1..e]) + (if e < |lines| then EndRewrite(lines[e]) else "")
  {
    var r := BoundaryRewrite(lines, b, e);
    assert r[b + 1..e] == lines[b + 1..e];
    if e < |lines| {
      ConcatAround(r, b, e);
    } else {
      ConcatAround(r, b, |r|);
    }
  }

  /** What extract_frame returns. */
  function FrameText(lines: seq<string>, linenum: int, nbefore: int, nafter: int): Result<string, Error>
    requires linenum < |lines|
  {
    var bounds := FrameBounds(lines, linenum, nbefore, nafter);
    if bounds.None? then Err(NoFrameFound)
    else
      Ok(Excerpt(lines, bounds.value.0, bounds.value.1))
  }

  /** What extract_frame leaves in the caller's list. */
  function FrameRewrite(lines: seq<string>, linenum: int, nbefore: int, nafter: int): seq<string>
    requires linenum < |lines|
  {
    var bounds := FrameBounds(lines, linenum, nbefore, nafter);
    if bounds.None? then lines else BoundaryRewrite(lines, bounds.value.0, bounds.value.1)
  }

  /** The excerpt starts with a frame marker: the rewritten begin line comes first. */
  lemma ExcerptOpensFrame(lines: seq<string>, b: nat, e: nat)
    requires b < e <= |lines| && IsFrameOpen(lines[b])
    requires e < |lines| ==> IsFrameOpen(lines[e]) || IsFrameClose(lines[e])
    ensures IsFrameOpen(Excerpt(lines, b, e))
  {
    ExcerptText(lines, b, e);
    OpensBeforeAnything(Excerpt(lines, b, e), TrimBegin(lines[b]), Concat(lines[b + 1..e]),
      if e < |lines| then EndRewrite(lines[e]) else "");
  }

  /** A text that starts with a line that opens a frame opens a frame itself. */
  lemma OpensBeforeAnything(x: string, first: string, mid: string, last: string)
    requires x == first + mid + last && IsFrameOpen(first)
    ensures IsFrameOpen(x)
  {
    assert x == first + (mid + last);
    PrefixOfAppend(first, mid + last);
    if IsPrefix(FrameBegin, first) {
      PrefixTransitive(FrameBegin, first, x);
    } else {
      PrefixTransitive(FrameShort, first, x);
    }
  }

  /**
   * The backward scan of extract_frame: from linenum down, skip nbefore
   * frame-open lines, and rewrite the next one in place as the begin line.
   */
  method ScanBack(lines: array<string>, linenum: int, nbefore: int) returns (found: bool, beginLine: nat)
    requires linenum < lines.Length
    modifies lines
    ensures found <==> OpenBack(old(lines[..]), linenum, Need(nbefore)).Some?
    ensures found ==> OpenBack(old(lines[..]), linenum, Need(nbefore)) == Some(beginLine)
    ensures found ==> beginLine < lines.Length && lines[..] == old(lines[..])[beginLine := TrimBegin(old(lines[beginLine]))]
    ensures !found ==> lines[..] == old(lines[..])
  {
    ghost var orig := lines[..];
    ghost var k := Need(nbefore);
    beginLine := 0;
    var n := 0;
    found := false;
    var i := linenum;
    while i >= 0
      invariant i <= linenum
      invariant lines[..] == orig
      invariant 0 <= n <= k
      invariant OpenBack(orig, linenum, k) == OpenBack(orig, i, k - n)
      decreases i + 1
    {
      if IsFrameOpen(lines[i]) {
        if n >= nbefore {
          lines[i] := TrimBegin(lines[i]);
          beginLine := i;
          found := true;
          return;
        }
        n := n + 1;
      }
      i := i - 1;
    }
  }

  /**
   * The forward scan of extract_frame: from the line after start, find where
   * the excerpt ends and rewrite that line in place.
   */
  method ScanForward(lines: array<string>, start: nat, nafter: int, ghost beginLine: nat, ghost orig: seq<string>)
    returns (endLine: nat)
    requires beginLine <= start < lines.Length == |orig| && IsFrameOpen(orig[beginLine])
    requires lines[..] == orig[beginLine := TrimBegin(orig[beginLine])]
    modifies lines
    ensures endLine == FrameStop(orig, start, nafter, start + 1)
    ensures start < endLine <= lines.Length
    ensures lines[..] == BoundaryRewrite(orig, beginLine, endLine)
  {
    endLine := lines.Length;
    var n := 0;
    var i := start + 1;
    while i < lines.Length
      invariant start + 1 <= i <= lines.Length
      invariant lines[..] == orig[beginLine := TrimBegin(orig[beginLine])]
      invariant n == CountOpen(orig, start + 1, i)
      invariant FrameStop(orig, start, nafter, start + 1) == FrameStop(orig, start, nafter, i)
    {
      assert lines[i] == orig[i];
      OpenIsNotClose(lines[i]);
      if IsFrameOpen(lines[i]) {
        if n >= nafter {
          lines[i] := TrimEndOpen(lines[i]);
          endLine := i;
          return;
        }
        n := n + 1;
      }
      if nafter == n && IsFrameClose(lines[i]) {
        lines[i] := TrimEndClose(lines[i]);
        endLine := i;
        return;
      }
      i := i + 1;
    }
  }

  /**
   * extract_frame: scans back for the (nbefore+1)-th frame-open line, then
   * forward for the terminator, rewriting both boundary lines in place.
   */
  method ExtractFrame(lines: array<string>, linenum: int, nbefore: int, nafter: int) returns (r: Result<string, Error>)
    requires linenum < lines.Length
    modifies lines
    ensures r == FrameText(old(lines[..]), linenum, nbefore, nafter)
    ensures lines[..] == FrameRewrite(old(lines[..]), linenum, nbefore, nafter)
  {
    ghost var orig := lines[..];
    var found, beginLine := ScanBack(lines, linenum, nbefore);
    if !found {
      assert FrameBounds(orig, linenum, nbefore, nafter).None?;
      assert FrameText(orig, linenum, nbefore, nafter) == Err(NoFrameFound);
      return Err(NoFrameFound);
    }
    var start: nat := linenum;
    var endLine := ScanForward(lines, start, nafter, beginLine, orig);
    assert FrameBounds(orig, linenum, nbefore, nafter) == Some((beginLine, endLine));
    ghost var rewritten := BoundaryRewrite(orig, beginLine, endLine);
    assert FrameRewrite(orig, linenum, nbefore, nafter) == rewritten;
    var excerpt := lines[beginLine..Min(endLine + 1, lines.Length)];
    assert excerpt == rewritten[beginLine..Min(endLine + 1, |orig|)];
    ghost var text := Excerpt(orig, beginLine, endLine);
    assert FrameText(orig, linenum, nbefore, nafter) == Ok(text);
    ExcerptText(orig, beginLine, endLine);
    r := Ok(Concat(excerpt));
  }

  // ---------------------------------------------------------------------
  // Assembly
  // ---------------------------------------------------------------------

  /** The excerpt document: preamble, body start, frame text, body end. */
  function Assemble(preamble: string, frame: string): string
  {
    preamble + DocumentOpen + frame + DocumentClose
  }

  /** The file the preamble is looked for in: the main file when one is named, else the target. */
  function PreambleSource(texfile: SourceFile, mainfile: Option<SourceFile>): SourceFile
  {
    if mainfile.Some? && mainfile.value.path != "" then mainfile.value else texfile
  }

  /** What create_prevfile writes, or the exception it raises first. */
  function Prevfile(texfile: SourceFile, mainfile: Option<SourceFile>, cands: seq<SourceFile>,
                    linenum: int, nbefore: int, nafter: int): (r: Result<string, Error>)
    requires linenum < |texfile.lines|
    ensures var pre := PreambleSource(texfile, mainfile);
      && (r == Err(NoPreambleFound) <==> ChoosePreamble(pre.path, pre.lines, cands).Err?)
      && (r == Err(NoFrameFound) <==> ChoosePreamble(pre.path, pre.lines, cands).Ok?
                                      && FrameText(texfile.lines, linenum, nbefore, nafter).Err?)
  {
    var pre := PreambleSource(texfile, mainfile);
    match ChoosePreamble(pre.path, pre.lines, cands)
    case Err(err) => Err(err)
    case Ok(p) =>
      match FrameText(texfile.lines, linenum, nbefore, nafter)
      case Err(err) => Err(err)
      case Ok(t) => Ok(Assemble(p, t))
  }

  /** The assembled document starts with the preamble and the body start, and ends with the frame and the body end. */
  lemma AssembleLayout(preamble: string, frame: string)
    ensures IsPrefix(preamble + DocumentOpen, Assemble(preamble, frame))
    ensures IsSuffix(frame + DocumentClose, Assemble(preamble, frame))
  {
    var head, tail := preamble + DocumentOpen, frame + DocumentClose;
    assert Assemble(preamble, frame) == head + tail;
    PrefixOfAppend(head, tail);
    SuffixOfAppend(head, tail);
  }

  /** The assembled document starts with the chosen preamble and ends with the body end. */
  lemma PrevfileLayout(texfile: SourceFile, mainfile: Option<SourceFile>, cands: seq<SourceFile>,
                       linenum: int, nbefore: int, nafter: int)
    requires linenum < |texfile.lines|
    requires Prevfile(texfile, mainfile, cands, linenum, nbefore, nafter).Ok?
    ensures var pre := PreambleSource(texfile, mainfile);
      var doc := Prevfile(texfile, mainfile, cands, linenum, nbefore, nafter).value;
      && IsPrefix(ChoosePreamble(pre.path, pre.lines, cands).value + DocumentOpen, doc)
      && IsSuffix(FrameText(texfile.lines, linenum, nbefore, nafter).value + DocumentClose, doc)
  {
    var pre := PreambleSource(texfile, mainfile);
    AssembleLayout(ChoosePreamble(pre.path, pre.lines, cands).value, FrameText(texfile.lines, linenum, nbefore, nafter).value);
  }

  /** create_prevfile, from the files' lines onward. */
  method CreatePrevfile(texfile: SourceFile, mainfile: Option<SourceFile>, cands: seq<SourceFile>,
                        linenum: int, nbefore: int, nafter: int) returns (r: Result<string, Error>)
    requires linenum < |texfile.lines|
    ensures r == Prevfile(texfile, mainfile, cands, linenum, nbefore, nafter)
  {
    var lines := new string[|texfile.lines|](j requires 0 <= j < |texfile.lines| => texfile.lines[j]);
    assert lines[..] == texfile.lines;
    var pre := PreambleSource(texfile, mainfile);
    var p := FindPreamble(pre.path, pre.lines, cands);
    if p.Err? {
      return Err(p.error);
    }
    var t := ExtractFrame(lines, linenum, nbefore, nafter);
    if t.Err? {
      return Err(t.error);
    }
    return Ok(Assemble(p.value, t.value));
  }

  /** The script turns the 1-based line number it is given into a list index. */
  function LineIndex(lineArgument: int): int
  {
    lineArgument - 1
  }
}

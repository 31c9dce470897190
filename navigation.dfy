/**
 * The editor package's own logic: moving the cursor between frames, and the
 * line number the preview command hands to the excerpt script.
 */
module BeamerSlide {
  import opened Wrappers
  import opened Strings
  import PreviewFrame

  // ---------------------------------------------------------------------
  // Frame navigation
  // ---------------------------------------------------------------------

  /**
   * The navigation pattern `\\begin\{frame\}|\\frame\{`, searched anywhere in
   * the row (unlike the excerpt script, which only looks at column 0).
   */
  predicate MentionsFrame(line: string)
  {
    Contains(line, PreviewFrame.FrameBegin) || Contains(line, PreviewFrame.FrameShort)
  }

  /** The scan that started at row `start` stops at `row`: a frame row other than the one just above the start. */
  predicate Stop(rows: seq<string>, start: int, row: int)
  {
    0 <= row < |rows| && MentionsFrame(rows[row]) && row + 1 != start
  }

  /** The two commands: previous frame (-1) and next frame (+1). */
  predicate IsStep(step: int)
  {
    step == 1 || step == -1
  }

  /**
   * Where the scan that started at `start` stops, looking at `row` and on in
   * the direction of `step`; None when it leaves the buffer first.
   */
  function ScanFrom(rows: seq<string>, start: int, step: int, row: int): (r: Option<nat>)
    requires (step == 1 && 0 <= row <= |rows|) || (step == -1 && -1 <= row < |rows|)
    ensures step == 1 && r.Some? ==>
      row <= r.value && Stop(rows, start, r.value) && forall j :: row <= j < r.value ==> !Stop(rows, start, j)
    ensures step == 1 && r.None? ==> forall j :: row <= j < |rows| ==> !Stop(rows, start, j)
    ensures step == -1 && r.Some? ==>
      r.value <= row && Stop(rows, start, r.value) && forall j :: r.value < j <= row ==> !Stop(rows, start, j)
    ensures step == -1 && r.None? ==> forall j :: 0 <= j <= row ==> !Stop(rows, start, j)
    decreases if step == 1 then |rows| - row else row + 1
  {
    if row < 0 || row >= |rows| then None
    else if Stop(rows, start, row) then Some(row)
    else ScanFrom(rows, start, step, row + step)
  }

  /**
   * The position the editor puts the cursor at when asked for (row, column):
   * a column past the end of its row is clipped to the row's end, and a row
   * past the last one to the end of the buffer.
   */
  function Clip(rows: seq<string>, row: nat, column: nat): (p: (nat, nat))
    requires |rows| >= 1
    ensures p.0 < |rows| && p.1 <= |rows[p.0]|
    ensures row < |rows| ==> p.0 == row && p.1 == if column <= |rows[row]| then column else |rows[row]|
    ensures row >= |rows| ==> p == (|rows| - 1, |rows[|rows| - 1]|)
  {
    if row < |rows| then (row, if column <= |rows[row]| then column else |rows[row]|)
    else (|rows| - 1, |rows[|rows| - 1]|)
  }

  /** The cursor after navFrame(step): column 0 of the row after the stop, or unchanged when there is none. */
  function Target(rows: seq<string>, start: nat, column: nat, step: int): (p: (nat, nat))
    requires start < |rows| && IsStep(step)
  {
    match ScanFrom(rows, start, step, start)
    case None => (start, column)
    case Some(r) => Clip(rows, r + 1, 0)
  }

  /** The editor as navFrame sees it: its rows (one per screen row) and the cursor. */
  class ScreenEditor {
    var rows: seq<string>
    var cursorRow: nat
    var cursorColumn: nat

    ghost predicate Valid()
      reads this
    {
      |rows| >= 1 && cursorRow < |rows| && cursorColumn <= |rows[cursorRow]|
    }

    constructor (rows0: seq<string>, row: nat, column: nat)
      requires |rows0| >= 1 && row < |rows0| && column <= |rows0[row]|
      ensures Valid()
      ensures rows == rows0 && cursorRow == row && cursorColumn == column
    {
      rows := rows0;
      cursorRow := row;
      cursorColumn := column;
    }

    /** navFrame: scan from the cursor's row in the direction of step and move past the first stop. */
    method NavFrame(step: int)
      requires Valid() && IsStep(step)
      modifies this`cursorRow, this`cursorColumn
      ensures Valid()
      ensures (cursorRow, cursorColumn) == Target(rows, old(cursorRow), old(cursorColumn), step)
    {
      var startrow := cursorRow;
      var lastrow := |rows| - 1;
      var foundBeginFrame := false;
      var row: int := startrow;
      while row >= 0 && row <= lastrow
        invariant -1 <= row <= |rows|
        invariant ScanFrom(rows, startrow, step, row) == ScanFrom(rows, startrow, step, startrow)
        decreases if step == 1 then |rows| - row else row + 1
      {
        if MentionsFrame(rows[row]) && row + 1 != startrow {
          foundBeginFrame := true;
          break;
        }
        row := row + step;
      }
      if foundBeginFrame {
        assert ScanFrom(rows, startrow, step, startrow) == Some(row);
        cursorRow, cursorColumn := Clip(rows, row + 1, 0).0, Clip(rows, row + 1, 0).1;
      }
    }
  }

  /** Next frame lands just after the first frame row at or below the cursor. */
  lemma NextFrameLands(rows: seq<string>, start: nat, column: nat, f: nat)
    requires start <= f < |rows| && MentionsFrame(rows[f])
    requires forall j :: start <= j < f ==> !MentionsFrame(rows[j])
    ensures Target(rows, start, column, 1) == Clip(rows, f + 1, 0)
  {
    assert Stop(rows, start, f);
  }

  /** Next frame leaves the cursor where it is when no frame row is at or below it. */
  lemma NextFrameStays(rows: seq<string>, start: nat, column: nat)
    requires start < |rows|
    requires forall j :: start <= j < |rows| ==> !MentionsFrame(rows[j])
    ensures Target(rows, start, column, 1) == (start, column)
  {
  }

  /**
   * Previous frame, from the row just below a frame row b (where next frame
   * puts the cursor), skips b and lands just after the frame row before it.
   */
  lemma PreviousFrameLands(rows: seq<string>, b: nat, column: nat, p: nat)
    requires p < b < |rows| - 1 && MentionsFrame(rows[p])
    requires forall j :: p < j < b ==> !MentionsFrame(rows[j])
    requires !MentionsFrame(rows[b + 1])
    ensures Target(rows, b + 1, column, -1) == Clip(rows, p + 1, 0)
  {
    var start := b + 1;
    assert Stop(rows, start, p);
  }

  /** Previous frame leaves the cursor where it is when no frame row is above it, except the one just above. */
  lemma PreviousFrameStays(rows: seq<string>, start: nat, column: nat)
    requires start < |rows|
    requires forall j :: 0 <= j <= start && j + 1 != start ==> !MentionsFrame(rows[j])
    ensures Target(rows, start, column, -1) == (start, column)
  {
  }

  /** On a frame row itself, both commands move the cursor one row down: the scan stops at once. */
  lemma OnFrameRowMovesDown(rows: seq<string>, start: nat, column: nat, step: int)
    requires start < |rows| && MentionsFrame(rows[start]) && IsStep(step)
    ensures Target(rows, start, column, step) == Clip(rows, start + 1, 0)
  {
  }

  /** Repeating next frame visits the frame rows in order: from just after one, it lands just after the next. */
  lemma NextFrameAdvances(rows: seq<string>, f: nat, g: nat, column: nat)
    requires f < g < |rows| && MentionsFrame(rows[f]) && MentionsFrame(rows[g])
    requires forall j :: f < j < g ==> !MentionsFrame(rows[j])
    ensures Target(rows, f, column, 1) == Clip(rows, f + 1, 0)
    ensures Target(rows, f + 1, 0, 1) == Clip(rows, g + 1, 0)
  {
    OnFrameRowMovesDown(rows, f, column, 1);
    NextFrameLands(rows, f + 1, 0, g);
  }

  // ---------------------------------------------------------------------
  // Preview hand-off
  // ---------------------------------------------------------------------

  /** The preview command passes the cursor's buffer row, counted from 1, as the script's line argument. */
  function PreviewLineArgument(row: nat): int
  {
    row + 1
  }

  /** A prefix without line feeds is a prefix of a row exactly when it is one of the row with its line feed. */
  lemma PrefixIgnoresNewline(p: string, l: string)
    requires NoNewline(p)
    ensures IsPrefix(p, l + "\n") <==> IsPrefix(p, l)
  {
    if |p| <= |l| {
      assert (l + "\n")[..|p|] == l[..|p|];
    } else if |p| == |l| + 1 {
      assert (l + "\n")[..|p|][|l|] == '\n';
    }
  }

  /** The excerpt script's frame markers are recognised on a row with or without its line feed. */
  lemma MarkersIgnoreNewline(l: string)
    ensures PreviewFrame.IsFrameOpen(l + "\n") <==> PreviewFrame.IsFrameOpen(l)
    ensures PreviewFrame.IsFrameClose(l + "\n") <==> PreviewFrame.IsFrameClose(l)
  {
    PrefixIgnoresNewline(PreviewFrame.FrameBegin, l);
    PrefixIgnoresNewline(PreviewFrame.FrameShort, l);
    PrefixIgnoresNewline(PreviewFrame.FrameEnd, l);
  }

  /**
   * The script, reading the saved buffer line by line, looks at the cursor's
   * own row: the index it computes from the argument is that row, the line
   * there is the row (with its line feed) and the frame markers at column 0
   * are recognised on it exactly as on the row. A buffer's last row is left
   * out when it is empty, and then it is the only one the script cannot see.
   */
  lemma PreviewSeesCursorRow(rows: seq<string>, row: nat)
    requires row < |rows| && NoNewlines(rows)
    requires row < |rows| - 1 || rows[row] != ""
    ensures var lines := ReadLines(Join(rows, "\n"));
      var i := PreviewFrame.LineIndex(PreviewLineArgument(row));
      && i == row && i < |lines|
      && lines[i] == (if row < |rows| - 1 then rows[row] + "\n" else rows[row])
      && (PreviewFrame.IsFrameOpen(lines[i]) <==> PreviewFrame.IsFrameOpen(rows[row]))
      && (PreviewFrame.IsFrameClose(lines[i]) <==> PreviewFrame.IsFrameClose(rows[row]))
  {
    ReadLinesOfJoin(rows);
    assert ReadLines(Join(rows, "\n"))[row] == (if row < |rows| - 1 then rows[row] + "\n" else rows[row]);
    MarkersIgnoreNewline(rows[row]);
  }

  /**
   * With the cursor on an empty last row, the index the script computes is
   * one past its last line, outside what extract_frame accepts: the script
   * stops with an index error.
   */
  lemma PreviewPastLastLine(rows: seq<string>)
    requires |rows| >= 1 && rows[|rows| - 1] == "" && NoNewlines(rows)
    ensures PreviewFrame.LineIndex(PreviewLineArgument(|rows| - 1)) == |ReadLines(Join(rows, "\n"))|
  {
    ReadLinesOfJoin(rows);
  }
}

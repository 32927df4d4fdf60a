/**
 * Split-view row pairing (pairLines, its flush closure and splitDiffHunks in
 * src/lib/splitDiff.ts). A hunk's line stream is scanned once: '-' lines
 * are buffered on the left, '+' lines on the right, and every other line
 * first flushes both buffers (zipping them index by index) and then becomes
 * a mirrored row. Paired rows carry the intraline segments of both sides.
 *
 * The specification functions take the intraline highlighter as a
 * parameter: which lines land in which rows does not depend on it, and
 * pairLines computes the instance `Pairing`, whose highlighter is
 * `Highlight`.
 */
module SplitDiff {
  import opened DiffTypes
  import opened MinMax
  import opened InlineSegments

  /** One side-by-side row; the segment lists are present only on a true pairing. */
  datatype SplitDiffRow = SplitDiffRow(
    left: Option<DiffLine>,
    right: Option<DiffLine>,
    leftSegments: Option<seq<InlineSegment>>,
    rightSegments: Option<seq<InlineSegment>>)

  datatype SplitHunk = SplitHunk(
    header: string,
    oldStart: int,
    oldLines: int,
    newStart: int,
    newLines: int,
    rows: seq<SplitDiffRow>)

  /** An intraline highlighter: the segment lists for an old and a new text. */
  type Highlighter = (string, string) -> (seq<InlineSegment>, seq<InlineSegment>)

  /** What rows need from a highlighter: each side's segments spell out that side's text, with no empty segment. */
  ghost predicate SoundHighlighter(hl: Highlighter)
  {
    forall oldText: string, newText: string ::
      && Concat(hl(oldText, newText).0) == oldText
      && Concat(hl(oldText, newText).1) == newText
      && NoEmptySegment(hl(oldText, newText).0)
      && NoEmptySegment(hl(oldText, newText).1)
  }

  /** computeInlineSegments is a sound highlighter. */
  lemma HighlightSound()
    ensures SoundHighlighter(Highlight)
  {
    forall oldText: string, newText: string
      ensures && Concat(Highlight(oldText, newText).0) == oldText
              && Concat(Highlight(oldText, newText).1) == newText
              && NoEmptySegment(Highlight(oldText, newText).0)
              && NoEmptySegment(Highlight(oldText, newText).1)
    {
      HighlightShape(oldText, newText);
    }
  }

  // ---------------------------------------------------------------------
  // Specification of the pairing
  // ---------------------------------------------------------------------

  /** Element `i` of a buffer, or nothing past its end. */
  function At(buffer: seq<DiffLine>, i: int): Option<DiffLine>
  {
    if 0 <= i < |buffer| then Some(buffer[i]) else None
  }

  /** The row flush builds from one left and one right candidate. */
  function PairedRow(left: Option<DiffLine>, right: Option<DiffLine>, hl: Highlighter): SplitDiffRow
  {
    if left.Some? && right.Some? then
      var segs := hl(left.value.content, right.value.content);
      SplitDiffRow(left, right, Some(segs.0), Some(segs.1))
    else
      SplitDiffRow(left, right, None, None)
  }

  /** The rows a flush emits from row `i` on: row `i` pairs element `i` of each buffer. */
  function FlushFrom(delBuffer: seq<DiffLine>, addBuffer: seq<DiffLine>, i: nat, hl: Highlighter): (rows: seq<SplitDiffRow>)
    ensures |rows| == if i >= Max(|delBuffer|, |addBuffer|) then 0 else Max(|delBuffer|, |addBuffer|) - i
    decreases Max(|delBuffer|, |addBuffer|) - i
  {
    if i >= Max(|delBuffer|, |addBuffer|) then []
    else [PairedRow(At(delBuffer, i), At(addBuffer, i), hl)] + FlushFrom(delBuffer, addBuffer, i + 1, hl)
  }

  /** The rows one flush emits: the two buffers zipped, the shorter one padded with absent sides. */
  function FlushRows(delBuffer: seq<DiffLine>, addBuffer: seq<DiffLine>, hl: Highlighter): (rows: seq<SplitDiffRow>)
    ensures |rows| == Max(|delBuffer|, |addBuffer|)
  {
    FlushFrom(delBuffer, addBuffer, 0, hl)
  }

  /** The row a context line becomes: the same line on both sides, no segments. */
  function MirrorRow(line: DiffLine): SplitDiffRow
  {
    SplitDiffRow(Some(line), Some(line), None, None)
  }

  /**
   * The scan over the remaining `lines` with the buffers built so far. It
   * emits at most one row per line, buffered lines included.
   */
  function Scan(lines: seq<DiffLine>, delBuffer: seq<DiffLine>, addBuffer: seq<DiffLine>, hl: Highlighter): (rows: seq<SplitDiffRow>)
    ensures |rows| <= |lines| + |delBuffer| + |addBuffer|
    decreases |lines|
  {
    if lines == [] then FlushRows(delBuffer, addBuffer, hl)
    else
      match Classify(lines[0].origin)
      case Deletion => Scan(lines[1..], delBuffer + [lines[0]], addBuffer, hl)
      case Addition => Scan(lines[1..], delBuffer, addBuffer + [lines[0]], hl)
      case Other(_) => FlushRows(delBuffer, addBuffer, hl) + ([MirrorRow(lines[0])] + Scan(lines[1..], [], [], hl))
  }

  /** The rows pairLines returns for a hunk's lines: never more rows than lines. */
  function Pairing(lines: seq<DiffLine>): (rows: seq<SplitDiffRow>)
    ensures |rows| <= |lines|
  {
    Scan(lines, [], [], Highlight)
  }

  // ---------------------------------------------------------------------
  // Views of lines and rows used to state conservation
  // ---------------------------------------------------------------------

  function Deletions(lines: seq<DiffLine>): seq<DiffLine>
  {
    if lines == [] then []
    else (if Classify(lines[0].origin) == Deletion then [lines[0]] else []) + Deletions(lines[1..])
  }

  function Additions(lines: seq<DiffLine>): seq<DiffLine>
  {
    if lines == [] then []
    else (if Classify(lines[0].origin) == Addition then [lines[0]] else []) + Additions(lines[1..])
  }

  function ContextLines(lines: seq<DiffLine>): seq<DiffLine>
  {
    if lines == [] then []
    else (if Classify(lines[0].origin).Other? then [lines[0]] else []) + ContextLines(lines[1..])
  }

  /** A mirrored (context) row: the same line on both sides. */
  predicate IsMirror(row: SplitDiffRow)
  {
    row.left.Some? && row.right == row.left
  }

  /** What one row contributes to the left lines: its left side, unless it is mirrored. */
  function LeftOf(row: SplitDiffRow): seq<DiffLine>
  {
    if !IsMirror(row) && row.left.Some? then [row.left.value] else []
  }

  /** What one row contributes to the right lines: its right side, unless it is mirrored. */
  function RightOf(row: SplitDiffRow): seq<DiffLine>
  {
    if !IsMirror(row) && row.right.Some? then [row.right.value] else []
  }

  /** What one row contributes to the mirrored lines: its line, if it is mirrored. */
  function MirrorOf(row: SplitDiffRow): seq<DiffLine>
  {
    if IsMirror(row) then [row.left.value] else []
  }

  /** The left lines of the non-mirrored rows, in row order. */
  function LeftLines(rows: seq<SplitDiffRow>): seq<DiffLine>
  {
    if rows == [] then [] else LeftOf(rows[0]) + LeftLines(rows[1..])
  }

  /** The right lines of the non-mirrored rows, in row order. */
  function RightLines(rows: seq<SplitDiffRow>): seq<DiffLine>
  {
    if rows == [] then [] else RightOf(rows[0]) + RightLines(rows[1..])
  }

  /** The lines of the mirrored rows, in row order. */
  function MirrorLines(rows: seq<SplitDiffRow>): seq<DiffLine>
  {
    if rows == [] then [] else MirrorOf(rows[0]) + MirrorLines(rows[1..])
  }

  predicate AllOf(buffer: seq<DiffLine>, origin: Origin)
  {
    forall i :: 0 <= i < |buffer| ==> Classify(buffer[i].origin) == origin
  }

  /**
   * What the renderer may rely on for every row: never two empty sides; a
   * mirrored row holds a context line and no segments; any other row has a
   * deletion (if any) on the left and an addition (if any) on the right,
   * and carries segments exactly when both sides are present, which then
   * spell out both sides' contents with no empty segment.
   */
  predicate WellFormedRow(row: SplitDiffRow)
  {
    && (row.left.Some? || row.right.Some?)
    && (row.leftSegments.Some? <==> row.rightSegments.Some?)
    && (IsMirror(row) ==> Classify(row.left.value.origin).Other? && row.leftSegments.None?)
    && (!IsMirror(row) ==>
          && (row.left.Some? ==> Classify(row.left.value.origin) == Deletion)
          && (row.right.Some? ==> Classify(row.right.value.origin) == Addition)
          && (row.leftSegments.Some? <==> row.left.Some? && row.right.Some?))
    && (row.leftSegments.Some? && row.left.Some? && row.right.Some? ==>
          && Concat(row.leftSegments.value) == row.left.value.content
          && Concat(row.rightSegments.value) == row.right.value.content
          && NoEmptySegment(row.leftSegments.value)
          && NoEmptySegment(row.rightSegments.value))
  }

  predicate AllWellFormed(rows: seq<SplitDiffRow>)
  {
    forall i :: 0 <= i < |rows| ==> WellFormedRow(rows[i])
  }

  // ---------------------------------------------------------------------
  // Lemmas about the views
  // ---------------------------------------------------------------------

  lemma {:induction false} LeftLinesAppend(a: seq<SplitDiffRow>, b: seq<SplitDiffRow>)
    ensures LeftLines(a + b) == LeftLines(a) + LeftLines(b)
  {
    if a == [] {
      assert a + b == b;
    } else {
      assert (a + b)[0] == a[0];
      assert (a + b)[1..] == a[1..] + b;
      LeftLinesAppend(a[1..], b);
    }
  }

  lemma {:induction false} RightLinesAppend(a: seq<SplitDiffRow>, b: seq<SplitDiffRow>)
    ensures RightLines(a + b) == RightLines(a) + RightLines(b)
  {
    if a == [] {
      assert a + b == b;
    } else {
      assert (a + b)[0] == a[0];
      assert (a + b)[1..] == a[1..] + b;
      RightLinesAppend(a[1..], b);
    }
  }

  lemma {:induction false} MirrorLinesAppend(a: seq<SplitDiffRow>, b: seq<SplitDiffRow>)
    ensures MirrorLines(a + b) == MirrorLines(a) + MirrorLines(b)
  {
    if a == [] {
      assert a + b == b;
    } else {
      assert (a + b)[0] == a[0];
      assert (a + b)[1..] == a[1..] + b;
      MirrorLinesAppend(a[1..], b);
    }
  }

  /** A mirrored row contributes nothing to the left lines. */
  lemma LeftLinesAroundMirror(before: seq<SplitDiffRow>, line: DiffLine, after: seq<SplitDiffRow>)
    ensures LeftLines(before + ([MirrorRow(line)] + after)) == LeftLines(before) + LeftLines(after)
  {
    var tail := [MirrorRow(line)] + after;
    LeftLinesAppend(before, tail);
    assert tail[0] == MirrorRow(line) && tail[1..] == after;
  }

  /** A mirrored row contributes nothing to the right lines. */
  lemma RightLinesAroundMirror(before: seq<SplitDiffRow>, line: DiffLine, after: seq<SplitDiffRow>)
    ensures RightLines(before + ([MirrorRow(line)] + after)) == RightLines(before) + RightLines(after)
  {
    var tail := [MirrorRow(line)] + after;
    RightLinesAppend(before, tail);
    assert tail[0] == MirrorRow(line) && tail[1..] == after;
  }

  /** A mirrored row contributes exactly its line to the mirrored lines. */
  lemma MirrorLinesAroundMirror(before: seq<SplitDiffRow>, line: DiffLine, after: seq<SplitDiffRow>)
    ensures MirrorLines(before + ([MirrorRow(line)] + after)) == MirrorLines(before) + ([line] + MirrorLines(after))
  {
    var tail := [MirrorRow(line)] + after;
    MirrorLinesAppend(before, tail);
    assert tail[0] == MirrorRow(line) && tail[1..] == after;
  }

  // ---------------------------------------------------------------------
  // Lemmas about one flush
  // ---------------------------------------------------------------------

  /** Row `k` of a flush from row `i` on pairs element `i + k` of each buffer. */
  lemma {:induction false} FlushFromAt(delBuffer: seq<DiffLine>, addBuffer: seq<DiffLine>, i: nat, hl: Highlighter)
    requires i <= Max(|delBuffer|, |addBuffer|)
    ensures |FlushFrom(delBuffer, addBuffer, i, hl)| == Max(|delBuffer|, |addBuffer|) - i
    ensures forall k :: 0 <= k < Max(|delBuffer|, |addBuffer|) - i ==>
              FlushFrom(delBuffer, addBuffer, i, hl)[k] == PairedRow(At(delBuffer, i + k), At(addBuffer, i + k), hl)
    decreases Max(|delBuffer|, |addBuffer|) - i
  {
    if i < Max(|delBuffer|, |addBuffer|) {
      FlushFromAt(delBuffer, addBuffer, i + 1, hl);
    }
  }

  /** Row `i` of a flush pairs element `i` of each buffer; there are as many rows as the longer buffer has lines. */
  lemma FlushRowsAt(delBuffer: seq<DiffLine>, addBuffer: seq<DiffLine>, hl: Highlighter)
    ensures |FlushRows(delBuffer, addBuffer, hl)| == Max(|delBuffer|, |addBuffer|)
    ensures forall i :: 0 <= i < Max(|delBuffer|, |addBuffer|) ==>
              FlushRows(delBuffer, addBuffer, hl)[i] == PairedRow(At(delBuffer, i), At(addBuffer, i), hl)
  {
    var rows := FlushRows(delBuffer, addBuffer, hl);
    FlushFromAt(delBuffer, addBuffer, 0, hl);
    forall i | 0 <= i < Max(|delBuffer|, |addBuffer|)
      ensures rows[i] == PairedRow(At(delBuffer, i), At(addBuffer, i), hl)
    {
      assert rows[0 + i] == PairedRow(At(delBuffer, 0 + i), At(addBuffer, 0 + i), hl);
    }
  }

  /** A row paired from a deletion buffer and an addition buffer is never mirrored. */
  lemma PairedRowNotMirror(delBuffer: seq<DiffLine>, addBuffer: seq<DiffLine>, i: nat, hl: Highlighter)
    requires AllOf(delBuffer, Deletion) && AllOf(addBuffer, Addition)
    ensures !IsMirror(PairedRow(At(delBuffer, i), At(addBuffer, i), hl))
  {
    if i < |delBuffer| && i < |addBuffer| {
      assert Classify(delBuffer[i].origin) != Classify(addBuffer[i].origin);
    }
  }

  /** What each view takes from the `i`-th row of a flush: the `i`-th buffered line of its side, if any. */
  lemma PairedRowViews(delBuffer: seq<DiffLine>, addBuffer: seq<DiffLine>, i: nat, hl: Highlighter)
    requires AllOf(delBuffer, Deletion) && AllOf(addBuffer, Addition)
    ensures LeftOf(PairedRow(At(delBuffer, i), At(addBuffer, i), hl)) == if i < |delBuffer| then [delBuffer[i]] else []
    ensures RightOf(PairedRow(At(delBuffer, i), At(addBuffer, i), hl)) == if i < |addBuffer| then [addBuffer[i]] else []
    ensures MirrorOf(PairedRow(At(delBuffer, i), At(addBuffer, i), hl)) == []
  {
    PairedRowNotMirror(delBuffer, addBuffer, i, hl);
  }

  /** The views of a row followed by more rows. */
  lemma ConsRow(row: SplitDiffRow, rest: seq<SplitDiffRow>)
    ensures LeftLines([row] + rest) == LeftOf(row) + LeftLines(rest)
    ensures RightLines([row] + rest) == RightOf(row) + RightLines(rest)
    ensures MirrorLines([row] + rest) == MirrorOf(row) + MirrorLines(rest)
  {
    assert ([row] + rest)[0] == row && ([row] + rest)[1..] == rest;
  }

  /** Dropping `i` lines of a buffer leaves line `i`, if the buffer has it, then the lines after it. */
  lemma DropCons(buffer: seq<DiffLine>, i: nat)
    ensures buffer[Min(i, |buffer|)..]
         == (if i < |buffer| then [buffer[i]] else []) + buffer[Min(i + 1, |buffer|)..]
  {
    if i < |buffer| {
      assert buffer[i..] == [buffer[i]] + buffer[i + 1..];
    }
  }

  /** The rows of a flush from row `i` on hold the buffered deletions from `i` on, on their left sides. */
  lemma {:induction false} FlushFromLeft(delBuffer: seq<DiffLine>, addBuffer: seq<DiffLine>, i: nat, hl: Highlighter)
    requires AllOf(delBuffer, Deletion) && AllOf(addBuffer, Addition)
    ensures LeftLines(FlushFrom(delBuffer, addBuffer, i, hl)) == delBuffer[Min(i, |delBuffer|)..]
    decreases Max(|delBuffer|, |addBuffer|) - i
  {
    if i < Max(|delBuffer|, |addBuffer|) {
      PairedRowViews(delBuffer, addBuffer, i, hl);
      FlushFromLeft(delBuffer, addBuffer, i + 1, hl);
      FlushFromLeftStep(delBuffer, addBuffer, i, hl);
    }
  }

  /** The step of FlushFromLeft: row `i`, then the rows after it. */
  lemma FlushFromLeftStep(delBuffer: seq<DiffLine>, addBuffer: seq<DiffLine>, i: nat, hl: Highlighter)
    requires i < Max(|delBuffer|, |addBuffer|)
    requires LeftOf(PairedRow(At(delBuffer, i), At(addBuffer, i), hl)) == if i < |delBuffer| then [delBuffer[i]] else []
    requires LeftLines(FlushFrom(delBuffer, addBuffer, i + 1, hl)) == delBuffer[Min(i + 1, |delBuffer|)..]
    ensures LeftLines(FlushFrom(delBuffer, addBuffer, i, hl)) == delBuffer[Min(i, |delBuffer|)..]
  {
    ConsRow(PairedRow(At(delBuffer, i), At(addBuffer, i), hl), FlushFrom(delBuffer, addBuffer, i + 1, hl));
    DropCons(delBuffer, i);
  }

  /** The rows of a flush from row `i` on hold the buffered additions from `i` on, on their right sides. */
  lemma {:induction false} FlushFromRight(delBuffer: seq<DiffLine>, addBuffer: seq<DiffLine>, i: nat, hl: Highlighter)
    requires AllOf(delBuffer, Deletion) && AllOf(addBuffer, Addition)
    ensures RightLines(FlushFrom(delBuffer, addBuffer, i, hl)) == addBuffer[Min(i, |addBuffer|)..]
    decreases Max(|delBuffer|, |addBuffer|) - i
  {
    if i < Max(|delBuffer|, |addBuffer|) {
      PairedRowViews(delBuffer, addBuffer, i, hl);
      FlushFromRight(delBuffer, addBuffer, i + 1, hl);
      FlushFromRightStep(delBuffer, addBuffer, i, hl);
    }
  }

  /** The step of FlushFromRight: row `i`, then the rows after it. */
  lemma FlushFromRightStep(delBuffer: seq<DiffLine>, addBuffer: seq<DiffLine>, i: nat, hl: Highlighter)
    requires i < Max(|delBuffer|, |addBuffer|)
    requires RightOf(PairedRow(At(delBuffer, i), At(addBuffer, i), hl)) == if i < |addBuffer| then [addBuffer[i]] else []
    requires RightLines(FlushFrom(delBuffer, addBuffer, i + 1, hl)) == addBuffer[Min(i + 1, |addBuffer|)..]
    ensures RightLines(FlushFrom(delBuffer, addBuffer, i, hl)) == addBuffer[Min(i, |addBuffer|)..]
  {
    ConsRow(PairedRow(At(delBuffer, i), At(addBuffer, i), hl), FlushFrom(delBuffer, addBuffer, i + 1, hl));
    DropCons(addBuffer, i);
  }

  /** No row of a flush is mirrored. */
  lemma {:induction false} FlushFromNoMirror(delBuffer: seq<DiffLine>, addBuffer: seq<DiffLine>, i: nat, hl: Highlighter)
    requires AllOf(delBuffer, Deletion) && AllOf(addBuffer, Addition)
    ensures MirrorLines(FlushFrom(delBuffer, addBuffer, i, hl)) == []
    decreases Max(|delBuffer|, |addBuffer|) - i
  {
    if i < Max(|delBuffer|, |addBuffer|) {
      var row := PairedRow(At(delBuffer, i), At(addBuffer, i), hl);
      ConsRow(row, FlushFrom(delBuffer, addBuffer, i + 1, hl));
      PairedRowViews(delBuffer, addBuffer, i, hl);
      FlushFromNoMirror(delBuffer, addBuffer, i + 1, hl);
    }
  }

  /** A flush emits every buffered deletion on the left of its rows, in buffer order. */
  lemma FlushRowsLeft(delBuffer: seq<DiffLine>, addBuffer: seq<DiffLine>, hl: Highlighter)
    requires AllOf(delBuffer, Deletion) && AllOf(addBuffer, Addition)
    ensures LeftLines(FlushRows(delBuffer, addBuffer, hl)) == delBuffer
  {
    FlushFromLeft(delBuffer, addBuffer, 0, hl);
  }

  /** A flush emits every buffered addition on the right of its rows, in buffer order. */
  lemma FlushRowsRight(delBuffer: seq<DiffLine>, addBuffer: seq<DiffLine>, hl: Highlighter)
    requires AllOf(delBuffer, Deletion) && AllOf(addBuffer, Addition)
    ensures RightLines(FlushRows(delBuffer, addBuffer, hl)) == addBuffer
  {
    FlushFromRight(delBuffer, addBuffer, 0, hl);
  }

  /** A flush emits no mirrored row. */
  lemma FlushRowsNoMirror(delBuffer: seq<DiffLine>, addBuffer: seq<DiffLine>, hl: Highlighter)
    requires AllOf(delBuffer, Deletion) && AllOf(addBuffer, Addition)
    ensures MirrorLines(FlushRows(delBuffer, addBuffer, hl)) == []
  {
    FlushFromNoMirror(delBuffer, addBuffer, 0, hl);
  }

  /** Every row a flush of well-sorted buffers emits is well formed. */
  lemma FlushRowsWellFormed(delBuffer: seq<DiffLine>, addBuffer: seq<DiffLine>, hl: Highlighter)
    requires AllOf(delBuffer, Deletion) && AllOf(addBuffer, Addition)
    requires SoundHighlighter(hl)
    ensures AllWellFormed(FlushRows(delBuffer, addBuffer, hl))
  {
    var rows := FlushRows(delBuffer, addBuffer, hl);
    FlushRowsAt(delBuffer, addBuffer, hl);
    forall i | 0 <= i < |rows|
      ensures WellFormedRow(rows[i])
    {
      PairedRowNotMirror(delBuffer, addBuffer, i, hl);
    }
  }

  // ---------------------------------------------------------------------
  // Lemmas about the scan
  // ---------------------------------------------------------------------

  /**
   * Deletions are conserved by the scan: the left sides of its non-mirrored
   * rows are the buffered deletions followed by the remaining '-' lines.
   */
  lemma {:induction false} ScanLeft(lines: seq<DiffLine>, delBuffer: seq<DiffLine>, addBuffer: seq<DiffLine>, hl: Highlighter)
    requires AllOf(delBuffer, Deletion) && AllOf(addBuffer, Addition)
    ensures LeftLines(Scan(lines, delBuffer, addBuffer, hl)) == delBuffer + Deletions(lines)
    decreases |lines|
  {
    if lines == [] {
      FlushRowsLeft(delBuffer, addBuffer, hl);
      assert delBuffer + [] == delBuffer;
    } else {
      match Classify(lines[0].origin)
      case Deletion =>
        ScanLeft(lines[1..], delBuffer + [lines[0]], addBuffer, hl);
        ScanLeftDeletion(lines, delBuffer, addBuffer, hl);
      case Addition =>
        ScanLeft(lines[1..], delBuffer, addBuffer + [lines[0]], hl);
        assert Deletions(lines) == Deletions(lines[1..]);
      case Other(_) =>
        ScanLeft(lines[1..], [], [], hl);
        ScanLeftContext(lines, delBuffer, addBuffer, hl);
    }
  }

  /** The step of ScanLeft for a deleted line, given the claim for the rest. */
  lemma ScanLeftDeletion(lines: seq<DiffLine>, delBuffer: seq<DiffLine>, addBuffer: seq<DiffLine>, hl: Highlighter)
    requires lines != [] && Classify(lines[0].origin) == Deletion
    requires LeftLines(Scan(lines[1..], delBuffer + [lines[0]], addBuffer, hl))
             == delBuffer + [lines[0]] + Deletions(lines[1..])
    ensures LeftLines(Scan(lines, delBuffer, addBuffer, hl)) == delBuffer + Deletions(lines)
  {
    assert Deletions(lines) == [lines[0]] + Deletions(lines[1..]);
    assert delBuffer + [lines[0]] + Deletions(lines[1..]) == delBuffer + ([lines[0]] + Deletions(lines[1..]));
  }

  /** The step of ScanLeft for a context line, given the claim for the rest. */
  lemma ScanLeftContext(lines: seq<DiffLine>, delBuffer: seq<DiffLine>, addBuffer: seq<DiffLine>, hl: Highlighter)
    requires lines != [] && Classify(lines[0].origin).Other?
    requires AllOf(delBuffer, Deletion) && AllOf(addBuffer, Addition)
    requires LeftLines(Scan(lines[1..], [], [], hl)) == Deletions(lines[1..])
    ensures LeftLines(Scan(lines, delBuffer, addBuffer, hl)) == delBuffer + Deletions(lines)
  {
    assert Deletions(lines) == Deletions(lines[1..]);
    LeftLinesAroundMirror(FlushRows(delBuffer, addBuffer, hl), lines[0], Scan(lines[1..], [], [], hl));
    FlushRowsLeft(delBuffer, addBuffer, hl);
  }

  /**
   * Additions are conserved by the scan: the right sides of its
   * non-mirrored rows are the buffered additions followed by the remaining
   * '+' lines.
   */
  lemma {:induction false} ScanRight(lines: seq<DiffLine>, delBuffer: seq<DiffLine>, addBuffer: seq<DiffLine>, hl: Highlighter)
    requires AllOf(delBuffer, Deletion) && AllOf(addBuffer, Addition)
    ensures RightLines(Scan(lines, delBuffer, addBuffer, hl)) == addBuffer + Additions(lines)
    decreases |lines|
  {
    if lines == [] {
      FlushRowsRight(delBuffer, addBuffer, hl);
      assert addBuffer + [] == addBuffer;
    } else {
      match Classify(lines[0].origin)
      case Deletion =>
        ScanRight(lines[1..], delBuffer + [lines[0]], addBuffer, hl);
        assert Additions(lines) == Additions(lines[1..]);
      case Addition =>
        ScanRight(lines[1..], delBuffer, addBuffer + [lines[0]], hl);
        ScanRightAddition(lines, delBuffer, addBuffer, hl);
      case Other(_) =>
        ScanRight(lines[1..], [], [], hl);
        ScanRightContext(lines, delBuffer, addBuffer, hl);
    }
  }

  /** The step of ScanRight for an added line, given the claim for the rest. */
  lemma ScanRightAddition(lines: seq<DiffLine>, delBuffer: seq<DiffLine>, addBuffer: seq<DiffLine>, hl: Highlighter)
    requires lines != [] && Classify(lines[0].origin) == Addition
    requires RightLines(Scan(lines[1..], delBuffer, addBuffer + [lines[0]], hl))
             == addBuffer + [lines[0]] + Additions(lines[1..])
    ensures RightLines(Scan(lines, delBuffer, addBuffer, hl)) == addBuffer + Additions(lines)
  {
    assert Additions(lines) == [lines[0]] + Additions(lines[1..]);
    assert addBuffer + [lines[0]] + Additions(lines[1..]) == addBuffer + ([lines[0]] + Additions(lines[1..]));
  }

  /** The step of ScanRight for a context line, given the claim for the rest. */
  lemma ScanRightContext(lines: seq<DiffLine>, delBuffer: seq<DiffLine>, addBuffer: seq<DiffLine>, hl: Highlighter)
    requires lines != [] && Classify(lines[0].origin).Other?
    requires AllOf(delBuffer, Deletion) && AllOf(addBuffer, Addition)
    requires RightLines(Scan(lines[1..], [], [], hl)) == Additions(lines[1..])
    ensures RightLines(Scan(lines, delBuffer, addBuffer, hl)) == addBuffer + Additions(lines)
  {
    assert Additions(lines) == Additions(lines[1..]);
    RightLinesAroundMirror(FlushRows(delBuffer, addBuffer, hl), lines[0], Scan(lines[1..], [], [], hl));
    FlushRowsRight(delBuffer, addBuffer, hl);
  }

  /** Context lines are conserved by the scan: its mirrored rows are the remaining context lines. */
  lemma {:induction false} ScanMirror(lines: seq<DiffLine>, delBuffer: seq<DiffLine>, addBuffer: seq<DiffLine>, hl: Highlighter)
    requires AllOf(delBuffer, Deletion) && AllOf(addBuffer, Addition)
    ensures MirrorLines(Scan(lines, delBuffer, addBuffer, hl)) == ContextLines(lines)
    decreases |lines|
  {
    if lines == [] {
      FlushRowsNoMirror(delBuffer, addBuffer, hl);
    } else {
      match Classify(lines[0].origin)
      case Deletion =>
        ScanMirror(lines[1..], delBuffer + [lines[0]], addBuffer, hl);
        assert ContextLines(lines) == ContextLines(lines[1..]);
      case Addition =>
        ScanMirror(lines[1..], delBuffer, addBuffer + [lines[0]], hl);
        assert ContextLines(lines) == ContextLines(lines[1..]);
      case Other(_) =>
        ScanMirror(lines[1..], [], [], hl);
        ScanMirrorContext(lines, delBuffer, addBuffer, hl);
    }
  }

  /** The step of ScanMirror for a context line, given the claim for the rest. */
  lemma ScanMirrorContext(lines: seq<DiffLine>, delBuffer: seq<DiffLine>, addBuffer: seq<DiffLine>, hl: Highlighter)
    requires lines != [] && Classify(lines[0].origin).Other?
    requires AllOf(delBuffer, Deletion) && AllOf(addBuffer, Addition)
    requires MirrorLines(Scan(lines[1..], [], [], hl)) == ContextLines(lines[1..])
    ensures MirrorLines(Scan(lines, delBuffer, addBuffer, hl)) == ContextLines(lines)
  {
    assert ContextLines(lines) == [lines[0]] + ContextLines(lines[1..]);
    MirrorLinesAroundMirror(FlushRows(delBuffer, addBuffer, hl), lines[0], Scan(lines[1..], [], [], hl));
    FlushRowsNoMirror(delBuffer, addBuffer, hl);
  }

  /** Every row the scan emits is well formed. */
  lemma {:induction false} ScanWellFormed(lines: seq<DiffLine>, delBuffer: seq<DiffLine>, addBuffer: seq<DiffLine>, hl: Highlighter)
    requires AllOf(delBuffer, Deletion) && AllOf(addBuffer, Addition)
    requires SoundHighlighter(hl)
    ensures AllWellFormed(Scan(lines, delBuffer, addBuffer, hl))
    decreases |lines|
  {
    if lines == [] {
      FlushRowsWellFormed(delBuffer, addBuffer, hl);
    } else {
      var line, rest := lines[0], lines[1..];
      match Classify(line.origin)
      case Deletion =>
        ScanWellFormed(rest, delBuffer + [line], addBuffer, hl);
      case Addition =>
        ScanWellFormed(rest, delBuffer, addBuffer + [line], hl);
      case Other(_) =>
        FlushRowsWellFormed(delBuffer, addBuffer, hl);
        ScanWellFormed(rest, [], [], hl);
        assert WellFormedRow(MirrorRow(line));
    }
  }

  /** How the three line views of a stream change when its first line is taken off. */
  lemma ViewsStep(lines: seq<DiffLine>, delBuffer: seq<DiffLine>, addBuffer: seq<DiffLine>)
    requires lines != []
    ensures Classify(lines[0].origin) == Deletion ==>
              && delBuffer + [lines[0]] + Deletions(lines[1..]) == delBuffer + Deletions(lines)
              && addBuffer + Additions(lines[1..]) == addBuffer + Additions(lines)
    ensures Classify(lines[0].origin) == Addition ==>
              && delBuffer + Deletions(lines[1..]) == delBuffer + Deletions(lines)
              && addBuffer + [lines[0]] + Additions(lines[1..]) == addBuffer + Additions(lines)
    ensures ContextLines(lines) == [] ==> !Classify(lines[0].origin).Other? && ContextLines(lines[1..]) == []
  {
    var line, rest := lines[0], lines[1..];
    var kind := Classify(line.origin);
    assert Deletions(lines) == (if kind == Deletion then [line] else []) + Deletions(rest);
    assert Additions(lines) == (if kind == Addition then [line] else []) + Additions(rest);
    assert ContextLines(lines) == (if kind.Other? then [line] else []) + ContextLines(rest);
    if kind == Deletion {
      assert Additions(lines) == Additions(rest);
      assert delBuffer + [line] + Deletions(rest) == delBuffer + ([line] + Deletions(rest));
    } else if kind == Addition {
      assert Deletions(lines) == Deletions(rest);
      assert addBuffer + [line] + Additions(rest) == addBuffer + ([line] + Additions(rest));
    }
  }

  /**
   * A stretch without context lines is buffered whole: the scan over it ends
   * in one flush of the buffers extended by its deletions and additions.
   */
  lemma {:induction false} ScanNoContext(lines: seq<DiffLine>, delBuffer: seq<DiffLine>, addBuffer: seq<DiffLine>, hl: Highlighter)
    requires ContextLines(lines) == []
    ensures Scan(lines, delBuffer, addBuffer, hl)
         == FlushRows(delBuffer + Deletions(lines), addBuffer + Additions(lines), hl)
    decreases |lines|
  {
    if lines == [] {
      assert delBuffer + [] == delBuffer && addBuffer + [] == addBuffer;
    } else {
      ViewsStep(lines, delBuffer, addBuffer);
      ScanUnfold(lines, delBuffer, addBuffer, hl);
      if Classify(lines[0].origin) == Deletion {
        ScanNoContext(lines[1..], delBuffer + [lines[0]], addBuffer, hl);
      } else {
        ScanNoContext(lines[1..], delBuffer, addBuffer + [lines[0]], hl);
      }
    }
  }

  /**
   * At the first context line `c`, the scan flushes the buffers extended by
   * the run before `c`, then emits the row of `c`, then scans the rest with
   * empty buffers.
   */
  lemma {:induction false} ScanAtContext(
    pre: seq<DiffLine>, c: DiffLine, post: seq<DiffLine>,
    delBuffer: seq<DiffLine>, addBuffer: seq<DiffLine>, hl: Highlighter)
    requires ContextLines(pre) == [] && Classify(c.origin).Other?
    ensures Scan(pre + [c] + post, delBuffer, addBuffer, hl)
         == FlushRows(delBuffer + Deletions(pre), addBuffer + Additions(pre), hl)
            + ([MirrorRow(c)] + Scan(post, [], [], hl))
    decreases |pre|
  {
    var lines := pre + [c] + post;
    if pre == [] {
      assert lines == [c] + post;
      assert lines[0] == c && lines[1..] == post;
      ScanUnfold(lines, delBuffer, addBuffer, hl);
      assert delBuffer + [] == delBuffer && addBuffer + [] == addBuffer;
    } else {
      assert lines[0] == pre[0] && lines[1..] == pre[1..] + [c] + post;
      ViewsStep(pre, delBuffer, addBuffer);
      ScanUnfold(lines, delBuffer, addBuffer, hl);
      if Classify(pre[0].origin) == Deletion {
        ScanAtContext(pre[1..], c, post, delBuffer + [pre[0]], addBuffer, hl);
      } else {
        ScanAtContext(pre[1..], c, post, delBuffer, addBuffer + [pre[0]], hl);
      }
    }
  }

  /**
   * Row order and pairing for a hunk: the run of '-'/'+' lines before the
   * first context line `c` is flushed, its i-th deletion beside its i-th
   * addition (FlushRowsAt), before the row of `c`; the rows after it are
   * the pairing of the rest of the hunk.
   */
  lemma PairingAtContext(pre: seq<DiffLine>, c: DiffLine, post: seq<DiffLine>)
    requires ContextLines(pre) == [] && Classify(c.origin).Other?
    ensures Pairing(pre + [c] + post)
         == FlushRows(Deletions(pre), Additions(pre), Highlight) + [MirrorRow(c)] + Pairing(post)
  {
    ScanAtContext(pre, c, post, [], [], Highlight);
    assert [] + Deletions(pre) == Deletions(pre) && [] + Additions(pre) == Additions(pre);
    AppendAssoc(FlushRows(Deletions(pre), Additions(pre), Highlight), [MirrorRow(c)], Pairing(post));
  }

  /** A hunk without context lines is one flush: its i-th deletion beside its i-th addition. */
  lemma PairingNoContext(lines: seq<DiffLine>)
    requires ContextLines(lines) == []
    ensures Pairing(lines) == FlushRows(Deletions(lines), Additions(lines), Highlight)
  {
    ScanNoContext(lines, [], [], Highlight);
    assert [] + Deletions(lines) == Deletions(lines) && [] + Additions(lines) == Additions(lines);
  }

  /**
   * Line conservation for a whole hunk: the non-mirrored rows' left sides
   * are exactly the '-' lines in input order, their right sides exactly the
   * '+' lines in input order, and each other line yields one mirrored row,
   * in input order.
   */
  lemma PairingConserves(lines: seq<DiffLine>)
    ensures LeftLines(Pairing(lines)) == Deletions(lines)
    ensures RightLines(Pairing(lines)) == Additions(lines)
    ensures MirrorLines(Pairing(lines)) == ContextLines(lines)
  {
    ScanLeft(lines, [], [], Highlight);
    ScanRight(lines, [], [], Highlight);
    ScanMirror(lines, [], [], Highlight);
  }

  /** Every row of a hunk's pairing is well formed, and there are no more rows than lines. */
  lemma PairingWellFormed(lines: seq<DiffLine>)
    ensures AllWellFormed(Pairing(lines))
    ensures |Pairing(lines)| <= |lines|
  {
    HighlightSound();
    ScanWellFormed(lines, [], [], Highlight);
  }

  // ---------------------------------------------------------------------
  // pairLines and its flush closure
  // ---------------------------------------------------------------------

  /**
   * flush: zip the two buffers up to the longer one's length, highlighting
   * a row only when both sides are present, and append the rows. (The
   * caller then empties both buffers.)
   */
  method Flush(rows: seq<SplitDiffRow>, delBuffer: seq<DiffLine>, addBuffer: seq<DiffLine>)
    returns (out: seq<SplitDiffRow>)
    ensures out == rows + FlushRows(delBuffer, addBuffer, Highlight)
  {
    var maxLen := Max(|delBuffer|, |addBuffer|);
    out := rows;
    for i := 0 to maxLen
      invariant out + FlushFrom(delBuffer, addBuffer, i, Highlight) == rows + FlushRows(delBuffer, addBuffer, Highlight)
    {
      var left := if i < |delBuffer| then Some(delBuffer[i]) else None;
      var right := if i < |addBuffer| then Some(addBuffer[i]) else None;
      var row := SplitDiffRow(left, right, None, None);
      if left.Some? && right.Some? {
        var leftSegs, rightSegs := ComputeInlineSegments(left.value.content, right.value.content);
        row := row.(leftSegments := Some(leftSegs), rightSegments := Some(rightSegs));
      }
      assert left == At(delBuffer, i) && right == At(addBuffer, i);
      assert row == PairedRow(left, right, Highlight);
      assert FlushFrom(delBuffer, addBuffer, i, Highlight) == [row] + FlushFrom(delBuffer, addBuffer, i + 1, Highlight);
      AppendAssoc(out, [row], FlushFrom(delBuffer, addBuffer, i + 1, Highlight));
      out := out + [row];
    }
    assert out + [] == out;
  }

  /** One step of the scan, by the origin of the next line. */
  lemma ScanUnfold(lines: seq<DiffLine>, delBuffer: seq<DiffLine>, addBuffer: seq<DiffLine>, hl: Highlighter)
    requires lines != []
    ensures Classify(lines[0].origin) == Deletion
            ==> Scan(lines, delBuffer, addBuffer, hl) == Scan(lines[1..], delBuffer + [lines[0]], addBuffer, hl)
    ensures Classify(lines[0].origin) == Addition
            ==> Scan(lines, delBuffer, addBuffer, hl) == Scan(lines[1..], delBuffer, addBuffer + [lines[0]], hl)
    ensures Classify(lines[0].origin).Other?
            ==> Scan(lines, delBuffer, addBuffer, hl)
                == FlushRows(delBuffer, addBuffer, hl) + ([MirrorRow(lines[0])] + Scan(lines[1..], [], [], hl))
  {
  }

  /** Sequence concatenation regroups freely; stated once to keep Flush's loop proof small. */
  lemma AppendAssoc(a: seq<SplitDiffRow>, b: seq<SplitDiffRow>, c: seq<SplitDiffRow>)
    ensures a + b + c == a + (b + c)
  {
  }

  /**
   * pairLines: one pass over the lines with a deletion buffer and an
   * addition buffer, flushing before each context line and once at the end.
   */
  method PairLines(lines: seq<DiffLine>) returns (rows: seq<SplitDiffRow>)
    ensures rows == Pairing(lines)
    ensures LeftLines(rows) == Deletions(lines)
    ensures RightLines(rows) == Additions(lines)
    ensures MirrorLines(rows) == ContextLines(lines)
    ensures AllWellFormed(rows)
  {
    rows := [];
    var delBuffer: seq<DiffLine> := [];
    var addBuffer: seq<DiffLine> := [];
    for i := 0 to |lines|
      invariant rows + Scan(lines[i..], delBuffer, addBuffer, Highlight) == Pairing(lines)
    {
      var line := lines[i];
      assert lines[i..][0] == line && lines[i..][1..] == lines[i + 1..];
      ScanUnfold(lines[i..], delBuffer, addBuffer, Highlight);
      if line.origin == '-' {
        delBuffer := delBuffer + [line];
      } else if line.origin == '+' {
        addBuffer := addBuffer + [line];
      } else {
        ghost var flushed := FlushRows(delBuffer, addBuffer, Highlight);
        ghost var rest := Scan(lines[i + 1..], [], [], Highlight);
        AppendAssoc(rows, flushed, [MirrorRow(line)] + rest);
        AppendAssoc(rows + flushed, [MirrorRow(line)], rest);
        rows := Flush(rows, delBuffer, addBuffer);
        delBuffer, addBuffer := [], [];
        rows := rows + [MirrorRow(line)];
      }
    }
    assert lines[|lines|..] == [];
    rows := Flush(rows, delBuffer, addBuffer);
    PairingConserves(lines);
    PairingWellFormed(lines);
  }

  /** The split view of one hunk: its metadata copied, its lines paired. */
  function SplitHunkOf(hunk: DiffHunk): (split: SplitHunk)
    ensures LeftLines(split.rows) == Deletions(hunk.lines)
    ensures RightLines(split.rows) == Additions(hunk.lines)
    ensures MirrorLines(split.rows) == ContextLines(hunk.lines)
    ensures AllWellFormed(split.rows)
  {
    PairingConserves(hunk.lines);
    PairingWellFormed(hunk.lines);
    SplitHunk(hunk.header, hunk.oldStart, hunk.oldLines, hunk.newStart, hunk.newLines, Pairing(hunk.lines))
  }

  /**
   * splitDiffHunks: one split hunk per input hunk, in order, with header and
   * positions unchanged and the hunk's own lines paired into rows.
   */
  function SplitDiffHunks(hunks: seq<DiffHunk>): (r: seq<SplitHunk>)
    ensures |r| == |hunks|
    ensures forall i :: 0 <= i < |hunks| ==>
              && r[i].header == hunks[i].header
              && r[i].oldStart == hunks[i].oldStart
              && r[i].oldLines == hunks[i].oldLines
              && r[i].newStart == hunks[i].newStart
              && r[i].newLines == hunks[i].newLines
              && r[i].rows == Pairing(hunks[i].lines)
  {
    if hunks == [] then [] else [SplitHunkOf(hunks[0])] + SplitDiffHunks(hunks[1..])
  }

  /** Conservation and well-formedness hold hunk by hunk in the split view. */
  lemma SplitDiffHunksConserve(hunks: seq<DiffHunk>, i: nat)
    requires i < |hunks|
    ensures LeftLines(SplitDiffHunks(hunks)[i].rows) == Deletions(hunks[i].lines)
    ensures RightLines(SplitDiffHunks(hunks)[i].rows) == Additions(hunks[i].lines)
    ensures MirrorLines(SplitDiffHunks(hunks)[i].rows) == ContextLines(hunks[i].lines)
    ensures AllWellFormed(SplitDiffHunks(hunks)[i].rows)
  {
    PairingConserves(hunks[i].lines);
    PairingWellFormed(hunks[i].lines);
  }
}

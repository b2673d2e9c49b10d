/** Virtual columns: `getvcol` and what it calls in src/nvim/charset.c, with 'linebreak', 'showbreak' and 'breakindent'
    off. */
module Columns {
  import opened TextLines
  import opened Retab

  /** A character of a line: a TAB, or one with so many cells and bytes; `multi` if its first byte says that more
      follow. */
  datatype Glyph = Tab | Char(id: char, cells: nat, bytes: nat, multi: bool, printable: bool)

  const SPACE: Glyph := Char(' ', 1, 1, false, true)

  function Bytes(g: Glyph): nat { if g.Tab? then 1 else g.bytes }

  /** Every character has bytes. */
  ghost predicate Encoded(line: seq<Glyph>) { forall k | 0 <= k < |line| :: Bytes(line[k]) >= 1 }

  /** The window: its width, the columns it uses for line numbers and the like in the first and in the further rows of a
      line, the options 'wrap' and 'list', whether 'listchars' gives a TAB its normal size, and 'tabstop'. */
  datatype Window = Window(width: nat, off: nat, off2: nat, wrap: bool, list: bool, tab1: bool, ts: nat) {
    predicate Valid() { ts > 0 }

    predicate NormalTabs() { !list || tab1 }
  }

  // ----- the last column of a screen row -----

  /** `in_win_border` */
  predicate InWinBorder(w: Window, vcol: nat) {
    if w.width == 0 then false
    else
      var width1 := w.width - w.off;
      if vcol < width1 - 1 then false
      else if vcol == width1 - 1 then true
      else
        var width2 := width1 + w.off2;
        if width2 <= 0 then false
        else (vcol - width1) % width2 == width2 - 1
  }

  /** Row r of a wrapped line ends with this column. */
  function RowEnd(w: Window, r: nat): int { w.width - w.off - 1 + r * (w.width - w.off + w.off2) }

  /** The row exists: further rows have room for text. */
  predicate IsRow(w: Window, r: nat) { w.width > 0 && (r > 0 ==> w.width - w.off + w.off2 > 0) }

  lemma RowEndIsBorder(w: Window, r: nat, vcol: nat)
    requires IsRow(w, r) && RowEnd(w, r) == vcol
    ensures InWinBorder(w, vcol)
  {
    if r > 0 {
      var n := w.width - w.off + w.off2;
      AtLeast(n, r);
      RowOffset(n, r);
      RemainderIs(vcol - (w.width - w.off), n, r - 1, n - 1);
    }
  }

  lemma RowOffset(n: int, r: int)
    ensures r * n - 1 == n * (r - 1) + (n - 1) && n * r == r * n
  {
  }

  lemma BorderHasRow(w: Window, vcol: nat) returns (r: nat)
    requires InWinBorder(w, vcol)
    ensures IsRow(w, r) && RowEnd(w, r) == vcol
  {
    var x, n := vcol - (w.width - w.off), w.width - w.off + w.off2;
    if x < 0 {
      r := 0;
    } else {
      r := x / n + 1;
      assert x == n * (x / n) + x % n;
      RowOffset(n, r);
    }
  }

  /** The columns for which it holds are the last columns of the rows. */
  lemma BorderIsRowEnd(w: Window, vcol: nat)
    ensures InWinBorder(w, vcol) <==> exists r: nat :: IsRow(w, r) && RowEnd(w, r) == vcol
  {
    hide InWinBorder, RowEnd, IsRow;
    if InWinBorder(w, vcol) {
      var r := BorderHasRow(w, vcol);
    }
    forall r: nat | IsRow(w, r) && RowEnd(w, r) == vcol ensures InWinBorder(w, vcol) {
      RowEndIsBorder(w, r, vcol);
    }
  }

  // ----- the size of a character -----

  /** How many cells the character takes at column v: TABs go to the next tab stop, or show as `^I`, and a character of
      two cells that would be split by the end of a row leaves a cell there and goes to the next row. */
  function Size(w: Window, g: Glyph, v: nat): (n: nat)
    requires w.Valid()
  {
    if g.Tab? then (if w.NormalTabs() then w.ts - v % w.ts else 2)
    else if Wraps(w, g, v) then 3
    else g.cells
  }

  /** The character does not fit in the row. */
  predicate Wraps(w: Window, g: Glyph, v: nat) { w.wrap && g.Char? && g.cells == 2 && g.multi && InWinBorder(w, v) }

  /** The column at which character k of the line starts. */
  function StartOf(w: Window, line: seq<Glyph>, k: nat): nat
    requires w.Valid() && k <= |line|
  {
    if k == 0 then 0
    else
      var v := StartOf(w, line, k - 1);
      v + Size(w, line[k - 1], v)
  }

  /** The byte at which it starts. */
  function ByteOf(line: seq<Glyph>, k: nat): nat
    requires k <= |line|
  {
    if k == 0 then 0 else ByteOf(line, k - 1) + Bytes(line[k - 1])
  }

  lemma {:induction false} StartsGrow(w: Window, line: seq<Glyph>, j: nat, k: nat)
    requires w.Valid() && j <= k <= |line|
    ensures StartOf(w, line, j) <= StartOf(w, line, k)
    ensures (forall i | j <= i < k :: line[i].Char? ==> line[i].cells >= 1) && j < k ==>
            StartOf(w, line, j) < StartOf(w, line, k)
    decreases k - j
  {
    hide Wraps;
    if j < k {
      StartsGrow(w, line, j, k - 1);
    }
  }

  lemma {:induction false} BytesGrow(line: seq<Glyph>, j: nat, k: nat)
    requires j < k <= |line| && Encoded(line)
    ensures ByteOf(line, j) < ByteOf(line, k)
    decreases k - j
  {
    if j < k - 1 {
      BytesGrow(line, j, k - 1);
    }
  }

  /** `ptr2cells`, where a TAB shows as `^I`. */
  function Ptr2Cells(g: Glyph): nat { if g.Tab? then 2 else g.cells }

  /** `win_nolbr_chartabsize`: the size, and what of it is not the character itself. */
  function WinNolbrChartabsize(w: Window, g: Glyph, col: nat): (nat, nat)
    requires w.Valid()
  {
    if g.Tab? && w.NormalTabs() then (w.ts - col % w.ts, 0)
    else
      var n := Ptr2Cells(g);
      if n == 2 && g.Char? && g.multi && InWinBorder(w, col) then (3, 1) else (n, 0)
  }

  /** `win_lbr_chartabsize`, the part for 'linebreak', 'showbreak' and 'breakindent' off. */
  function WinLbrChartabsize(w: Window, g: Glyph, col: nat): (nat, nat)
    requires w.Valid()
  {
    if w.wrap then WinNolbrChartabsize(w, g, col)
    else if g.Tab? && w.NormalTabs() then (w.ts - col % w.ts, 0)
    else (Ptr2Cells(g), 0)
  }

  // ----- getvcol -----

  /** Where a scan of the line stopped: the character, its column, how many cells it takes, and how many of these it
      leaves blank at the end of a row. */
  datatype Stop = Stop(index: nat, vcol: nat, incr: nat, head: nat)

  /** The position `col`, in bytes, or past the end for MAXCOL. */
  ghost predicate StopsAt(line: seq<Glyph>, col: int, k: nat) {
    && k <= |line|
    && (forall j {:trigger ByteOf(line, j)} | 0 <= j < k :: col == MAXCOL || ByteOf(line, j) < col)
    && (k < |line| ==> col != MAXCOL && ByteOf(line, k) >= col)
  }

  /** What the scan finds at the position: the running sum of the sizes. The end of the line takes one column. */
  ghost predicate Found(w: Window, line: seq<Glyph>, col: int, r: Stop)
    requires w.Valid()
  {
    && StopsAt(line, col, r.index) && r.vcol == StartOf(w, line, r.index)
    && (if r.index == |line| then r.incr == 1 && r.head == 0
        else r.incr == Size(w, line[r.index], r.vcol) && r.head == if Wraps(w, line[r.index], r.vcol) then 1 else 0)
  }

  /** The fast loop, for when TABs have their normal size. */
  method FastLoop(w: Window, line: seq<Glyph>, col: int) returns (r: Stop)
    requires w.Valid() && w.NormalTabs()
    ensures Found(w, line, col, r)
  {
    var vcol, ptr, k := 0, 0, 0;
    while true
      invariant k <= |line| && ptr == ByteOf(line, k) && vcol == StartOf(w, line, k)
      invariant forall j {:trigger ByteOf(line, j)} | 0 <= j < k :: col == MAXCOL || ByteOf(line, j) < col
      decreases |line| - k
    {
      var head, incr := 0, 1;
      if k == |line| {
        return Stop(k, vcol, incr, head);
      }
      var c := line[k];
      if c.Tab? {
        incr := w.ts - vcol % w.ts;
      } else {
        incr := c.cells;
        if incr == 2 && w.wrap && c.multi && InWinBorder(w, vcol) {
          incr := incr + 1;
          head := 1;
        }
      }
      if col != MAXCOL && ptr >= col {
        return Stop(k, vcol, incr, head);
      }
      vcol := vcol + incr;
      ptr := ptr + Bytes(c);
      k := k + 1;
    }
  }

  /** The general loop. */
  method GeneralLoop(w: Window, line: seq<Glyph>, col: int) returns (r: Stop)
    requires w.Valid()
    ensures Found(w, line, col, r)
  {
    var vcol, ptr, k := 0, 0, 0;
    while true
      invariant k <= |line| && ptr == ByteOf(line, k) && vcol == StartOf(w, line, k)
      invariant forall j {:trigger ByteOf(line, j)} | 0 <= j < k :: col == MAXCOL || ByteOf(line, j) < col
      decreases |line| - k
    {
      if k == |line| {
        return Stop(k, vcol, 1, 0);
      }
      var (incr, head) := WinLbrChartabsize(w, line[k], vcol);
      if col != MAXCOL && ptr >= col {
        return Stop(k, vcol, incr, head);
      }
      vcol := vcol + incr;
      ptr := ptr + Bytes(line[k]);
      k := k + 1;
    }
  }

  /** There is one place to stop: the two loops agree. */
  lemma FoundOnce(w: Window, line: seq<Glyph>, col: int, r: Stop, s: Stop)
    requires w.Valid() && Found(w, line, col, r) && Found(w, line, col, s)
    ensures r == s
  {
    assert ByteOf(line, r.index) == ByteOf(line, r.index) && ByteOf(line, s.index) == ByteOf(line, s.index);
  }

  /** `getvcol`: the first and the last column of the character, and the column of the cursor on it; `atEnd` tells
      whether the cursor goes to the end of a TAB. */
  method Getvcol(w: Window, line: seq<Glyph>, col: int, atEnd: bool) returns (start: int, cursor: int, end: int)
    requires w.Valid()
    ensures exists r :: Found(w, line, col, r)
                        && start == r.vcol + r.head
                        && end == (if r.index < |line| then StartOf(w, line, r.index + 1) - 1 else start)
                        && cursor == (if r.index < |line| && line[r.index].Tab? && !w.list && atEnd then end else start)
  {
    var p;
    if w.NormalTabs() {
      p := FastLoop(w, line, col);
    } else {
      p := GeneralLoop(w, line, col);
    }
    start := p.vcol + p.head;
    end := p.vcol + p.incr - 1;
    cursor := if p.index < |line| && line[p.index].Tab? && !w.list
        && atEnd then p.vcol + p.incr - 1 else p.vcol + p.head;
  }
}

/** Moving the cursor to a screen column: `coladvance2` of src/nvim/cursor.c. */
module Coladvance {
  import opened LineCompare
  import opened TextLines
  import opened Retab
  import opened Columns

  /** TABs and characters of one cell. */
  ghost predicate Plain(line: seq<Glyph>) {
    forall k | 0 <= k < |line| :: line[k].Char? ==> line[k].cells == 1 && line[k].bytes >= 1
  }

  // ----- what a line looks like -----

  function TextOf(line: seq<Glyph>): (s: Line)
    ensures |s| == |line| && forall k | 0 <= k < |s| :: s[k] == if line[k].Tab? then TAB else line[k].id
  {
    seq(|line|, k requires 0 <= k < |line| => if line[k].Tab? then TAB else line[k].id)
  }

  /** A character other than a TAB looks like itself. */
  function Itself(c: char): seq<char> { [c] }

  /** The cells of the line when 'list' is off. */
  function Rendered(w: Window, line: seq<Glyph>): seq<char>
    requires w.Valid()
  {
    Expand(Itself, w.ts, 0, TextOf(line))
  }

  /** No character other than a TAB has the code of a TAB. */
  ghost predicate Printable(line: seq<Glyph>) {
    Plain(line) && forall k | 0 <= k < |line| :: line[k].Char? ==> line[k].id != TAB
  }

  lemma {:induction false} RenderedSize(w: Window, line: seq<Glyph>, k: nat)
    requires w.Valid() && w.NormalTabs() && Printable(line) && k <= |line|
    ensures |Expand(Itself, w.ts, 0, TextOf(line[..k]))| == StartOf(w, line, k)
    decreases k
  {
    hide Wraps, Expand;
    if k == 0 {
      ExpandNone(Itself, w.ts, 0);
      assert TextOf(line[..0]) == [];
    } else {
      RenderedSize(w, line, k - 1);
      var s, c := TextOf(line[..k - 1]), TextOf(line)[k - 1];
      assert TextOf(line[..k]) == s + [c];
      ExpandConcat(Itself, w.ts, 0, s, [c]);
      ExpandOne(Itself, w.ts, |Expand(Itself, w.ts, 0, s)|, c);
      PlainSize(w, line[k - 1], StartOf(w, line, k - 1));
    }
  }

  lemma PlainSize(w: Window, g: Glyph, v: nat)
    requires w.Valid() && w.NormalTabs() && (g.Char? ==> g.cells == 1 && g.id != TAB)
    ensures Size(w, g, v) == |Cells(Itself, w.ts, v, if g.Tab? then TAB else g.id)|
    ensures g.Char? ==> Size(w, g, v) == 1
  {
  }

  lemma {:induction false} StartSame(w: Window, line: seq<Glyph>, other: seq<Glyph>, k: nat)
    requires w.Valid() && k <= |line| && k <= |other| && line[..k] == other[..k]
    ensures StartOf(w, line, k) == StartOf(w, other, k) && ByteOf(line, k) == ByteOf(other, k)
    decreases k
  {
    hide Size;
    if k > 0 {
      assert line[..k - 1] == line[..k][..k - 1] && other[..k - 1] == other[..k][..k - 1];
      StartSame(w, line, other, k - 1);
      assert line[k - 1] == line[..k][k - 1] && other[k - 1] == other[..k][k - 1];
    }
  }

  function Spaces(n: nat): (s: seq<Glyph>)
    ensures |s| == n && forall k | 0 <= k < n :: s[k] == SPACE
  {
    seq(n, k requires 0 <= k < n => SPACE)
  }

  /** Spaces start one column after the other. */
  lemma {:induction false} SpacesStart(w: Window, line: seq<Glyph>, k: nat, n: nat)
    requires w.Valid() && k + n <= |line| && forall j | k <= j < k + n :: line[j] == SPACE
    ensures StartOf(w, line, k + n) == StartOf(w, line, k) + n && ByteOf(line, k + n) == ByteOf(line, k) + n
    decreases n
  {
    if n > 0 {
      SpacesStart(w, line, k, n - 1);
      assert line[k + n - 1] == SPACE;
    }
  }

  lemma TextConcat(a: seq<Glyph>, b: seq<Glyph>)
    ensures TextOf(a + b) == TextOf(a) + TextOf(b)
  {
  }

  lemma SpacesText(n: nat)
    ensures TextOf(Spaces(n)) == Run(' ', n)
  {
  }

  /** Spaces at the end show as blanks. */
  lemma AppendRendered(w: Window, line: seq<Glyph>, n: nat)
    requires w.Valid()
    ensures Rendered(w, line + Spaces(n)) == Rendered(w, line) + Blanks(n)
  {
    hide Expand;
    TextConcat(line, Spaces(n));
    SpacesText(n);
    var v := |Expand(Itself, w.ts, 0, TextOf(line))|;
    ExpandConcat(Itself, w.ts, 0, TextOf(line), Run(' ', n));
    BlankExpands(Itself, w.ts, v, Run(' ', n));
  }

  /** Spaces instead of a TAB show like the TAB. */
  lemma BreakRendered(w: Window, line: seq<Glyph>, k: nat)
    requires w.Valid() && w.NormalTabs() && Printable(line) && k < |line| && line[k].Tab?
    ensures Rendered(w, line[..k] + Spaces(Size(w, Tab, StartOf(w, line, k))) + line[k + 1..]) == Rendered(w, line)
  {
    hide Expand, Size, Cells, Printable;
    var (a, v) := (line[..k], StartOf(w, line, k));
    var n := Size(w, Tab, v);
    assert line == a + [Tab] + line[k + 1..];
    RenderedSize(w, line, k);
    PlainSize(w, Tab, v);
    assert TextOf([Tab]) == [TAB];
    SameRendered(w, a, [Tab], Spaces(n), line[k + 1..]) by {
      ExpandOne(Itself, w.ts, v, TAB);
      SpacesText(n);
      BlankExpands(Itself, w.ts, v, Run(' ', n));
      BlankExpands(Itself, w.ts, v, [TAB]);
    }
  }

  lemma SameRendered(w: Window, a: seq<Glyph>, x: seq<Glyph>, y: seq<Glyph>, b: seq<Glyph>)
    requires w.Valid()
    requires var v := |Expand(Itself, w.ts, 0, TextOf(a))|;
             Expand(Itself, w.ts, v, TextOf(x))
             == Expand(Itself, w.ts, v, TextOf(y))
    ensures Rendered(w, a + x + b) == Rendered(w, a + y + b)
  {
    hide Expand;
    InParts(w, a, x, b);
    InParts(w, a, y, b);
  }

  lemma InParts(w: Window, a: seq<Glyph>, x: seq<Glyph>, b: seq<Glyph>)
    requires w.Valid()
    ensures var left := Expand(Itself, w.ts, 0, TextOf(a));
            var middle := Expand(Itself, w.ts, |left|, TextOf(x));
            Rendered(w, a + x + b) == left + middle + Expand(Itself, w.ts, |left| + |middle|, TextOf(b))
  {
    hide Expand;
    TextConcat(a, x);
    TextConcat(a + x, b);
    ExpandConcat(Itself, w.ts, 0, TextOf(a), TextOf(x));
    ExpandConcat(Itself, w.ts, 0, TextOf(a + x), TextOf(b));
  }

  // ----- the cursor -----

  /** The byte at which the character begins that byte `col` belongs to. */
  function HeadOf(line: seq<Glyph>, col: int): int {
    if line == [] || col >= ByteOf(line, |line|) then col
    else if col >= ByteOf(line, |line| - 1) then ByteOf(line, |line| - 1)
    else HeadOf(line[..|line| - 1], col)
  }

  lemma {:induction false} HeadIs(line: seq<Glyph>, k: nat, col: int)
    requires k < |line| && Encoded(line) && ByteOf(line, k) <= col < ByteOf(line, k + 1)
    ensures HeadOf(line, col) == ByteOf(line, k)
    decreases |line|
  {
    var n := |line| - 1;
    if k < n {
      var less := line[..n];
      if k + 1 < n { BytesGrow(line, k + 1, n); }
      BytesGrow(line, n, n + 1);
      BytesSame(line, less, k);
      BytesSame(line, less, k + 1);
      BytesSame(line, less, n);
      HeadIs(less, k, col);
    }
  }

  lemma {:induction false} HeadOfNone(line: seq<Glyph>, col: int)
    requires Encoded(line) && col <= 0
    ensures HeadOf(line, col) == col
    decreases |line|
  {
    if line != [] {
      var n := |line| - 1;
      BytesGrow(line, n, n + 1);
      if n > 0 {
        BytesGrow(line, 0, n);
        HeadOfNone(line[..n], col);
      }
    }
  }

  lemma {:induction false} WideIs(line: seq<Glyph>, k: nat)
    requires k < |line| && Encoded(line)
    ensures WideAt(line, ByteOf(line, k)) <==> Wide(line[k])
    decreases |line|
  {
    var n := |line| - 1;
    if k < n {
      BytesSame(line, line[..n], k);
      BytesGrow(line, k, n);
      WideIs(line[..n], k);
    }
  }

  lemma {:induction false} WideBeyond(line: seq<Glyph>, col: int)
    requires Encoded(line) && col >= ByteOf(line, |line|)
    ensures !WideAt(line, col)
    decreases |line|
  {
    if line != [] {
      var n := |line| - 1;
      BytesGrow(line, n, n + 1);
      BytesSame(line, line[..n], n);
      WideBeyond(line[..n], col);
    }
  }

  /** The byte `col` is of character k, or the end of the line. */
  ghost predicate ByteFits(line: seq<Glyph>, k: nat, col: int) {
    k <= |line| && ByteOf(line, k) <= col && if k < |line| then col < ByteOf(line, k + 1) else col == ByteOf(line, k)
  }

  lemma HeadFound(line: seq<Glyph>, k: nat, col: int)
    requires Encoded(line) && ByteFits(line, k, col)
    ensures HeadOf(line, col) == ByteOf(line, k)
    ensures WideAt(line, ByteOf(line, k)) <==> k < |line| && Wide(line[k])
  {
    if k < |line| {
      HeadIs(line, k, col);
      WideIs(line, k);
    } else {
      WideBeyond(line, col);
    }
  }

  lemma {:induction false} BytesSame(line: seq<Glyph>, other: seq<Glyph>, k: nat)
    requires k <= |line| && k <= |other| && line[..k] == other[..k]
    ensures ByteOf(line, k) == ByteOf(other, k)
    decreases k
  {
    if k > 0 {
      assert line[..k - 1] == line[..k][..k - 1] && other[..k - 1] == other[..k][..k - 1];
      BytesSame(line, other, k - 1);
      assert line[k - 1] == line[..k][k - 1] && other[k - 1] == other[..k][k - 1];
    }
  }

  /** Some character up to k leaves a blank cell at the end of a row. */
  ghost predicate AnyWraps(w: Window, line: seq<Glyph>, k: nat)
    requires w.Valid() && k <= |line|
  {
    exists j {:trigger line[j]} :: 0 <= j < k && Wraps(w, line[j], StartOf(w, line, j))
  }

  lemma AnyWrapsNext(w: Window, line: seq<Glyph>, k: nat)
    requires w.Valid() && k < |line|
    ensures AnyWraps(w, line, k + 1) <==> AnyWraps(w, line, k) || Wraps(w, line[k], StartOf(w, line, k))
  {
    hide Wraps, StartOf;
    if Wraps(w, line[k], StartOf(w, line, k)) {
      assert line[k] == line[k];
    }
  }

  lemma NoneWraps(w: Window, line: seq<Glyph>)
    requires w.Valid()
    ensures !AnyWraps(w, line, 0)
  {
  }

  lemma LbrIs(w: Window, g: Glyph, v: nat)
    requires w.Valid()
    ensures WinLbrChartabsize(w, g, v).0 == Size(w, g, v)
    ensures WinLbrChartabsize(w, g, v).1 == if Wraps(w, g, v) then 1 else 0
  {
    hide InWinBorder;
  }

  /** The column at which character k counts as starting: a blank cell at the end of a row, of the character or of one
      before it, counts for it. */
  ghost function CountedStart(w: Window, line: seq<Glyph>, k: nat): nat
    requires w.Valid() && k <= |line|
  {
    StartOf(w, line, k) + (if k < |line| && AnyWraps(w, line, k + 1) then 1 else 0)
  }

  /** Where it does start. */
  function FirstCell(w: Window, line: seq<Glyph>, k: nat): nat
    requires w.Valid() && k <= |line|
  {
    StartOf(w, line, k) + (if k < |line| && Wraps(w, line[k], StartOf(w, line, k)) then 1 else 0)
  }

  /** A character of two cells goes to the next row instead of being split: it leaves a cell blank exactly if it would
      start in the last column of a row. It is split all the same if further rows have only one column. */
  lemma NotSplit(w: Window, line: seq<Glyph>, k: nat)
    requires w.Valid() && w.wrap && k < |line| && line[k].Char? && line[k].cells == 2 && line[k].multi
    ensures StartOf(w, line, k + 1) == FirstCell(w, line, k) + 2
    ensures FirstCell(w, line, k) == if exists r: nat :: IsRow(w, r) && RowEnd(w, r) == StartOf(w, line, k)
            then StartOf(w, line, k) + 1 else StartOf(w, line, k)
    ensures (exists r: nat :: IsRow(w, r) && RowEnd(w, r) == FirstCell(w, line, k))
            <==> FirstCell(w, line, k) > StartOf(w, line, k) && w.width - w.off + w.off2 == 1
  {
    hide IsRow, RowEnd, InWinBorder;
    var v := StartOf(w, line, k);
    BorderIsRowEnd(w, v);
    BorderIsRowEnd(w, v + 1);
    if InWinBorder(w, v) {
      NextToBorder(w, v);
    }
  }

  /** Every other character starts where the one before it ends. A TAB reaches to the next tab stop, unless it shows as
      `^I`. */
  lemma NotWrapped(w: Window, line: seq<Glyph>, k: nat)
    requires w.Valid() && k < |line| && !(w.wrap && line[k].Char? && line[k].cells == 2 && line[k].multi)
    ensures FirstCell(w, line, k) == StartOf(w, line, k)
    ensures var (v, next) := (StartOf(w, line, k), StartOf(w, line, k + 1));
            && (line[k].Char? ==> next == v + line[k].cells)
            && (line[k].Tab? && w.NormalTabs() ==> v < next <= v + w.ts && next % w.ts == 0)
            && (line[k].Tab? && !w.NormalTabs() ==> next == v + 2)
  {
    var v := StartOf(w, line, k);
    TabStops(w.ts, v, TabSize(w.ts, v));
  }

  lemma NextToBorder(w: Window, v: nat)
    requires InWinBorder(w, v)
    ensures InWinBorder(w, v + 1) <==> w.width - w.off + w.off2 == 1
  {
    var x, n := v - (w.width - w.off), w.width - w.off + w.off2;
    if n > 0 && x >= 0 {
      assert x == n * (x / n) + x % n;
      RowOffset(n, x / n + 1);
      RemainderIs(x + 1, n, x / n + 1, 0);
    }
  }

  /** What `getvcol` finds at the first byte of a character: its first column, and where the next one starts. */
  lemma FoundThere(w: Window, line: seq<Glyph>, k: nat, r: Stop)
    requires w.Valid() && Encoded(line) && k < |line| && ByteOf(line, k) != MAXCOL && Found(w, line, ByteOf(line, k), r)
    ensures r.index == k && r.vcol + r.head == FirstCell(w, line, k) && r.vcol + r.incr == StartOf(w, line, k + 1)
  {
    hide Size, Wraps;
    if r.index < k {
      BytesGrow(line, r.index, k);
    }
  }

  /** The wanted column counts as reached. */
  ghost predicate CountsAsReached(w: Window, line: seq<Glyph>, k: nat, wcol: nat)
    requires w.Valid() && k <= |line|
  {
    CountedStart(w, line, k) >= wcol
  }

  /** That is wrong exactly for the column after the first one of the character, if only an earlier character left a
      blank. */
  lemma WronglyReached(w: Window, line: seq<Glyph>, k: nat, wcol: nat)
    requires w.Valid() && k <= |line|
    ensures CountsAsReached(w, line, k, wcol) != (FirstCell(w, line, k) >= wcol)
            <==> k < |line| && AnyWraps(w, line, k) && !Wraps(w, line[k], StartOf(w, line, k))
                 && wcol == StartOf(w, line, k) + 1
  {
    hide Wraps, StartOf;
    if k < |line| {
      AnyWrapsNext(w, line, k);
    }
  }

  /** What of the editor's state matters: virtual editing, and whether the cursor can be past the end of the line. */
  datatype Mode = Mode(virtual: bool, oneMore: bool)

  /** The line with the cursor; `col` counts bytes, `coladd` columns past the start of the character. */
  class CursorLine {
    var line: seq<Glyph>
    var col: int
    var coladd: int

    /** The scan of `coladvance2`: the first character that starts past the wanted column, the size of the one before
        it, and a blank cell at the end of a row, which need not belong to that character: `head` is not reset. */
    method Scan(w: Window, wcol: int) returns (k: nat, idx: int, col: nat, csize: nat, head: nat)
      requires w.Valid() && 0 <= wcol
      ensures k <= |line| && idx == ByteOf(line, k) && col == StartOf(w, line, k)
      ensures k > 0 ==> StartOf(w, line, k - 1) <= wcol && csize == Size(w, line[k - 1], StartOf(w, line, k - 1))
      ensures k == 0 ==> csize == 0
      ensures col > wcol || k == |line|
      ensures head == if AnyWraps(w, line, k) then 1 else 0
    {
      hide WinLbrChartabsize, Size, Wraps, AnyWraps;
      idx, col, csize, k, head := 0, 0, 0, 0, 0;
      NoneWraps(w, line);
      while col <= wcol && k < |line|
        invariant k <= |line| && idx == ByteOf(line, k) && col == StartOf(w, line, k)
        invariant k > 0 ==> StartOf(w, line, k - 1) <= wcol && csize == Size(w, line[k - 1], StartOf(w, line, k - 1))
        invariant k == 0 ==> csize == 0 && col == 0
        invariant head == if AnyWraps(w, line, k) then 1 else 0
        decreases |line| - k
      {
        var (n, h) := WinLbrChartabsize(w, line[k], col);
        LbrIs(w, line[k], col);
        AnyWrapsNext(w, line, k);
        csize := n;
        if h != 0 {
          head := h;
        }
        idx := idx + Bytes(line[k]);
        col := col + csize;
        k := k + 1;
      }
    }

    /** Appends spaces so that the line reaches the wanted column. */
    method AppendSpaces(w: Window, correct: nat)
      requires w.Valid() && Printable(line)
      modifies this`line
      ensures line == old(line) + Spaces(correct) && Printable(line)
      ensures StartOf(w, line, |line|) == StartOf(w, old(line), |old(line)|) + correct
      ensures ByteOf(line, |line|) == ByteOf(old(line), |old(line)|) + correct
      ensures Rendered(w, line) == Rendered(w, old(line)) + Blanks(correct)
    {
      hide Rendered;
      ghost var was := line;
      line := line + Spaces(correct);
      StartSame(w, was, line, |was|);
      SpacesStart(w, line, |was|, correct);
      AppendRendered(w, was, correct);
    }

    /** Replaces the TAB at position t, of size csize, by spaces; the j-th of them starts j columns after the TAB. */
    method BreakTab(w: Window, t: nat, csize: nat, ghost j: nat)
      requires w.Valid() && Printable(line) && t < |line| && line[t].Tab? && csize == Size(w, Tab, StartOf(w, line, t))
               && j < csize
      modifies this`line
      ensures line == old(line)[..t] + Spaces(csize) + old(line)[t + 1..] && Printable(line)
      ensures StartOf(w, line, t + j) == StartOf(w, old(line), t) + j && ByteOf(line, t + j) == ByteOf(old(line), t) + j
      ensures !w.list ==> Rendered(w, line) == Rendered(w, old(line))
    {
      hide Rendered, Size;
      ghost var was := line;
      line := line[..t] + Spaces(csize) + line[t + 1..];
      assert line[..t] == was[..t];
      StartSame(w, was, line, t);
      SpacesStart(w, line, t, j);
      if !w.list {
        BreakRendered(w, was, t);
      }
    }

    /** The change of the text: the cursor is at byte idx, which is column `at`; character n is the first that starts
        past the wanted column. */
    method AddSpaces(w: Window, wcol: int, idx0: int, at0: int, csize: nat, n: nat)
        returns (idx: int, at: int, ghost k: nat)
      requires w.Valid() && 0 <= wcol && Printable(line) && n <= |line|
      requires StartOf(w, line, n) <= wcol ==> n == |line| && idx0 == ByteOf(line, n) && at0 == StartOf(w, line, n)
      requires StartOf(w, line, n) > wcol ==>
                 && n > 0 && line[n - 1].Tab? && idx0 == ByteOf(line, n - 1) && at0 == StartOf(w, line, n - 1) <= wcol
                 && csize == Size(w, Tab, at0)
      modifies this`line
      ensures Printable(line) && k <= |line| && idx == ByteOf(line, k) && StartOf(w, line, k) == wcol
      ensures at == if StartOf(w, old(line), n) > wcol then wcol - csize + 1 else wcol
      ensures !w.list ==> Rendered(w, line) == Rendered(w, old(line)) + Blanks(Missing(w, old(line), wcol))
    {
      hide Rendered, Size;
      idx, at := idx0, at0;
      ghost var was := line;
      StartsGrow(w, line, n, |line|);
      if idx == ByteOf(line, |line|) {
        if n > 0 { BytesGrow(line, n - 1, n); }
        if n < |line| { BytesGrow(line, n, |line|); }
        var correct := wcol - at;
        AppendSpaces(w, correct);
        idx := idx + correct;
        at := wcol;
        k := |line|;
      } else {
        var correct := wcol - at - csize + 1;
        k := n - 1 + (wcol - at);
        assert StartOf(w, line, n) == at + csize;
        BreakTab(w, n - 1, csize, wcol - at);
        assert Rendered(w, was) + Blanks(0) == Rendered(w, was);
        idx := idx + (csize - 1 + correct);
        at := at + correct;
      }
    }

    /** The end of `coladvance2`: the cursor goes to the character that byte idx belongs to, and with `finetune` to the
        very column. */
    method PlaceCursor(w: Window, finetune: bool, wcol: int, idx: int, at0: int, ghost k: nat) returns (ok: bool)
      requires Encoded(line) && ByteFits(line, k, if idx < 0 then 0 else idx)
      modifies this`col, this`coladd
      ensures col == ByteOf(line, k)
      ensures coladd == if finetune && 0 < wcol - at0 < MAXCOL - 2 * w.width
              && !(wcol - at0 == 1 && idx > 0 && k < |line| && Wide(line[k]))
                        then wcol - at0 else 0
      ensures ok <==> finetune || at0 >= wcol
    {
      hide ByteOf;
      var at := at0;
      col := if idx < 0 then 0 else idx;
      coladd := 0;
      if finetune {
        var b := wcol - at;
        if b > 0 && b < MAXCOL - 2 * w.width {
          coladd := b;
        }
        at := at + b;
      }
      HeadFound(line, k, col);
      AdjustPosition();
      ok := at >= wcol;
    }

    /** `mb_adjustpos`: the cursor is not inside a character, and not on the right half of a wide one. */
    method AdjustPosition()
      requires Encoded(line)
      modifies this`col, this`coladd
      ensures col == HeadOf(line, old(col))
      ensures coladd == if old(col) > 0 && old(coladd) == 1 && WideAt(line, col) then 0 else old(coladd)
    {
      if col > 0 || coladd > 1 {
        col := HeadOf(line, col);
        if coladd == 1 && WideAt(line, col) {
          coladd := 0;
        }
      } else {
        HeadOfNone(line, col);
      }
    }

    /** The scan, and the step back to the character that covers the wanted column, or to the last one if the cursor
        cannot be past the end. */
    method StepBack(w: Window, m: Mode, wcol: int) returns (n: nat, ghost k: nat, idx: int, at: int, csize: int)
      requires w.Valid() && 0 <= wcol && Encoded(line)
      ensures Scanned(w, line, wcol, n)
              && k == (if StartOf(w, line, n) > wcol
                  || (!m.virtual && !m.oneMore) then (if n > 0 then n - 1 else 0) else n)
      ensures Lands(w, m, line, wcol, k) && at == CountedStart(w, line, k)
      ensures ByteFits(line, k, if idx < 0 then 0 else idx) && (k < |line| ==> idx == ByteOf(line, k + 1) - 1)
      ensures StartOf(w, line, n) <= wcol && m.virtual ==> idx == ByteOf(line, n)
      ensures Printable(line) ==>
                at == StartOf(w, line, k) <= wcol
                    && csize == if n > 0 then Size(w, line[n - 1], StartOf(w, line, n - 1)) else 0
      ensures StartOf(w, line, n) > wcol ==> n > 0
      ensures Printable(line) && n > 0 && line[n - 1].Char? ==> csize == 1
      ensures Printable(line) && n > 0 && StartOf(w, line, n) > wcol && csize <= 1 ==> at == wcol
    {
      hide Size, Wraps, AnyWraps, Lands, ByteFits;
      var at0: nat, csize0: nat, head;
      n, idx, at0, csize0, head := Scan(w, wcol);
      k, at, csize := n, at0, csize0;
      SteppedBack(w, line, n);
      PlainFits(w, line, n);
      LandsThere(w, m, line, wcol, n);
      if at > wcol || (!m.virtual && !m.oneMore) {
        idx := idx - 1;
        csize := csize - head;
        at := at - csize;
        k := if n > 0 then n - 1 else 0;
      }
    }

    /** `coladvance2` for a column that is not MAXCOL, and is not below the last row of the line if that matters. */
    method Advance(w: Window, m: Mode, addspaces: bool, finetune: bool, wcol: int) returns (ok: bool, ghost k: nat)
      requires w.Valid() && 0 <= wcol < MAXCOL && Encoded(line) && !(addspaces && finetune)
      requires addspaces && m.virtual ==> Printable(line)
      modifies this
      ensures Encoded(line) && k <= |line| && col == ByteOf(line, k)
      ensures !(addspaces && m.virtual) ==> line == old(line) && Lands(w, m, line, wcol, k)
      ensures !(addspaces && m.virtual) && !finetune ==> coladd == 0 && (ok <==> CountsAsReached(w, line, k, wcol))
      ensures finetune ==> ok && coladd == Fine(w, line, k, wcol - CountedStart(w, line, k))
      ensures !(addspaces && m.virtual) && Printable(line) ==> CountedStart(w, line, k) == StartOf(w, line, k) <= wcol
      ensures addspaces && m.virtual ==>
                StartOf(w, line, k) == wcol && coladd == 0 && Printable(line)
                    && (ok <==> !InTab(w, old(line), wcol))
      ensures addspaces && m.virtual && !w.list ==>
                Rendered(w, line) == Rendered(w, old(line)) + Blanks(Missing(w, old(line), wcol))
    {
      hide Rendered, Size, Wraps, AnyWraps, InTab, Lands, Missing, CountedStart, ByteFits, StartOf;
      var n, idx, at, csize;
      n, k, idx, at, csize := StepBack(w, m, wcol);
      InTabIs(w, line, wcol, n);
      Fits(w, line, wcol, n);
      assert Rendered(w, line) + Blanks(0) == Rendered(w, line);
      if m.virtual && addspaces && ((at != wcol && at != wcol + 1) || csize > 1) {
        idx, at, k := AddSpaces(w, wcol, idx, at, csize, n);
        AtStart(line, k);
      }
      ok := PlaceCursor(w, finetune, wcol, idx, at, k);
    }

    /** `coladvance2` for MAXCOL: the cursor goes to the last character, or past it if it can be there. With `finetune`
        it is to be in the last column of that character, which only works for a character of one byte. The size of a
        line is an int. */
    method AdvanceToEnd(w: Window, m: Mode, finetune: bool) returns (ok: bool, ghost k: nat)
      requires w.Valid() && Encoded(line) && ByteOf(line, |line|) <= MAXCOL
      modifies this`col, this`coladd
      ensures ok && k == EndIndex(m, line) && col == ByteOf(line, k)
      ensures coladd == if finetune && !m.oneMore then LastCells(w, line) else 0
    {
      hide Wraps, HeadOf, WideAt, Wide, StopsAt, FirstCell, StartOf;
      var idx: int := ByteOf(line, |line|) - 1 + if m.oneMore then 1 else 0;
      k := EndIndex(m, line);
      col := if idx < 0 then 0 else idx;
      coladd := 0;
      EndFits(line);
      if finetune && !m.oneMore {
        var scol, cursor, ecol := Getvcol(w, line, col, false);
        EndFound(w, line, col, scol, ecol);
        coladd := ecol - scol;
      }
      HeadFound(line, k, col);
      AdjustPosition();
      ok := true;
    }

    /** `coladvance_force`: with virtual editing the cursor gets to the very column, and the line looks the same but for
        the blanks it may need at its end. Otherwise, and for MAXCOL, the line is not changed. */
    method ColadvanceForce(w: Window, m: Mode, wcol: int) returns (ok: bool, ghost k: nat)
      requires w.Valid() && 0 <= wcol <= MAXCOL && Encoded(line) && ByteOf(line, |line|) <= MAXCOL
      requires m.virtual && wcol < MAXCOL ==> Printable(line)
      modifies this
      ensures Encoded(line) && k <= |line| && col == ByteOf(line, k) && coladd == 0
      ensures m.virtual && wcol < MAXCOL ==>
                Printable(line) && StartOf(w, line, k) == wcol
                    && (ok <==> !InTab(w, old(line), wcol))
      ensures m.virtual && wcol < MAXCOL && !w.list ==>
              Rendered(w, line) == Rendered(w, old(line)) + Blanks(Missing(w, old(line), wcol))
      ensures !m.virtual && wcol < MAXCOL ==>
                line == old(line) && Lands(w, m, line, wcol, k)
                    && (ok <==> CountsAsReached(w, line, k, wcol))
      ensures wcol == MAXCOL ==> line == old(line) && ok && k == EndIndex(m, line)
    {
      hide Rendered, InTab, Missing, Lands, CountsAsReached;
      if wcol == MAXCOL {
        ok, k := AdvanceToEnd(w, m, false);
      } else {
        ok, k := Advance(w, m, true, false, wcol);
      }
    }

    /** `getvpos`: the line is not changed, and with virtual editing the cursor is in the very column, or in the last
        column of the last row if that is above the wanted one. */
    method Getvpos(w: Window, m: Mode, insert: bool, wcol0: nat) returns (ok: bool, wcol: nat, ghost k: nat)
      requires w.Valid() && wcol0 <= MAXCOL && Encoded(line) && ByteOf(line, |line|) <= MAXCOL
      requires m.virtual && wcol0 < MAXCOL ==> RowsFit(w)
      modifies this
      ensures line == old(line) && k <= |line| && col == ByteOf(line, k)
      ensures if wcol0 < MAXCOL && m.virtual && Beyond(w, line, insert, wcol0)
              then wcol < wcol0 && wcol % (w.width - w.off) == w.width - w.off - 1
              else wcol == wcol0
      ensures wcol0 < MAXCOL ==> Lands(w, m, line, wcol, k)
                                 && (if m.virtual then ok && coladd == Fine(w, line, k, wcol - CountedStart(w, line, k))
                                     else coladd == 0 && (ok <==> CountsAsReached(w, line, k, wcol)))
      ensures wcol0 < MAXCOL && Printable(line) ==>
                && CountedStart(w, line, k) == StartOf(w, line, k) <= wcol
                && (m.virtual && wcol < MAXCOL - 2 * w.width ==> StartOf(w, line, k) + coladd == wcol)
      ensures wcol0 == MAXCOL ==> ok && k == EndIndex(m, line) && coladd == if m.virtual
              && !m.oneMore then LastCells(w, line) else 0
    {
      hide Lands, Beyond, AnyWraps, LastCells;
      if wcol0 == MAXCOL {
        wcol := wcol0;
        ok, k := AdvanceToEnd(w, m, m.virtual);
      } else {
        wcol := Clamp(w, line, insert, m.virtual, wcol0);
        ok, k := Advance(w, m, false, m.virtual, wcol);
      }
    }
  }

  /** The last character, or the place past it if the cursor can be there. */
  function EndIndex(m: Mode, line: seq<Glyph>): nat { if m.oneMore || line == [] then |line| else |line| - 1 }

  /** The character at byte col is a wide one. */
  predicate WideAt(line: seq<Glyph>, col: int) {
    line != [] && (if col == ByteOf(line, |line| - 1) then Wide(line[|line| - 1]) else WideAt(line[..|line| - 1], col))
  }

  predicate Wide(g: Glyph) { g.Char? && g.printable && g.cells > 1 }

  /** How many columns past the start of character k the cursor is to be, when b are wanted. */
  function Fine(w: Window, line: seq<Glyph>, k: nat, b: int): int
    requires k <= |line|
  {
    if 0 < b < MAXCOL - 2 * w.width && !(b == 1 && k < |line| && ByteOf(line, k + 1) > 1 && Wide(line[k])) then b else 0
  }

  /** How many columns the last column of the line is past the start of its character, if that has one byte. */
  function LastCells(w: Window, line: seq<Glyph>): int
    requires w.Valid()
  {
    if line == [] || Bytes(line[|line| - 1]) != 1 then 0
    else
      var d := StartOf(w, line, |line|) - 1 - FirstCell(w, line, |line| - 1);
      if d == 1 && |line| > 1 && Wide(line[|line| - 1]) then 0 else d
  }

  /** With virtual editing the cursor is in the very column, even in the middle of a TAB, but for the second column of a
      wide character, for which it is on the first. */
  lemma RightHalf(w: Window, m: Mode, line: seq<Glyph>, wcol: nat, k: nat)
    requires w.Valid() && Lands(w, m, line, wcol, k) && k < |line| && wcol < StartOf(w, line, |line|)
             && !AnyWraps(w, line, k + 1) && wcol - StartOf(w, line, k) < MAXCOL - 2 * w.width
    requires line[k].Char? && line[k].printable ==> line[k].cells == 1 || (line[k].cells == 2 && line[k].bytes > 1)
    ensures var add := Fine(w, line, k, wcol - CountedStart(w, line, k));
            StartOf(w, line, k) + add
            == if line[k].Char? && line[k].printable && line[k].cells == 2 && wcol == StartOf(w, line, k + 1) - 1
               then StartOf(w, line, k) else wcol
  {
    hide Wraps, AnyWraps, StartOf;
    AnyWrapsNext(w, line, k);
    PlainFits(w, line, k + 1);
  }

  lemma EndFits(line: seq<Glyph>)
    requires Encoded(line)
    ensures ByteFits(line, |line|, ByteOf(line, |line|))
    ensures line != [] ==> ByteOf(line, |line|) >= |line| && ByteFits(line, |line| - 1, ByteOf(line, |line|) - 1)
  {
    BytesAtLeast(line, |line|);
  }

  lemma {:induction false} BytesAtLeast(line: seq<Glyph>, k: nat)
    requires Encoded(line) && k <= |line|
    ensures ByteOf(line, k) >= k
    decreases k
  {
    if k > 0 {
      BytesAtLeast(line, k - 1);
    }
  }

  /** What `getvcol` says at the last byte. */
  lemma EndFound(w: Window, line: seq<Glyph>, col: int, start: int, end: int)
    requires w.Valid() && Encoded(line) && ByteOf(line, |line|) <= MAXCOL
             && col == if line == [] then 0 else ByteOf(line, |line|) - 1
    requires exists r :: Found(w, line, col, r) && start == r.vcol + r.head
                         && end == (if r.index < |line| then StartOf(w, line, r.index + 1) - 1 else start)
    ensures end - start == if line == [] || Bytes(line[|line| - 1]) != 1 then 0
                           else StartOf(w, line, |line|) - 1 - FirstCell(w, line, |line| - 1)
  {
    hide Wraps, Size;
    var r :| Found(w, line, col, r) && start == r.vcol + r.head
             && end == (if r.index < |line| then StartOf(w, line, r.index + 1) - 1 else start);
    if line != [] && r.index < |line| {
      var n := |line| - 1;
      if r.index < n {
        BytesGrow(line, r.index, n);
      }
    } else if line != [] {
      assert ByteOf(line, |line| - 1) < col;
    }
  }

  lemma AtStart(line: seq<Glyph>, k: nat)
    requires Encoded(line) && k <= |line|
    ensures ByteFits(line, k, ByteOf(line, k))
  {
    if k < |line| {
      BytesGrow(line, k, k + 1);
    }
  }

  /** Stepping back over a character leads to its last byte and to the column at which it counts as starting. */
  lemma SteppedBack(w: Window, line: seq<Glyph>, n: nat)
    requires w.Valid() && Encoded(line) && n <= |line|
    ensures ByteFits(line, if n > 0 then n - 1 else 0, if n > 0 then ByteOf(line, n) - 1 else 0)
            || (n == 0 && line != [])
    ensures n > 0 ==> StartOf(w, line, n) - (Size(w, line[n - 1], StartOf(w, line, n - 1)) - if AnyWraps(w, line, n)
            then 1 else 0)
                      == CountedStart(w, line, n - 1)
    ensures n == |line| ==> CountedStart(w, line, n) == StartOf(w, line, n) && ByteFits(line, n, ByteOf(line, n))
  {
    hide Size, AnyWraps;
    if n > 0 {
      BytesGrow(line, n - 1, n);
    }
  }

  /** What the scan finds. */
  ghost predicate Scanned(w: Window, line: seq<Glyph>, wcol: nat, n: nat)
    requires w.Valid()
  {
    && n <= |line| && (n > 0 ==> StartOf(w, line, n - 1) <= wcol) && (StartOf(w, line, n) > wcol || n == |line|)
  }

  lemma InTabIs(w: Window, line: seq<Glyph>, wcol: nat, n: nat)
    requires w.Valid() && Scanned(w, line, wcol, n)
    ensures InTab(w, line, wcol) <==>
              StartOf(w, line, n) > wcol && n > 0 && line[n - 1].Tab? && Size(w, Tab, StartOf(w, line, n - 1)) > 1
  {
    hide Size;
    forall t | 0 <= t < |line| && StartOf(w, line, t) <= wcol < StartOf(w, line, t + 1) ensures t == n - 1 {
      if t + 1 < n {
        StartsGrow(w, line, t + 1, n - 1);
      } else if t >= n {
        StartsGrow(w, line, n, t);
      }
    }
  }

  lemma LandsThere(w: Window, m: Mode, line: seq<Glyph>, wcol: nat, n: nat)
    requires w.Valid() && Scanned(w, line, wcol, n)
    ensures Lands(w, m, line, wcol, if StartOf(w, line, n) > wcol
            || (!m.virtual && !m.oneMore) then (if n > 0 then n - 1 else 0) else n)
  {
    StartsGrow(w, line, n, |line|);
  }

  lemma Fits(w: Window, line: seq<Glyph>, wcol: nat, n: nat)
    requires w.Valid() && Scanned(w, line, wcol, n)
    ensures StartOf(w, line, n) > wcol ==> Missing(w, line, wcol) == 0
    ensures StartOf(w, line, n) <= wcol ==> Missing(w, line, wcol) == wcol - StartOf(w, line, n)
  {
    StartsGrow(w, line, n, |line|);
  }

  /** There is a column for text in a row; it matters to `coladvance2` only if it wraps the wanted column. */
  predicate RowsFit(w: Window) { w.wrap && w.width > 0 ==> w.width - w.off > 0 }

  /** The line numbers and the like take the whole window. */
  predicate NoTextColumn(w: Window) { w.wrap && w.width > 0 && w.width == w.off }

  /** With `finetune`, the division by the number of columns for text is then reached for every wanted column. */
  lemma DividesByZero(w: Window, wcol: nat)
    requires NoTextColumn(w)
    ensures w.wrap && w.width != 0 && wcol >= w.width - w.off == 0 && !RowsFit(w)
  {
  }

  /** Whether the wanted column is made smaller, because it is in a row below the last row of the line. */
  predicate Beyond(w: Window, line: seq<Glyph>, insert: bool, wcol: nat)
    requires w.Valid() && RowsFit(w)
  {
    w.wrap && w.width > 0 && wcol / (w.width - w.off) > LastColumn(w, line) / (w.width - w.off)
        && (!insert || wcol > LastColumn(w, line) + 1)
  }

  /** Row q of a line starts with this column, for rows of the same width as the first. */
  function RowStart(w: Window, q: nat): int { q * (w.width - w.off) }

  /** It is exactly if a row starts past the end of the line and not past the wanted column; in Insert mode the column
      just past the end will do. */
  lemma BeyondIs(w: Window, line: seq<Glyph>, insert: bool, wcol: nat)
    requires w.Valid() && RowsFit(w)
    ensures var end := if StartOf(w, line, |line|) > 0 then StartOf(w, line, |line|) else 1;
            Beyond(w, line, insert, wcol)
            <==> w.wrap && w.width > 0 && (exists q: nat :: end <= RowStart(w, q) <= wcol) && !(insert && wcol <= end)
  {
    hide StartOf;
    var n, last := w.width - w.off, LastColumn(w, line);
    if w.wrap && w.width > 0 {
      FirstRow(wcol, n);
      if wcol / n > last / n {
        var q: nat := wcol / n;
        RowAbove(n, q, wcol);
        RowAbove(n, q, last);
        assert last < RowStart(w, q) <= wcol;
      }
      forall q: nat | last < RowStart(w, q) <= wcol ensures wcol / n > last / n {
        RowAbove(n, q, wcol);
        RowAbove(n, q, last);
      }
    }
  }

  /** A column is in row q or below exactly if it is not above its start. */
  lemma RowAbove(n: int, q: nat, x: nat)
    requires n > 0
    ensures x >= q * n <==> x / n >= q
  {
    assert x == n * (x / n) + x % n;
    Distributes(n, x / n, q);
    if x / n > q {
      AtLeast(n, x / n - q);
    } else if x / n < q {
      AtLeast(n, q - x / n);
    }
  }

  function LastColumn(w: Window, line: seq<Glyph>): nat
    requires w.Valid()
  {
    if StartOf(w, line, |line|) > 0 then StartOf(w, line, |line|) - 1 else 0
  }

  lemma NotBeyond(w: Window, line: seq<Glyph>, insert: bool, wcol: nat)
    requires w.Valid() && RowsFit(w) && wcol < w.width - w.off
    ensures !Beyond(w, line, insert, wcol)
  {
    hide LastColumn;
    FirstRow(wcol, w.width - w.off);
    FirstRow(LastColumn(w, line), w.width - w.off);
  }

  lemma PlainFits(w: Window, line: seq<Glyph>, n: nat)
    requires w.Valid() && n <= |line|
    ensures Printable(line) ==> !AnyWraps(w, line, n)
    ensures Printable(line) && n > 0 && line[n - 1].Char? ==> Size(w, line[n - 1], StartOf(w, line, n - 1)) == 1
    ensures n > 0 ==> StartOf(w, line, n) == StartOf(w, line, n - 1) + Size(w, line[n - 1], StartOf(w, line, n - 1))
  {
    hide InWinBorder;
  }

  /** A later column counts as reached because an earlier character left a blank cell at the end of a row: the TAB
      starts at column 5, but column 6 is said to be reached. */
  lemma HeadIsKept()
    ensures var w := Window(3, 0, 0, true, false, true, 8);
            var line := [Char('a', 1, 1, false, true), Char('b', 1, 1, false, true), Char('c', 2, 3, true, true), Tab];
            FirstCell(w, line, 3) == 5 && CountsAsReached(w, line, 3, 6) && Lands(w, Mode(false, false), line, 6, 3)
  {
    var w := Window(3, 0, 0, true, false, true, 8);
    var line := [Char('a', 1, 1, false, true), Char('b', 1, 1, false, true), Char('c', 2, 3, true, true), Tab];
    assert StartOf(w, line, 1) == 1;
    assert StartOf(w, line, 2) == 2;
    assert Wraps(w, line[2], 2);
    assert StartOf(w, line, 3) == 5;
    assert StartOf(w, line, 4) == 8;
    assert AnyWraps(w, line, 4);
  }

  /** Going to any column that a character covers leads to that character: `getvpos` undoes `getvcol`. */
  lemma LandsOnCover(w: Window, m: Mode, line: seq<Glyph>, wcol: nat, k: nat, j: nat)
    requires w.Valid() && Lands(w, m, line, wcol, k) && j < |line|
             && StartOf(w, line, j) <= wcol < StartOf(w, line, j + 1)
    ensures k == j
  {
    StartsGrow(w, line, j + 1, |line|);
    if k < j {
      StartsGrow(w, line, k + 1, j);
    } else if j < k {
      StartsGrow(w, line, j + 1, k);
    }
  }

  /** The wanted column, or the last column of the last row of the line if that is in an earlier row and 'wrap' is set.
      */
  method LastRow(w: Window, line: seq<Glyph>, insert: bool, wcol0: nat) returns (wcol: nat)
    requires w.Valid() && w.wrap && w.width > 0 && 0 < w.width - w.off <= wcol0
    ensures if Beyond(w, line, insert, wcol0) then
              wcol < wcol0 && wcol % (w.width - w.off) == w.width - w.off - 1
                  && wcol / (w.width - w.off) == LastColumn(w, line) / (w.width - w.off)
            else wcol == wcol0
  {
    wcol := wcol0;
    var width := w.width - w.off;
    var csize := LineTabSize(w, line);
    if csize > 0 {
      csize := csize - 1;
    }
    if wcol / width > csize / width && (!insert || wcol > csize + 1) {
      EndOfRow(width, csize, wcol);
      wcol := (csize / width + 1) * width - 1;
    }
  }

  /** With `finetune`, the cursor does not go below the last row of a wrapped line. */
  method Clamp(w: Window, line: seq<Glyph>, insert: bool, finetune: bool, wcol0: nat) returns (wcol: nat)
    requires w.Valid() && (finetune ==> RowsFit(w))
    ensures if finetune && Beyond(w, line, insert, wcol0) then wcol < wcol0
            && wcol % (w.width - w.off) == w.width - w.off - 1
            else wcol == wcol0
  {
    hide Beyond;
    wcol := wcol0;
    if finetune && w.wrap && w.width != 0 && wcol >= w.width - w.off {
      wcol := LastRow(w, line, insert, wcol);
    } else if finetune && w.wrap && w.width != 0 {
      NotBeyond(w, line, insert, wcol);
    } else if finetune {
      WithoutRows(w, line, insert, wcol);
    }
  }

  lemma WithoutRows(w: Window, line: seq<Glyph>, insert: bool, wcol: nat)
    requires w.Valid() && !(w.wrap && w.width != 0)
    ensures !Beyond(w, line, insert, wcol)
  {
  }

  lemma FirstRow(x: nat, n: int)
    requires n > 0
    ensures x < n ==> x / n == 0
    ensures x >= 0 ==> x / n >= 0
  {
  }

  /** The end of the row that column c is in. */
  lemma EndOfRow(n: int, c: nat, x: nat)
    requires n > 0 && x / n > c / n
    ensures var e := (c / n + 1) * n - 1; 0 <= e < x && e % n == n - 1 && e / n == c / n
  {
    var q := c / n;
    FirstRow(c, n);
    RowOffset(n, q + 1);
    AtLeast(n, q + 1);
    RemainderIs((q + 1) * n - 1, n, q, n - 1);
    LaterRow(x, (q + 1) * n - 1, n);
  }

  lemma LaterRow(a: nat, b: nat, n: int)
    requires n > 0 && a / n > b / n
    ensures a > b
  {
    if a <= b {
      assert a == n * (a / n) + a % n && b == n * (b / n) + b % n;
      Distributes(n, a / n, b / n);
      AtLeast(n, a / n - b / n);
    }
  }

  /** `linetabsize` */
  method LineTabSize(w: Window, line: seq<Glyph>) returns (col: nat)
    requires w.Valid()
    ensures col == StartOf(w, line, |line|)
  {
    col := 0;
    for k := 0 to |line|
      invariant col == StartOf(w, line, k)
    {
      LbrIs(w, line[k], col);
      var (n, h) := WinLbrChartabsize(w, line[k], col);
      col := col + n;
    }
  }

  /** The cursor is on the character that covers the wanted column, or at the end of a line that is too short. */
  ghost predicate Lands(w: Window, m: Mode, line: seq<Glyph>, wcol: nat, k: nat)
    requires w.Valid()
  {
    if StartOf(w, line, |line|) > wcol then k < |line| && StartOf(w, line, k) <= wcol < StartOf(w, line, k + 1)
    else k == if m.virtual || m.oneMore || line == [] then |line| else |line| - 1
  }

  /** The wanted column is in a TAB of more than one column. */
  ghost predicate InTab(w: Window, line: seq<Glyph>, wcol: nat)
    requires w.Valid()
  {
    exists t :: 0 <= t < |line| && line[t].Tab? && Size(w, Tab, StartOf(w, line, t)) > 1
                && StartOf(w, line, t) <= wcol < StartOf(w, line, t + 1)
  }

  /** That is, the line reaches past it and no character has just that column. */
  lemma InTabMeans(w: Window, line: seq<Glyph>, wcol: nat)
    requires w.Valid() && w.NormalTabs() && Printable(line)
    ensures InTab(w, line, wcol)
            <==> wcol < StartOf(w, line, |line|)
                 && !exists k :: 0 <= k < |line| && StartOf(w, line, k) == wcol && StartOf(w, line, k + 1) == wcol + 1
  {
    hide Wraps, StartOf;
    var n := ScanFrom(w, line, wcol, 0);
    InTabIs(w, line, wcol, n);
    StartsGrow(w, line, n, |line|);
    if StartOf(w, line, n) > wcol {
      StartZero(w, line);
      PlainFits(w, line, n);
      StartsGrow(w, line, 0, n);
      if k :| 0 <= k < |line| && StartOf(w, line, k) == wcol && StartOf(w, line, k + 1) == wcol + 1 {
        if k + 1 < n {
          StartsGrow(w, line, k + 1, n - 1);
        } else if k >= n {
          StartsGrow(w, line, n, k);
        }
      }
    }
  }

  lemma StartZero(w: Window, line: seq<Glyph>)
    requires w.Valid()
    ensures StartOf(w, line, 0) == 0
  {
  }

  lemma ScanFrom(w: Window, line: seq<Glyph>, wcol: nat, k: nat) returns (n: nat)
    requires w.Valid() && k <= |line| && (k > 0 ==> StartOf(w, line, k - 1) <= wcol)
    ensures Scanned(w, line, wcol, n)
    decreases |line| - k
  {
    hide StartOf;
    if k == |line| || StartOf(w, line, k) > wcol {
      n := k;
    } else {
      n := ScanFrom(w, line, wcol, k + 1);
    }
  }

  /** How many columns the line is too short. */
  function Missing(w: Window, line: seq<Glyph>, wcol: nat): nat
    requires w.Valid()
  {
    if StartOf(w, line, |line|) <= wcol then wcol - StartOf(w, line, |line|) else 0
  }
}

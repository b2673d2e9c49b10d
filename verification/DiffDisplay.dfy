/** Lines side by side: filler lines, and the top line of a window that follows another one;
    `diff_check`, `diff_check_fill` and `diff_set_topline` of src/nvim/diff.c. */
module DiffDisplay {
  import opened LineCompare
  import opened DiffBlocks
  import opened DiffTrim

  /** The first block that ends at or below line l of buffer i. */
  function BlockAt(bs: seq<Block>, i: int, l: int): Option<Block>
    requires 0 <= i < DB_COUNT
  {
    if bs == [] then None
    else if l <= bs[0].End(i) then Some(bs[0])
    else BlockAt(bs[1..], i, l)
  }

  /** The largest number of lines the block has in a buffer. */
  function MaxCount(bufs: Bufs, b: Block): (m: int)
    ensures m >= 0 && forall i {:trigger i in bufs} | i in bufs :: b.count[i] <= m
    ensures m > 0 ==> exists i :: i in bufs && b.count[i] == m
  {
    var m0 := if 0 in bufs && b.count[0] > 0 then b.count[0] else 0;
    var m1 := if 1 in bufs && b.count[1] > m0 then b.count[1] else m0;
    var m2 := if 2 in bufs && b.count[2] > m1 then b.count[2] else m1;
    if 3 in bufs && b.count[3] > m2 then b.count[3] else m2
  }

  /** `diff_equal_entry` */
  predicate EqualEntry(bufs: Bufs, b: Block, i: int, j: int, d: Texts)
    requires 0 <= i < DB_COUNT && 0 <= j < DB_COUNT
  {
    && b.count[i] == b.count[j]
    && Sane(bufs, b, d)
    && forall l | b.lnum[i] <= l < b.End(i) :: LineKey(d, i, l) == LineKey(d, j, l - b.lnum[i] + b.lnum[j])
  }

  /** `diff_check`: -1 for a changed line, -2 for an inserted one, otherwise the number of filler lines above the line.
      */
  function DiffCheck(bufs: Bufs, filler: bool, bs: seq<Block>, i: int, l: int, d: Texts): int
    requires i in bufs
  {
    if l < 1 || l > Size(d, i) + 1 then 0
    else
      match BlockAt(bs, i, l)
      case None => 0
      case Some(b) =>
        if l < b.lnum[i] then 0
        else if l < b.End(i) then ChangedStatus(bufs, b, i, d)
        else if filler then MaxCount(bufs, b) - b.count[i]
        else 0
  }

  function ChangedStatus(bufs: Bufs, b: Block, i: int, d: Texts): int
    requires i in bufs
  {
    if exists j :: j in bufs && j != i && b.count[j] != 0 && b.count[j] != b.count[i] then -1
    else if exists j :: j in bufs && j != i && b.count[j] != 0 && !EqualEntry(bufs, b, i, j, d) then -1
    else if exists j :: j in bufs && j != i && b.count[j] == 0 then -2
    else 0
  }

  /** `diff_check_fill` */
  function Fill(bufs: Bufs, filler: bool, bs: seq<Block>, i: int, l: int, d: Texts): nat
    requires i in bufs
  {
    var n := DiffCheck(bufs, filler, bs, i, l, d);
    if !filler || n <= 0 then 0 else n
  }

  /** The row of the display on which line l starts: the text lines and filler lines above it. */
  function Row(bufs: Bufs, bs: seq<Block>, i: int, l: nat, d: Texts): nat
    requires i in bufs
  {
    if l == 0 then 0 else Row(bufs, bs, i, l - 1, d) + (if l == 1 then 0 else 1) + Fill(bufs, true, bs, i, l, d)
  }

  // ----- rows, block by block -----

  /** Rows from the end `e` of the block above to line l, all filler lines of the blocks in between included. */
  function RowFrom(bufs: Bufs, e: int, bs: seq<Block>, i: int, l: int): int
    requires i in bufs
    decreases |bs|
  {
    if bs == [] || l < bs[0].End(i) then l - e
    else bs[0].lnum[i] - e + MaxCount(bufs, bs[0]) + RowFrom(bufs, bs[0].End(i), bs[1..], i, l)
  }

  lemma {:induction false} RowFromStep(bufs: Bufs, e: Vec, m: nat, bs: seq<Block>, i: int, l: int, d: Texts)
    requires i in bufs && Sync(false, bufs, e, m, bs, d) && e[i] <= l
    ensures RowFrom(bufs, e[i], bs, i, l + 1) == RowFrom(bufs, e[i], bs, i, l) + 1 + FillFrom(bufs, bs, i, l + 1)
    decreases |bs|
  {
    hide SameText, MaxCount;
    if bs != [] && l + 1 >= bs[0].End(i) {
      if l >= bs[0].End(i) {
        RowFromStep(bufs, bs[0].Ends(), 1, bs[1..], i, l, d);
      } else {
        RowFromStart(bufs, bs[0].Ends(), 1, bs[1..], i, d);
      }
    }
  }

  lemma RowFromStart(bufs: Bufs, e: Vec, m: nat, bs: seq<Block>, i: int, d: Texts)
    requires i in bufs && Sync(false, bufs, e, m, bs, d) && m > 0
    ensures RowFrom(bufs, e[i], bs, i, e[i]) == 0
  {
    hide SameText, MaxCount;
  }

  /** The filler lines above line l. */
  function FillFrom(bufs: Bufs, bs: seq<Block>, i: int, l: int): int
    requires i in bufs
  {
    match BlockAt(bs, i, l)
    case None => 0
    case Some(b) => if l == b.End(i) then MaxCount(bufs, b) - b.count[i] else 0
  }

  lemma FillIs(bufs: Bufs, bs: seq<Block>, i: int, l: int, d: Texts)
    requires i in bufs && 1 <= l <= Size(d, i) + 1
    requires forall b | b in bs :: b.count[i] >= 0
    ensures Fill(bufs, true, bs, i, l, d) == FillFrom(bufs, bs, i, l)
  {
    hide EqualEntry;
    AtIs(bs, i, l);
  }

  lemma {:induction false} AtIs(bs: seq<Block>, i: int, l: int)
    requires 0 <= i < DB_COUNT
    ensures BlockAt(bs, i, l).Some? ==> BlockAt(bs, i, l).value in bs && l <= BlockAt(bs, i, l).value.End(i)
  {
    if bs != [] && l > bs[0].End(i) {
      AtIs(bs[1..], i, l);
    }
  }

  lemma {:induction false} CountsOk(bufs: Bufs, e: Vec, m: nat, bs: seq<Block>, i: int, d: Texts)
    requires i in bufs && Sync(false, bufs, e, m, bs, d)
    ensures forall b | b in bs :: b.count[i] >= 0
    decreases |bs|
  {
    hide SameText;
    if bs != [] {
      CountsOk(bufs, bs[0].Ends(), 1, bs[1..], i, d);
    }
  }

  /** The row of a line, counted block by block. */
  lemma {:induction false} RowIs(bufs: Bufs, bs: seq<Block>, i: int, l: nat, d: Texts)
    requires i in bufs && Aligned(bufs, bs, d) && 1 <= l <= Size(d, i) + 1
    ensures Row(bufs, bs, i, l, d) == RowFrom(bufs, 1, bs, i, l)
  {
    hide Sync, Fill, FillFrom, RowFrom;
    CountsOk(bufs, ONES, 0, bs, i, d);
    FillIs(bufs, bs, i, l, d);
    if l == 1 {
      RowIsOne(bufs, bs, i, d);
    } else {
      RowIs(bufs, bs, i, l - 1, d);
      RowFromStep(bufs, ONES, 0, bs, i, l - 1, d);
    }
  }

  lemma RowIsOne(bufs: Bufs, bs: seq<Block>, i: int, d: Texts)
    requires i in bufs && Aligned(bufs, bs, d)
    ensures RowFrom(bufs, 1, bs, i, 1) == FillFrom(bufs, bs, i, 1)
  {
    hide SameText, MaxCount;
    if bs != [] && bs[0].End(i) <= 1 {
      RowFromStart(bufs, bs[0].Ends(), 1, bs[1..], i, d);
    }
  }

  // ----- corresponding lines -----

  /** Line l of buffer i and line k of buffer j are at the same place of the same unchanged stretch. The line after the
      last line counts as a line. */
  predicate Corresponds(e: Vec, bs: seq<Block>, i: int, l: int, j: int, k: int)
    requires 0 <= i < DB_COUNT && 0 <= j < DB_COUNT
    decreases |bs|
  {
    || (l - e[i] == k - e[j] >= 0 && (bs != [] ==> l < bs[0].lnum[i] && k < bs[0].lnum[j]))
    || (bs != [] && Corresponds(bs[0].Ends(), bs[1..], i, l, j, k))
  }

  lemma {:induction false} CorrespondsBelow(bufs: Bufs, e: Vec, m: nat, bs: seq<Block>, i: int, l: int, j: int, k: int,
                                            d: Texts)
    requires i in bufs && j in bufs && Sync(false, bufs, e, m, bs, d) && Corresponds(e, bs, i, l, j, k)
    ensures l >= e[i] && k >= e[j]
    decreases |bs|
  {
    hide SameText;
    if bs != [] && Corresponds(bs[0].Ends(), bs[1..], i, l, j, k) {
      CorrespondsBelow(bufs, bs[0].Ends(), 1, bs[1..], i, l, j, k, d);
    }
  }

  lemma {:induction false} SameRowFrom(bufs: Bufs, e: Vec, m: nat, bs: seq<Block>, i: int, l: int, j: int, k: int,
                                       d: Texts)
    requires i in bufs && j in bufs && Sync(false, bufs, e, m, bs, d) && Corresponds(e, bs, i, l, j, k)
    ensures RowFrom(bufs, e[i], bs, i, l) == RowFrom(bufs, e[j], bs, j, k)
    decreases |bs|
  {
    hide SameText, MaxCount;
    if bs != [] && Corresponds(bs[0].Ends(), bs[1..], i, l, j, k) {
      CorrespondsBelow(bufs, bs[0].Ends(), 1, bs[1..], i, l, j, k, d);
      SameRowFrom(bufs, bs[0].Ends(), 1, bs[1..], i, l, j, k, d);
    }
  }

  /** Corresponding unchanged lines are on the same row of the display in all buffers. */
  lemma SameRow(bufs: Bufs, bs: seq<Block>, i: int, l: int, j: int, k: int, d: Texts)
    requires i in bufs && j in bufs && Aligned(bufs, bs, d) && Corresponds(ONES, bs, i, l, j, k)
    requires l <= Size(d, i) + 1 && k <= Size(d, j) + 1
    ensures l >= 1 && k >= 1 && Row(bufs, bs, i, l, d) == Row(bufs, bs, j, k, d)
  {
    hide Sync, Row, RowFrom;
    CorrespondsBelow(bufs, ONES, 0, bs, i, l, j, k, d);
    SameRowFrom(bufs, ONES, 0, bs, i, l, j, k, d);
    RowIs(bufs, bs, i, l, d);
    RowIs(bufs, bs, j, k, d);
  }

  lemma {:induction false} LastCorresponds(bufs: Bufs, e: Vec, m: nat, bs: seq<Block>, i: int, j: int, d: Texts)
    requires i in bufs && j in bufs && Sync(false, bufs, e, m, bs, d)
    ensures Corresponds(e, bs, i, Size(d, i) + 1, j, Size(d, j) + 1)
    decreases |bs|
  {
    hide SameText;
    if bs != [] {
      LastCorresponds(bufs, bs[0].Ends(), 1, bs[1..], i, j, d);
    }
  }

  /** All buffers take the same number of rows, filler lines below the last line included. */
  lemma SameHeight(bufs: Bufs, bs: seq<Block>, i: int, j: int, d: Texts)
    requires i in bufs && j in bufs && Aligned(bufs, bs, d)
    ensures Row(bufs, bs, i, Size(d, i) + 1, d) == Row(bufs, bs, j, Size(d, j) + 1, d)
  {
    hide Sync, Row;
    LastCorresponds(bufs, ONES, 0, bs, i, j, d);
    SameRow(bufs, bs, i, Size(d, i) + 1, j, Size(d, j) + 1, d);
  }

  // ----- scroll binding -----

  /** The top line of a window, the filler lines shown above it, and whether only filler lines below the last line are
      shown. */
  datatype View = View(topline: int, topfill: int, botfill: bool)

  /** Where the top of the window `to` goes, before it is checked against the end of the buffer. */
  function FollowTop(bufs: Bufs, filler: bool, bs: seq<Block>, from: int, to: int, l: int, topfill: int,
                     d: Texts): (int, int)
    requires from in bufs && to in bufs
  {
    match BlockAt(bs, from, l)
    case None => (Size(d, to) - (Size(d, from) - l), 0)
    case Some(b) =>
      if l < b.lnum[from] then (l + (b.lnum[to] - b.lnum[from]), 0)
      else FollowIn(bufs, filler, b, from, to, l, topfill)
  }

  /** ... when the top line is in the block or just below it. */
  function FollowIn(bufs: Bufs, filler: bool, b: Block, from: int, to: int, l: int, topfill: int): (int, int)
    requires from in bufs && to in bufs
  {
    var top := l + (b.lnum[to] - b.lnum[from]);
    var max := MaxCount(bufs, b);
    if b.count[to] == b.count[from] then (top, topfill)
    else if b.count[to] > b.count[from] then
      if l == b.End(from) then
        if max - topfill >= b.count[to] then (b.End(to), topfill)
        else (b.lnum[to] + max - topfill, 0)
      else (top, 0)
    else if top >= b.End(to) then
      (b.End(to), if !filler then 0 else if l == b.End(from) then topfill else b.lnum[from] + max - l)
    else (top, 0)
  }

  /** `diff_set_topline` */
  function SetTopline(bufs: Bufs, filler: bool, bs: seq<Block>, from: int, to: int, l: int, topfill: int,
                      d: Texts): View
    requires from in bufs && to in bufs
  {
    var (top, fill) := FollowTop(bufs, filler, bs, from, to, l, topfill, d);
    var over := top > Size(d, to);
    var at := if over then Size(d, to) else top;
    if at < 1 then View(1, 0, over) else View(at, fill, over)
  }

  lemma FollowInRow(bufs: Bufs, b: Block, from: int, to: int, l: int, topfill: nat)
    requires from in bufs && to in bufs && b.count[from] >= 0 && b.count[to] >= 0
    requires b.lnum[from] <= l <= b.End(from)
    requires topfill <= (if l == b.End(from) then MaxCount(bufs, b) - b.count[from] else 0)
    ensures var (top, fill) := FollowIn(bufs, true, b, from, to, l, topfill);
            && b.lnum[to] <= top <= b.End(to)
            && 0 <= fill <= (if top == b.End(to) then MaxCount(bufs, b) - b.count[to] else 0)
            && (if top == b.End(to) then MaxCount(bufs, b) else top - b.lnum[to]) - fill
               == (if l == b.End(from) then MaxCount(bufs, b) else l - b.lnum[from]) - topfill
  {
    hide MaxCount;
    assert b.count[from] <= MaxCount(bufs, b) && b.count[to] <= MaxCount(bufs, b);
  }

  /** The row of a line in or just below the first block. */
  lemma RowInFirst(bufs: Bufs, e: Vec, m: nat, bs: seq<Block>, i: int, l: int, d: Texts)
    requires i in bufs && bs != [] && Sync(false, bufs, e, m, bs, d) && bs[0].lnum[i] <= l <= bs[0].End(i)
    ensures RowFrom(bufs, e[i], bs, i, l) == bs[0].lnum[i] - e[i]
            + (if l == bs[0].End(i) then MaxCount(bufs, bs[0]) else l - bs[0].lnum[i])
    ensures FillFrom(bufs, bs, i, l) == (if l == bs[0].End(i) then MaxCount(bufs, bs[0]) - bs[0].count[i] else 0)
  {
    hide SameText, MaxCount;
    RowFromStart(bufs, bs[0].Ends(), 1, bs[1..], i, d);
  }

  lemma FollowRowInFirst(bufs: Bufs, e: Vec, m: nat, bs: seq<Block>, from: int, to: int, l: int, topfill: nat, d: Texts)
    requires from in bufs && to in bufs && Sync(false, bufs, e, m, bs, d) && bs != []
             && bs[0].lnum[from] <= l <= bs[0].End(from)
    requires topfill <= FillFrom(bufs, bs, from, l)
    ensures var (top, fill) := FollowIn(bufs, true, bs[0], from, to, l, topfill);
            && bs[0].lnum[to] <= top <= bs[0].End(to) && 0 <= fill <= FillFrom(bufs, bs, to, top)
            && RowFrom(bufs, e[to], bs, to, top) - fill == RowFrom(bufs, e[from], bs, from, l) - topfill
  {
    hide SameText, MaxCount, FollowIn, RowFrom, FillFrom;
    RowInFirst(bufs, e, m, bs, from, l, d);
    FollowInRow(bufs, bs[0], from, to, l, topfill);
    RowInFirst(bufs, e, m, bs, to, FollowIn(bufs, true, bs[0], from, to, l, topfill).0, d);
  }

  lemma {:induction false} FollowRow(bufs: Bufs, e: Vec, m: nat, bs: seq<Block>, from: int, to: int, l: int,
                                     topfill: nat, d: Texts)
    requires from in bufs && to in bufs && Sync(false, bufs, e, m, bs, d)
    requires e[from] <= l <= Size(d, from) + 1 && topfill <= FillFrom(bufs, bs, from, l)
    ensures var (top, fill) := FollowTop(bufs, true, bs, from, to, l, topfill, d);
            && e[to] <= top <= Size(d, to) + 1 && (m > 0 && l > e[from] ==> top > e[to])
            && 0 <= fill <= FillFrom(bufs, bs, to, top)
            && RowFrom(bufs, e[to], bs, to, top) - fill == RowFrom(bufs, e[from], bs, from, l) - topfill
    decreases |bs|
  {
    hide SameText, MaxCount, FollowIn;
    if bs != [] {
      EndsInRange(false, bufs, bs[0].Ends(), 1, bs[1..], d);
      if l > bs[0].End(from) {
        FollowRow(bufs, bs[0].Ends(), 1, bs[1..], from, to, l, topfill, d);
      } else if l >= bs[0].lnum[from] {
        FollowRowInFirst(bufs, e, m, bs, from, to, l, topfill, d);
      }
    }
  }

  /** The row at the top of a window. */
  function TopRow(bufs: Bufs, bs: seq<Block>, i: int, topline: nat, topfill: int, d: Texts): int
    requires i in bufs
  {
    Row(bufs, bs, i, topline, d) - topfill
  }

  /** The line is in a block with which the other buffer ends, and as far down in it as that is long, or further. */
  predicate PastShorterEnd(bs: seq<Block>, from: int, to: int, l: int, d: Texts)
    requires 0 <= from < DB_COUNT && 0 <= to < DB_COUNT
  {
    exists b :: b in bs && b.lnum[from] <= l < b.End(from) && b.End(to) == Size(d, to) + 1
        && l - b.lnum[from] >= b.count[to]
  }

  lemma {:induction false} BlocksBelow(bufs: Bufs, e: Vec, m: nat, bs: seq<Block>, i: int, d: Texts)
    requires i in bufs && Sync(false, bufs, e, m, bs, d)
    ensures forall b | b in bs :: b.lnum[i] >= e[i] + m
    decreases |bs|
  {
    hide SameText;
    if bs != [] {
      BlocksBelow(bufs, bs[0].Ends(), 1, bs[1..], i, d);
    }
  }

  /** Then, and only then, the other window would start below the last line. */
  lemma {:induction false} ClampFires(bufs: Bufs, e: Vec, m: nat, bs: seq<Block>, from: int, to: int, l: int,
                                      topfill: nat, d: Texts)
    requires from in bufs && to in bufs && Sync(false, bufs, e, m, bs, d)
    requires e[from] <= l <= Size(d, from) && topfill <= FillFrom(bufs, bs, from, l)
    ensures FollowTop(bufs, true, bs, from, to, l, topfill, d).0 > Size(d, to) <==> PastShorterEnd(bs, from, to, l, d)
    decreases |bs|
  {
    hide SameText, MaxCount, FollowIn, PastShorterEnd;
    if bs == [] {
      NoShorterEnd(bs, from, to, l, d);
    } else {
      var b := bs[0];
      BlocksBelow(bufs, b.Ends(), 1, bs[1..], from, d);
      ShorterEndNext(bs, from, to, l, d);
      EndsInRange(false, bufs, b.Ends(), 1, bs[1..], d);
      if l > b.End(from) {
        ClampFires(bufs, b.Ends(), 1, bs[1..], from, to, l, topfill, d);
      } else {
        assert Apart(bufs, e, b.lnum, m, d);
        if l >= b.lnum[from] {
          TailAfter(bufs, b.Ends(), 1, bs[1..], from, to, d);
          RowInFirst(bufs, e, m, bs, from, l, d);
          FollowInEnd(bufs, b, from, to, l, topfill);
        }
      }
    }
  }

  lemma NoShorterEnd(bs: seq<Block>, from: int, to: int, l: int, d: Texts)
    requires bs == [] && 0 <= from < DB_COUNT && 0 <= to < DB_COUNT
    ensures !PastShorterEnd(bs, from, to, l, d)
  {
  }

  lemma ShorterEndNext(bs: seq<Block>, from: int, to: int, l: int, d: Texts)
    requires bs != [] && 0 <= from < DB_COUNT && 0 <= to < DB_COUNT
    requires forall b | b in bs[1..] :: b.lnum[from] > bs[0].End(from)
    ensures l > bs[0].End(from) ==> (PastShorterEnd(bs, from, to, l, d) <==> PastShorterEnd(bs[1..], from, to, l, d))
    ensures l <= bs[0].End(from) ==>
              (PastShorterEnd(bs, from, to, l, d) <==>
               bs[0].lnum[from] <= l < bs[0].End(from) && bs[0].End(to) == Size(d, to) + 1
                   && l - bs[0].lnum[from] >= bs[0].count[to])
  {
    assert bs == [bs[0]] + bs[1..];
  }

  /** If a block ends one buffer, it ends the other. */
  lemma TailAfter(bufs: Bufs, e: Vec, m: nat, bs: seq<Block>, from: int, to: int, d: Texts)
    requires from in bufs && to in bufs && Sync(false, bufs, e, m, bs, d) && m > 0
    ensures e[to] == Size(d, to) + 1 ==> e[from] == Size(d, from) + 1
  {
    hide SameText;
  }

  lemma FollowInEnd(bufs: Bufs, b: Block, from: int, to: int, l: int, topfill: nat)
    requires from in bufs && to in bufs && b.count[from] >= 0 && b.count[to] >= 0
    requires b.lnum[from] <= l <= b.End(from)
    requires topfill <= (if l == b.End(from) then MaxCount(bufs, b) - b.count[from] else 0)
    ensures var top := FollowIn(bufs, true, b, from, to, l, topfill).0;
            && top <= b.End(to)
            && (l < b.End(from) ==> (top == b.End(to) <==> l - b.lnum[from] >= b.count[to]))
  {
    hide MaxCount;
    assert b.count[from] <= MaxCount(bufs, b) && b.count[to] <= MaxCount(bufs, b);
  }

  /** With filler lines shown, the other window shows the same rows unless the top line is past the shorter end of the
      other buffer; and then it asks for no more filler lines than there are. */
  lemma SameTop(bufs: Bufs, bs: seq<Block>, from: int, to: int, l: int, topfill: nat, d: Texts)
    requires from in bufs && to in bufs && Aligned(bufs, bs, d) && Size(d, to) >= 1
    requires 1 <= l <= Size(d, from) && topfill <= Fill(bufs, true, bs, from, l, d)
    ensures var v := SetTopline(bufs, true, bs, from, to, l, topfill, d);
            && 1 <= v.topline <= Size(d, to)
            && (v.botfill <==> PastShorterEnd(bs, from, to, l, d))
            && (TopRow(bufs, bs, to, v.topline, v.topfill, d) == TopRow(bufs, bs, from, l, topfill, d)
                <==> !PastShorterEnd(bs, from, to, l, d))
            && (!PastShorterEnd(bs, from, to, l, d) ==> 0 <= v.topfill <= Fill(bufs, true, bs, to, v.topline, d))
  {
    hide Sync, FollowTop, FillFrom, RowFrom, Fill, PastShorterEnd;
    CountsOk(bufs, ONES, 0, bs, from, d);
    CountsOk(bufs, ONES, 0, bs, to, d);
    FillIs(bufs, bs, from, l, d);
    RowIs(bufs, bs, from, l, d);
    FollowRow(bufs, ONES, 0, bs, from, to, l, topfill, d);
    ClampFires(bufs, ONES, 0, bs, from, to, l, topfill, d);
    var (top, fill) := FollowTop(bufs, true, bs, from, to, l, topfill, d);
    FillIs(bufs, bs, to, top, d);
    RowIs(bufs, bs, to, top, d);
  }

  // ----- the status of a line in a block -----

  /** The block that a line in it, or just below it, belongs to. */
  lemma {:induction false} BlockAtIs(bufs: Bufs, e: Vec, m: nat, bs: seq<Block>, i: int, l: int, d: Texts, b: Block)
    requires i in bufs && Sync(false, bufs, e, m, bs, d) && b in bs && b.lnum[i] <= l <= b.End(i)
    ensures BlockAt(bs, i, l) == Some(b) && Within(bufs, b, d) && l >= e[i]
    decreases |bs|
  {
    hide SameText;
    EndsInRange(false, bufs, bs[0].Ends(), 1, bs[1..], d);
    if bs[0] != b {
      assert bs == [bs[0]] + bs[1..];
      BlockAtIs(bufs, bs[0].Ends(), 1, bs[1..], i, l, d, b);
      BlocksBelow(bufs, bs[0].Ends(), 1, bs[1..], i, d);
    }
  }

  /** The text of the block in buffer i. */
  function BlockText(b: Block, i: int, d: Texts): seq<Key>
    requires 0 <= i < DB_COUNT
  {
    Slice(d, i, b.lnum[i], b.End(i))
  }

  /** Another buffer has lines in the block, and not the same ones. */
  ghost predicate OtherText(bufs: Bufs, b: Block, i: int, j: int, d: Texts)
    requires 0 <= i < DB_COUNT
  {
    j in bufs && j != i && b.count[j] > 0 && BlockText(b, j, d) != BlockText(b, i, d)
  }

  lemma EqualText(bufs: Bufs, b: Block, i: int, j: int, d: Texts)
    requires i in bufs && j in bufs && Within(bufs, b, d)
    ensures EqualEntry(bufs, b, i, j, d) <==> BlockText(b, i, d) == BlockText(b, j, d)
  {
    var (x, y) := (BlockText(b, i, d), BlockText(b, j, d));
    assert |x| == b.count[i] && |y| == b.count[j];
    if x == y {
      forall l | b.lnum[i] <= l < b.End(i) ensures LineKey(d, i, l) == LineKey(d, j, l - b.lnum[i] + b.lnum[j]) {
        assert x[l - b.lnum[i]] == y[l - b.lnum[i]];
      }
    }
    if EqualEntry(bufs, b, i, j, d) {
      forall k | 0 <= k < |x| ensures x[k] == y[k] {
        var l := b.lnum[i] + k;
        assert LineKey(d, i, l) == LineKey(d, j, l - b.lnum[i] + b.lnum[j]);
      }
    }
  }

  /** What the status of a line in a block tells: -1 that some other buffer has other lines there, -2 that none has, but
      some have no lines there, and 0 that all have the same lines. */
  lemma StatusMeans(bufs: Bufs, filler: bool, bs: seq<Block>, b: Block, i: int, l: int, d: Texts)
    requires i in bufs && Aligned(bufs, bs, d) && b in bs && b.lnum[i] <= l < b.End(i)
    ensures var n := DiffCheck(bufs, filler, bs, i, l, d);
            && (n == -1 <==> exists j :: OtherText(bufs, b, i, j, d))
            && (n == -2 <==> (forall j :: !OtherText(bufs, b, i, j, d))
                             && exists j {:trigger j in bufs} :: j in bufs && j != i && b.count[j] == 0)
            && (n == 0 <==> forall j {:trigger j in bufs} | j in bufs && j != i ::
                              b.count[j] > 0 && BlockText(b, j, d) == BlockText(b, i, d))
  {
    hide Sync, EqualEntry, BlockText;
    BlockAtIs(bufs, ONES, 0, bs, i, l, d, b);
    forall j {:trigger j in bufs} | j in bufs
      ensures EqualEntry(bufs, b, i, j, d) <==> BlockText(b, i, d) == BlockText(b, j, d)
      ensures b.count[j] != b.count[i] ==> BlockText(b, i, d) != BlockText(b, j, d)
    {
      EqualText(bufs, b, i, j, d);
      TextSize(bufs, b, i, d);
      TextSize(bufs, b, j, d);
    }
    assert b.count[i] > 0;
    StatusIs(bufs, b, i, d);
  }

  lemma TextSize(bufs: Bufs, b: Block, i: int, d: Texts)
    requires i in bufs && Within(bufs, b, d)
    ensures |BlockText(b, i, d)| == b.count[i] >= 0
  {
  }

  lemma StatusIs(bufs: Bufs, b: Block, i: int, d: Texts)
    requires i in bufs && Within(bufs, b, d)
    requires forall j {:trigger j in bufs} | j in bufs ::
               && (EqualEntry(bufs, b, i, j, d) <==> BlockText(b, i, d) == BlockText(b, j, d))
               && (b.count[j] != b.count[i] ==> BlockText(b, i, d) != BlockText(b, j, d))
    ensures ChangedStatus(bufs, b, i, d) == -1 <==> exists j :: OtherText(bufs, b, i, j, d)
    ensures ChangedStatus(bufs, b, i, d) in {-1, -2, 0}
    ensures ChangedStatus(bufs, b, i, d) == -2
            <==> (forall j :: !OtherText(bufs, b, i, j, d))
                 && exists j {:trigger j in bufs} :: j in bufs && j != i && b.count[j] == 0
  {
    hide EqualEntry, BlockText;
    if j :| j in bufs && j != i && b.count[j] != 0 && b.count[j] != b.count[i] {
      assert OtherText(bufs, b, i, j, d);
    } else if j :| j in bufs && j != i && b.count[j] != 0 && !EqualEntry(bufs, b, i, j, d) {
      assert OtherText(bufs, b, i, j, d);
    }
  }

  // ----- without filler lines -----

  /** Without 'filler' the status of a line is never a number of filler lines, and else the same. */
  lemma NoFillerStatus(bufs: Bufs, bs: seq<Block>, i: int, l: int, d: Texts)
    requires i in bufs
    ensures var n := DiffCheck(bufs, true, bs, i, l, d);
            DiffCheck(bufs, false, bs, i, l, d) == if n > 0 then 0 else n
  {
    hide MaxCount, EqualEntry;
  }

  /** Without 'filler', the other window starts at the same distance from the top of a block, but at most with the line
      below it, and just below it if this window does; it shows no filler lines. */
  lemma NoFillerInside(bufs: Bufs, bs: seq<Block>, b: Block, from: int, to: int, l: int, d: Texts)
    requires from in bufs && to in bufs && Aligned(bufs, bs, d) && Size(d, to) >= 1
    requires b in bs && b.lnum[from] <= l <= b.End(from)
    ensures var n := if l == b.End(from) then b.count[to] else Min(l - b.lnum[from], b.count[to]);
            SetTopline(bufs, false, bs, from, to, l, 0, d)
            == View(Min(b.lnum[to] + n, Size(d, to)), 0, b.lnum[to] + n > Size(d, to))
  {
    hide Sync, MaxCount;
    BlockAtIs(bufs, ONES, 0, bs, from, l, d, b);
    assert b.count[to] <= MaxCount(bufs, b);
  }

  lemma {:induction false} NoFillerFrom(bufs: Bufs, e: Vec, m: nat, bs: seq<Block>, from: int, to: int, l: int,
                                        d: Texts)
    requires from in bufs && to in bufs && Sync(false, bufs, e, m, bs, d) && e[from] <= l <= Size(d, from)
    requires forall b | b in bs :: !(b.lnum[from] <= l <= b.End(from))
    ensures var (top, fill) := FollowTop(bufs, false, bs, from, to, l, 0, d);
            fill == 0 && Corresponds(e, bs, from, l, to, top) && e[to] <= top <= Size(d, to)
    decreases |bs|
  {
    hide SameText;
    if bs != [] {
      EndsInRange(false, bufs, bs[0].Ends(), 1, bs[1..], d);
      if l > bs[0].End(from) {
        NoFillerFrom(bufs, bs[0].Ends(), 1, bs[1..], from, to, l, d);
      }
    }
  }

  /** From an unchanged line it starts with the line that corresponds. */
  lemma NoFillerOutside(bufs: Bufs, bs: seq<Block>, from: int, to: int, l: int, d: Texts)
    requires from in bufs && to in bufs && Aligned(bufs, bs, d) && 1 <= l <= Size(d, from)
    requires forall b | b in bs :: !(b.lnum[from] <= l <= b.End(from))
    ensures var v := SetTopline(bufs, false, bs, from, to, l, 0, d);
            v.topfill == 0 && !v.botfill && Corresponds(ONES, bs, from, l, to, v.topline)
  {
    hide Sync, FollowTop;
    NoFillerFrom(bufs, ONES, 0, bs, from, to, l, d);
  }
}

/** Exactly when an insertion or deletion of lines leaves a list that fits the buffers. */
module MarkAdjustExact {
  import opened DiffBlocks
  import opened DiffTrim
  import opened MarkAdjust
  import opened MarkAdjustKeeps

  /** How many more lines the blocks have in buffer i than in buffer j. */
  function Excess(bs: seq<Block>, i: int, j: int): int
    requires 0 <= i < DB_COUNT && 0 <= j < DB_COUNT
  {
    if bs == [] then 0 else bs[0].count[i] - bs[0].count[j] + Excess(bs[1..], i, j)
  }

  /** In a list that fits, the blocks account for the whole difference in length of two buffers. */
  lemma {:induction false} Conserved(bufs: Bufs, e: Vec, m: nat, bs: seq<Block>, d: Texts, i: int, j: int)
    requires Sync(false, bufs, e, m, bs, d) && i in bufs && j in bufs
    ensures Excess(bs, i, j) == (Size(d, i) - e[i]) - (Size(d, j) - e[j])
    decreases |bs|
  {
    if bs != [] {
      Conserved(bufs, bs[0].Ends(), 1, bs[1..], d, i, j);
    }
  }

  lemma {:induction false} ExcessDropEmpty(bufs: Bufs, bs: seq<Block>, i: int, j: int)
    requires i in bufs && j in bufs
    ensures Excess(DropEmpty(bufs, bs), i, j) == Excess(bs, i, j)
  {
    if bs != [] {
      ExcessDropEmpty(bufs, bs[1..], i, j);
      if !Empty(bufs, bs[0]) {
        assert DropEmpty(bufs, bs)[1..] == DropEmpty(bufs, bs[1..]);
      }
    }
  }

  lemma {:induction false} ExcessMoveAll(ed: Edit, bs: seq<Block>, i: int, j: int)
    requires 0 <= ed.idx < DB_COUNT && 0 <= i < DB_COUNT && 0 <= j < DB_COUNT
    ensures Excess(MoveAll(ed, bs), i, j) == Excess(bs, i, j)
  {
    if bs != [] {
      ExcessMoveAll(ed, bs[1..], i, j);
      assert MoveAll(ed, bs)[1..] == MoveAll(ed, bs[1..]);
    }
  }

  /** No block starts at or above the edit when the first one starts below it. */
  lemma {:induction false} OnlyBelow(ed: Edit, bufs: Bufs, e: Vec, bs: seq<Block>, d: Texts, d': Texts)
    requires ed.idx in bufs && Sync(false, bufs, e, 1, bs, d) && e[ed.idx] >= ed.line1
    ensures !FiresTwice(ed, bufs, bs, d')
    decreases |bs|
  {
    if bs != [] {
      OnlyBelow(ed, bufs, bs[0].Ends(), bs[1..], d, d');
    }
  }

  /** Shrinking takes the same number of lines from every buffer, and none above the block. */
  lemma ExcessTrim(bufs: Bufs, c: Block, d: Texts, i: int, j: int)
    requires Within(bufs, c, d) && i in bufs && j in bufs
    ensures var t := Trim(bufs, c, d); t.count[i] - t.count[j] == c.count[i] - c.count[j]
    ensures var t := Trim(bufs, c, d); c.lnum[i] <= t.lnum[i] && t.count[i] >= 0
  {
    hide Trim, Gap;
    var f, r := TrimIs(bufs, c, d);
  }

  /** The shrunken block already accounts for the whole edit. */
  ghost predicate AllCounted(ed: Edit, b: Block, r: Repaired, j: int)
    requires 0 <= ed.idx < DB_COUNT && 0 <= j < DB_COUNT
  {
    && r.deleted == ed.Deleted() && r.from == ed.line1
    && r.block.count[ed.idx] - r.block.count[j] == b.count[ed.idx] - b.count[j] + Delta(ed)
    && r.block.lnum[ed.idx] >= b.lnum[ed.idx]
  }

  lemma CountedInsert(ed: Edit, bufs: Bufs, prev: Option<Block>, rest: seq<Block>, d: Texts, d': Texts, j: int)
    requires Touches(false, ed, bufs, prev, rest, d, d') && IsInsertion(ed) && j in bufs && j != ed.idx
    ensures AllCounted(ed, rest[0], Repair(ed, bufs, rest[0], Next(rest), ed.Deleted(), ed.line1, d'), j)
  {
    hide Trim, Repair;
    var b := rest[0];
    TouchesIs(false, ed, bufs, prev, rest, d, d');
    ShapeInserted(ed, bufs, b, Next(rest), ed.line1, d');
    ExcessTrim(bufs, Enlarge(ed, b), d', ed.idx, j);
  }

  lemma CountedBottom(ed: Edit, bufs: Bufs, prev: Option<Block>, rest: seq<Block>, d: Texts, d': Texts, j: int)
    requires Touches(false, ed, bufs, prev, rest, d, d') && IsDeletion(ed) && j in bufs && j != ed.idx
    requires rest[0].lnum[ed.idx] < ed.line1 && rest[0].End(ed.idx) <= ed.line2 && !GoesOn(ed, Next(rest))
    ensures AllCounted(ed, rest[0], Repair(ed, bufs, rest[0], Next(rest), ed.Deleted(), ed.line1, d'), j)
  {
    hide Trim, Repair, Sync;
    TouchesIs(false, ed, bufs, prev, rest, d, d');
    var c := ShapeBottom(ed, bufs, rest[0], Next(rest), d');
    var e := BelowBottom(false, ed, bufs, prev, rest, d, d');
    EndsInRange(false, bufs, e, 1, rest[1..], d);
    ExcessTrim(bufs, c, d', ed.idx, j);
  }

  /** When the deletion starts at or above the block, its end stays at or below the deletion. */
  lemma TopNotShortened(ed: Edit, bufs: Bufs, prev: Option<Block>, rest: seq<Block>, d: Texts, d': Texts)
    requires Touches(false, ed, bufs, prev, rest, d, d') && IsDeletion(ed) && rest[0].lnum[ed.idx] >= ed.line1
    ensures !Shortened(ed, bufs, rest, d')
  {
    hide Trim, Repair, Sync;
    var b, next, n := rest[0], Next(rest), ed.Deleted();
    TouchesIs(false, ed, bufs, prev, rest, d, d');
    var start := seq(DB_COUNT, i requires 0 <= i < DB_COUNT => b.lnum[i] - (b.lnum[ed.idx] - ed.line1));
    StretchAbove(false, ed, bufs, prev, rest, start, d, d');
    if !GoesOn(ed, next) {
      var e := LastTop(false, ed, bufs, start, rest, n, ed.line1, d, d');
    }
  }

  lemma ShortenedCounted(ed: Edit, bufs: Bufs, prev: Option<Block>, rest: seq<Block>, d: Texts, d': Texts, j: int)
    requires Touches(false, ed, bufs, prev, rest, d, d') && Shortened(ed, bufs, rest, d') && j in bufs && j != ed.idx
    ensures AllCounted(ed, rest[0], Repair(ed, bufs, rest[0], Next(rest), ed.Deleted(), ed.line1, d'), j)
  {
    hide Trim, Repair, Sync;
    var b := rest[0];
    if IsInsertion(ed) {
      CountedInsert(ed, bufs, prev, rest, d, d', j);
    } else if b.lnum[ed.idx] >= ed.line1 {
      TopNotShortened(ed, bufs, prev, rest, d, d');
    } else if ed.line2 < b.End(ed.idx) {
      ShapeInside(ed, bufs, b, Next(rest), d');
    } else {
      CountedBottom(ed, bufs, prev, rest, d, d', j);
    }
  }

  /** The second block for the same edit counts it again. */
  lemma SecondCounted(ed: Edit, bufs: Bufs, r: Repaired, rest: seq<Block>, j: int)
    requires ed.idx in bufs && j in bufs && j != ed.idx && rest != [] && AllCounted(ed, rest[0], r, j)
    ensures Excess([r.block] + ([NewBlock(ed, bufs, Some(r.block), ed.Deleted())] + MoveAll(ed, rest[1..])), ed.idx, j)
         == Excess(rest, ed.idx, j) + 2 * Delta(ed)
  {
    hide NewBlock;
    var made := NewBlock(ed, bufs, Some(r.block), ed.Deleted());
    NewBlockIs(ed, bufs, Some(r.block));
    var out := [r.block] + ([made] + MoveAll(ed, rest[1..]));
    assert out[1..] == [made] + MoveAll(ed, rest[1..]) && out[1..][1..] == MoveAll(ed, rest[1..]);
    ExcessMoveAll(ed, rest[1..], ed.idx, j);
  }

  lemma SecondBlock(ed: Edit, bufs: Bufs, prev: Option<Block>, rest: seq<Block>, d: Texts, d': Texts, j: int)
      returns (out: seq<Block>)
    requires Touches(false, ed, bufs, prev, rest, d, d') && Shortened(ed, bufs, rest, d') && j in bufs && j != ed.idx
    ensures Walk(ed, bufs, false, prev, rest, ed.Deleted(), ed.line1, d') == AsSeq(prev) + out
    ensures Excess(out, ed.idx, j) == Excess(rest, ed.idx, j) + 2 * Delta(ed)
  {
    hide Trim, Repair, Walk, Stops, SameText, NewBlock, Fires, Excess, RestBelow, Shortened, AllCounted, MoveAll;
    var r := Repair(ed, bufs, rest[0], Next(rest), ed.Deleted(), ed.line1, d');
    ShortenedCounted(ed, bufs, prev, rest, d, d', j);
    SecondWalk(ed, bufs, prev, rest, r, d, d', j);
    SecondCounted(ed, bufs, r, rest, j);
    out := [r.block] + ([NewBlock(ed, bufs, Some(r.block), ed.Deleted())] + MoveAll(ed, rest[1..]));
  }

  lemma SecondWalk(ed: Edit, bufs: Bufs, prev: Option<Block>, rest: seq<Block>, r: Repaired, d: Texts, d': Texts,
                   j: int)
    requires Touches(false, ed, bufs, prev, rest, d, d') && Shortened(ed, bufs, rest, d') && 0 <= j < DB_COUNT
    requires r == Repair(ed, bufs, rest[0], Next(rest), ed.Deleted(), ed.line1, d') && AllCounted(ed, rest[0], r, j)
    ensures Walk(ed, bufs, false, prev, rest, ed.Deleted(), ed.line1, d')
         == AsSeq(prev) + ([r.block] + ([NewBlock(ed, bufs, Some(r.block), ed.Deleted())] + MoveAll(ed, rest[1..])))
  {
    assert r.block.End(ed.idx) < ed.line1;
    FiresAgain(ed, bufs, prev, rest, r, d, d');
    hide Trim, Repair, Walk, Stops, SameText, NewBlock, Fires, RestBelow, Shortened;
    TouchesIs(false, ed, bufs, prev, rest, d, d');
    WalkStep(ed, bufs, false, prev, rest, r, ed.Deleted(), ed.line1, d');
    OutsideWalk(ed, bufs, Some(r.block), rest[1..], d, d');
    Glue(AsSeq(prev), AsSeq(Some(r.block)), [NewBlock(ed, bufs, Some(r.block), ed.Deleted())] + MoveAll(ed, rest[1..]),
        r.block);
  }

  lemma Glue(above: seq<Block>, one: seq<Block>, below: seq<Block>, b: Block)
    requires one == [b]
    ensures above + [] + (one + below) == above + ([b] + below)
  {
  }

  lemma FiresAgain(ed: Edit, bufs: Bufs, prev: Option<Block>, rest: seq<Block>, r: Repaired, d: Texts, d': Texts)
    requires Touches(false, ed, bufs, prev, rest, d, d') && Shortened(ed, bufs, rest, d')
    requires r == Repair(ed, bufs, rest[0], Next(rest), ed.Deleted(), ed.line1, d')
    ensures RestBelow(ed, bufs, rest[1..], d) && Fires(ed, Some(r.block), rest[1..])
  {
    hide Repair, SameText;
    TouchesIs(false, ed, bufs, prev, rest, d, d');
  }

  lemma {:induction false} TwiceExcess(ed: Edit, bufs: Bufs, prev: Option<Block>, rest: seq<Block>, d: Texts, d': Texts,
                                       j: int)
    returns (out: seq<Block>)
    requires Above(false, ed, bufs, prev, rest, d, d') && FiresTwice(ed, bufs, rest, d') && j in bufs && j != ed.idx
    ensures Walk(ed, bufs, false, prev, rest, ed.Deleted(), ed.line1, d') == AsSeq(prev) + out
    ensures Excess(out, ed.idx, j) == Excess(rest, ed.idx, j) + 2 * Delta(ed)
    decreases |rest|
  {
    hide Walk, Repair, Stops, SameText, Shortened;
    var b := rest[0];
    if b.End(ed.idx) < ed.line1 {
      PassAbove(ed, bufs, prev, rest, d, d');
      NotAbove(ed, bufs, rest, d');
      var below := TwiceExcess(ed, bufs, Some(b), rest[1..], d, d', j);
      out := [b] + below;
      assert out[1..] == below;
    } else {
      OnlyBelow(ed, bufs, b.Ends(), rest[1..], d, d');
      assert Shortened(ed, bufs, rest, d');
      StartsAbove(ed, bufs, rest, d');
      out := SecondBlock(ed, bufs, prev, rest, d, d', j);
    }
  }

  /** A block above the edit is passed. */
  lemma PassAbove(ed: Edit, bufs: Bufs, prev: Option<Block>, rest: seq<Block>, d: Texts, d': Texts)
    requires Above(false, ed, bufs, prev, rest, d, d') && rest != [] && rest[0].End(ed.idx) < ed.line1
    ensures Walk(ed, bufs, false, prev, rest, ed.Deleted(), ed.line1, d')
         == AsSeq(prev) + Walk(ed, bufs, false, Some(rest[0]), rest[1..], ed.Deleted(), ed.line1, d')
    ensures Above(false, ed, bufs, Some(rest[0]), rest[1..], d, d')
  {
    hide Walk, Repair, Stops, SameText;
    RepairAbove(ed, bufs, prev, rest, d');
    WalkStep(ed, bufs, false, prev, rest, Repaired(rest[0], ed.Deleted(), ed.line1), ed.Deleted(), ed.line1, d');
    assert AsSeq(prev) + [] == AsSeq(prev);
  }

  lemma NotAbove(ed: Edit, bufs: Bufs, rest: seq<Block>, d': Texts)
    requires 0 <= ed.idx < DB_COUNT && rest != [] && rest[0].End(ed.idx) < ed.line1
    ensures !Shortened(ed, bufs, rest, d')
  {
  }

  lemma StartsAbove(ed: Edit, bufs: Bufs, rest: seq<Block>, d': Texts)
    requires 0 <= ed.idx < DB_COUNT && rest != [] && Shortened(ed, bufs, rest, d')
    ensures rest[0].lnum[ed.idx] <= ed.line1
  {
  }
}

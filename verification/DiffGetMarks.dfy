/** What `mark_adjust` does to the entries of the list while `ex_diffgetput` replaces the lines of one of them. */
module DiffGetMarks {
  import opened DiffBlocks
  import opened DiffTrim
  import opened MarkAdjust
  import opened Sequences

  // ----- the later entries -----

  /** The block is above or below the edited lines, with a line in between. */
  predicate Clear(ed: Edit, b: Block)
    requires 0 <= ed.idx < DB_COUNT
  {
    b.End(ed.idx) < ed.line1 || b.lnum[ed.idx] - 1 > ed.line2
  }

  /** A block that is clear of the edit is moved if it is below. */
  function Pushed(ed: Edit, b: Block): Block
    requires 0 <= ed.idx < DB_COUNT
  {
    if b.End(ed.idx) < ed.line1 then b else SetIdx(b, ed.idx, b.lnum[ed.idx] + ed.after, b.count[ed.idx])
  }

  function PushAll(ed: Edit, bs: seq<Block>): (r: seq<Block>)
    requires 0 <= ed.idx < DB_COUNT
    ensures |r| == |bs| && forall i | 0 <= i < |bs| :: r[i] == Pushed(ed, bs[i])
  {
    if bs == [] then [] else [Pushed(ed, bs[0])] + PushAll(ed, bs[1..])
  }

  /** All blocks are clear of the edit, and stay apart. */
  predicate AllClear(ed: Edit, prev: Option<Block>, bs: seq<Block>)
    requires 0 <= ed.idx < DB_COUNT
    decreases |bs|
  {
    bs == [] ||
    (Clear(ed, bs[0])
     && (prev.Some? ==> prev.value.End(ed.idx) != Pushed(ed, bs[0]).lnum[ed.idx])
     && AllClear(ed, Some(Pushed(ed, bs[0])), bs[1..]))
  }

  lemma ClearBlock(ed: Edit, bufs: Bufs, b: Block, next: Option<Block>, deleted: int, from: int, d: Texts)
    requires 0 <= ed.idx < DB_COUNT && ed.after != 0 && Clear(ed, b) && b.count[ed.idx] >= 0
    requires deleted == ed.Deleted() && deleted + ed.Inserted() != 0
    ensures !Stops(ed, b, deleted)
    ensures var r := Repair(ed, bufs, b, next, deleted, from, d);
            r.block == Pushed(ed, b) && r.deleted == deleted
            && r.from == from
  {
    hide RepairTop, RepairBottom, Trim, SetIdx;
  }

  lemma PushFirst(ed: Edit, prev: Option<Block>, bs: seq<Block>)
    requires 0 <= ed.idx < DB_COUNT && bs != []
    ensures AsSeq(prev) + PushAll(ed, bs) == AsSeq(prev) + [] + (AsSeq(Some(Pushed(ed, bs[0]))) + PushAll(ed, bs[1..]))
  {
    hide Pushed;
  }

  lemma {:induction false} WalkPushes(ed: Edit, bufs: Bufs, prev: Option<Block>, bs: seq<Block>, deleted: int,
                                      from: int, d: Texts)
    requires 0 <= ed.idx < DB_COUNT && ed.after != 0 && AllClear(ed, prev, bs)
    requires deleted == ed.Deleted() && deleted + ed.Inserted() != 0
    requires forall b | b in bs :: b.count[ed.idx] >= 0
    ensures Walk(ed, bufs, true, prev, bs, deleted, from, d) == AsSeq(prev) + PushAll(ed, bs)
    decreases |bs|
  {
    hide Fires, NewBlock, Repair, Stops, Merge, Clear, Pushed;
    if bs != [] {
      ClearBlock(ed, bufs, bs[0], Next(bs), deleted, from, d);
      WalkPushes(ed, bufs, Some(Pushed(ed, bs[0])), bs[1..], deleted, from, d);
      PushFirst(ed, prev, bs);
    }
  }

  lemma {:induction false} NoneDropped(bufs: Bufs, bs: seq<Block>)
    requires forall b | b in bs :: !Empty(bufs, b)
    ensures DropEmpty(bufs, bs) == bs
  {
    hide Empty;
    if bs != [] {
      NoneDropped(bufs, bs[1..]);
    }
  }

  /** Blocks with lines, in order and with a line in between. */
  ghost predicate Spread(bufs: Bufs, idx: int, bs: seq<Block>)
    requires 0 <= idx < DB_COUNT
  {
    && (forall i | 0 <= i < |bs| :: bs[i].count[idx] >= 0 && !Empty(bufs, bs[i]))
    && (forall i, j | 0 <= i < j < |bs| :: bs[i].End(idx) < bs[j].lnum[idx])
  }

  lemma {:induction false} SpreadClear(ed: Edit, bufs: Bufs, prev: Option<Block>, bs: seq<Block>)
    requires 0 <= ed.idx < DB_COUNT && (forall i | 0 <= i < |bs| :: Clear(ed, bs[i]))
    requires Spread(bufs, ed.idx, AsSeq(prev) + PushAll(ed, bs))
    ensures AllClear(ed, prev, bs)
    decreases |bs|
  {
    hide Empty, Clear, Pushed;
    if bs != [] {
      var all := AsSeq(prev) + PushAll(ed, bs);
      var n := |AsSeq(prev)|;
      assert all[n] == Pushed(ed, bs[0]) && (prev.Some? ==> all[0] == prev.value);
      assert AsSeq(Some(Pushed(ed, bs[0]))) + PushAll(ed, bs[1..]) == all[n..];
      SpreadFrom(bufs, ed.idx, all, n);
      SpreadClear(ed, bufs, Some(Pushed(ed, bs[0])), bs[1..]);
    }
  }

  lemma SpreadFrom(bufs: Bufs, idx: int, bs: seq<Block>, n: nat)
    requires 0 <= idx < DB_COUNT && Spread(bufs, idx, bs) && n <= |bs|
    ensures Spread(bufs, idx, bs[n..])
  {
    hide Empty;
    var r := bs[n..];
    forall i, j | 0 <= i < j < |r| ensures r[i].End(idx) < r[j].lnum[idx] {
      assert r[i] == bs[n + i] && r[j] == bs[n + j];
    }
  }

  /** The edit that replaces the lines of the block by `n` lines. */
  function BlockEdit(idx: int, b: Block, n: int): Edit
    requires 0 <= idx < DB_COUNT
  {
    Edit(idx, b.lnum[idx], b.End(idx) - 1, MAXLNUM, n - b.count[idx])
  }

  lemma PushNothing(ed: Edit, rest: seq<Block>)
    requires 0 <= ed.idx < DB_COUNT && ed.after == 0
    ensures PushAll(ed, rest) == rest
  {
    forall i | 0 <= i < |rest| ensures PushAll(ed, rest)[i] == rest[i] {
      assert rest[i].lnum[ed.idx := rest[i].lnum[ed.idx]] == rest[i].lnum;
      assert rest[i].count[ed.idx := rest[i].count[ed.idx]] == rest[i].count;
    }
  }

  /** The blocks above and below a block. */
  lemma Around(bufs: Bufs, idx: int, done: seq<Block>, b: Block, rest: seq<Block>)
    requires 0 <= idx < DB_COUNT && Spread(bufs, idx, done + [b] + rest)
    ensures b.count[idx] >= 0 && Spread(bufs, idx, done) && Spread(bufs, idx, rest)
    ensures forall i | 0 <= i < |done| :: done[i].End(idx) < b.lnum[idx]
    ensures forall i | 0 <= i < |rest| :: b.End(idx) < rest[i].lnum[idx]
  {
    hide Empty;
    var all := done + [b] + rest;
    assert all[|done|] == b && all[..|done|] == done && all[|done| + 1..] == rest;
    SpreadFrom(bufs, idx, all, |done| + 1);
    forall i | 0 <= i < |done| ensures done[i] == all[i] && done[i].End(idx) < b.lnum[idx] {
    }
    forall i | 0 <= i < |rest| ensures b.End(idx) < rest[i].lnum[idx] {
      assert all[|done| + 1 + i] == rest[i];
    }
  }

  lemma SpreadJoin(bufs: Bufs, idx: int, done: seq<Block>, l: int, rest: seq<Block>)
    requires 0 <= idx < DB_COUNT && Spread(bufs, idx, done) && Spread(bufs, idx, rest)
    requires forall i | 0 <= i < |done| :: done[i].End(idx) < l
    requires forall i | 0 <= i < |rest| :: l <= rest[i].lnum[idx]
    ensures Spread(bufs, idx, done + rest)
  {
    hide Empty;
    var all := done + rest;
    forall i, j | 0 <= i < j < |all| ensures all[i].End(idx) < all[j].lnum[idx] {
      assert all[i] == (if i < |done| then done[i] else rest[i - |done|]);
      assert all[j] == (if j < |done| then done[j] else rest[j - |done|]);
    }
  }

  lemma SpreadPushed(bufs: Bufs, ed: Edit, rest: seq<Block>)
    requires 0 <= ed.idx < DB_COUNT && Spread(bufs, ed.idx, rest)
    requires forall i | 0 <= i < |rest| :: ed.line1 <= rest[i].lnum[ed.idx]
    ensures Spread(bufs, ed.idx, PushAll(ed, rest))
    ensures forall i | 0 <= i < |rest| :: PushAll(ed, rest)[i].lnum[ed.idx] == rest[i].lnum[ed.idx] + ed.after
  {
    hide Empty;
    var r := PushAll(ed, rest);
    forall i | 0 <= i < |r| ensures r[i].count == rest[i].count
        && r[i].lnum[ed.idx] == rest[i].lnum[ed.idx] + ed.after {
      PushedIs(ed, rest[i]);
    }
    forall i | 0 <= i < |r| ensures !Empty(bufs, r[i]) {
      EmptyByCount(bufs, r[i], rest[i]);
    }
  }

  lemma PushedIs(ed: Edit, b: Block)
    requires 0 <= ed.idx < DB_COUNT && b.count[ed.idx] >= 0 && ed.line1 <= b.lnum[ed.idx]
    ensures Pushed(ed, b).count == b.count && Pushed(ed, b).lnum[ed.idx] == b.lnum[ed.idx] + ed.after
  {
  }

  lemma EmptyByCount(bufs: Bufs, b: Block, c: Block)
    requires b.count == c.count
    ensures Empty(bufs, b) <==> Empty(bufs, c)
  {
  }

  lemma PushSides(ed: Edit, done: seq<Block>, rest: seq<Block>)
    requires 0 <= ed.idx < DB_COUNT
    requires forall i | 0 <= i < |done| :: done[i].End(ed.idx) < ed.line1
    requires forall i | 0 <= i < |rest| :: rest[i].lnum[ed.idx] - 1 > ed.line2
    ensures PushAll(ed, done + rest) == done + PushAll(ed, rest)
    ensures forall i | 0 <= i < |done + rest| :: Clear(ed, (done + rest)[i])
  {
  }

  /** Taking out a block and replacing its lines by n lines moves the blocks below, and leaves them apart. */
  lemma TakeOut(bufs: Bufs, idx: int, done: seq<Block>, b: Block, rest: seq<Block>, n: nat)
    requires 0 <= idx < DB_COUNT && Spread(bufs, idx, done + [b] + rest)
    ensures var ed := BlockEdit(idx, b, n);
            && AllClear(ed, None, done + rest) && Spread(bufs, idx, done + rest)
            && PushAll(ed, done + rest) == done + PushAll(ed, rest)
            && Spread(bufs, idx, done + PushAll(ed, rest))
  {
    hide Spread, Clear, AllClear, Pushed;
    var ed := BlockEdit(idx, b, n);
    Around(bufs, idx, done, b, rest);
    PushSides(ed, done, rest);
    SpreadPushed(bufs, ed, rest);
    SpreadJoin(bufs, idx, done, b.lnum[idx], rest);
    SpreadJoin(bufs, idx, done, b.lnum[idx], PushAll(ed, rest));
    assert AsSeq(None) + PushAll(ed, done + rest) == PushAll(ed, done + rest);
    SpreadClear(ed, bufs, None, done + rest);
  }

  lemma SpreadCounts(bufs: Bufs, idx: int, bs: seq<Block>)
    requires 0 <= idx < DB_COUNT && Spread(bufs, idx, bs)
    ensures forall b | b in bs :: b.count[idx] >= 0 && !Empty(bufs, b)
  {
    hide Empty;
  }
  // ----- around the block whose lines were replaced -----

  /** The last block that is done, and those above it. */
  function LastOf(prev: Option<Block>, above: seq<Block>): Option<Block> {
    if above == [] then prev else Some(above[|above| - 1])
  }

  function Init(prev: Option<Block>, above: seq<Block>): seq<Block> {
    if above == [] then [] else AsSeq(prev) + above[..|above| - 1]
  }

  /** The blocks are above the edit, and apart. */
  predicate AboveEdit(ed: Edit, prev: Option<Block>, above: seq<Block>)
    requires 0 <= ed.idx < DB_COUNT
    decreases |above|
  {
    above == [] ||
    (above[0].End(ed.idx) < ed.line1 && (prev.Some? ==> prev.value.End(ed.idx) != above[0].lnum[ed.idx])
     && AboveEdit(ed, Some(above[0]), above[1..]))
  }

  /** The loop passes blocks above the edit. */
  lemma {:induction false} WalkAbove(ed: Edit, bufs: Bufs, prev: Option<Block>, above: seq<Block>, rest: seq<Block>,
                                     deleted: int, from: int, d: Texts)
    requires 0 <= ed.idx < DB_COUNT && AboveEdit(ed, prev, above)
    ensures Walk(ed, bufs, true, prev, above + rest, deleted, from, d)
         == Init(prev, above) + Walk(ed, bufs, true, LastOf(prev, above), rest, deleted, from, d)
    decreases |above|
  {
    hide Fires, NewBlock, Merge, RepairTop, RepairBottom, Trim;
    if above == [] {
      assert above + rest == rest;
    } else {
      var all := above + rest;
      assert all[0] == above[0] && all[1..] == above[1..] + rest;
      WalkAbove(ed, bufs, Some(above[0]), above[1..], rest, deleted, from, d);
      InitNext(prev, above);
      Associate(AsSeq(prev), Init(Some(above[0]), above[1..]),
          Walk(ed, bufs, true, LastOf(prev, above), rest, deleted, from, d));
    }
  }

  lemma InitNext(prev: Option<Block>, above: seq<Block>)
    requires above != []
    ensures Init(prev, above) == AsSeq(prev) + Init(Some(above[0]), above[1..])
    ensures LastOf(Some(above[0]), above[1..]) == LastOf(prev, above)
    ensures Init(None, above) + AsSeq(LastOf(None, above)) == above
  {
    var n := |above| - 1;
    assert above == [above[0]] + above[1..] && above == above[..n] + [above[n]];
    if n > 0 {
      assert above[..n] == [above[0]] + above[1..][..n - 1];
    }
  }

  /** What becomes of a block that the edit turns into x, and of those below it: the next one is merged into it if they
      touch. */
  function Rejoined(ed: Edit, bufs: Bufs, x: Block, rest: seq<Block>): seq<Block>
    requires 0 <= ed.idx < DB_COUNT
  {
    if MeetsNext(ed, x, rest) then [Merge(bufs, x, Pushed(ed, rest[0]))] + PushAll(ed, rest[1..])
        else [x] + PushAll(ed, rest)
  }

  /** The block, as the edit leaves it, touches the next one. */
  predicate MeetsNext(ed: Edit, x: Block, rest: seq<Block>)
    requires 0 <= ed.idx < DB_COUNT
  {
    rest != [] && x.End(ed.idx) == Pushed(ed, rest[0]).lnum[ed.idx]
  }

  /** The blocks are below the edit. */
  predicate BelowEdit(ed: Edit, rest: seq<Block>)
    requires 0 <= ed.idx < DB_COUNT
  {
    forall i | 0 <= i < |rest| :: rest[i].lnum[ed.idx] - 1 > ed.line2 && ed.line1 <= rest[i].lnum[ed.idx]
  }

  lemma BelowClear(ed: Edit, bufs: Bufs, prev: Option<Block>, rest: seq<Block>)
    requires 0 <= ed.idx < DB_COUNT && Spread(bufs, ed.idx, rest) && BelowEdit(ed, rest)
    requires prev.Some? && rest != [] ==> prev.value.End(ed.idx) != Pushed(ed, rest[0]).lnum[ed.idx]
    ensures AllClear(ed, prev, rest)
  {
    hide Spread, Pushed;
    SpreadPushed(bufs, ed, rest);
    assert AsSeq(None) + PushAll(ed, rest) == PushAll(ed, rest);
    SpreadClear(ed, bufs, None, rest);
  }

  /** The loop from the block on. */
  lemma WalkFrom(ed: Edit, bufs: Bufs, prev: Option<Block>, b: Block, rest: seq<Block>, x: Block, d: Texts)
    requires ed.idx in bufs && ed.after != 0 && ed.Deleted() + ed.Inserted() != 0
    requires Repair(ed, bufs, b, Next([b] + rest), ed.Deleted(), ed.line1, d) == Repaired(x, ed.Deleted(), ed.line1)
    requires prev.Some? ==> prev.value.End(ed.idx) != x.lnum[ed.idx]
    requires Spread(bufs, ed.idx, rest) && BelowEdit(ed, rest)
    ensures Walk(ed, bufs, true, prev, [b] + rest, ed.Deleted(), ed.line1, d) == AsSeq(prev)
            + Rejoined(ed, bufs, x, rest)
  {
    hide Fires, NewBlock, Repair, Spread, AllClear, Pushed, Empty;
    var del := ed.Deleted();
    assert ([b] + rest)[1..] == rest;
    assert Walk(ed, bufs, true, prev, [b] + rest, del, ed.line1, d) == AsSeq(prev) + []
        + Walk(ed, bufs, true, Some(x), rest, del, ed.line1, d);
    SpreadCounts(bufs, ed.idx, rest);
    if MeetsNext(ed, x, rest) {
      var m := Merge(bufs, x, Pushed(ed, rest[0]));
      BelowPushed(ed, bufs, rest);
      SpreadFrom(bufs, ed.idx, rest, 1);
      BelowClear(ed, bufs, Some(m), rest[1..]);
      ClearBlock(ed, bufs, rest[0], Next(rest), del, ed.line1, d);
      assert Walk(ed, bufs, true, Some(x), rest, del, ed.line1, d)
          == Walk(ed, bufs, true, Some(m), rest[1..], del, ed.line1, d);
      WalkPushes(ed, bufs, Some(m), rest[1..], del, ed.line1, d);
    } else {
      BelowClear(ed, bufs, Some(x), rest);
      WalkPushes(ed, bufs, Some(x), rest, del, ed.line1, d);
    }
  }

  /** The first block below the edit is clear of it, and ends above the next one also after it is moved. */
  lemma BelowPushed(ed: Edit, bufs: Bufs, rest: seq<Block>)
    requires 0 <= ed.idx < DB_COUNT && Spread(bufs, ed.idx, rest) && BelowEdit(ed, rest) && rest != []
    ensures Clear(ed, rest[0]) && BelowEdit(ed, rest[1..])
    ensures Pushed(ed, rest[0]).count == rest[0].count
    ensures |rest| > 1 ==> Pushed(ed, rest[0]).End(ed.idx) != Pushed(ed, rest[1]).lnum[ed.idx]
  {
    hide Empty;
    PushedIs(ed, rest[0]);
    if |rest| > 1 {
      PushedIs(ed, rest[1]);
    }
  }

  /** The loop on the whole list. */
  lemma WalkAround(ed: Edit, bufs: Bufs, above: seq<Block>, b: Block, rest: seq<Block>, x: Block, d: Texts)
    requires ed.idx in bufs && ed.after != 0 && ed.Deleted() + ed.Inserted() != 0
    requires Repair(ed, bufs, b, Next([b] + rest), ed.Deleted(), ed.line1, d) == Repaired(x, ed.Deleted(), ed.line1)
    requires AboveEdit(ed, None, above) && (above != [] ==> above[|above| - 1].End(ed.idx) != x.lnum[ed.idx])
    requires Spread(bufs, ed.idx, rest) && BelowEdit(ed, rest)
    ensures Walk(ed, bufs, true, None, above + ([b] + rest), ed.Deleted(), ed.line1, d) == above
            + Rejoined(ed, bufs, x, rest)
  {
    hide Walk, Repair, Spread, Rejoined;
    WalkAbove(ed, bufs, None, above, [b] + rest, ed.Deleted(), ed.line1, d);
    var prev := LastOf(None, above);
    WalkFrom(ed, bufs, prev, b, rest, x, d);
    Associate(Init(None, above), AsSeq(prev), Rejoined(ed, bufs, x, rest));
    if above != [] {
      InitNext(None, above);
    }
  }
}

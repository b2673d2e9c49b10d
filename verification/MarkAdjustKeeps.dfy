/** The list fits the buffers again after an insertion or a deletion of lines. */
module MarkAdjustKeeps {
  import opened DiffBlocks
  import opened DiffTrim
  import opened MarkAdjust

  /** The lines the edit added minus the lines it took away. */
  function Delta(ed: Edit): int { ed.Inserted() - ed.Deleted() }

  /** The first line below the edit, as numbered before the edit. */
  function Resume(ed: Edit): int { ed.line1 + ed.Deleted() }

  /** `ed` is what `mark_adjust` is told when lines are only inserted ... */
  predicate IsInsertion(ed: Edit) {
    ed.Inserted() > 0 && ((ed.line2 == MAXLNUM && ed.after == 0)
        || (ed.line2 == ed.line1 - 1 < MAXLNUM && ed.after > 0))
  }

  /** ... or only deleted. */
  predicate IsDeletion(ed: Edit) {
    ed.line1 <= ed.line2 < MAXLNUM && ed.after == -(ed.line2 - ed.line1 + 1)
  }

  /** Text `d` becomes `d'` by an insertion or a deletion of lines in one of the buffers, and `ed` says so. */
  ghost predicate PureEdit(ed: Edit, bufs: Bufs, d: Texts, d': Texts) {
    && ed.idx in bufs
    && (IsInsertion(ed) || IsDeletion(ed))
    && 1 <= ed.line1 && Resume(ed) <= Size(d, ed.idx) + 1
    && (forall i | 0 <= i < DB_COUNT && i != ed.idx :: d'.lines[i] == d.lines[i])
    && (forall i | 0 <= i < DB_COUNT :: Size(d, i) < MAXLNUM)
    && var was, now := d.lines[ed.idx], d'.lines[ed.idx];
       && |now| == |was| + Delta(ed)
       && now[..ed.line1 - 1] == was[..ed.line1 - 1]
       && now[Resume(ed) - 1 + Delta(ed)..] == was[Resume(ed) - 1..]
  }

  /** A vector with its entry for the edited buffer moved along with the lines below the edit. */
  function Moved(ed: Edit, e: Vec): Vec
    requires 0 <= ed.idx < DB_COUNT
  {
    e[ed.idx := e[ed.idx] + Delta(ed)]
  }

  function MoveAll(ed: Edit, bs: seq<Block>): (r: seq<Block>)
    requires 0 <= ed.idx < DB_COUNT
    ensures |r| == |bs|
  {
    if bs == [] then [] else [Block(Moved(ed, bs[0].lnum), bs[0].count)] + MoveAll(ed, bs[1..])
  }

  // ----- stretches above and below the edit -----

  lemma TakeSlice<T>(s: seq<T>, k: int, a: int, b: int)
    requires 0 <= a <= b <= k <= |s|
    ensures s[a..b] == s[..k][a..b]
  {
  }

  lemma SliceAbove(ed: Edit, bufs: Bufs, d: Texts, d': Texts, i: int, a: int, b: int)
    requires PureEdit(ed, bufs, d, d') && 0 <= i < DB_COUNT
    requires 1 <= a <= b <= Size(d, i) + 1 && (i == ed.idx ==> b <= ed.line1)
    ensures Slice(d', i, a, b) == Slice(d, i, a, b)
  {
    if i == ed.idx {
      var was, now, k := d.lines[i], d'.lines[i], ed.line1 - 1;
      TakeSlice(now, k, a - 1, b - 1);
      TakeSlice(was, k, a - 1, b - 1);
    }
  }

  lemma DropSlice<T>(s: seq<T>, k: int, a: int, b: int)
    requires 0 <= k <= a <= b <= |s|
    ensures s[a..b] == s[k..][a - k .. b - k]
  {
  }

  lemma SliceBelow(ed: Edit, bufs: Bufs, d: Texts, d': Texts, a: int, b: int)
    requires PureEdit(ed, bufs, d, d') && Resume(ed) <= a <= b <= Size(d, ed.idx) + 1
    ensures Slice(d', ed.idx, a + Delta(ed), b + Delta(ed)) == Slice(d, ed.idx, a, b)
  {
    var was, now, k, s := d.lines[ed.idx], d'.lines[ed.idx], Resume(ed) - 1, Delta(ed);
    DropSlice(now, k + s, a + s - 1, b + s - 1);
    DropSlice(was, k, a - 1, b - 1);
  }

  lemma GapAbove(content: bool, ed: Edit, bufs: Bufs, e: Vec, f: Vec, m: nat, d: Texts, d': Texts)
    requires PureEdit(ed, bufs, d, d') && Gap(content, bufs, e, f, m, d) && f[ed.idx] <= ed.line1
    ensures Gap(content, bufs, e, f, m, d')
  {
    if content {
      forall i, j | i in bufs && j in bufs ensures Slice(d', i, e[i], f[i]) == Slice(d', j, e[j], f[j]) {
        SliceAbove(ed, bufs, d, d', i, e[i], f[i]);
        SliceAbove(ed, bufs, d, d', j, e[j], f[j]);
      }
    }
  }

  lemma GapBelow(content: bool, ed: Edit, bufs: Bufs, e: Vec, f: Vec, m: nat, d: Texts, d': Texts)
    requires PureEdit(ed, bufs, d, d') && Gap(content, bufs, e, f, m, d) && Resume(ed) <= e[ed.idx]
    ensures Gap(content, bufs, Moved(ed, e), Moved(ed, f), m, d')
  {
    var e', f' := Moved(ed, e), Moved(ed, f);
    if content {
      forall i | i in bufs ensures Slice(d', i, e'[i], f'[i]) == Slice(d, i, e[i], f[i]) {
        if i == ed.idx {
          SliceBelow(ed, bufs, d, d', e[i], f[i]);
        } else {
          SliceAbove(ed, bufs, d, d', i, e[i], f[i]);
        }
      }
    }
  }

  lemma {:induction false} SyncBelow(content: bool, ed: Edit, bufs: Bufs, e: Vec, m: nat, bs: seq<Block>, d: Texts,
                                     d': Texts)
    requires PureEdit(ed, bufs, d, d') && Sync(content, bufs, e, m, bs, d) && Resume(ed) <= e[ed.idx]
    ensures Sync(content, bufs, Moved(ed, e), m, MoveAll(ed, bs), d')
    decreases |bs|
  {
    if bs == [] {
      GapBelow(content, ed, bufs, e, AfterLast(d), 0, d, d');
      GapSame(content, bufs, Moved(ed, e), Moved(ed, AfterLast(d)), Moved(ed, e), AfterLast(d'), 0, d');
    } else {
      var b := bs[0];
      GapBelow(content, ed, bufs, e, b.lnum, m, d, d');
      SyncBelow(content, ed, bufs, b.Ends(), 1, bs[1..], d, d');
      var c := Block(Moved(ed, b.lnum), b.count);
      SyncSame(content, bufs, Moved(ed, b.Ends()), c.Ends(), 1, MoveAll(ed, bs[1..]), d');
      assert MoveAll(ed, bs) == [c] + MoveAll(ed, bs[1..]);
    }
  }

  /** A block below the edit just moves. */
  lemma RepairBelow(ed: Edit, bufs: Bufs, b: Block, next: Option<Block>, deleted: nat, from: int, d: Texts)
    requires 0 <= ed.idx < DB_COUNT && b.count[ed.idx] >= 0 && b.lnum[ed.idx] <= MAXLNUM
    requires (IsInsertion(ed) && deleted == 0) || IsDeletion(ed)
    requires Resume(ed) < b.lnum[ed.idx]
    ensures Repair(ed, bufs, b, next, deleted, from, d) == Repaired(Block(Moved(ed, b.lnum), b.count), deleted, from)
    ensures !Stops(ed, b, deleted)
  {
  }

  /** Once the last touched block is done, the blocks below just move. */
  lemma {:induction false} WalkBelow(ed: Edit, bufs: Bufs, busy: bool, prev: Block, e: Vec, rest: seq<Block>,
                                     deleted: nat, from: int, d: Texts, d': Texts)
    requires PureEdit(ed, bufs, d, d') && Sync(false, bufs, e, 1, rest, d) && Resume(ed) <= e[ed.idx]
    requires ed.line1 <= prev.End(ed.idx) <= e[ed.idx] + Delta(ed)
    requires IsInsertion(ed) ==> deleted == 0
    ensures Walk(ed, bufs, busy, Some(prev), rest, deleted, from, d') == [prev] + MoveAll(ed, rest)
    decreases |rest|
  {
    hide Repair, Stops, SameText;
    if rest != [] {
      var b := rest[0];
      RepairBelow(ed, bufs, b, Next(rest), deleted, from, d');
      var r := Repair(ed, bufs, b, Next(rest), deleted, from, d');
      WalkBelow(ed, bufs, busy, r.block, b.Ends(), rest[1..], deleted, from, d, d');
      assert MoveAll(ed, rest) == [r.block] + MoveAll(ed, rest[1..]);
    }
  }

  lemma Finish(content: bool, ed: Edit, bufs: Bufs, busy: bool, prev: Block, e: Vec, rest: seq<Block>,
               deleted: nat, from: int, d: Texts, d': Texts)
    requires PureEdit(ed, bufs, d, d') && Sync(content, bufs, e, 1, rest, d) && Resume(ed) <= e[ed.idx]
    requires Gap(content, bufs, prev.Ends(), Moved(ed, e), 0, d')
    requires ed.line1 <= prev.End(ed.idx)
    requires IsInsertion(ed) ==> deleted == 0
    requires forall i {:trigger i in bufs} | i in bufs :: prev.lnum[i] >= 1 && prev.count[i] >= 0
    ensures SyncAt(content, bufs, prev.lnum, Walk(ed, bufs, busy, Some(prev), rest, deleted, from, d'), d')
  {
    Weaken(content, bufs, e, 1, rest, d);
    WalkBelow(ed, bufs, busy, prev, e, rest, deleted, from, d, d');
    SyncBelow(content, ed, bufs, e, 1, rest, d, d');
    SyncExtend(content, bufs, prev.Ends(), Moved(ed, e), 0, 1, MoveAll(ed, rest), d');
    assert ([prev] + MoveAll(ed, rest))[1..] == MoveAll(ed, rest);
  }

  /** A block that is in range and whose predecessor ends where it starts or above. */
  ghost predicate Follows(content: bool, bufs: Bufs, prev: Block, b: Block, d: Texts) {
    && (forall i {:trigger i in bufs} | i in bufs :: prev.lnum[i] >= 1 && prev.count[i] >= 0 && b.count[i] >= 0)
    && Gap(content, bufs, prev.Ends(), b.lnum, 0, d)
  }

  /** What the loop does after block `b`: go on with the two blocks merged if they touch. */
  function GoOn(ed: Edit, bufs: Bufs, busy: bool, prev: Block, b: Block, rest: seq<Block>, deleted: int, from: int,
                d: Texts): seq<Block>
    requires 0 <= ed.idx < DB_COUNT
  {
    if prev.End(ed.idx) == b.lnum[ed.idx] then
      Walk(ed, bufs, busy, Some(Merge(bufs, prev, b)), rest, deleted, from, d)
    else [prev] + Walk(ed, bufs, busy, Some(b), rest, deleted, from, d)
  }

  lemma MergeEnds(bufs: Bufs, idx: int, prev: Block, b: Block, d: Texts)
    requires idx in bufs && Follows(false, bufs, prev, b, d) && prev.End(idx) == b.lnum[idx]
    ensures forall i {:trigger i in bufs} | i in bufs :: Merge(bufs, prev, b).Ends()[i] == b.Ends()[i]
    ensures forall i {:trigger i in bufs} | i in bufs :: Merge(bufs, prev, b).count[i] >= 0
  {
  }

  /** Between blocks that do not touch there is at least one line. */
  lemma Untouched(content: bool, bufs: Bufs, idx: int, prev: Block, b: Block, d: Texts)
    requires idx in bufs && Follows(content, bufs, prev, b, d) && prev.End(idx) != b.lnum[idx]
    ensures Gap(content, bufs, prev.Ends(), b.lnum, 1, d)
  {
  }

  lemma FinishAfter(content: bool, ed: Edit, bufs: Bufs, busy: bool, prev: Block, b: Block, e: Vec, rest: seq<Block>,
                    deleted: nat, from: int, d: Texts, d': Texts)
    requires PureEdit(ed, bufs, d, d') && Sync(content, bufs, e, 1, rest, d) && Resume(ed) <= e[ed.idx]
    requires Follows(content, bufs, prev, b, d')
    requires Gap(content, bufs, b.Ends(), Moved(ed, e), 0, d')
    requires ed.line1 <= b.End(ed.idx)
    requires IsInsertion(ed) ==> deleted == 0
    ensures SyncAt(content, bufs, prev.lnum, GoOn(ed, bufs, busy, prev, b, rest, deleted, from, d'), d')
  {
    if prev.End(ed.idx) == b.lnum[ed.idx] {
      var m := Merge(bufs, prev, b);
      MergeEnds(bufs, ed.idx, prev, b, d');
      GapSame(content, bufs, b.Ends(), Moved(ed, e), m.Ends(), Moved(ed, e), 0, d');
      Finish(content, ed, bufs, busy, m, e, rest, deleted, from, d, d');
    } else {
      Finish(content, ed, bufs, busy, b, e, rest, deleted, from, d, d');
      Untouched(content, bufs, ed.idx, prev, b, d');
      Prepend(content, bufs, prev, b.lnum, Walk(ed, bufs, busy, Some(b), rest, deleted, from, d'), d');
    }
  }

  // ----- deletions -----

  /** The deletion reaches block rest[0]; everything from line `from` on, which is in or above the block,
      is still to be handled, and `start` is where the block starts afterwards. */
  ghost predicate Reaches(content: bool, ed: Edit, bufs: Bufs, start: Vec, rest: seq<Block>, deleted: int, from: int,
                          d: Texts, d': Texts) {
    && PureEdit(ed, bufs, d, d') && IsDeletion(ed)
    && rest != []
    && ed.line1 <= from <= rest[0].lnum[ed.idx] <= ed.line2 + 1
    && deleted == ed.line2 + 1 - from
    && (from == ed.line2 + 1 || from == ed.line1 || from == rest[0].lnum[ed.idx])
    && start[ed.idx] == ed.line1
    && (forall i {:trigger i in bufs} | i in bufs :: rest[0].count[i] >= 0 && 1 <= start[i] <= Size(d', i) + 1)
    && (forall i {:trigger i in bufs} | i in bufs && i != ed.idx ::
        start[i] == rest[0].lnum[i] - (rest[0].lnum[ed.idx] - from))
    && Sync(content, bufs, rest[0].Ends(), 1, rest[1..], d)
  }

  /** `b` is what has become of the last block the edit touches: it starts at `start`, or below it after lines that are
      the same everywhere, and ends where line `e` of the old numbering is now, or above it after such lines. */
  ghost predicate Settled(content: bool, ed: Edit, bufs: Bufs, start: Vec, b: Block, e: Vec, below: seq<Block>,
                          d: Texts, d': Texts)
    requires 0 <= ed.idx < DB_COUNT
  {
    && Sync(content, bufs, e, 1, below, d) && Resume(ed) <= e[ed.idx]
    && Gap(content, bufs, start, b.lnum, 0, d') && Gap(content, bufs, b.Ends(), Moved(ed, e), 0, d')
    && (forall i {:trigger i in bufs} | i in bufs :: b.count[i] >= 0)
  }

  lemma TrimSettles(content: bool, ed: Edit, bufs: Bufs, c: Block, e: Vec, below: seq<Block>, d: Texts, d': Texts)
    requires ed.idx in bufs && Settled(content, ed, bufs, c.lnum, c, e, below, d, d')
    ensures Settled(content, ed, bufs, c.lnum, Trim(bufs, c, d'), e, below, d, d')
  {
    var f, r := TrimIs(bufs, c, d');
    var t := Trim(bufs, c, d');
    GapJoin(content, bufs, t.Ends(), c.Ends(), Moved(ed, e), r, 0, d');
  }

  /** A block with the given start and end settles the edit. */
  lemma Settles(content: bool, ed: Edit, bufs: Bufs, start: Vec, c: Block, e: Vec, below: seq<Block>, d: Texts,
                d': Texts)
    requires PureEdit(ed, bufs, d, d')
    requires Sync(content, bufs, e, 1, below, d) && Resume(ed) <= e[ed.idx]
    requires forall i {:trigger i in bufs} | i in bufs ::
               1 <= start[i] == c.lnum[i] && c.count[i] >= 0 && c.End(i) == Moved(ed, e)[i]
    ensures Settled(content, ed, bufs, start, c, e, below, d, d')
    ensures Settled(content, ed, bufs, start, Trim(bufs, c, d'), e, below, d, d')
    ensures start[ed.idx] <= Trim(bufs, c, d').End(ed.idx)
  {
    EndsInRange(content, bufs, e, 1, below, d);
    GapNone(content, bufs, start, c.lnum, d');
    GapNone(content, bufs, c.lnum, c.lnum, d');
    GapNone(content, bufs, c.Ends(), Moved(ed, e), d');
    TrimSettles(content, ed, bufs, c, e, below, d, d');
    var t := Trim(bufs, c, d');
    GapSame(content, bufs, c.lnum, t.lnum, start, t.lnum, 0, d');
  }

  // The shape of the repaired block, case by case.

  /** Only the gap above the block is deleted, and that is already done. */
  lemma ShapeMoved(ed: Edit, bufs: Bufs, b: Block, next: Option<Block>, from: int, d: Texts)
    requires 0 <= ed.idx < DB_COUNT && IsDeletion(ed) && b.count[ed.idx] >= 0
    requires b.lnum[ed.idx] == from == ed.line2 + 1
    ensures var r := Repair(ed, bufs, b, next, 0, from, d);
            r.deleted == 0 && r.block.lnum == b.lnum[ed.idx := ed.line1] && r.block.count[ed.idx] == b.count[ed.idx]
            && forall i {:trigger i in bufs} | i in bufs && i != ed.idx :: r.block.count[i] == b.count[i]
  {
  }

  /** Case 4 at the end of the deletion. */
  lemma ShapeGone(ed: Edit, bufs: Bufs, b: Block, next: Option<Block>, deleted: int, from: int, d: Texts)
    requires 0 <= ed.idx < DB_COUNT && IsDeletion(ed) && deleted > 0
    requires ed.line1 <= b.lnum[ed.idx] <= b.End(ed.idx) <= ed.line2 + 1 && !GoesOn(ed, next)
    ensures var r := Repair(ed, bufs, b, next, deleted, from, d);
            r.deleted == deleted && r.block.lnum[ed.idx] == ed.line1 && r.block.count[ed.idx] == 0
            && forall i {:trigger i in bufs} | i in bufs && i != ed.idx ::
                 r.block.lnum[i] == b.lnum[i] - (b.lnum[ed.idx] - from)
                 && r.block.count[i] == b.count[i] + deleted - b.count[ed.idx]
  {
  }

  /** Case 4 with the deletion going on. */
  lemma ShapeOn(ed: Edit, bufs: Bufs, b: Block, next: Option<Block>, deleted: int, from: int, d: Texts)
    requires 0 <= ed.idx < DB_COUNT && IsDeletion(ed) && deleted > 0
    requires ed.line1 <= b.lnum[ed.idx] <= b.End(ed.idx) <= ed.line2 + 1 && GoesOn(ed, next)
    ensures var r, g := Repair(ed, bufs, b, next, deleted, from, d), next.value.lnum[ed.idx];
            r.deleted == deleted - (g - from) && r.from == g && r.block.lnum[ed.idx] == ed.line1
                && r.block.count[ed.idx] == 0
            && forall i {:trigger i in bufs} | i in bufs && i != ed.idx ::
                 r.block.lnum[i] == b.lnum[i] - (b.lnum[ed.idx] - from)
                 && r.block.count[i] == b.count[i] + g - from - b.count[ed.idx]
  {
  }

  /** Case 5. */
  lemma ShapeCut(ed: Edit, bufs: Bufs, b: Block, next: Option<Block>, deleted: int, from: int, d: Texts)
    returns (c: Block)
    requires 0 <= ed.idx < DB_COUNT && IsDeletion(ed) && deleted > 0
    requires ed.line1 <= b.lnum[ed.idx] <= ed.line2 + 1 < b.End(ed.idx)
    ensures var r := Repair(ed, bufs, b, next, deleted, from, d);
            r.deleted == deleted && r.block == Trim(bufs, c, d)
    ensures c.lnum[ed.idx] == ed.line1 && c.count[ed.idx] == b.End(ed.idx) - ed.line2 - 1
    ensures forall i {:trigger i in bufs} | i in bufs && i != ed.idx ::
              c.lnum[i] == b.lnum[i] - (b.lnum[ed.idx] - from) && c.count[i] == b.count[i] + (b.lnum[ed.idx] - from)
  {
    c := CutTop(ed, bufs, b, from);
  }

  lemma LastGone(content: bool, ed: Edit, bufs: Bufs, start: Vec, r: Block, rest: seq<Block>, deleted: int, from: int,
                 d: Texts, d': Texts)
    returns (e: Vec)
    requires Reaches(content, ed, bufs, start, rest, deleted, from, d, d')
    requires rest[0].End(ed.idx) - 1 <= ed.line2 && !GoesOn(ed, Next(rest))
    requires r.lnum[ed.idx] == ed.line1 && r.count[ed.idx] == 0
    requires forall i {:trigger i in bufs} | i in bufs && i != ed.idx ::
               r.lnum[i] == start[i] && r.count[i] == rest[0].count[i] + deleted - rest[0].count[ed.idx]
    ensures Settled(content, ed, bufs, start, r, e, rest[1..], d, d')
  {
    var b := rest[0];
    var n := ed.line2 + 1 - b.End(ed.idx);
    e := seq(DB_COUNT, i requires 0 <= i < DB_COUNT => b.End(i) + n);
    SyncDrop(content, bufs, b.Ends(), e, 1, n, 1, rest[1..], d);
    Settles(content, ed, bufs, start, r, e, rest[1..], d, d');
  }

  lemma LastCut(content: bool, ed: Edit, bufs: Bufs, start: Vec, c: Block, rest: seq<Block>, deleted: int, from: int,
                d: Texts, d': Texts)
    requires Reaches(content, ed, bufs, start, rest, deleted, from, d, d')
    requires rest[0].End(ed.idx) - 1 >= ed.line2
    requires c.lnum[ed.idx] == ed.line1 && c.count[ed.idx] == rest[0].End(ed.idx) - ed.line2 - 1
    requires forall i {:trigger i in bufs} | i in bufs && i != ed.idx ::
               c.lnum[i] == start[i] && c.count[i] == rest[0].count[i] + (rest[0].lnum[ed.idx] - from)
    ensures Settled(content, ed, bufs, start, c, rest[0].Ends(), rest[1..], d, d')
    ensures Settled(content, ed, bufs, start, Trim(bufs, c, d'), rest[0].Ends(), rest[1..], d, d')
    ensures ed.line1 <= Trim(bufs, c, d').End(ed.idx)
  {
    Settles(content, ed, bufs, start, c, rest[0].Ends(), rest[1..], d, d');
  }

  /** The deletion ends in or above this block, or between it and the next. */
  lemma LastTop(content: bool, ed: Edit, bufs: Bufs, start: Vec, rest: seq<Block>, deleted: int, from: int, d: Texts,
                d': Texts)
    returns (e: Vec)
    requires Reaches(content, ed, bufs, start, rest, deleted, from, d, d')
    requires deleted == 0 || rest[0].End(ed.idx) - 1 > ed.line2 || !GoesOn(ed, Next(rest))
    ensures var r := Repair(ed, bufs, rest[0], Next(rest), deleted, from, d');
            && r.deleted == deleted && ed.line1 <= r.block.End(ed.idx)
            && Settled(content, ed, bufs, start, r.block, e, rest[1..], d, d')
  {
    hide Repair, Trim, Settled, Sync;
    var b, next := rest[0], Next(rest);
    e := b.Ends();
    if deleted == 0 {
      ShapeMoved(ed, bufs, b, next, from, d');
      LastCut(content, ed, bufs, start, Repair(ed, bufs, b, next, deleted, from, d').block, rest, deleted, from, d, d');
    } else if b.End(ed.idx) - 1 > ed.line2 {
      var c := ShapeCut(ed, bufs, b, next, deleted, from, d');
      LastCut(content, ed, bufs, start, c, rest, deleted, from, d, d');
    } else {
      ShapeGone(ed, bufs, b, next, deleted, from, d');
      e := LastGone(content, ed, bufs, start, Repair(ed, bufs, b, next, deleted, from, d').block, rest, deleted, from,
          d, d');
    }
  }

  /** The deletion takes the whole block and the lines up to the next one, which it also reaches. */
  lemma WholeBlock(content: bool, ed: Edit, bufs: Bufs, start: Vec, r: Block, rest: seq<Block>, deleted: int, from: int,
                   d: Texts, d': Texts)
    returns (start': Vec)
    requires Reaches(content, ed, bufs, start, rest, deleted, from, d, d')
    requires rest[0].End(ed.idx) - 1 <= ed.line2 && GoesOn(ed, Next(rest))
    requires r.lnum[ed.idx] == ed.line1 && r.count[ed.idx] == 0
    requires forall i {:trigger i in bufs} | i in bufs && i != ed.idx ::
               r.lnum[i] == start[i]
                   && r.count[i] == rest[0].count[i] + rest[1].lnum[ed.idx] - from - rest[0].count[ed.idx]
    ensures forall i {:trigger i in bufs} | i in bufs ::
            r.lnum[i] == start[i] && r.count[i] >= 0 && r.End(i) == start'[i]
    ensures var from' := rest[1].lnum[ed.idx];
            Reaches(content, ed, bufs, start', rest[1..], deleted - (from' - from), from', d, d')
  {
    var b, g := rest[0], rest[1];
    start' := g.lnum[ed.idx := ed.line1];
    assert rest[1..][0] == g && rest[1..][1..] == rest[2..];
    EndsInRange(content, bufs, b.Ends(), 1, rest[1..], d);
  }

  /** The same as FinishAfter, for a block that settles the edit. */
  lemma SettledAfter(content: bool, ed: Edit, bufs: Bufs, busy: bool, prev: Block, start: Vec, b: Block, e: Vec,
                     rest: seq<Block>, deleted: nat, from: int, d: Texts, d': Texts)
    requires PureEdit(ed, bufs, d, d') && Settled(content, ed, bufs, start, b, e, rest, d, d')
    requires Gap(content, bufs, prev.Ends(), start, 0, d') && ed.line1 <= b.End(ed.idx)
    requires IsInsertion(ed) ==> deleted == 0
    requires forall i {:trigger i in bufs} | i in bufs :: prev.lnum[i] >= 1 && prev.count[i] >= 0
    ensures SyncAt(content, bufs, prev.lnum, GoOn(ed, bufs, busy, prev, b, rest, deleted, from, d'), d')
  {
    hide GoOn, Sync, SyncAt, SameText;
    GapJoin(content, bufs, prev.Ends(), start, b.lnum, 0, 0, d');
    FinishAfter(content, ed, bufs, busy, prev, b, e, rest, deleted, from, d, d');
  }

  lemma {:induction false} DeleteOnAfter(content: bool, ed: Edit, bufs: Bufs, busy: bool, prev: Block, start: Vec,
                                         b: Block, start': Vec, rest: seq<Block>, deleted: int, from: int, d: Texts,
                                         d': Texts)
    requires Reaches(content, ed, bufs, start', rest, deleted, from, d, d')
    requires start[ed.idx] == ed.line1 && prev.End(ed.idx) <= ed.line1 && Gap(content, bufs, prev.Ends(), start, 0, d')
    requires forall i {:trigger i in bufs} | i in bufs :: prev.lnum[i] >= 1 && prev.count[i] >= 0
    requires forall i {:trigger i in bufs} | i in bufs ::
             b.lnum[i] == start[i] && b.count[i] >= 0 && b.End(i) == start'[i]
    ensures SyncAt(content, bufs, prev.lnum, GoOn(ed, bufs, busy, prev, b, rest, deleted, from, d'), d')
    decreases |rest|, 1
  {
    hide Walk, Sync, SyncAt, SameText;
    GapSame(content, bufs, prev.Ends(), start, prev.Ends(), b.lnum, 0, d');
    if prev.End(ed.idx) == b.lnum[ed.idx] {
      var m := Merge(bufs, prev, b);
      MergeEnds(bufs, ed.idx, prev, b, d');
      GapNone(content, bufs, m.Ends(), start', d');
      DeleteOn(content, ed, bufs, busy, m, start', rest, deleted, from, d, d');
    } else {
      GapNone(content, bufs, b.Ends(), start', d');
      DeleteOn(content, ed, bufs, busy, b, start', rest, deleted, from, d, d');
      Untouched(content, bufs, ed.idx, prev, b, d');
      Prepend(content, bufs, prev, b.lnum, Walk(ed, bufs, busy, Some(b), rest, deleted, from, d'), d');
    }
  }

  /** A deletion that goes on in the next block after `prev`. */
  lemma {:induction false} DeleteOn(content: bool, ed: Edit, bufs: Bufs, busy: bool, prev: Block, start: Vec,
                                    rest: seq<Block>, deleted: int, from: int, d: Texts, d': Texts)
    requires Reaches(content, ed, bufs, start, rest, deleted, from, d, d')
    requires prev.End(ed.idx) <= ed.line1 && Gap(content, bufs, prev.Ends(), start, 0, d')
    requires forall i {:trigger i in bufs} | i in bufs :: prev.lnum[i] >= 1 && prev.count[i] >= 0
    ensures SyncAt(content, bufs, prev.lnum, Walk(ed, bufs, busy, Some(prev), rest, deleted, from, d'), d')
    decreases |rest|, 0
  {
    hide Repair, Trim, Settled, Sync, SyncAt, SameText;
    var b, next := rest[0], Next(rest);
    var r := Repair(ed, bufs, b, next, deleted, from, d');
    assert Walk(ed, bufs, busy, Some(prev), rest, deleted, from, d')
        == GoOn(ed, bufs, busy, prev, r.block, rest[1..], r.deleted, r.from, d');
    if deleted == 0 || b.End(ed.idx) - 1 > ed.line2 || !GoesOn(ed, next) {
      var e := LastTop(content, ed, bufs, start, rest, deleted, from, d, d');
      SettledAfter(content, ed, bufs, busy, prev, start, r.block, e, rest[1..], r.deleted, r.from, d, d');
    } else {
      ShapeOn(ed, bufs, b, next, deleted, from, d');
      var start' := WholeBlock(content, ed, bufs, start, r.block, rest, deleted, from, d, d');
      DeleteOnAfter(content, ed, bufs, busy, prev, start, r.block, start', rest[1..], r.deleted, r.from, d, d');
    }
  }

  // ----- the loop from the top of the list -----

  /** The blocks so far are above the edit. */
  ghost predicate Above(content: bool, ed: Edit, bufs: Bufs, prev: Option<Block>, rest: seq<Block>, d: Texts,
                        d': Texts) {
    && PureEdit(ed, bufs, d, d')
    && Sync(content, bufs, After(prev), Least(prev), rest, d)
    && After(prev)[ed.idx] + Least(prev) <= ed.line1
  }

  /** What is wanted of the loop: `out` comes after `prev` and fits the new text. */
  ghost predicate Fits(content: bool, bufs: Bufs, prev: Option<Block>, all: seq<Block>, out: seq<Block>, d: Texts) {
    all == AsSeq(prev) + out && Sync(content, bufs, After(prev), Least(prev), out, d)
  }

  lemma FitsAt(content: bool, bufs: Bufs, prev: Option<Block>, start: Vec, s: Vec, all: seq<Block>, out: seq<Block>,
               d: Texts)
    requires all == AsSeq(prev) + out
    requires Gap(content, bufs, After(prev), start, Least(prev), d)
    requires Gap(content, bufs, start, s, 0, d) && SyncAt(content, bufs, s, out, d)
    ensures Fits(content, bufs, prev, all, out, d)
  {
    GapJoin(content, bufs, After(prev), start, s, Least(prev), 0, d);
    GapSame(content, bufs, After(prev), s, After(prev), out[0].lnum, Least(prev), d);
  }

  lemma WalkStep(ed: Edit, bufs: Bufs, busy: bool, prev: Option<Block>, rest: seq<Block>, r: Repaired, deleted: int,
                 from: int, d: Texts)
    requires 0 <= ed.idx < DB_COUNT && rest != [] && !Stops(ed, rest[0], deleted)
    requires r == Repair(ed, bufs, rest[0], Next(rest), deleted, from, d)
    requires prev.Some? ==> prev.value.End(ed.idx) != r.block.lnum[ed.idx]
    ensures Walk(ed, bufs, busy, prev, rest, deleted, from, d)
         == AsSeq(prev) + (if Fires(ed, prev, rest) && !busy then [NewBlock(ed, bufs, prev, deleted)] else [])
            + Walk(ed, bufs, busy, Some(r.block), rest[1..], r.deleted, r.from, d)
  {
    hide Repair, Stops, NewBlock, Fires;
  }

  /** The blocks `rest` are below the edit. */
  ghost predicate RestBelow(ed: Edit, bufs: Bufs, rest: seq<Block>, d: Texts)
    requires 0 <= ed.idx < DB_COUNT
  {
    rest != [] ==>
      && Resume(ed) < rest[0].lnum[ed.idx] <= MAXLNUM && rest[0].count[ed.idx] >= 0
      && Sync(false, bufs, rest[0].Ends(), 1, rest[1..], d)
  }

  lemma AboveFires(content: bool, ed: Edit, bufs: Bufs, prev: Option<Block>, rest: seq<Block>, d: Texts, d': Texts)
    requires Above(content, ed, bufs, prev, rest, d, d') && Fires(ed, prev, rest)
    ensures RestBelow(ed, bufs, rest, d)
  {
    if rest != [] {
      Weaken(content, bufs, rest[0].Ends(), 1, rest[1..], d);
    }
  }

  lemma Regroup<T>(a: seq<T>, b: seq<T>, c: seq<T>)
    ensures a + b + c == a + (b + c)
  {
  }

  lemma OutsideWalk(ed: Edit, bufs: Bufs, prev: Option<Block>, rest: seq<Block>, d: Texts, d': Texts)
    requires PureEdit(ed, bufs, d, d') && RestBelow(ed, bufs, rest, d) && Fires(ed, prev, rest)
    ensures Walk(ed, bufs, false, prev, rest, ed.Deleted(), ed.line1, d')
         == AsSeq(prev) + ([NewBlock(ed, bufs, prev, ed.Deleted())] + MoveAll(ed, rest))
  {
    if rest != [] {
      var b := rest[0];
      assert prev.Some? ==> prev.value.End(ed.idx) < ed.line1;
      hide Repair, Stops, NewBlock, Fires, Walk, AsSeq;
      RepairBelow(ed, bufs, b, Next(rest), ed.Deleted(), ed.line1, d');
      var r := Repair(ed, bufs, b, Next(rest), ed.Deleted(), ed.line1, d');
      WalkStep(ed, bufs, false, prev, rest, r, ed.Deleted(), ed.line1, d');
      WalkBelow(ed, bufs, false, r.block, b.Ends(), rest[1..], ed.Deleted(), ed.line1, d, d');
      assert MoveAll(ed, rest) == [r.block] + MoveAll(ed, rest[1..]);
      Regroup(AsSeq(prev), [NewBlock(ed, bufs, prev, ed.Deleted())], MoveAll(ed, rest));
    }
  }

  lemma NewBlockIs(ed: Edit, bufs: Bufs, prev: Option<Block>)
    requires ed.idx in bufs
    ensures var e, b := After(prev), NewBlock(ed, bufs, prev, ed.Deleted());
            forall i {:trigger i in bufs} | i in bufs ::
              b.lnum[i] == e[i] + ed.line1 - e[ed.idx]
                  && b.count[i] == (if i == ed.idx then ed.Inserted() else ed.Deleted())
  {
  }

  /** The stretch above the new block and what is below it. */
  lemma OutsideStretch(content: bool, ed: Edit, bufs: Bufs, prev: Option<Block>, rest: seq<Block>, e': Vec, d: Texts,
                       d': Texts)
    requires Above(content, ed, bufs, prev, rest, d, d') && Fires(ed, prev, rest)
    requires forall i {:trigger i in bufs} | i in bufs :: e'[i] == After(prev)[i] + (Resume(ed) - After(prev)[ed.idx])
    ensures Gap(content, bufs, After(prev), NewBlock(ed, bufs, prev, ed.Deleted()).lnum, Least(prev), d')
    ensures Sync(content, bufs, e', 1, rest, d)
  {
    hide NewBlock, SameText;
    var e, made := After(prev), NewBlock(ed, bufs, prev, ed.Deleted());
    var k := ed.line1 - e[ed.idx];
    SyncDrop(content, bufs, e, e', Least(prev), k + ed.Deleted(), 1, rest, d);
    NewBlockIs(ed, bufs, prev);
    GapPart(content, bufs, e, e', e, made.lnum, 0, k, d);
    GapAbove(content, ed, bufs, e, made.lnum, k, d, d');
  }

  /** An edit outside all blocks. */
  lemma Outside(content: bool, ed: Edit, bufs: Bufs, prev: Option<Block>, rest: seq<Block>, d: Texts, d': Texts)
    returns (out: seq<Block>)
    requires Above(content, ed, bufs, prev, rest, d, d') && Fires(ed, prev, rest)
    ensures Fits(content, bufs, prev, Walk(ed, bufs, false, prev, rest, ed.Deleted(), ed.line1, d'), out, d')
  {
    hide Walk, NewBlock, SameText, Fires, Apart;
    var e, made := After(prev), NewBlock(ed, bufs, prev, ed.Deleted());
    var e' := seq(DB_COUNT, i requires 0 <= i < DB_COUNT => e[i] + (Resume(ed) - e[ed.idx]));
    out := [made] + MoveAll(ed, rest);
    AboveFires(content, ed, bufs, prev, rest, d, d');
    OutsideWalk(ed, bufs, prev, rest, d, d');
    OutsideStretch(content, ed, bufs, prev, rest, e', d, d');
    NewBlockIs(ed, bufs, prev);
    SyncBelow(content, ed, bufs, e', 1, rest, d, d');
    SyncSame(content, bufs, Moved(ed, e'), made.Ends(), 1, MoveAll(ed, rest), d');
    assert out[1..] == MoveAll(ed, rest);
  }

  /** The edit touches the first of the blocks below `prev`. */
  ghost predicate Touches(content: bool, ed: Edit, bufs: Bufs, prev: Option<Block>, rest: seq<Block>, d: Texts,
                          d': Texts) {
    && Above(content, ed, bufs, prev, rest, d, d')
    && rest != []
    && rest[0].lnum[ed.idx] <= Resume(ed) && ed.line1 <= rest[0].End(ed.idx)
  }

  lemma TouchesIs(content: bool, ed: Edit, bufs: Bufs, prev: Option<Block>, rest: seq<Block>, d: Texts, d': Texts)
    requires Touches(content, ed, bufs, prev, rest, d, d')
    ensures !Fires(ed, prev, rest) && !Stops(ed, rest[0], ed.Deleted())
    ensures prev.Some? ==> prev.value.End(ed.idx) < ed.line1 && prev.value.End(ed.idx) < rest[0].lnum[ed.idx]
    ensures Sync(content, bufs, rest[0].Ends(), 1, rest[1..], d)
    ensures forall i {:trigger i in bufs} | i in bufs :: rest[0].count[i] >= 0 && rest[0].lnum[i] >= 1
    ensures forall i {:trigger i in bufs} | i in bufs :: rest[0].End(i) <= Size(d, i) + 1
  {
    EndsInRange(content, bufs, rest[0].Ends(), 1, rest[1..], d);
  }

  /** After the touched block is repaired, the rest of the loop fits. */
  lemma TouchedFits(content: bool, ed: Edit, bufs: Bufs, prev: Option<Block>, rest: seq<Block>, start: Vec, r: Repaired,
                    d: Texts, d': Texts)
    returns (out: seq<Block>)
    requires Touches(content, ed, bufs, prev, rest, d, d')
    requires r == Repair(ed, bufs, rest[0], Next(rest), ed.Deleted(), ed.line1, d')
    requires Gap(content, bufs, After(prev), start, Least(prev), d') && Gap(content, bufs, start, r.block.lnum, 0, d')
    requires SyncAt(content, bufs, r.block.lnum, Walk(ed, bufs, false, Some(r.block), rest[1..], r.deleted, r.from, d'),
             d')
    ensures Fits(content, bufs, prev, Walk(ed, bufs, false, prev, rest, ed.Deleted(), ed.line1, d'), out, d')
  {
    hide Repair, Stops, Fires, Walk, SameText, Sync, SyncAt;
    TouchesIs(content, ed, bufs, prev, rest, d, d');
    WalkStep(ed, bufs, false, prev, rest, r, ed.Deleted(), ed.line1, d');
    out := Walk(ed, bufs, false, Some(r.block), rest[1..], r.deleted, r.from, d');
    FitsAt(content, bufs, prev, start, r.block.lnum, Walk(ed, bufs, false, prev, rest, ed.Deleted(), ed.line1, d'), out,
        d');
  }

  /** ... in particular when the edit is settled. */
  lemma SettledFits(content: bool, ed: Edit, bufs: Bufs, prev: Option<Block>, rest: seq<Block>, start: Vec, r: Repaired,
                    e: Vec, d: Texts, d': Texts)
    returns (out: seq<Block>)
    requires Touches(content, ed, bufs, prev, rest, d, d')
    requires r == Repair(ed, bufs, rest[0], Next(rest), ed.Deleted(), ed.line1, d') && r.deleted == ed.Deleted()
    requires Gap(content, bufs, After(prev), start, Least(prev), d')
    requires Settled(content, ed, bufs, start, r.block, e, rest[1..], d, d') && ed.line1 <= r.block.End(ed.idx)
    ensures Fits(content, bufs, prev, Walk(ed, bufs, false, prev, rest, ed.Deleted(), ed.line1, d'), out, d')
  {
    hide Repair, Walk, SameText, Sync, SyncAt;
    Finish(content, ed, bufs, false, r.block, e, rest[1..], r.deleted, r.from, d, d');
    out := TouchedFits(content, ed, bufs, prev, rest, start, r, d, d');
  }

  lemma StretchAbove(content: bool, ed: Edit, bufs: Bufs, prev: Option<Block>, rest: seq<Block>, start: Vec, d: Texts,
                     d': Texts)
    requires Touches(content, ed, bufs, prev, rest, d, d')
    requires Least(prev) <= start[ed.idx] - After(prev)[ed.idx] && start[ed.idx] <= ed.line1
    requires forall i {:trigger i in bufs} | i in bufs ::
             rest[0].lnum[i] - start[i] == rest[0].lnum[ed.idx] - start[ed.idx] >= 0
    ensures Gap(content, bufs, After(prev), start, Least(prev), d')
  {
    var e := After(prev);
    GapPart(content, bufs, e, rest[0].lnum, e, start, 0, start[ed.idx] - e[ed.idx], d);
    GapAbove(content, ed, bufs, e, start, Least(prev), d, d');
  }

  /** The deletion starts above the block and reaches it. */
  lemma TouchTop(content: bool, ed: Edit, bufs: Bufs, prev: Option<Block>, rest: seq<Block>, d: Texts, d': Texts)
    returns (out: seq<Block>)
    requires Touches(content, ed, bufs, prev, rest, d, d') && IsDeletion(ed) && rest[0].lnum[ed.idx] >= ed.line1
    ensures Fits(content, bufs, prev, Walk(ed, bufs, false, prev, rest, ed.Deleted(), ed.line1, d'), out, d')
  {
    hide Repair, Walk, SameText, Sync, SyncAt, Trim;
    var b, next, n := rest[0], Next(rest), ed.Deleted();
    TouchesIs(content, ed, bufs, prev, rest, d, d');
    var off := b.lnum[ed.idx] - ed.line1;
    var start := seq(DB_COUNT, i requires 0 <= i < DB_COUNT => b.lnum[i] - off);
    StretchAbove(content, ed, bufs, prev, rest, start, d, d');
    var r := Repair(ed, bufs, b, next, n, ed.line1, d');
    if b.End(ed.idx) - 1 > ed.line2 || !GoesOn(ed, next) {
      var e := LastTop(content, ed, bufs, start, rest, n, ed.line1, d, d');
      out := SettledFits(content, ed, bufs, prev, rest, start, r, e, d, d');
    } else {
      ShapeOn(ed, bufs, b, next, n, ed.line1, d');
      var start' := WholeBlock(content, ed, bufs, start, r.block, rest, n, ed.line1, d, d');
      GapNone(content, bufs, r.block.Ends(), start', d');
      GapNone(content, bufs, start, r.block.lnum, d');
      DeleteOn(content, ed, bufs, false, r.block, start', rest[1..], r.deleted, r.from, d, d');
      out := TouchedFits(content, ed, bufs, prev, rest, start, r, d, d');
    }
  }

  /** The first of the blocks is the only one the edit touches, and shrinking it leaves its end above the edit. */
  predicate Shortened(ed: Edit, bufs: Bufs, rest: seq<Block>, d': Texts)
    requires 0 <= ed.idx < DB_COUNT && rest != []
  {
    && rest[0].lnum[ed.idx] <= ed.line1 <= rest[0].End(ed.idx)
    && (ed.Deleted() > 0 ==> !GoesOn(ed, Next(rest)))
    && Repair(ed, bufs, rest[0], Next(rest), ed.Deleted(), ed.line1, d').block.End(ed.idx) < ed.line1
  }

  lemma ShapeInserted(ed: Edit, bufs: Bufs, b: Block, next: Option<Block>, from: int, d: Texts)
    requires 0 <= ed.idx < DB_COUNT && IsInsertion(ed)
    requires b.lnum[ed.idx] <= ed.line1 <= b.End(ed.idx) && ed.line1 <= MAXLNUM
    ensures var r := Repair(ed, bufs, b, next, 0, from, d);
            r.deleted == 0 && r.from == from && r.block == Trim(bufs, Enlarge(ed, b), d)
  {
    hide Trim, Enlarge;
  }

  /** Case 3. */
  lemma ShapeInside(ed: Edit, bufs: Bufs, b: Block, next: Option<Block>, d: Texts)
    requires 0 <= ed.idx < DB_COUNT && IsDeletion(ed)
    requires b.lnum[ed.idx] < ed.line1 && ed.line2 < b.End(ed.idx)
    ensures Repair(ed, bufs, b, next, ed.Deleted(), ed.line1, d)
         == Repaired(SetIdx(b, ed.idx, b.lnum[ed.idx], b.count[ed.idx] - ed.Deleted()), ed.Deleted(), ed.line1)
  {
  }

  /** Case 2. */
  lemma ShapeBottom(ed: Edit, bufs: Bufs, b: Block, next: Option<Block>, d: Texts) returns (c: Block)
    requires 0 <= ed.idx < DB_COUNT && IsDeletion(ed)
    requires b.lnum[ed.idx] < ed.line1 <= b.End(ed.idx) <= ed.line2
    ensures var r, on := Repair(ed, bufs, b, next, ed.Deleted(), ed.line1, d), GoesOn(ed, next);
            && r.block == Trim(bufs, c, d)
            && r.from == (if on then next.value.lnum[ed.idx] else ed.line1)
            && r.deleted == (if on then ed.Deleted() - (next.value.lnum[ed.idx] - ed.line1) else ed.Deleted())
    ensures c.lnum[ed.idx] == b.lnum[ed.idx] && c.End(ed.idx) == ed.line1
    ensures forall i {:trigger i in bufs} | i in bufs && i != ed.idx ::
              c.lnum[i] == b.lnum[i] && c.count[i] == b.count[i] + LinesBelow(ed, b, next)
  {
    hide Trim, LinesBelow;
    c := CutBottom(ed, bufs, b, ed.line1, LinesBelow(ed, b, next));
  }

  /** Lines are inserted in the block, or just above or below it. */
  lemma TouchInsert(content: bool, ed: Edit, bufs: Bufs, prev: Option<Block>, rest: seq<Block>, d: Texts, d': Texts)
    returns (out: seq<Block>)
    requires Touches(content, ed, bufs, prev, rest, d, d') && IsInsertion(ed) && !Shortened(ed, bufs, rest, d')
    ensures Fits(content, bufs, prev, Walk(ed, bufs, false, prev, rest, ed.Deleted(), ed.line1, d'), out, d')
  {
    hide Repair, Walk, SameText, Sync, SyncAt, Trim;
    var b, next := rest[0], Next(rest);
    TouchesIs(content, ed, bufs, prev, rest, d, d');
    StretchAbove(content, ed, bufs, prev, rest, b.lnum, d, d');
    ShapeInserted(ed, bufs, b, next, ed.line1, d');
    var c := Enlarge(ed, b);
    Settles(content, ed, bufs, b.lnum, c, b.Ends(), rest[1..], d, d');
    out := SettledFits(content, ed, bufs, prev, rest, b.lnum, Repair(ed, bufs, b, next, 0, ed.line1, d'), b.Ends(), d,
        d');
  }

  /** The deletion starts inside the block, or just below it. */
  lemma TouchBottom(content: bool, ed: Edit, bufs: Bufs, prev: Option<Block>, rest: seq<Block>, d: Texts, d': Texts)
    returns (out: seq<Block>)
    requires Touches(content, ed, bufs, prev, rest, d, d') && IsDeletion(ed) && rest[0].lnum[ed.idx] < ed.line1
    requires !Shortened(ed, bufs, rest, d')
    ensures Fits(content, bufs, prev, Walk(ed, bufs, false, prev, rest, ed.Deleted(), ed.line1, d'), out, d')
  {
    hide Repair, Walk, SameText, Sync, SyncAt, Trim;
    var b, next, n := rest[0], Next(rest), ed.Deleted();
    TouchesIs(content, ed, bufs, prev, rest, d, d');
    StretchAbove(content, ed, bufs, prev, rest, b.lnum, d, d');
    var r := Repair(ed, bufs, b, next, n, ed.line1, d');
    if ed.line2 < b.End(ed.idx) {
      ShapeInside(ed, bufs, b, next, d');
      Settles(content, ed, bufs, b.lnum, r.block, b.Ends(), rest[1..], d, d');
      out := SettledFits(content, ed, bufs, prev, rest, b.lnum, r, b.Ends(), d, d');
    } else if !GoesOn(ed, next) {
      var c := ShapeBottom(ed, bufs, b, next, d');
      var e := BelowBottom(content, ed, bufs, prev, rest, d, d');
      Settles(content, ed, bufs, b.lnum, c, e, rest[1..], d, d');
      out := SettledFits(content, ed, bufs, prev, rest, b.lnum, r, e, d, d');
    } else {
      out := TouchBottomOn(content, ed, bufs, prev, rest, d, d');
    }
  }

  /** The unchanged lines below the block that are deleted with it. */
  lemma BelowBottom(content: bool, ed: Edit, bufs: Bufs, prev: Option<Block>, rest: seq<Block>, d: Texts, d': Texts)
    returns (e: Vec)
    requires Touches(content, ed, bufs, prev, rest, d, d') && IsDeletion(ed)
    requires rest[0].End(ed.idx) <= ed.line2 && !GoesOn(ed, Next(rest))
    ensures Sync(content, bufs, e, 1, rest[1..], d) && Resume(ed) == e[ed.idx]
    ensures forall i {:trigger i in bufs} | i in bufs :: e[i] == rest[0].End(i) + (ed.line2 + 1 - rest[0].End(ed.idx))
  {
    var b := rest[0];
    var n := ed.line2 + 1 - b.End(ed.idx);
    e := seq(DB_COUNT, i requires 0 <= i < DB_COUNT => b.End(i) + n);
    SyncDrop(content, bufs, b.Ends(), e, 1, n, 1, rest[1..], d);
  }

  lemma TouchBottomOn(content: bool, ed: Edit, bufs: Bufs, prev: Option<Block>, rest: seq<Block>, d: Texts, d': Texts)
    returns (out: seq<Block>)
    requires Touches(content, ed, bufs, prev, rest, d, d') && IsDeletion(ed) && rest[0].lnum[ed.idx] < ed.line1
    requires rest[0].End(ed.idx) <= ed.line2 && GoesOn(ed, Next(rest))
    ensures Fits(content, bufs, prev, Walk(ed, bufs, false, prev, rest, ed.Deleted(), ed.line1, d'), out, d')
  {
    hide Repair, Walk, SameText, Sync, SyncAt, Trim;
    var b, next := rest[0], Next(rest);
    var r := Repair(ed, bufs, b, next, ed.Deleted(), ed.line1, d');
    var start' := next.value.lnum[ed.idx := ed.line1];
    NextReached(content, ed, bufs, prev, rest, start', d, d');
    TouchesIs(content, ed, bufs, prev, rest, d, d');
    StretchAbove(content, ed, bufs, prev, rest, b.lnum, d, d');
    var c := ShapeBottom(ed, bufs, b, next, d');
    CutFollows(content, ed, bufs, b.lnum, c, start', d');
    DeleteOn(content, ed, bufs, false, r.block, start', rest[1..], r.deleted, r.from, d, d');
    out := TouchedFits(content, ed, bufs, prev, rest, b.lnum, r, d, d');
  }

  lemma CutFollows(content: bool, ed: Edit, bufs: Bufs, start: Vec, c: Block, start': Vec, d: Texts)
    requires ed.idx in bufs
    requires forall i {:trigger i in bufs} | i in bufs ::
               1 <= start[i] == c.lnum[i] && c.count[i] >= 0 && c.End(i) == start'[i] <= Size(d, i) + 1
    ensures var t := Trim(bufs, c, d);
            && Gap(content, bufs, start, t.lnum, 0, d) && Gap(content, bufs, t.Ends(), start', 0, d)
            && t.End(ed.idx) <= start'[ed.idx]
            && forall i {:trigger i in bufs} | i in bufs :: t.lnum[i] >= 1 && t.count[i] >= 0
  {
    hide SameText, Trim;
    var f, k := TrimIs(bufs, c, d);
    var t := Trim(bufs, c, d);
    GapSame(content, bufs, t.Ends(), c.Ends(), t.Ends(), start', 0, d);
    GapSame(content, bufs, c.lnum, t.lnum, start, t.lnum, 0, d);
  }

  lemma NextReached(content: bool, ed: Edit, bufs: Bufs, prev: Option<Block>, rest: seq<Block>, start': Vec, d: Texts,
                    d': Texts)
    requires Touches(content, ed, bufs, prev, rest, d, d') && IsDeletion(ed)
    requires rest[0].End(ed.idx) <= ed.line2 && GoesOn(ed, Next(rest))
    requires start' == rest[1].lnum[ed.idx := ed.line1]
    ensures var from' := rest[1].lnum[ed.idx];
            Reaches(content, ed, bufs, start', rest[1..], ed.line2 + 1 - from', from', d, d')
    ensures forall i {:trigger i in bufs} | i in bufs ::
              rest[1].lnum[i] - rest[0].End(i) == rest[1].lnum[ed.idx] - rest[0].End(ed.idx) >= 1
  {
    hide SameText;
    TouchesIs(content, ed, bufs, prev, rest, d, d');
    assert rest[1..][0] == rest[1] && rest[1..][1..] == rest[2..];
    assert Sync(content, bufs, rest[1].Ends(), 1, rest[2..], d);
  }

  // ----- main results -----

  /** After shrinking the only block it touches, the loop takes the edit for one outside all blocks, a second time. */
  predicate FiresTwice(ed: Edit, bufs: Bufs, bs: seq<Block>, d': Texts)
    requires 0 <= ed.idx < DB_COUNT
  {
    bs != [] && (Shortened(ed, bufs, bs, d') || FiresTwice(ed, bufs, bs[1..], d'))
  }

  lemma RepairAbove(ed: Edit, bufs: Bufs, prev: Option<Block>, rest: seq<Block>, d: Texts)
    requires 0 <= ed.idx < DB_COUNT && (IsInsertion(ed) || IsDeletion(ed))
    requires rest != [] && rest[0].End(ed.idx) < ed.line1 <= MAXLNUM && rest[0].count[ed.idx] >= 0
    ensures Repair(ed, bufs, rest[0], Next(rest), ed.Deleted(), ed.line1, d)
            == Repaired(rest[0], ed.Deleted(), ed.line1)
    ensures !Stops(ed, rest[0], ed.Deleted()) && !Fires(ed, prev, rest)
  {
  }

  lemma {:induction false} WalkFits(content: bool, ed: Edit, bufs: Bufs, prev: Option<Block>, rest: seq<Block>,
                                    d: Texts, d': Texts)
    returns (out: seq<Block>)
    requires Above(content, ed, bufs, prev, rest, d, d') && !FiresTwice(ed, bufs, rest, d')
    ensures Fits(content, bufs, prev, Walk(ed, bufs, false, prev, rest, ed.Deleted(), ed.line1, d'), out, d')
    decreases |rest|
  {
    hide Walk, Repair, Stops, SameText, Shortened;
    if Fires(ed, prev, rest) {
      out := Outside(content, ed, bufs, prev, rest, d, d');
    } else if rest[0].End(ed.idx) < ed.line1 {
      var b := rest[0];
      RepairAbove(ed, bufs, prev, rest, d');
      WalkStep(ed, bufs, false, prev, rest, Repaired(b, ed.Deleted(), ed.line1), ed.Deleted(), ed.line1, d');
      var below := WalkFits(content, ed, bufs, Some(b), rest[1..], d, d');
      out := [b] + below;
      GapAbove(content, ed, bufs, After(prev), b.lnum, Least(prev), d, d');
      assert out[1..] == below;
    } else if IsInsertion(ed) {
      out := TouchInsert(content, ed, bufs, prev, rest, d, d');
    } else if rest[0].lnum[ed.idx] >= ed.line1 {
      out := TouchTop(content, ed, bufs, prev, rest, d, d');
    } else {
      out := TouchBottom(content, ed, bufs, prev, rest, d, d');
    }
  }

  lemma {:induction false} DropEmptyKeeps(content: bool, bufs: Bufs, e: Vec, m: nat, bs: seq<Block>, d: Texts)
    requires Sync(content, bufs, e, m, bs, d)
    ensures Sync(content, bufs, e, m, DropEmpty(bufs, bs), d)
    decreases |bs|
  {
    hide SameText;
    if bs != [] {
      var b := bs[0];
      DropEmptyKeeps(content, bufs, b.Ends(), 1, bs[1..], d);
      if Empty(bufs, b) {
        GapSame(content, bufs, e, b.lnum, e, b.Ends(), m, d);
        SyncExtend(content, bufs, e, b.Ends(), m, 1, DropEmpty(bufs, bs[1..]), d);
      } else {
        assert DropEmpty(bufs, bs)[1..] == DropEmpty(bufs, bs[1..]);
      }
    }
  }

  /** An insertion or deletion of lines turns a list that fits the buffers into one that fits them again,
      unless the loop takes the edit for two. */
  lemma AdjustKeeps(content: bool, ed: Edit, bufs: Bufs, bs: seq<Block>, d: Texts, d': Texts)
    requires PureEdit(ed, bufs, d, d') && Sync(content, bufs, ONES, 0, bs, d)
    requires !FiresTwice(ed, bufs, bs, d')
    ensures Sync(content, bufs, ONES, 0, Adjust(ed, bufs, false, bs, d'), d')
  {
    hide Walk, Gap, FiresTwice, DropEmpty;
    var out := WalkFits(content, ed, bufs, None, bs, d, d');
    assert AsSeq(None) + out == out;
    DropEmptyKeeps(content, bufs, ONES, 0, out, d');
  }
}

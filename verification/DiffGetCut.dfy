/** One turn of `:diffget` or `:diffput`: exactly when the list still fits the buffers afterwards. */
module DiffGetCut {
  import opened LineCompare
  import opened TextLines
  import opened Sequences
  import opened DiffBlocks
  import opened DiffTrim
  import opened MarkAdjust
  import opened DiffList
  import opened DiffGet
  import opened DiffGetMarks
  import opened DiffGetTurn

  // ----- lists that fit, in parts -----

  /** The stretch from e to f is equally long in every buffer. */
  ghost predicate Level(bufs: Bufs, e: Vec, f: Vec, m: nat) {
    && (forall i {:trigger i in bufs} | i in bufs :: 1 <= e[i] && e[i] + m <= f[i])
    && (forall i, j {:trigger i in bufs, j in bufs} | i in bufs && j in bufs :: f[i] - e[i] == f[j] - e[j])
  }

  /** The first blocks of a list that fits. */
  ghost predicate Lead(bufs: Bufs, e: Vec, m: nat, above: seq<Block>)
    decreases |above|
  {
    above == [] ||
    (Level(bufs, e, above[0].lnum, m) && (forall i {:trigger i in bufs} | i in bufs :: above[0].count[i] >= 0)
     && Lead(bufs, above[0].Ends(), 1, above[1..]))
  }

  /** Where they end. */
  function EndOfList(e: Vec, above: seq<Block>): Vec {
    if above == [] then e else above[|above| - 1].Ends()
  }

  function LeastAfter(m: nat, above: seq<Block>): nat {
    if above == [] then m else 1
  }

  lemma {:induction false} SyncParts(bufs: Bufs, e: Vec, m: nat, above: seq<Block>, rest: seq<Block>, d: Texts)
    ensures Sync(false, bufs, e, m, above + rest, d)
            <==> Lead(bufs, e, m, above) && Sync(false, bufs, EndOfList(e, above), LeastAfter(m, above), rest, d)
    decreases |above|
  {
    if above == [] {
      assert above + rest == rest;
    } else {
      var all := above + rest;
      assert all[0] == above[0] && all[1..] == above[1..] + rest;
      SyncParts(bufs, above[0].Ends(), 1, above[1..], rest, d);
      assert EndOfList(e, above) == EndOfList(above[0].Ends(), above[1..]);
      if Lead(bufs, e, m, above) && Sync(false, bufs, EndOfList(e, above), LeastAfter(m, above), rest, d) {
        EndsInRange(false, bufs, above[0].Ends(), 1, above[1..] + rest, d);
      }
    }
  }

  /** The edit adds lines to one buffer, and nothing else. */
  ghost predicate Grown(ed: Edit, bufs: Bufs, d: Texts, d': Texts)
    requires 0 <= ed.idx < DB_COUNT
  {
    forall i {:trigger i in bufs} | i in bufs :: Size(d', i) == Size(d, i) + if i == ed.idx then ed.after else 0
  }

  function Lowered(ed: Edit, e: Vec): (r: Vec)
    requires 0 <= ed.idx < DB_COUNT
    ensures forall i | 0 <= i < DB_COUNT :: r[i] == e[i] + if i == ed.idx then ed.after else 0
  {
    e[ed.idx := e[ed.idx] + ed.after]
  }

  /** Blocks below the edit fit again when they are moved. */
  lemma {:induction false} SyncPushed(ed: Edit, bufs: Bufs, e: Vec, m: nat, rest: seq<Block>, d: Texts, d': Texts)
    requires ed.idx in bufs && Sync(false, bufs, e, m, rest, d) && BelowEdit(ed, rest) && Grown(ed, bufs, d, d')
             && e[ed.idx] + ed.after >= 1
    ensures Sync(false, bufs, Lowered(ed, e), m, PushAll(ed, rest), d')
    decreases |rest|
  {
    hide SameText;
    if rest != [] {
      var (b, x) := (rest[0], Pushed(ed, rest[0]));
      PushedAt(ed, b);
      EndsInRange(false, bufs, b.Ends(), 1, rest[1..], d);
      SyncPushed(ed, bufs, b.Ends(), 1, rest[1..], d, d');
      SyncSame(false, bufs, Lowered(ed, b.Ends()), x.Ends(), 1, PushAll(ed, rest[1..]), d');
    }
  }

  lemma PushedAt(ed: Edit, b: Block)
    requires 0 <= ed.idx < DB_COUNT && b.count[ed.idx] >= 0 && ed.line1 <= b.lnum[ed.idx]
    ensures Pushed(ed, b).count == b.count && Pushed(ed, b).lnum == Lowered(ed, b.lnum)
  {
    PushedIs(ed, b);
    assert b.count[ed.idx := b.count[ed.idx]] == b.count;
  }

  /** There is a stretch between line l of buffer idx and the blocks. */
  predicate Room(idx: int, l: int, rest: seq<Block>, d: Texts)
    requires 0 <= idx < DB_COUNT
  {
    if rest == [] then l <= Size(d, idx) + 1 else l < rest[0].lnum[idx]
  }

  /** Blocks that fit below one place also fit below another one exactly when that is as far away in all buffers. */
  lemma SyncMoved(bufs: Bufs, idx: int, j: int, e: Vec, f: Vec, rest: seq<Block>, d: Texts)
    requires idx in bufs && j in bufs && idx != j && Sync(false, bufs, e, 1, rest, d)
    requires forall i {:trigger i in bufs} | i in bufs :: f[i] >= 1 && (i != idx ==> f[i] - e[i] == f[j] - e[j])
    ensures Sync(false, bufs, f, 1, rest, d) <==> f[idx] - e[idx] == f[j] - e[j] && Room(idx, f[idx], rest, d)
  {
    hide SameText;
    var g := if rest == [] then AfterLast(d) else rest[0].lnum;
    if f[idx] - e[idx] == f[j] - e[j] && Room(idx, f[idx], rest, d) {
      forall i | i in bufs ensures g[i] - f[i] == g[idx] - f[idx] {
        assert g[i] - e[i] == g[idx] - e[idx];
      }
    }
  }

  // ----- what mark_adjust makes of the block at hand -----

  /** How many lines of the block in the target are above the replaced ones. */
  function Before(c: Command, b: Block, p: Part): int
    requires 0 <= c.to < DB_COUNT
  {
    p.lnum - b.lnum[c.to]
  }

  /** By how many lines the block grows in the other buffers. The lines are counted as deleted, up to where the block
      ended, although its number of lines is already the new one. */
  function Surplus(c: Command, b: Block, p: Part, added: int): int
    requires 0 <= c.to < DB_COUNT
  {
    if added > 0 then 0
    else if Before(c, b, p) == 0 then (if In(c, b) + added <= p.count then -added - (In(c, b) + added) else 0)
    else Max(Before(c, b, p) + p.count - (In(c, b) + added), 0)
  }

  /** How many lines it gets in the target: added lines are counted twice. */
  function Recount(c: Command, b: Block, p: Part, added: int): int
    requires 0 <= c.to < DB_COUNT
  {
    if added > 0 then In(c, b) + 2 * added
    else if Before(c, b, p) == 0 then Max(In(c, b) + added - p.count, 0)
    else if In(c, b) + added < Before(c, b, p) + p.count then Before(c, b, p)
    else In(c, b) + 2 * added
  }

  /** The block is then shrunk by the lines that are equal at its ends. */
  predicate Looked(c: Command, b: Block, p: Part, added: int)
    requires 0 <= c.to < DB_COUNT
  {
    if added > 0 then true
    else if Before(c, b, p) == 0 then In(c, b) + added > p.count
    else In(c, b) + added < Before(c, b, p) + p.count
  }

  /** The block with these numbers of lines. */
  function Counted(c: Command, bufs: Bufs, b: Block, p: Part, added: int): Block
    requires 0 <= c.to < DB_COUNT
  {
    var x := SetIdx(b, c.to, b.lnum[c.to], Recount(c, b, p, added));
    if added > 0 || (Before(c, b, p) > 0 && !Looked(c, b, p, added)) then x
        else GrowOthers(x, bufs, c.to, 0, Surplus(c, b, p, added))
  }

  /** The block after mark_adjust. */
  function Marked(c: Command, bufs: Bufs, b: Block, p: Part, added: int, d: Texts): Block
    requires 0 <= c.to < DB_COUNT
  {
    if Looked(c, b, p, added) then Trim(bufs, Counted(c, bufs, b, p, added), d) else Counted(c, bufs, b, p, added)
  }

  /** The replaced lines are lines of the block; those replaced from its start on are not replaced by fewer unless all
      lines of the source are taken. */
  ghost predicate Fair(c: Command, b: Block, p: Part, added: int)
    requires 0 <= c.to < DB_COUNT
  {
    && b.lnum[c.to] <= p.lnum && p.count >= 0 && p.lnum + p.count <= b.End(c.to) && p.count + added >= 0
    && added != 0 && p.lnum + p.count - 1 < MAXLNUM
  }

  lemma ResizedIs(c: Command, b: Block, n: int, l: int, m: int)
    requires 0 <= c.to < DB_COUNT
    ensures var x := Resized(c, b, n);
            && x.lnum == b.lnum && x.count[c.to] == n && x.End(c.to) == b.lnum[c.to] + n
            && SetIdx(x, c.to, l, m) == SetIdx(b, c.to, l, m)
  {
    assert b.count[c.to := n][c.to := m] == b.count[c.to := m];
  }

  /** The repair of the block, in one piece. */
  ghost predicate RepairedAs(ed: Edit, bufs: Bufs, b: Block, next: Option<Block>, d: Texts, x: Block)
    requires 0 <= ed.idx < DB_COUNT
  {
    var r := Repair(ed, bufs, b, next, ed.Deleted(), ed.line1, d);
    r.block == x && r.deleted == ed.Deleted() && r.from == ed.line1
  }

  /** Lines are inserted in the block. */
  lemma RepairInsert(ed: Edit, bufs: Bufs, b: Block, next: Option<Block>, d: Texts)
    requires 0 <= ed.idx < DB_COUNT && ed.after > 0 && ed.line2 < MAXLNUM
    requires b.lnum[ed.idx] <= ed.line1 <= ed.line2 + 1 && ed.line1 <= b.End(ed.idx)
    ensures RepairedAs(ed, bufs, b, next, d,
            Trim(bufs, SetIdx(b, ed.idx, b.lnum[ed.idx], b.count[ed.idx] + ed.after), d))
  {
    hide Trim, SetIdx, RepairTop, RepairBottom;
  }

  /** Lines are deleted from the start of the block on, or across its start. */
  lemma RepairDeleteTop(ed: Edit, bufs: Bufs, b: Block, next: Option<Block>, d: Texts)
    requires 0 <= ed.idx < DB_COUNT && ed.after < 0 && ed.line2 < MAXLNUM
    requires b.lnum[ed.idx] == ed.line1 <= ed.line2 && ed.line1 <= b.End(ed.idx) && !GoesOn(ed, next)
    ensures b.End(ed.idx) - 1 <= ed.line2 ==>
              RepairedAs(ed, bufs, b, next, d,
                  GrowOthers(SetIdx(b, ed.idx, ed.line1, 0), bufs, ed.idx, 0, -ed.after - b.count[ed.idx]))
    ensures b.End(ed.idx) - 1 > ed.line2 ==>
              RepairedAs(ed, bufs, b, next, d,
                         Trim(bufs, GrowOthers(SetIdx(b, ed.idx, ed.line1, b.End(ed.idx) - 1 - ed.line2), bufs, ed.idx,
                             0, 0), d))
  {
    hide Trim, SetIdx, RepairBottom, GrowOthers, GoesOn;
  }

  /** Lines are deleted below the start of the block. */
  lemma RepairDeleteBottom(ed: Edit, bufs: Bufs, b: Block, next: Option<Block>, d: Texts)
    requires 0 <= ed.idx < DB_COUNT && ed.after < 0 && ed.line2 < MAXLNUM
    requires b.lnum[ed.idx] < ed.line1 <= ed.line2 && ed.line1 <= b.End(ed.idx) && !GoesOn(ed, next)
    ensures b.End(ed.idx) - 1 < ed.line2 ==>
              RepairedAs(ed, bufs, b, next, d,
                         Trim(bufs, GrowOthers(SetIdx(b, ed.idx, b.lnum[ed.idx], ed.line1 - b.lnum[ed.idx]), bufs,
                             ed.idx, 0, ed.line2 - (b.End(ed.idx) - 1)), d))
    ensures b.End(ed.idx) - 1 >= ed.line2 ==>
              RepairedAs(ed, bufs, b, next, d, SetIdx(b, ed.idx, b.lnum[ed.idx], b.count[ed.idx] + ed.after))
  {
    hide Trim, SetIdx, RepairTop, GrowOthers, GoesOn;
  }

  lemma MarkedInsert(c: Command, bufs: Bufs, b: Block, p: Part, added: int, next: Option<Block>, d: Texts)
    requires 0 <= c.to < DB_COUNT && Fair(c, b, p, added) && added > 0
    ensures RepairedAs(PartEdit(c, p, added), bufs, Resized(c, b, In(c, b) + added), next, d,
            Marked(c, bufs, b, p, added, d))
  {
    hide Trim, SetIdx, GrowOthers, Resized, RepairedAs;
    var ed, n := PartEdit(c, p, added), In(c, b) + added;
    ResizedIs(c, b, n, b.lnum[c.to], n + added);
    RepairInsert(ed, bufs, Resized(c, b, n), next, d);
  }

  lemma MarkedTop(c: Command, bufs: Bufs, b: Block, p: Part, added: int, next: Option<Block>, d: Texts)
    requires 0 <= c.to < DB_COUNT && Fair(c, b, p, added) && added < 0 && Before(c, b, p) == 0
    requires !GoesOn(PartEdit(c, p, added), next)
    ensures RepairedAs(PartEdit(c, p, added), bufs, Resized(c, b, In(c, b) + added), next, d,
            Marked(c, bufs, b, p, added, d))
  {
    hide Trim, SetIdx, GrowOthers, Resized, RepairedAs, GoesOn;
    var ed, n := PartEdit(c, p, added), In(c, b) + added;
    ResizedIs(c, b, n, b.lnum[c.to], Max(n - p.count, 0));
    RepairDeleteTop(ed, bufs, Resized(c, b, n), next, d);
  }

  lemma MarkedBottom(c: Command, bufs: Bufs, b: Block, p: Part, added: int, next: Option<Block>, d: Texts)
    requires 0 <= c.to < DB_COUNT && Fair(c, b, p, added) && added < 0 && Before(c, b, p) > 0
    requires !GoesOn(PartEdit(c, p, added), next)
    ensures RepairedAs(PartEdit(c, p, added), bufs, Resized(c, b, In(c, b) + added), next, d,
            Marked(c, bufs, b, p, added, d))
  {
    hide Trim, SetIdx, GrowOthers, Resized, RepairedAs, GoesOn;
    var ed, n := PartEdit(c, p, added), In(c, b) + added;
    var m := Recount(c, b, p, added);
    ResizedIs(c, b, n, b.lnum[c.to], m);
    RepairDeleteBottom(ed, bufs, Resized(c, b, n), next, d);
  }

  /** All cases. */
  lemma MarkedIs(c: Command, bufs: Bufs, b: Block, p: Part, added: int, next: Option<Block>, d: Texts)
    requires 0 <= c.to < DB_COUNT && Fair(c, b, p, added)
    requires next.Some? ==> next.value.lnum[c.to] > b.End(c.to)
    ensures RepairedAs(PartEdit(c, p, added), bufs, Resized(c, b, In(c, b) + added), next, d,
            Marked(c, bufs, b, p, added, d))
  {
    hide Resized, RepairedAs, Marked;
    if added > 0 {
      MarkedInsert(c, bufs, b, p, added, next, d);
    } else if Before(c, b, p) == 0 {
      MarkedTop(c, bufs, b, p, added, next, d);
    } else {
      MarkedBottom(c, bufs, b, p, added, next, d);
    }
  }

  /** The block before it is shrunk. */
  lemma CountedIs(c: Command, bufs: Bufs, b: Block, p: Part, added: int)
    requires 0 <= c.to < DB_COUNT
    ensures var y := Counted(c, bufs, b, p, added);
            && y.lnum[c.to] == b.lnum[c.to] && y.count[c.to] == Recount(c, b, p, added)
            && forall i {:trigger i in bufs} | i in bufs && i != c.to ::
                y.lnum[i] == b.lnum[i] && y.count[i] == b.count[i] + Surplus(c, b, p, added)
  {
    hide GrowOthers;
    var x := SetIdx(b, c.to, b.lnum[c.to], Recount(c, b, p, added));
    forall i | i in bufs && i != c.to ensures x.lnum[i] == b.lnum[i] && x.count[i] == b.count[i] {
    }
  }

  /** `x` is the block with other numbers of lines, without its first f and last r lines. */
  ghost predicate Shape(c: Command, bufs: Bufs, b: Block, p: Part, added: int, x: Block, f: nat, r: nat)
    requires 0 <= c.to < DB_COUNT
  {
    && (forall i {:trigger i in bufs} | i in bufs :: x.lnum[i] == b.lnum[i] + f)
    && (forall i {:trigger i in bufs} | i in bufs && i != c.to ::
        x.count[i] == b.count[i] + Surplus(c, b, p, added) - f - r)
    && x.count[c.to] == Recount(c, b, p, added) - f - r
  }

  /** The lines of the block exist, in every buffer. */
  ghost predicate Proper(bufs: Bufs, b: Block) {
    forall i {:trigger i in bufs} | i in bufs :: b.lnum[i] >= 1 && b.count[i] >= 0
  }

  lemma MarkedShape(c: Command, bufs: Bufs, b: Block, p: Part, added: int, d: Texts) returns (f: nat, r: nat)
    requires c.to in bufs && Fair(c, b, p, added) && Proper(bufs, b)
    ensures Shape(c, bufs, b, p, added, Marked(c, bufs, b, p, added, d), f, r)
    ensures if Looked(c, b, p, added) then forall i {:trigger i in bufs} | i in bufs ::
            Marked(c, bufs, b, p, added, d).count[i] >= 0
            else f == 0 && r == 0
  {
    hide Counted, Trim;
    var y := Counted(c, bufs, b, p, added);
    CountedIs(c, bufs, b, p, added);
    f, r := 0, 0;
    if Looked(c, b, p, added) {
      assert forall i {:trigger i in bufs} | i in bufs :: y.lnum[i] >= 1 && y.count[i] >= 0;
      f, r := TrimEither(bufs, c.to, y, d);
    }
  }

  lemma ProperWithin(bufs: Bufs, y: Block, d: Texts)
    requires Proper(bufs, y) && Sane(bufs, y, d)
    ensures Within(bufs, y, d)
  {
  }

  /** Shrinking takes as many lines off in every buffer, and none if the block goes past the end of one. */
  lemma TrimEither(bufs: Bufs, idx: int, y: Block, d: Texts) returns (f: nat, r: nat)
    requires Proper(bufs, y) && idx in bufs
    ensures var x := Trim(bufs, y, d);
            forall i {:trigger i in bufs} | i in bufs ::
                x.lnum[i] == y.lnum[i] + f && x.count[i] == y.count[i] - f - r >= 0
  {
    f, r := 0, 0;
    if Sane(bufs, y, d) {
      f, r := TrimIs(bufs, y, d);
    }
  }

  // ----- the turn, for a list that fits -----

  lemma {:induction false} SyncSpread(bufs: Bufs, e: Vec, m: nat, bs: seq<Block>, d: Texts, idx: int)
    requires idx in bufs && Sync(false, bufs, e, m, bs, d) && forall i | 0 <= i < |bs| :: !Empty(bufs, bs[i])
    ensures Spread(bufs, idx, bs) && forall i | 0 <= i < |bs| :: e[idx] + m <= bs[i].lnum[idx]
    decreases |bs|
  {
    hide SameText, Empty;
    if bs != [] {
      SyncSpread(bufs, bs[0].Ends(), 1, bs[1..], d, idx);
      assert bs == [bs[0]] + bs[1..];
    }
  }

  lemma {:induction false} SpreadAbove(ed: Edit, bufs: Bufs, prev: Option<Block>, above: seq<Block>)
    requires 0 <= ed.idx < DB_COUNT && Spread(bufs, ed.idx, AsSeq(prev) + above)
    requires forall i | 0 <= i < |above| :: above[i].End(ed.idx) < ed.line1
    ensures AboveEdit(ed, prev, above)
    decreases |above|
  {
    hide Spread;
    if above != [] {
      var all, n := AsSeq(prev) + above, |AsSeq(prev)|;
      var below := above[1..];
      assert AsSeq(Some(above[0])) + below == all[n..];
      SpreadFrom(bufs, ed.idx, all, n);
      SpreadNext(bufs, ed.idx, prev, above);
      forall i | 0 <= i < |below| ensures below[i] == above[i + 1] && below[i].End(ed.idx) < ed.line1 {
      }
      SpreadAbove(ed, bufs, Some(above[0]), below);
    }
  }

  lemma SpreadNext(bufs: Bufs, idx: int, prev: Option<Block>, above: seq<Block>)
    requires 0 <= idx < DB_COUNT && Spread(bufs, idx, AsSeq(prev) + above) && above != []
    ensures prev.Some? ==> prev.value.End(idx) < above[0].lnum[idx]
  {
    hide Empty;
    if prev.Some? {
      var all := AsSeq(prev) + above;
      assert all[0] == prev.value && all[1] == above[0];
    }
  }

  /** The blocks around position k of a list that fits. */
  lemma AtBlock(bufs: Bufs, bs: seq<Block>, k: nat, d: Texts)
    requires Aligned(bufs, bs, d) && k < |bs|
    ensures var (above, b, rest) := (bs[..k], bs[k], bs[k + 1..]);
            var (e, m) := (EndOfList(ONES, above), LeastAfter(0, above));
            && bs == above + ([b] + rest) && Lead(bufs, ONES, 0, above) && Sync(false, bufs, e, m, [b] + rest, d)
            && Level(bufs, e, b.lnum, m) && Proper(bufs, b) && Sync(false, bufs, b.Ends(), 1, rest, d)
  {
    hide SameText;
    var (above, b, rest) := (bs[..k], bs[k], bs[k + 1..]);
    assert bs == above + ([b] + rest);
    SyncParts(bufs, ONES, 0, above, [b] + rest, d);
    assert ([b] + rest)[1..] == rest;
  }

  /** The lines that are replaced are lines of the block. */
  lemma PartIs(c: Command, b: Block, off: int)
    requires c.Valid() && InRange(c, b, off) && b.count[c.from] >= 0 && b.count[c.to] >= 0
    ensures var p := PartOf(c, b, off);
            && p.top >= 0 && p.bottom >= 0 && p.count >= 0 && b.lnum[c.to] <= p.lnum && p.lnum + p.count <= b.End(c.to)
            && (p.top == 0 ==> p.lnum == b.lnum[c.to])
            && (p.count == b.count[c.to] > 0 ==> p.top == 0 && (p.bottom == 0 || b.count[c.from] > p.bottom))
  {
  }

  /** The only line of the target is empty, and none is deleted. */
  predicate Misjudged(c: Command, b: Block, p: Part, lines: seq<Line>)
    requires 0 <= c.from < DB_COUNT
  {
    IsEmpty(lines) && p.count == 0 && b.count[c.from] - p.top - p.bottom > 0
  }

  /** How many lines are copied. */
  function TakenCount(c: Command, b: Block, p: Part): nat
    requires 0 <= c.from < DB_COUNT
  {
    Max(b.count[c.from] - p.top - p.bottom, 0)
  }

  /** The list fits the buffers, and the block at position k is in the range. */
  ghost predicate Ready(c: Command, bufs: Bufs, opt: DiffOpt, bs: seq<Block>, k: nat, off: int, text: Buffers) {
    && c.Valid() && c.from in bufs && c.to in bufs
    && Aligned(bufs, bs, KeysOf(opt, text)) && (forall i | 0 <= i < |bs| :: !Empty(bufs, bs[i]))
    && 1 <= |text[c.to]| < MAXLNUM && 1 <= |text[c.from]|
    && k < |bs| && InRange(c, bs[k], off)
  }

  /** The lines replaced are in the text, and some are left. */
  lemma PartFits(c: Command, bufs: Bufs, opt: DiffOpt, bs: seq<Block>, k: nat, off: int, text: Buffers)
    requires Ready(c, bufs, opt, bs, k, off, text)
    ensures var (b, p) := (bs[k], PartOf(c, bs[k], off));
            && 1 <= b.lnum[c.to] && b.End(c.to) <= |text[c.to]| + 1 && b.count[c.to] >= 0
            && 1 <= b.lnum[c.from] && b.End(c.from) <= |text[c.from]| + 1 && b.count[c.from] >= 0
            && (p.count == |text[c.to]| ==> TakenCount(c, b, p) > 0)
  {
    hide SameText, KeysOf, PartOf;
    var d := KeysOf(opt, text);
    AtBlock(bufs, bs, k, d);
    EndsInRange(false, bufs, bs[k].Ends(), 1, bs[k + 1..], d);
    PartIs(c, bs[k], off);
    KeySizes(opt, text);
  }

  lemma KeySizes(opt: DiffOpt, text: Buffers)
    ensures forall i | 0 <= i < DB_COUNT :: Size(KeysOf(opt, text), i) == |text[i]|
  {
    hide KeyLines;
  }

  /** How many lines the turn adds, and the text it makes: lines of the block are replaced by lines of the source. */
  lemma TurnText(c: Command, bufs: Bufs, opt: DiffOpt, bs: seq<Block>, k: nat, off: int, text: Buffers)
    requires Ready(c, bufs, opt, bs, k, off, text) && !Misjudged(c, bs[k], PartOf(c, bs[k], off), text[c.to])
    ensures var (b, p, t) := (bs[k], PartOf(c, bs[k], off), Turn(c, bufs, opt, bs, k, off, text));
            var (first, n) := (b.lnum[c.from] + p.top, TakenCount(c, b, p));
            && t.added == n - p.count && |t.lines| == |text[c.to]| + t.added
            && t.lines == Lines(text[c.to], 1, p.lnum) + Lines(text[c.from], first, first + n)
                + Lines(text[c.to], p.lnum + p.count, |text[c.to]| + 1)
  {
    hide Ready, PartOf, ReplaceLines, Lines, InRange, Turn;
    ReadyPart(c, bufs, opt, bs, k, off, text);
    var (b, p) := (bs[k], PartOf(c, bs[k], off));
    PartFits(c, bufs, opt, bs, k, off, text);
    PartIs(c, b, off);
    TurnReplaces(c, bufs, opt, bs, k, off, text);
    ReplacePart(text[c.to], p.lnum, p.count, text[c.from], b.lnum[c.from] + p.top, b.count[c.from] - p.top - p.bottom);
  }

  lemma ReadyPart(c: Command, bufs: Bufs, opt: DiffOpt, bs: seq<Block>, k: nat, off: int, text: Buffers)
    requires Ready(c, bufs, opt, bs, k, off, text)
    ensures c.Valid() && k < |bs| && InRange(c, bs[k], off) && c.from in bufs && c.to in bufs
    ensures 1 <= |text[c.to]| < MAXLNUM && 1 <= |text[c.from]|
  {
  }

  /** `ReplaceLinesIs` also for a number of lines that is not positive. */
  lemma ReplacePart(lines: seq<Line>, l: int, count: nat, source: seq<Line>, first: int, n: int)
    requires 1 <= l && l + count <= |lines| + 1 && |lines| >= 1 && 1 <= first && (n > 0 ==> first + n <= |source| + 1)
    requires !(IsEmpty(lines) && count == 0 && n > 0) && (count == |lines| ==> n > 0)
    ensures var r := ReplaceLines(lines, l, count, source, first, n);
            && r.1 == Max(n, 0) - count && |r.0| == |lines| + r.1
            && r.0 == Lines(lines, 1, l) + Lines(source, first, first + Max(n, 0))
                + Lines(lines, l + count, |lines| + 1)
  {
    hide DeleteLines;
    if n > 0 {
      ReplaceLinesIs(lines, l, count, source, first, n);
      LinesAre(source, first, n);
    } else {
      ReplaceLinesIs(lines, l, count, source, 1, 0);
      assert ReplaceLines(lines, l, count, source, first, n) == ReplaceLines(lines, l, count, source, 1, 0);
    }
  }

  // ----- the list after the turn -----

  lemma {:induction false} UnmergedAbove(ed: Edit, bufs: Bufs, prev: Option<Block>, above: seq<Block>, rest: seq<Block>,
                                         deleted: int, from: int, d: Texts, j: nat)
    requires 0 <= ed.idx < DB_COUNT && AboveEdit(ed, prev, above)
    requires Unmerged(ed, bufs, LastOf(prev, above), rest, deleted, from, d, j)
    ensures Unmerged(ed, bufs, prev, above + rest, deleted, from, d, |above| + j)
    decreases |above|
  {
    hide Trim, RepairTop, RepairBottom;
    if above == [] {
      assert above + rest == rest;
    } else {
      var all := above + rest;
      assert all[0] == above[0] && all[1..] == above[1..] + rest;
      UnmergedAbove(ed, bufs, Some(above[0]), above[1..], rest, deleted, from, d, j);
    }
  }

  lemma {:induction false} DropOne(bufs: Bufs, above: seq<Block>, rest: seq<Block>)
    requires forall b | b in above :: !Empty(bufs, b)
    ensures DropEmpty(bufs, above + rest) == above + DropEmpty(bufs, rest)
    decreases |above|
  {
    hide Empty;
    if above == [] {
      assert above + rest == rest;
    } else {
      var all := above + rest;
      assert all[0] == above[0] && all[1..] == above[1..] + rest;
      DropOne(bufs, above[1..], rest);
    }
  }

  /** Where the edit is in a list that fits. */
  ghost predicate EditAt(ed: Edit, bufs: Bufs, above: seq<Block>, rest: seq<Block>)
    requires 0 <= ed.idx < DB_COUNT
  {
    && ed.idx in bufs && ed.after != 0 && ed.Deleted() + ed.Inserted() != 0
    && AboveEdit(ed, None, above) && (forall b | b in above :: !Empty(bufs, b))
    && Spread(bufs, ed.idx, rest) && BelowEdit(ed, rest)
  }

  lemma PushedNotEmpty(ed: Edit, bufs: Bufs, rest: seq<Block>)
    requires 0 <= ed.idx < DB_COUNT && Spread(bufs, ed.idx, rest) && BelowEdit(ed, rest)
    ensures DropEmpty(bufs, PushAll(ed, rest)) == PushAll(ed, rest) && forall b | b in PushAll(ed, rest) ::
            !Empty(bufs, b)
  {
    hide Spread, Pushed, DropEmpty;
    SpreadPushed(bufs, ed, rest);
    SpreadCounts(bufs, ed.idx, PushAll(ed, rest));
    NoneDropped(bufs, PushAll(ed, rest));
  }

  /** The entry was taken out: those below are moved. */
  lemma RemovedList(ed: Edit, bufs: Bufs, above: seq<Block>, rest: seq<Block>, d: Texts)
    requires 0 <= ed.idx < DB_COUNT && EditAt(ed, bufs, above, rest)
    requires above != [] && rest != [] ==> above[|above| - 1].End(ed.idx) != Pushed(ed, rest[0]).lnum[ed.idx]
    ensures Adjust(ed, bufs, true, above + rest, d) == above + PushAll(ed, rest)
    ensures Steady(ed, bufs, above + rest, d, Min(|above| + 1, |above + rest|))
  {
    hide Spread, Pushed, Walk, DropEmpty, Empty, AboveEdit, BelowEdit, AllClear, PushAll, Unmerged;
    var (del, prev) := (ed.Deleted(), LastOf(None, above));
    WalkAbove(ed, bufs, None, above, rest, del, ed.line1, d);
    BelowClear(ed, bufs, prev, rest);
    SpreadCounts(bufs, ed.idx, rest);
    WalkPushes(ed, bufs, prev, rest, del, ed.line1, d);
    Associate(Init(None, above), AsSeq(prev), PushAll(ed, rest));
    if above != [] {
      InitNext(None, above);
    }
    DropOne(bufs, above, PushAll(ed, rest));
    PushedNotEmpty(ed, bufs, rest);
    NextUnmerged(ed, bufs, prev, rest, del, ed.line1, d);
    UnmergedAbove(ed, bufs, None, above, rest, del, ed.line1, d, if rest == [] then 0 else 1);
  }

  lemma NextUnmerged(ed: Edit, bufs: Bufs, prev: Option<Block>, rest: seq<Block>, deleted: int, from: int, d: Texts)
    requires 0 <= ed.idx < DB_COUNT && ed.after != 0 && ed.Deleted() + ed.Inserted() != 0 && deleted == ed.Deleted()
    requires AllClear(ed, prev, rest) && (rest != [] ==> rest[0].count[ed.idx] >= 0)
    ensures Unmerged(ed, bufs, prev, rest, deleted, from, d, if rest == [] then 0 else 1)
  {
    hide Repair, Stops, Pushed, Clear;
    if rest != [] {
      ClearBlock(ed, bufs, rest[0], Next(rest), deleted, from, d);
    }
  }

  /** The entry stays: it becomes x, which the next one is merged into if they touch. */
  lemma KeptList(ed: Edit, bufs: Bufs, above: seq<Block>, b: Block, rest: seq<Block>, x: Block, d: Texts)
    requires 0 <= ed.idx < DB_COUNT && EditAt(ed, bufs, above, rest) && RepairedAs(ed, bufs, b, Next([b] + rest), d, x)
    requires above != [] ==> above[|above| - 1].End(ed.idx) != x.lnum[ed.idx]
    requires MeetsNext(ed, x, rest) ==> !Empty(bufs, Merge(bufs, x, Pushed(ed, rest[0])))
    ensures var stays := MeetsNext(ed, x, rest) || !Empty(bufs, x);
            && Adjust(ed, bufs, true, above + ([b] + rest), d) == above
                + (if stays then Rejoined(ed, bufs, x, rest) else PushAll(ed, rest))
            && (Steady(ed, bufs, above + ([b] + rest), d, |above| + 1) <==> stays)
  {
    hide Spread, Pushed, Walk, DropEmpty, Empty, AboveEdit, BelowEdit, PushAll, Unmerged, Repair, MeetsNext, Merge;
    WalkAround(ed, bufs, above, b, rest, x, d);
    var w := Rejoined(ed, bufs, x, rest);
    DropOne(bufs, above, w);
    DropFirst(ed, bufs, x, rest);
    BlockUnmerged(ed, bufs, LastOf(None, above), b, rest, x, d);
    UnmergedAbove(ed, bufs, None, above, [b] + rest, ed.Deleted(), ed.line1, d, 1);
    assert (above + w)[|above|] == w[0];
    assert Empty(bufs, w[0]) <==> !(MeetsNext(ed, x, rest) || !Empty(bufs, x));
  }

  lemma DropFirst(ed: Edit, bufs: Bufs, x: Block, rest: seq<Block>)
    requires 0 <= ed.idx < DB_COUNT && Spread(bufs, ed.idx, rest) && BelowEdit(ed, rest)
    requires MeetsNext(ed, x, rest) ==> !Empty(bufs, Merge(bufs, x, Pushed(ed, rest[0])))
    ensures DropEmpty(bufs, Rejoined(ed, bufs, x, rest))
         == if MeetsNext(ed, x, rest) || !Empty(bufs, x) then Rejoined(ed, bufs, x, rest) else PushAll(ed, rest)
  {
    hide Spread, Pushed, Empty, BelowEdit, MeetsNext, Merge;
    if MeetsNext(ed, x, rest) {
      MeetsSome(ed, x, rest);
      BelowPushed(ed, bufs, rest);
      SpreadFrom(bufs, ed.idx, rest, 1);
      PushedNotEmpty(ed, bufs, rest[1..]);
    } else {
      PushedNotEmpty(ed, bufs, rest);
    }
  }

  lemma MeetsSome(ed: Edit, x: Block, rest: seq<Block>)
    requires 0 <= ed.idx < DB_COUNT && MeetsNext(ed, x, rest)
    ensures rest != []
  {
  }

  lemma BlockUnmerged(ed: Edit, bufs: Bufs, prev: Option<Block>, b: Block, rest: seq<Block>, x: Block, d: Texts)
    requires 0 <= ed.idx < DB_COUNT && RepairedAs(ed, bufs, b, Next([b] + rest), d, x)
    requires prev.Some? ==> prev.value.End(ed.idx) != x.lnum[ed.idx]
    ensures Unmerged(ed, bufs, prev, [b] + rest, ed.Deleted(), ed.line1, d, 1)
  {
    hide Repair, Stops;
  }

  lemma ProperAt(bufs: Bufs, bs: seq<Block>, k: nat, d: Texts)
    requires Aligned(bufs, bs, d) && k < |bs|
    ensures Proper(bufs, bs[k]) && (k + 1 < |bs| ==> Proper(bufs, bs[k + 1]))
  {
    hide Aligned, Proper, Sync, Level, Lead;
    AtBlock(bufs, bs, k, d);
    if k + 1 < |bs| {
      AtBlock(bufs, bs, k + 1, d);
    }
  }

  /** The edit that the turn makes is at the block. */
  lemma TurnPlaced(c: Command, bufs: Bufs, opt: DiffOpt, bs: seq<Block>, k: nat, off: int, text: Buffers, added: int)
    requires Ready(c, bufs, opt, bs, k, off, text)
    requires added != 0 && added == TakenCount(c, bs[k], PartOf(c, bs[k], off)) - PartOf(c, bs[k], off).count
    ensures var (b, p) := (bs[k], PartOf(c, bs[k], off));
            && EditAt(PartEdit(c, p, added), bufs, bs[..k], bs[k + 1..]) && Fair(c, b, p, added) && Proper(bufs, b)
            && Neighbours(c, bs, k) && (k + 1 < |bs| ==> Proper(bufs, bs[k + 1]) && !Empty(bufs, bs[k + 1]))
  {
    hide PartOf, KeysOf, InRange, Sync, Empty, Proper, Spread, EditAt;
    var (b, p, d) := (bs[k], PartOf(c, bs[k], off), KeysOf(opt, text));
    ProperAt(bufs, bs, k, d);
    PartFits(c, bufs, opt, bs, k, off, text);
    PartIs(c, b, off);
    SyncSpread(bufs, ONES, 0, bs, d, c.to);
    EditPlaced(PartEdit(c, p, added), bufs, bs, k);
  }

  /** The blocks above and below the one at hand are apart from it. */
  predicate Neighbours(c: Command, bs: seq<Block>, k: nat)
    requires 0 <= c.to < DB_COUNT && k < |bs|
  {
    && (k > 0 ==> bs[k - 1].End(c.to) < bs[k].lnum[c.to])
    && (k + 1 < |bs| ==> bs[k].End(c.to) < bs[k + 1].lnum[c.to] && bs[k + 1].count[c.to] >= 0)
  }

  lemma EditPlaced(ed: Edit, bufs: Bufs, bs: seq<Block>, k: nat)
    requires ed.idx in bufs && ed.after != 0 && ed.Deleted() + ed.Inserted() != 0 && k < |bs|
             && Spread(bufs, ed.idx, bs)
    requires bs[k].lnum[ed.idx] <= ed.line1 <= ed.line2 + 1 && ed.line2 < bs[k].End(ed.idx)
    ensures EditAt(ed, bufs, bs[..k], bs[k + 1..])
    ensures k > 0 ==> bs[k - 1].End(ed.idx) < bs[k].lnum[ed.idx]
    ensures k + 1 < |bs| ==> bs[k].End(ed.idx) < bs[k + 1].lnum[ed.idx] && bs[k + 1].count[ed.idx] >= 0
  {
    hide Empty, Spread;
    SpreadCounts(bufs, ed.idx, bs);
    assert bs == bs[..k] + [bs[k]] + bs[k + 1..];
    Around(bufs, ed.idx, bs[..k], bs[k], bs[k + 1..]);
    assert AsSeq(None) + bs[..k] == bs[..k];
    SpreadAbove(ed, bufs, None, bs[..k]);
    SpreadCounts(bufs, ed.idx, bs[..k]);
    if k > 0 {
      assert bs[..k][k - 1] == bs[k - 1];
    }
    if k + 1 < |bs| {
      assert bs[k + 1..][0] == bs[k + 1];
    }
  }

  /** What the turn makes of the block and of those below it, when lines were added or deleted and the entry stays. */
  function Tail(c: Command, bufs: Bufs, b: Block, p: Part, added: int, rest: seq<Block>, d: Texts): seq<Block>
    requires 0 <= c.to < DB_COUNT
  {
    var (ed, x, n) := (PartEdit(c, p, added), Marked(c, bufs, b, p, added, d), In(c, b) + added);
    if MeetsNext(ed, x, rest) then [Resized(c, Merge(bufs, x, Pushed(ed, rest[0])), n)] + PushAll(ed, rest[1..])
    else if Empty(bufs, x) then PushAll(ed, rest)
    else [Resized(c, x, n)] + PushAll(ed, rest)
  }

  lemma TurnRemoved(c: Command, bufs: Bufs, opt: DiffOpt, bs: seq<Block>, k: nat, off: int, text: Buffers)
    requires Ready(c, bufs, opt, bs, k, off, text) && !Misjudged(c, bs[k], PartOf(c, bs[k], off), text[c.to])
    requires Turn(c, bufs, opt, bs, k, off, text).removed
    ensures var t := Turn(c, bufs, opt, bs, k, off, text);
            && t.steady
            && t.blocks == bs[..k]
                + (if t.added == 0 then bs[k + 1..]
                    else PushAll(PartEdit(c, PartOf(c, bs[k], off), t.added), bs[k + 1..]))
  {
    hide Ready, PartOf, Turn, Adjust, Steady, EditAt, EqualElsewhere, Misjudged, PushAll, InRange, Fair, Neighbours,
        Proper;
    ReadyPart(c, bufs, opt, bs, k, off, text);
    TurnText(c, bufs, opt, bs, k, off, text);
    TurnUnfold(c, bufs, opt, bs, k, off, text);
    var t := Turn(c, bufs, opt, bs, k, off, text);
    if t.added != 0 {
      TurnPlaced(c, bufs, opt, bs, k, off, text, t.added);
      RemovedTurn(c, bufs, bs, k, PartOf(c, bs[k], off), t.added,
          KeysOf(opt, TextAfter(c, bufs, opt, bs, k, off, text)));
    }
  }

  lemma RemovedTurn(c: Command, bufs: Bufs, bs: seq<Block>, k: nat, p: Part, added: int, d: Texts)
    requires 0 <= c.to < DB_COUNT && k < |bs| && Fair(c, bs[k], p, added) && Neighbours(c, bs, k)
    requires EditAt(PartEdit(c, p, added), bufs, bs[..k], bs[k + 1..])
    ensures var ed := PartEdit(c, p, added);
            && Adjust(ed, bufs, true, bs[..k] + bs[k + 1..], d) == bs[..k] + PushAll(ed, bs[k + 1..])
            && Steady(ed, bufs, bs[..k] + bs[k + 1..], d, Min(k + 1, |bs[..k] + bs[k + 1..]|))
  {
    hide Adjust, Steady, EditAt, PushAll, Pushed;
    if k > 0 && k + 1 < |bs| {
      PushedAfter(c, bs[k + 1], bs[k], p, added);
      assert bs[..k][k - 1] == bs[k - 1] && bs[k + 1..][0] == bs[k + 1];
    }
    RemovedList(PartEdit(c, p, added), bufs, bs[..k], bs[k + 1..], d);
  }

  /** The next block is below the start of the block at hand also after it is moved. */
  lemma PushedAfter(c: Command, next: Block, b: Block, p: Part, added: int)
    requires 0 <= c.to < DB_COUNT && Fair(c, b, p, added) && next.lnum[c.to] > b.End(c.to) && next.count[c.to] >= 0
    ensures Pushed(PartEdit(c, p, added), next).lnum[c.to] > b.End(c.to) + added >= b.lnum[c.to]
  {
  }

  lemma TurnKept(c: Command, bufs: Bufs, opt: DiffOpt, bs: seq<Block>, k: nat, off: int, text: Buffers)
    requires Ready(c, bufs, opt, bs, k, off, text) && !Misjudged(c, bs[k], PartOf(c, bs[k], off), text[c.to])
    requires !Turn(c, bufs, opt, bs, k, off, text).removed
    ensures var (p, t) := (PartOf(c, bs[k], off), Turn(c, bufs, opt, bs, k, off, text));
            var d := KeysOf(opt, TextAfter(c, bufs, opt, bs, k, off, text));
            && (t.added == 0 ==> t.blocks == bs && t.steady)
            && (t.added != 0 ==> t.blocks == bs[..k] + Tail(c, bufs, bs[k], p, t.added, bs[k + 1..], d))
            && (t.added != 0 ==> (t.steady <==> Stays(c, bufs, bs[k], p, t.added, bs[k + 1..], d)))
  {
    hide Ready, PartOf, Turn, Adjust, Steady, EqualElsewhere, Misjudged, Tail, InRange, Stays, Resized, TextAfter,
        KeysOf,
        In;
    ReadyPart(c, bufs, opt, bs, k, off, text);
    TurnUnfold(c, bufs, opt, bs, k, off, text);
    var t := Turn(c, bufs, opt, bs, k, off, text);
    if t.added == 0 {
      InIs(c, bs[k]);
      ResizedTo(c, bs[k], In(c, bs[k]) + t.added);
    } else {
      KeptHere(c, bufs, opt, bs, k, off, text);
    }
  }

  lemma InIs(c: Command, b: Block)
    requires 0 <= c.to < DB_COUNT
    ensures In(c, b) == b.count[c.to]
  {
  }

  lemma KeptHere(c: Command, bufs: Bufs, opt: DiffOpt, bs: seq<Block>, k: nat, off: int, text: Buffers)
    requires Ready(c, bufs, opt, bs, k, off, text) && !Misjudged(c, bs[k], PartOf(c, bs[k], off), text[c.to])
    requires Turn(c, bufs, opt, bs, k, off, text).added != 0
    ensures var (p, added) := (PartOf(c, bs[k], off), Turn(c, bufs, opt, bs, k, off, text).added);
            KeptAs(c, bufs, bs, k, p, added, KeysOf(opt, TextAfter(c, bufs, opt, bs, k, off, text)))
  {
    hide Ready, PartOf, Turn, EditAt, Misjudged, InRange, Fair, Neighbours, Proper, TextAfter, KeysOf, KeptAs, Lines;
    ReadyPart(c, bufs, opt, bs, k, off, text);
    TurnText(c, bufs, opt, bs, k, off, text);
    var t := Turn(c, bufs, opt, bs, k, off, text);
    TurnPlaced(c, bufs, opt, bs, k, off, text, t.added);
    KeptTurn(c, bufs, bs, k, PartOf(c, bs[k], off), t.added, KeysOf(opt, TextAfter(c, bufs, opt, bs, k, off, text)));
  }

  /** The list when the entry stays, and whether it is in the list after mark_adjust. */
  ghost predicate KeptAs(c: Command, bufs: Bufs, bs: seq<Block>, k: nat, p: Part, added: int, d: Texts)
    requires 0 <= c.to < DB_COUNT && k < |bs|
  {
    var (ed, n) := (PartEdit(c, p, added), In(c, bs[k]) + added);
    var list := bs[k := Resized(c, bs[k], n)];
    var (out, stays) := (Adjust(ed, bufs, true, list, d), Stays(c, bufs, bs[k], p, added, bs[k + 1..], d));
    && (Steady(ed, bufs, list, d, k + 1) <==> stays) && (stays ==> k < |out|)
    && bs[..k] + Tail(c, bufs, bs[k], p, added, bs[k + 1..], d)
       == if stays then out[k := Resized(c, out[k], n)] else out
  }

  lemma KeptTurn(c: Command, bufs: Bufs, bs: seq<Block>, k: nat, p: Part, added: int, d: Texts)
    requires c.to in bufs && k < |bs| && Fair(c, bs[k], p, added) && Neighbours(c, bs, k) && Proper(bufs, bs[k])
    requires EditAt(PartEdit(c, p, added), bufs, bs[..k], bs[k + 1..])
             && (k + 1 < |bs| ==> Proper(bufs, bs[k + 1]) && !Empty(bufs, bs[k + 1]))
    ensures KeptAs(c, bufs, bs, k, p, added, d)
  {
    hide Adjust, Steady, EditAt, PushAll, Pushed, Marked, Resized, RepairedAs, MeetsNext, Merge, Empty, Fair, Tail,
        Stays, In, Proper, Rejoined;
    var (ed, b, rest) := (PartEdit(c, p, added), bs[k], bs[k + 1..]);
    var (x, b') := (Marked(c, bufs, b, p, added, d), Resized(c, b, In(c, b) + added));
    assert bs[k := b'] == bs[..k] + ([b'] + rest);
    assert Next([b'] + rest).Some? ==> Next([b'] + rest).value == bs[k + 1];
    MarkedIs(c, bufs, b, p, added, Next([b'] + rest), d);
    MarkedAbove(c, bufs, b, p, added, rest, d);
    assert k > 0 ==> bs[..k][k - 1] == bs[k - 1];
    KeptList(ed, bufs, bs[..k], b', rest, x, d);
    TailIs(c, bufs, bs[..k], b, p, added, rest, d);
  }

  lemma TailIs(c: Command, bufs: Bufs, above: seq<Block>, b: Block, p: Part, added: int, rest: seq<Block>, d: Texts)
    requires 0 <= c.to < DB_COUNT
    ensures var (ed, x, k) := (PartEdit(c, p, added), Marked(c, bufs, b, p, added, d), |above|);
            var stays := Stays(c, bufs, b, p, added, rest, d);
            var out := above + if stays then Rejoined(ed, bufs, x, rest) else PushAll(ed, rest);
            && (stays <==> MeetsNext(ed, x, rest) || !Empty(bufs, x)) && (stays ==> k < |out|)
            && above + Tail(c, bufs, b, p, added, rest, d)
               == if stays then out[k := Resized(c, out[k], In(c, b) + added)] else out
  {
    hide Marked, Resized, Merge, Pushed, Empty, In, MeetsNext, PushAll;
    var (ed, x, n) := (PartEdit(c, p, added), Marked(c, bufs, b, p, added, d), In(c, b) + added);
    if MeetsNext(ed, x, rest) {
      MeetsSome(ed, x, rest);
      HeadResized(c, above, Merge(bufs, x, Pushed(ed, rest[0])), PushAll(ed, rest[1..]), n);
    } else {
      HeadResized(c, above, x, PushAll(ed, rest), n);
    }
  }

  lemma HeadResized(c: Command, above: seq<Block>, b: Block, rest: seq<Block>, n: int)
    requires 0 <= c.to < DB_COUNT
    ensures var all := above + ([b] + rest);
            && |above| < |all| && all[|above|] == b
            && all[|above| := Resized(c, b, n)] == above + ([Resized(c, b, n)] + rest)
  {
    hide Resized;
  }

  /** The block does not move up, and is merged with the next one only when lines are added. */
  lemma MarkedAbove(c: Command, bufs: Bufs, b: Block, p: Part, added: int, rest: seq<Block>, d: Texts)
    requires c.to in bufs && Fair(c, b, p, added) && Proper(bufs, b)
    requires rest != [] ==> rest[0].lnum[c.to] > b.End(c.to) && Proper(bufs, rest[0]) && !Empty(bufs, rest[0])
    ensures var (ed, x) := (PartEdit(c, p, added), Marked(c, bufs, b, p, added, d));
            && x.lnum[c.to] >= b.lnum[c.to]
            && (MeetsNext(ed, x, rest) ==> added > 0 && !Empty(bufs, Merge(bufs, x, Pushed(ed, rest[0]))))
  {
    hide Marked, Recount, Merge, Pushed, Empty, Surplus, Looked;
    var x := Marked(c, bufs, b, p, added, d);
    var f, r := MarkedShape(c, bufs, b, p, added, d);
    if rest != [] {
      NextPushed(c, p, added, b, rest[0]);
      Recounted(c, b, p, added);
      MergeNotEmpty(bufs, x, Pushed(PartEdit(c, p, added), rest[0]), rest[0]);
    }
  }

  lemma NextPushed(c: Command, p: Part, added: int, b: Block, next: Block)
    requires 0 <= c.to < DB_COUNT && Fair(c, b, p, added) && next.lnum[c.to] > b.End(c.to) && next.count[c.to] >= 0
    ensures var y := Pushed(PartEdit(c, p, added), next);
            y.count == next.count && y.lnum == next.lnum[c.to := next.lnum[c.to] + added]
  {
    PushedAt(PartEdit(c, p, added), next);
  }

  lemma Recounted(c: Command, b: Block, p: Part, added: int)
    requires 0 <= c.to < DB_COUNT && Fair(c, b, p, added)
    ensures added < 0 ==> Recount(c, b, p, added) <= In(c, b) + added
    ensures added > 0 ==> Looked(c, b, p, added)
  {
  }

  lemma MergeNotEmpty(bufs: Bufs, x: Block, y: Block, next: Block)
    requires y.count == next.count && !Empty(bufs, next) && Proper(bufs, next)
    ensures (forall i {:trigger i in bufs} | i in bufs :: x.count[i] >= 0) ==> !Empty(bufs, Merge(bufs, x, y))
  {
    var i :| i in bufs && next.count[i] != 0;
    assert next.count[i] >= 0 && Merge(bufs, x, y).count[i] == x.count[i] + y.count[i];
  }

  /** The entry is still in the list after mark_adjust. */
  predicate Stays(c: Command, bufs: Bufs, b: Block, p: Part, added: int, rest: seq<Block>, d: Texts)
    requires 0 <= c.to < DB_COUNT
  {
    var x := Marked(c, bufs, b, p, added, d);
    MeetsNext(PartEdit(c, p, added), x, rest) || !Empty(bufs, x)
  }

  // ----- when the list fits afterwards -----

  /** mark_adjust leaves the entry right: it shrinks the block by as many lines as it added to it in the other buffers,
      and does not move it down to the next one. If it merges the next one into it, that has as many lines as are taken
      off. */
  predicate RightMarks(c: Command, bufs: Bufs, b: Block, p: Part, added: int, rest: seq<Block>, d: Texts)
    requires 0 <= c.to < DB_COUNT
  {
    var x := Marked(c, bufs, b, p, added, d);
    var shrunk := Recount(c, b, p, added) - x.count[c.to];
    if MeetsNext(PartEdit(c, p, added), x, rest) then rest[0].count[c.to] == shrunk
    else !Empty(bufs, x) && shrunk == Surplus(c, b, p, added) && StaysAbove(c, x.lnum[c.to] + In(c, b), added, rest, d)
  }

  /** Line l, before lines were added, is above the next block, or not below the end of the text. */
  predicate StaysAbove(c: Command, l: int, added: int, rest: seq<Block>, d: Texts)
    requires 0 <= c.to < DB_COUNT
  {
    if rest == [] then l + added <= Size(d, c.to) + 1 else l < rest[0].lnum[c.to]
  }

  /** The block at hand is at its place in lists that fit, before and after the edit. */
  ghost predicate TurnAt(c: Command, bufs: Bufs, e: Vec, m: nat, b: Block, p: Part, added: int, rest: seq<Block>,
                         d0: Texts, d: Texts) {
    && c.Valid() && c.from in bufs && c.to in bufs && Fair(c, b, p, added) && Proper(bufs, b)
        && Level(bufs, e, b.lnum, m)
    && Sync(false, bufs, b.Ends(), 1, rest, d0) && Grown(PartEdit(c, p, added), bufs, d0, d)
        && BelowEdit(PartEdit(c, p, added), rest)
  }

  /** The blocks below fit, at their new place. */
  lemma RestFits(c: Command, bufs: Bufs, e: Vec, m: nat, b: Block, p: Part, added: int, rest: seq<Block>, d0: Texts,
                 d: Texts)
    requires TurnAt(c, bufs, e, m, b, p, added, rest, d0, d)
    ensures var ed := PartEdit(c, p, added);
            Sync(false, bufs, Lowered(ed, b.Ends()), 1, PushAll(ed, rest), d)
  {
    SyncPushed(PartEdit(c, p, added), bufs, b.Ends(), 1, rest, d0, d);
  }

  /** A list that starts with block z. */
  lemma SyncFirst(bufs: Bufs, e: Vec, m: nat, z: Block, rest: seq<Block>, d: Texts)
    requires Level(bufs, e, z.lnum, m)
    ensures Sync(false, bufs, e, m, [z] + rest, d) <==>
              (forall i {:trigger i in bufs} | i in bufs :: z.count[i] >= 0)
                  && Sync(false, bufs, z.Ends(), 1, rest, d)
  {
    assert ([z] + rest)[1..] == rest;
    if Sync(false, bufs, z.Ends(), 1, rest, d) {
      EndsInRange(false, bufs, z.Ends(), 1, rest, d);
    }
  }

  /** The entry stays by itself. */
  lemma AloneFits(c: Command, bufs: Bufs, e: Vec, m: nat, b: Block, p: Part, added: int, rest: seq<Block>, d0: Texts,
                  d: Texts, x: Block, f: nat, r: nat)
    requires TurnAt(c, bufs, e, m, b, p, added, rest, d0, d) && Shape(c, bufs, b, p, added, x, f, r)
    ensures Sync(false, bufs, e, m, [Resized(c, x, In(c, b) + added)] + PushAll(PartEdit(c, p, added), rest), d)
            <==> f + r == Surplus(c, b, p, added) && StaysAbove(c, x.lnum[c.to] + In(c, b), added, rest, d)
  {
    hide Sync, Surplus, Recount, PushAll;
    var (ed, n) := (PartEdit(c, p, added), In(c, b) + added);
    var (z, q) := (Resized(c, x, n), PushAll(ed, rest));
    RestFits(c, bufs, e, m, b, p, added, rest, d0, d);
    SyncFirst(bufs, e, m, z, q, d);
    RoomIs(c, bufs, e, m, b, p, added, rest, d0, d, z.End(c.to));
    if forall i {:trigger i in bufs} | i in bufs :: z.count[i] >= 0 {
      SyncMoved(bufs, c.to, c.from, Lowered(ed, b.Ends()), z.Ends(), q, d);
    }
  }

  lemma RoomIs(c: Command, bufs: Bufs, e: Vec, m: nat, b: Block, p: Part, added: int, rest: seq<Block>, d0: Texts,
               d: Texts, l: int)
    requires TurnAt(c, bufs, e, m, b, p, added, rest, d0, d)
    ensures Room(c.to, l, PushAll(PartEdit(c, p, added), rest), d) <==> StaysAbove(c, l - added, added, rest, d)
  {
    if rest != [] {
      PushedAt(PartEdit(c, p, added), rest[0]);
    }
  }

  /** The next entry is merged into it. */
  lemma MergedFits(c: Command, bufs: Bufs, e: Vec, m: nat, b: Block, p: Part, added: int, rest: seq<Block>, d0: Texts,
                   d: Texts, x: Block, f: nat, r: nat)
    requires TurnAt(c, bufs, e, m, b, p, added, rest, d0, d) && Shape(c, bufs, b, p, added, x, f, r) && added > 0
    requires rest != [] && forall i {:trigger i in bufs} | i in bufs :: x.count[i] >= 0
    ensures var ed := PartEdit(c, p, added);
            Sync(false, bufs, e, m,
                [Resized(c, Merge(bufs, x, Pushed(ed, rest[0])), In(c, b) + added)] + PushAll(ed, rest[1..]), d)
            <==> rest[0].count[c.to] == f + r
  {
    hide Sync, PushAll, Recount, Merge, Pushed, Resized, TurnAt, Shape, Level, Surplus;
    var gap := NextFacts(c, bufs, e, m, b, p, added, rest, d0, d);
    var (ed, next) := (PartEdit(c, p, added), rest[0]);
    var (z, q) := (Resized(c, Merge(bufs, x, Pushed(ed, next)), In(c, b) + added), PushAll(ed, rest[1..]));
    MergedShape(c, bufs, b, p, added, next, x, f, r, gap);
    LevelDown(bufs, e, b.lnum, z.lnum, m, f);
    SyncPushed(ed, bufs, next.Ends(), 1, rest[1..], d0, d);
    SyncFirst(bufs, e, m, z, q, d);
    SyncMoved(bufs, c.to, c.from, Lowered(ed, next.Ends()), z.Ends(), q, d);
    if rest[0].count[c.to] == f + r {
      MergedRoom(bufs, c.to, Lowered(ed, next.Ends()), z.End(c.to), q, d);
    }
  }

  lemma LevelDown(bufs: Bufs, e: Vec, f: Vec, g: Vec, m: nat, n: nat)
    requires Level(bufs, e, f, m) && forall i {:trigger i in bufs} | i in bufs :: g[i] == f[i] + n
    ensures Level(bufs, e, g, m)
  {
  }

  /** The stretch between the block and the next one, and what is below that. */
  lemma NextFacts(c: Command, bufs: Bufs, e: Vec, m: nat, b: Block, p: Part, added: int, rest: seq<Block>, d0: Texts,
                  d: Texts) returns (gap: int)
    requires TurnAt(c, bufs, e, m, b, p, added, rest, d0, d) && rest != []
    ensures gap >= 1 && forall i {:trigger i in bufs} | i in bufs ::
            rest[0].lnum[i] == b.End(i) + gap && rest[0].count[i] >= 0
    ensures var ed := PartEdit(c, p, added);
            && c.Valid() && c.from in bufs && c.to in bufs && Fair(c, b, p, added) && Proper(bufs, b)
                && Level(bufs, e, b.lnum, m)
            && Sync(false, bufs, rest[0].Ends(), 1, rest[1..], d0) && BelowEdit(ed, rest[1..]) && Grown(ed, bufs, d0, d)
  {
    hide SameText, Level;
    gap := rest[0].lnum[c.to] - b.End(c.to);
  }

  lemma MergedRoom(bufs: Bufs, idx: int, e: Vec, l: int, rest: seq<Block>, d: Texts)
    requires idx in bufs && Sync(false, bufs, e, 1, rest, d) && l <= e[idx]
    ensures Room(idx, l, rest, d)
  {
  }

  /** The merged block, and how far its ends are from those of the next one. */
  lemma MergedShape(c: Command, bufs: Bufs, b: Block, p: Part, added: int, next: Block, x: Block, f: nat, r: nat,
                    gap: int)
    requires c.to in bufs && Fair(c, b, p, added) && added > 0 && Proper(bufs, b)
             && Shape(c, bufs, b, p, added, x, f, r) && gap >= 1
    requires forall i {:trigger i in bufs} | i in bufs ::
             next.lnum[i] == b.End(i) + gap && next.count[i] >= 0 && x.count[i] >= 0
    ensures var ed := PartEdit(c, p, added);
            var (z, g) := (Resized(c, Merge(bufs, x, Pushed(ed, next)), In(c, b) + added), Lowered(ed, next.Ends()));
            && Proper(bufs, z) && next.End(c.to) + added >= 1 && z.End(c.to) == g[c.to] + f - gap - next.count[c.to]
            && (forall i {:trigger i in bufs} | i in bufs :: z.lnum[i] == b.lnum[i] + f)
            && (forall i {:trigger i in bufs} | i in bufs && i != c.to :: z.End(i) + r + gap == g[i])
  {
    hide Recount, Merge, Pushed;
    NextPushed(c, p, added, b, next);
  }

  /** The entry is gone. */
  lemma GoneFits(c: Command, bufs: Bufs, e: Vec, m: nat, b: Block, p: Part, added: int, rest: seq<Block>, d0: Texts,
                 d: Texts, x: Block, f: nat, r: nat)
    requires TurnAt(c, bufs, e, m, b, p, added, rest, d0, d) && Shape(c, bufs, b, p, added, x, f, r) && Empty(bufs, x)
    ensures !Sync(false, bufs, e, m, PushAll(PartEdit(c, p, added), rest), d)
  {
    hide Sync, PushAll, Recount, Surplus, Empty;
    var (ed, q) := (PartEdit(c, p, added), PushAll(PartEdit(c, p, added), rest));
    RestFits(c, bufs, e, m, b, p, added, rest, d0, d);
    GoneCounts(c, bufs, b, p, added, x, f, r);
    SyncOver(bufs, e, m, Lowered(ed, b.Ends()), q, d);
    assert c.from in bufs && c.to in bufs;
  }

  /** A block that is emptied does not have as many lines in the target as in the source. */
  lemma GoneCounts(c: Command, bufs: Bufs, b: Block, p: Part, added: int, x: Block, f: nat, r: nat)
    requires c.Valid() && c.from in bufs && c.to in bufs && Fair(c, b, p, added) && Shape(c, bufs, b, p, added, x, f, r)
    requires Empty(bufs, x)
    ensures b.count[c.from] != b.count[c.to] + added
  {
  }

  lemma TailFits(c: Command, bufs: Bufs, e: Vec, m: nat, b: Block, p: Part, added: int, rest: seq<Block>, d0: Texts,
                 d: Texts)
    requires TurnAt(c, bufs, e, m, b, p, added, rest, d0, d)
    requires rest != [] ==> Proper(bufs, rest[0]) && !Empty(bufs, rest[0])
    ensures Sync(false, bufs, e, m, Tail(c, bufs, b, p, added, rest, d), d)
            <==> RightMarks(c, bufs, b, p, added, rest, d)
  {
    hide Sync, Marked, Recount, Surplus, Looked, Empty, Merge, Pushed, PushAll, Resized, StaysAbove;
    var x := Marked(c, bufs, b, p, added, d);
    var f, r := MarkedShape(c, bufs, b, p, added, d);
    FitsNext(c, bufs, e, m, b, p, added, rest, d0, d);
    if MeetsNext(PartEdit(c, p, added), x, rest) {
      MarkedAbove(c, bufs, b, p, added, rest, d);
      Recounted(c, b, p, added);
      MergedFits(c, bufs, e, m, b, p, added, rest, d0, d, x, f, r);
    } else if Empty(bufs, x) {
      GoneFits(c, bufs, e, m, b, p, added, rest, d0, d, x, f, r);
    } else {
      AloneFits(c, bufs, e, m, b, p, added, rest, d0, d, x, f, r);
    }
  }

  lemma FitsNext(c: Command, bufs: Bufs, e: Vec, m: nat, b: Block, p: Part, added: int, rest: seq<Block>, d0: Texts,
                 d: Texts)
    requires TurnAt(c, bufs, e, m, b, p, added, rest, d0, d)
    ensures rest != [] ==> rest[0].lnum[c.to] > b.End(c.to)
  {
  }

  /** Only the numbers of lines matter. */
  lemma {:induction false} SyncSizes(bufs: Bufs, e: Vec, m: nat, bs: seq<Block>, d: Texts, d': Texts)
    requires Sync(false, bufs, e, m, bs, d) && forall i {:trigger i in bufs} | i in bufs :: Size(d', i) == Size(d, i)
    ensures Sync(false, bufs, e, m, bs, d')
    decreases |bs|
  {
    hide SameText;
    if bs != [] {
      SyncSizes(bufs, bs[0].Ends(), 1, bs[1..], d, d');
    }
  }

  /** Blocks that fit below g fit below e, further up, exactly when that is as far up in all buffers. */
  lemma SyncOver(bufs: Bufs, e: Vec, m: nat, g: Vec, rest: seq<Block>, d: Texts)
    requires Sync(false, bufs, g, 1, rest, d) && forall i {:trigger i in bufs} | i in bufs ::
             1 <= e[i] && e[i] + m <= g[i]
    ensures Sync(false, bufs, e, m, rest, d) <==> forall i, j {:trigger i in bufs, j in bufs} | i in bufs
            && j in bufs :: g[i] - e[i] == g[j] - e[j]
  {
    hide SameText;
  }

  /** The entry was taken out of the list. */
  lemma RemovedFits(c: Command, bufs: Bufs, e: Vec, m: nat, b: Block, p: Part, added: int, rest: seq<Block>, d0: Texts,
                    d: Texts)
    requires Level(bufs, e, b.lnum, m) && Proper(bufs, b) && c.Valid() && c.from in bufs && c.to in bufs
    requires added == b.count[c.from] - p.count && 0 <= p.count <= b.count[c.to]
    requires forall i {:trigger i in bufs} | i in bufs && i != c.to :: b.count[i] == b.count[c.from]
    requires Sync(false, bufs, b.Ends(), 1, rest, d0)
    requires if added == 0 then forall i {:trigger i in bufs} | i in bufs :: Size(d, i) == Size(d0, i)
             else TurnAt(c, bufs, e, m, b, p, added, rest, d0, d)
    ensures Sync(false, bufs, e, m, if added == 0 then rest else PushAll(PartEdit(c, p, added), rest), d)
            <==> p.count == b.count[c.to]
  {
    hide Sync, TurnAt, PushAll;
    var ed := PartEdit(c, p, added);
    var g := Lowered(ed, b.Ends());
    if added == 0 {
      SyncSizes(bufs, b.Ends(), 1, rest, d0, d);
      SyncSame(false, bufs, b.Ends(), g, 1, rest, d);
    } else {
      RestFits(c, bufs, e, m, b, p, added, rest, d0, d);
    }
    SyncOver(bufs, e, m, g, if added == 0 then rest else PushAll(ed, rest), d);
  }

  /** The turn leaves the list right. If the entry is taken out of it, all lines of the block must have been replaced.
      */
  predicate Right(c: Command, bufs: Bufs, opt: DiffOpt, bs: seq<Block>, k: nat, off: int, text: Buffers)
    requires 0 <= c.cur < DB_COUNT && 0 <= c.from < DB_COUNT && 0 <= c.to < DB_COUNT && k < |bs|
  {
    var (b, p, t) := (bs[k], PartOf(c, bs[k], off), Turn(c, bufs, opt, bs, k, off, text));
    if t.removed then p.count == b.count[c.to]
    else t.added == 0 || RightMarks(c, bufs, b, p, t.added, bs[k + 1..],
        KeysOf(opt, TextAfter(c, bufs, opt, bs, k, off, text)))
  }

  /** What is known about the block at hand and the edit. */
  lemma TurnPlace(c: Command, bufs: Bufs, opt: DiffOpt, bs: seq<Block>, k: nat, off: int, text: Buffers)
    requires Ready(c, bufs, opt, bs, k, off, text) && !Misjudged(c, bs[k], PartOf(c, bs[k], off), text[c.to])
    ensures var (b, p, t) := (bs[k], PartOf(c, bs[k], off), Turn(c, bufs, opt, bs, k, off, text));
            var (above, rest) := (bs[..k], bs[k + 1..]);
            var (e, m) := (EndOfList(ONES, above), LeastAfter(0, above));
            var (d0, d) := (KeysOf(opt, text), KeysOf(opt, TextAfter(c, bufs, opt, bs, k, off, text)));
            && bs == above + ([b] + rest) && Lead(bufs, ONES, 0, above) && Proper(bufs, b) && Level(bufs, e, b.lnum, m)
            && Sync(false, bufs, b.Ends(), 1, rest, d0) && 0 <= p.count <= b.count[c.to]
                && t.added == TakenCount(c, b, p) - p.count
            && (t.added == 0 ==> forall i {:trigger i in bufs} | i in bufs :: Size(d, i) == Size(d0, i))
            && (t.added != 0 ==> TurnAt(c, bufs, e, m, b, p, t.added, rest, d0, d))
            && (rest != [] ==> Proper(bufs, rest[0]) && !Empty(bufs, rest[0]))
  {
    hide Turn, PartOf, KeysOf, Lead, Sync, Misjudged, InRange, Level, Empty;
    var (b, p, t) := (bs[k], PartOf(c, bs[k], off), Turn(c, bufs, opt, bs, k, off, text));
    AtBlock(bufs, bs, k, KeysOf(opt, text));
    if k + 1 < |bs| {
      AtBlock(bufs, bs, k + 1, KeysOf(opt, text));
    }
    TurnText(c, bufs, opt, bs, k, off, text);
    PartIs(c, b, off);
    KeySizes(opt, text);
    KeySizes(opt, TextAfter(c, bufs, opt, bs, k, off, text));
    if t.added != 0 {
      TurnPlaced(c, bufs, opt, bs, k, off, text, t.added);
    }
  }

  /** After the turn, the list fits the buffers exactly when that is so. */
  lemma TurnFits(c: Command, bufs: Bufs, opt: DiffOpt, bs: seq<Block>, k: nat, off: int, text: Buffers)
    requires Ready(c, bufs, opt, bs, k, off, text) && !Misjudged(c, bs[k], PartOf(c, bs[k], off), text[c.to])
    ensures Aligned(bufs, Turn(c, bufs, opt, bs, k, off, text).blocks,
            KeysOf(opt, TextAfter(c, bufs, opt, bs, k, off, text)))
            <==> Right(c, bufs, opt, bs, k, off, text)
  {
    hide Turn, PartOf, KeysOf, Lead, Sync, Misjudged, InRange, Level, Empty, TurnAt, Tail, RightMarks, PushAll, Stays;
    var (b, p, t) := (bs[k], PartOf(c, bs[k], off), Turn(c, bufs, opt, bs, k, off, text));
    var (above, rest) := (bs[..k], bs[k + 1..]);
    var (e, m) := (EndOfList(ONES, above), LeastAfter(0, above));
    var (d0, d) := (KeysOf(opt, text), KeysOf(opt, TextAfter(c, bufs, opt, bs, k, off, text)));
    TurnPlace(c, bufs, opt, bs, k, off, text);
    if t.removed {
      TurnRemoved(c, bufs, opt, bs, k, off, text);
      EqualCounts(c, bufs, opt, bs, k, off, text);
      RemovedFits(c, bufs, e, m, b, p, t.added, rest, d0, d);
      SyncParts(bufs, ONES, 0, above, if t.added == 0 then rest else PushAll(PartEdit(c, p, t.added), rest), d);
    } else {
      TurnKept(c, bufs, opt, bs, k, off, text);
      if t.added == 0 {
        SyncSizes(bufs, ONES, 0, bs, d0, d);
      } else {
        TailFits(c, bufs, e, m, b, p, t.added, rest, d0, d);
        SyncParts(bufs, ONES, 0, above, Tail(c, bufs, b, p, t.added, rest, d), d);
      }
    }
  }

  /** An entry is taken out only if the other buffers have as many lines there as the source. */
  lemma EqualCounts(c: Command, bufs: Bufs, opt: DiffOpt, bs: seq<Block>, k: nat, off: int, text: Buffers)
    requires c.Valid() && k < |bs| && Turn(c, bufs, opt, bs, k, off, text).removed && bs[k].count[c.from] >= 0
    ensures PartOf(c, bs[k], off).top == 0 && PartOf(c, bs[k], off).bottom == 0
            && TakenCount(c, bs[k], PartOf(c, bs[k], off)) == bs[k].count[c.from]
    ensures forall i {:trigger i in bufs} | i in bufs && i != c.to :: bs[k].count[i] == bs[k].count[c.from]
  {
    hide Turn, PartOf, KeysOf;
    TurnUnfold(c, bufs, opt, bs, k, off, text);
  }

  // ----- the blocks of the list afterwards -----

  /** If the list is right, the block at hand still has lines in the target. */
  lemma RightHasLines(c: Command, bufs: Bufs, b: Block, p: Part, added: int, rest: seq<Block>, d: Texts)
    requires c.to in bufs && Fair(c, b, p, added) && Proper(bufs, b) && RightMarks(c, bufs, b, p, added, rest, d)
    requires rest != [] ==> rest[0].lnum[c.to] > b.End(c.to) && Proper(bufs, rest[0]) && !Empty(bufs, rest[0])
    ensures In(c, b) + added > 0 && Stays(c, bufs, b, p, added, rest, d)
  {
    hide Marked, Empty, MeetsNext, StaysAbove, Merge;
    var f, r := MarkedShape(c, bufs, b, p, added, d);
    MarkedAbove(c, bufs, b, p, added, rest, d);
  }

  lemma TailNotEmpty(c: Command, bufs: Bufs, b: Block, p: Part, added: int, rest: seq<Block>, d: Texts)
    requires c.to in bufs && Stays(c, bufs, b, p, added, rest, d) && In(c, b) + added > 0
    requires Spread(bufs, c.to, rest) && BelowEdit(PartEdit(c, p, added), rest)
    ensures forall x | x in Tail(c, bufs, b, p, added, rest, d) :: !Empty(bufs, x)
  {
    hide Marked, MeetsNext, Merge, Pushed, BelowEdit, Spread, PushAll, DropEmpty;
    var (ed, x, n) := (PartEdit(c, p, added), Marked(c, bufs, b, p, added, d), In(c, b) + added);
    PushedNotEmpty(ed, bufs, rest);
    HasLines(c, bufs, x, n);
    if MeetsNext(ed, x, rest) {
      MeetsSome(ed, x, rest);
      HasLines(c, bufs, Merge(bufs, x, Pushed(ed, rest[0])), n);
      BelowPushed(ed, bufs, rest);
      SpreadFrom(bufs, c.to, rest, 1);
      PushedNotEmpty(ed, bufs, rest[1..]);
    }
  }

  lemma HasLines(c: Command, bufs: Bufs, x: Block, n: int)
    requires c.to in bufs && n != 0
    ensures !Empty(bufs, Resized(c, x, n))
  {
    assert Resized(c, x, n).count[c.to] == n;
  }

  /** If the turn leaves the list right, all blocks have lines, and the entry at hand is still in the list. */
  lemma TurnNotEmpty(c: Command, bufs: Bufs, opt: DiffOpt, bs: seq<Block>, k: nat, off: int, text: Buffers)
    requires Ready(c, bufs, opt, bs, k, off, text) && !Misjudged(c, bs[k], PartOf(c, bs[k], off), text[c.to])
    requires Right(c, bufs, opt, bs, k, off, text)
    ensures var t := Turn(c, bufs, opt, bs, k, off, text); t.steady && forall b | b in t.blocks :: !Empty(bufs, b)
  {
    hide Turn, PartOf, KeysOf, Lead, Sync, Misjudged, InRange, Level, Empty, TurnAt, Tail, RightMarks, PushAll, Stays,
        Spread, BelowEdit, EditAt, DropEmpty;
    var (b, p, t) := (bs[k], PartOf(c, bs[k], off), Turn(c, bufs, opt, bs, k, off, text));
    var (above, rest, d) := (bs[..k], bs[k + 1..], KeysOf(opt, TextAfter(c, bufs, opt, bs, k, off, text)));
    TurnPlace(c, bufs, opt, bs, k, off, text);
    if t.added != 0 {
      TurnPlaced(c, bufs, opt, bs, k, off, text, t.added);
      EditAtIs(PartEdit(c, p, t.added), bufs, above, rest);
      PushedNotEmpty(PartEdit(c, p, t.added), bufs, rest);
    }
    if t.removed {
      TurnRemoved(c, bufs, opt, bs, k, off, text);
    } else {
      TurnKept(c, bufs, opt, bs, k, off, text);
      if t.added != 0 {
        RightHasLines(c, bufs, b, p, t.added, rest, d);
        TailNotEmpty(c, bufs, b, p, t.added, rest, d);
      }
    }
  }

  lemma EditAtIs(ed: Edit, bufs: Bufs, above: seq<Block>, rest: seq<Block>)
    requires 0 <= ed.idx < DB_COUNT && EditAt(ed, bufs, above, rest)
    ensures Spread(bufs, ed.idx, rest) && BelowEdit(ed, rest)
  {
  }
}

/** Reading the hunks of a further buffer keeps the list in step with the buffers read before, and brings it in step
    with the new one. */
module DiffReadKeeps {
  import opened DiffBlocks
  import opened DiffRead

  function Pair(t: Task): Bufs
    requires 0 <= t.orig < DB_COUNT && 0 <= t.new_ < DB_COUNT
  {
    {t.orig, t.new_}
  }

  /** A hunk is a block of the two buffers it was made for. */
  function AsBlock(t: Task, h: Hunk): Block
    requires t.orig != t.new_ && 0 <= t.orig < DB_COUNT && 0 <= t.new_ < DB_COUNT
  {
    With(With(Block(ONES, ONES), t.orig, h.lnumOrig, h.countOrig), t.new_, h.lnumNew, h.countNew)
  }

  function AsBlocks(t: Task, hunks: seq<Hunk>): (r: seq<Block>)
    requires t.orig != t.new_ && 0 <= t.orig < DB_COUNT && 0 <= t.new_ < DB_COUNT
    ensures |r| == |hunks|
  {
    if hunks == [] then [] else [AsBlock(t, hunks[0])] + AsBlocks(t, hunks[1..])
  }

  /** The hunks fit the original and the new buffer below `q`. */
  ghost predicate HunksFit(content: bool, t: Task, q: Vec, m: nat, hunks: seq<Hunk>, d: Texts) {
    t.Valid() && Sync(content, Pair(t), q, m, AsBlocks(t, hunks), d)
  }

  /** One of the hunks starts at or above line x of the original and goes beyond it. */
  predicate Crossed(hunks: seq<Hunk>, x: int) {
    hunks != [] && (hunks[0].lnumOrig <= x < hunks[0].EndOrig() || Crossed(hunks[1..], x))
  }

  /** One of the hunks has all lines from x up to y of the original. */
  predicate Spans(hunks: seq<Hunk>, x: int, y: int) {
    hunks != [] && ((hunks[0].lnumOrig <= x && y <= hunks[0].EndOrig()) || Spans(hunks[1..], x, y))
  }

  lemma {:induction false} SpansCrosses(hunks: seq<Hunk>, x: int, y: int)
    requires Spans(hunks, x, y) && x < y
    ensures Crossed(hunks, x)
  {
    if !(hunks[0].lnumOrig <= x && y <= hunks[0].EndOrig()) {
      SpansCrosses(hunks[1..], x, y);
    }
  }

  // ----- the two conditions, as the loop meets them -----

  /** How many lines the run fails to count in the new buffer: those by which a hunk that meets a block already set
      goes beyond the last block it meets. */
  function Uncounted(t: Task, prev: Option<Block>, bs: seq<Block>, notset: bool, hunks: seq<Hunk>): nat
    requires 0 <= t.orig < DB_COUNT && 0 <= t.new_ < DB_COUNT
    decreases |hunks|, |bs|
  {
    if bs != [] && (hunks == [] || hunks[0].lnumOrig > bs[0].End(t.orig)) then
      var b := if notset then CopyEntry(prev, bs[0], t.orig, t.new_) else bs[0];
      Uncounted(t, Some(b), bs[1..], true, hunks)
    else if hunks == [] then 0
    else if bs != [] && Meets(t, bs[0], hunks[0]) then
      var j := LastMet(t, bs, hunks[0]);
      var over := hunks[0].EndOrig() - bs[j].End(t.orig);
      (if !notset && over > 0 then over else 0)
      + Uncounted(t, prev, [Merged(t, bs, j, notset, hunks[0])] + bs[j + 1..], false, hunks[1..])
    else
      Uncounted(t, prev, [HunkBlock(t, prev, hunks[0])] + bs, false, hunks[1..])
  }

  /** The hunk starts above the only block it meets and ends inside it: the end of the block is read too early. */
  predicate Clips(t: Task, bs: seq<Block>, j: nat, h: Hunk)
    requires 0 <= t.orig < DB_COUNT && bs != []
  {
    j == 0 && h.lnumOrig < bs[0].lnum[t.orig] && h.EndOrig() < bs[0].End(t.orig)
  }

  /** Whenever the end of a block is lost that way, a later hunk has all of it. */
  predicate Recovered(t: Task, prev: Option<Block>, bs: seq<Block>, notset: bool, hunks: seq<Hunk>)
    requires 0 <= t.orig < DB_COUNT && 0 <= t.new_ < DB_COUNT
    decreases |hunks|, |bs|
  {
    if bs != [] && (hunks == [] || hunks[0].lnumOrig > bs[0].End(t.orig)) then
      var b := if notset then CopyEntry(prev, bs[0], t.orig, t.new_) else bs[0];
      Recovered(t, Some(b), bs[1..], true, hunks)
    else if hunks == [] then true
    else if bs != [] && Meets(t, bs[0], hunks[0]) then
      var j := LastMet(t, bs, hunks[0]);
      var b := Merged(t, bs, j, notset, hunks[0]);
      && (Clips(t, bs, j, hunks[0]) ==> Spans(hunks[1..], b.End(t.orig), bs[0].End(t.orig)))
      && Recovered(t, prev, [b] + bs[j + 1..], false, hunks[1..])
    else
      Recovered(t, prev, [HunkBlock(t, prev, hunks[0])] + bs, false, hunks[1..])
  }

  // ----- the state of the loop -----

  /** The buffers the claim is about: those read before, with or without the new one. */
  ghost predicate Goal(t: Task, g: Bufs) {
    t.Valid() && (g == t.bufs || g == t.bufs + {t.new_})
  }

  /** The first block is not set; the hunks start below the block above it. */
  ghost predicate Unset(content: bool, t: Task, g: Bufs, prev: Option<Block>, bs: seq<Block>, hunks: seq<Hunk>, q: Vec,
                        d: Texts) {
    && Goal(t, g)
    && Sync(content, t.bufs, After(prev), Least(prev), bs, d)
    && HunksFit(content, t, q, Least(prev), hunks, d)
    && q[t.orig] == After(prev)[t.orig] && (t.new_ in g ==> q[t.new_] == After(prev)[t.new_])
  }

  /** The first block is set. The hunks read so far end at `q`; the old blocks it replaces end at `x`. */
  ghost predicate Set(content: bool, t: Task, g: Bufs, prev: Option<Block>, bs: seq<Block>, hunks: seq<Hunk>, q: Vec,
                      x: Vec, d: Texts) {
    && Goal(t, g) && bs != []
    && Gap(content, g, After(prev), bs[0].lnum, Least(prev), d)
    && (forall i {:trigger i in g} | i in g :: bs[0].count[i] >= 0)
    && (forall i {:trigger i in t.bufs} | i in t.bufs :: x[i] - bs[0].End(i) == x[t.orig] - bs[0].End(t.orig) >= 0)
    && Sync(content, t.bufs, x, 1, bs[1..], d)
    && HunksFit(content, t, q, 1, hunks, d)
    && bs[0].lnum[t.orig] <= q[t.orig] <= bs[0].End(t.orig)
    && (t.new_ in g ==>
              bs[0].lnum[t.new_] <= q[t.new_]
                  && bs[0].End(t.new_) - q[t.new_] == bs[0].End(t.orig) - q[t.orig])
    && (content && x[t.orig] > bs[0].End(t.orig) ==> Crossed(hunks, bs[0].End(t.orig)))
  }

  // ----- stretches of several sets of buffers -----

  lemma GapUnion(content: bool, t: Task, g: Bufs, e: Vec, f: Vec, m: nat, q: Vec, p: Vec, k: nat, d: Texts)
    requires Goal(t, g)
    requires Gap(content, t.bufs, e, f, m, d) && Gap(content, Pair(t), q, p, k, d)
    requires e[t.orig] == q[t.orig] && f[t.orig] == p[t.orig]
    requires t.new_ in g ==> e[t.new_] == q[t.new_] && f[t.new_] == p[t.new_]
    ensures Gap(content, g, e, f, m, d)
  {
    assert t.orig in t.bufs && t.orig in Pair(t) && t.new_ in Pair(t);
    if content {
      hide Slice;
      forall i | i in g ensures Slice(d, i, e[i], f[i]) == Slice(d, t.orig, e[t.orig], f[t.orig]) {
        if i != t.new_ {
          assert i in t.bufs;
        }
      }
    }
  }

  lemma {:induction false} NotCrossed(content: bool, t: Task, q: Vec, m: nat, hunks: seq<Hunk>, x: int, d: Texts)
    requires HunksFit(content, t, q, m, hunks, d) && (hunks == [] || hunks[0].lnumOrig > x)
    ensures !Crossed(hunks, x)
    decreases |hunks|
  {
    if hunks != [] {
      HunkNext(content, t, q, m, hunks, d);
      NotCrossed(content, t, AsBlock(t, hunks[0]).Ends(), 1, hunks[1..], x, d);
    }
  }

  /** The first hunk, and the hunks below it. */
  lemma HunkNext(content: bool, t: Task, q: Vec, m: nat, hunks: seq<Hunk>, d: Texts)
    requires HunksFit(content, t, q, m, hunks, d) && hunks != []
    ensures var h, b := hunks[0], AsBlock(t, hunks[0]);
            && b.lnum[t.orig] == h.lnumOrig && b.lnum[t.new_] == h.lnumNew
            && b.count[t.orig] == h.countOrig >= 0 && b.count[t.new_] == h.countNew >= 0
            && Gap(content, Pair(t), q, b.lnum, m, d)
            && h.lnumOrig - q[t.orig] == h.lnumNew - q[t.new_] >= m && q[t.orig] >= 1
            && HunksFit(content, t, b.Ends(), 1, hunks[1..], d)
            && (|hunks| > 1 ==> hunks[1].lnumOrig > h.EndOrig())
  {
    hide SameText;
    var b := AsBlock(t, hunks[0]);
    assert AsBlocks(t, hunks)[1..] == AsBlocks(t, hunks[1..]);
    assert AsBlocks(t, hunks)[0] == b;
    assert t.orig in Pair(t) && t.new_ in Pair(t);
  }

  /** The hunks below a line that is above the first of them. */
  lemma HunksFrom(content: bool, t: Task, q: Vec, m: nat, p: Vec, k: nat, hunks: seq<Hunk>, d: Texts)
    requires HunksFit(content, t, q, m, hunks, d)
    requires p[t.orig] - q[t.orig] == p[t.new_] - q[t.new_] >= 0
    requires if hunks == [] then p[t.orig] <= Size(d, t.orig) + 1 else p[t.orig] + k <= hunks[0].lnumOrig
    ensures HunksFit(content, t, p, k, hunks, d)
    ensures Gap(content, Pair(t), q, p, p[t.orig] - q[t.orig], d)
  {
    assert t.orig in Pair(t) && t.new_ in Pair(t);
    if hunks != [] {
      HunkNext(content, t, q, m, hunks, d);
      assert AsBlocks(t, hunks)[0] == AsBlock(t, hunks[0]);
    } else {
      assert Gap(content, Pair(t), q, AfterLast(d), 0, d);
    }
    SyncDrop(content, Pair(t), q, p, m, p[t.orig] - q[t.orig], k, AsBlocks(t, hunks), d);
  }

  /** No hunk is left, or the next one is below the first block. */
  predicate Passes(t: Task, bs: seq<Block>, hunks: seq<Hunk>)
    requires 0 <= t.orig < DB_COUNT
  {
    bs != [] && (hunks == [] || hunks[0].lnumOrig > bs[0].End(t.orig))
  }

  /** Going on to the next block when the first one is set. */
  lemma PassSet(content: bool, t: Task, g: Bufs, prev: Option<Block>, bs: seq<Block>, hunks: seq<Hunk>, q: Vec, x: Vec,
                d: Texts)
    returns (p: Vec)
    requires Set(content, t, g, prev, bs, hunks, q, x, d) && Passes(t, bs, hunks)
    ensures Unset(content, t, g, Some(bs[0]), bs[1..], hunks, p, d)
  {
    hide SameText;
    var b := bs[0];
    var n := b.End(t.orig) - q[t.orig];
    if content {
      NotCrossed(content, t, q, 1, hunks, b.End(t.orig), d);
      SyncSame(content, t.bufs, x, b.Ends(), 1, bs[1..], d);
    } else {
      EndsInRange(false, t.bufs, x, 1, bs[1..], d);
      BlockGap(t, g, prev, bs, d);
      SyncExtend(false, t.bufs, b.Ends(), x, 0, 1, bs[1..], d);
    }
    EndsInRange(content, t.bufs, b.Ends(), 1, bs[1..], d);
    p := q[t.orig := q[t.orig] + n][t.new_ := q[t.new_] + n];
    HunksFrom(content, t, q, 1, p, 1, hunks, d);
  }

  lemma BlockGap(t: Task, g: Bufs, prev: Option<Block>, bs: seq<Block>, d: Texts)
    requires Goal(t, g) && bs != [] && Gap(false, g, After(prev), bs[0].lnum, Least(prev), d)
    requires forall i {:trigger i in g} | i in g :: bs[0].count[i] >= 0
    ensures forall i {:trigger i in t.bufs} | i in t.bufs :: bs[0].lnum[i] >= 1 && bs[0].count[i] >= 0
  {
    forall i | i in t.bufs ensures i in g && bs[0].lnum[i] >= 1 && bs[0].count[i] >= 0 {
      assert i in g;
    }
  }

  /** The block keeps its entries for the buffers read before. */
  ghost predicate SameOld(t: Task, b: Block, c: Block) {
    forall i {:trigger i in t.bufs} | i in t.bufs :: b.lnum[i] == c.lnum[i] && b.count[i] == c.count[i]
  }

  /** The vector with its entries for the original and the new buffer n lines further down. */
  function Down(t: Task, q: Vec, n: int): (p: Vec)
    requires 0 <= t.orig < DB_COUNT && 0 <= t.new_ < DB_COUNT && t.orig != t.new_
    ensures p[t.orig] == q[t.orig] + n && p[t.new_] == q[t.new_] + n
  {
    q[t.orig := q[t.orig] + n][t.new_ := q[t.new_] + n]
  }

  /** The stretch above a block that starts at or above the next hunk. */
  lemma StretchTo(content: bool, t: Task, g: Bufs, prev: Option<Block>, bs: seq<Block>, s: Vec, hunks: seq<Hunk>,
                  q: Vec, d: Texts)
    requires Unset(content, t, g, prev, bs, hunks, q, d)
    requires var e := After(prev); Gap(content, t.bufs, e, s, Least(prev), d)
    requires s[t.orig] <= (if hunks == [] then Size(d, t.orig) + 1 else hunks[0].lnumOrig)
    requires t.new_ in g ==> s[t.new_] - After(prev)[t.new_] == s[t.orig] - After(prev)[t.orig]
    ensures Gap(content, g, After(prev), s, Least(prev), d)
    ensures HunksFit(content, t, Down(t, q, s[t.orig] - q[t.orig]), 0, hunks, d)
  {
    hide SameText, Sync;
    var e := After(prev);
    assert t.orig in t.bufs;
    var n := s[t.orig] - q[t.orig];
    var o := Down(t, q, n);
    hide Down;
    HunksFrom(content, t, q, Least(prev), o, 0, hunks, d);
    GapUnion(content, t, g, e, s, Least(prev), q, o, n, d);
  }

  /** `b` is the first block with its entry for the new buffer copied from the original. */
  ghost predicate Copied(t: Task, prev: Option<Block>, b: Block, c: Block)
    requires t.Valid()
  {
    && SameOld(t, b, c) && b.count[t.new_] == c.count[t.orig]
    && b.lnum[t.new_] - After(prev)[t.new_] == c.lnum[t.orig] - After(prev)[t.orig]
  }

  lemma CopyShape(t: Task, prev: Option<Block>, c: Block)
    requires t.Valid()
    ensures Copied(t, prev, CopyEntry(prev, c, t.orig, t.new_), c)
  {
  }

  /** What a copied block inherits from the block it is made from. */
  lemma CopiedFits(content: bool, t: Task, g: Bufs, prev: Option<Block>, bs: seq<Block>, b: Block, d: Texts)
    requires Goal(t, g) && bs != [] && Sync(content, t.bufs, After(prev), Least(prev), bs, d)
             && Copied(t, prev, b, bs[0])
    ensures Gap(content, t.bufs, After(prev), b.lnum, Least(prev), d)
    ensures Sync(content, t.bufs, b.Ends(), 1, bs[1..], d)
    ensures b.End(t.orig) <= Size(d, t.orig) + 1 && b.lnum[t.orig] == bs[0].lnum[t.orig]
            && b.End(t.orig) == bs[0].End(t.orig)
    ensures forall i {:trigger i in g} | i in g :: b.count[i] >= 0
  {
    hide SameText;
    var e := After(prev);
    assert t.orig in t.bufs;
    EndsInRange(content, t.bufs, bs[0].Ends(), 1, bs[1..], d);
    GapSame(content, t.bufs, e, bs[0].lnum, e, b.lnum, Least(prev), d);
    SyncSame(content, t.bufs, bs[0].Ends(), b.Ends(), 1, bs[1..], d);
    forall i | i in g ensures b.count[i] >= 0 {
      assert i != t.new_ ==> i in t.bufs;
    }
  }

  /** ... and when its entry has to be copied from the original. */
  lemma PassUnset(content: bool, t: Task, g: Bufs, prev: Option<Block>, bs: seq<Block>, b: Block, hunks: seq<Hunk>,
                  q: Vec, d: Texts)
    returns (p: Vec)
    requires Unset(content, t, g, prev, bs, hunks, q, d) && Passes(t, bs, hunks) && Copied(t, prev, b, bs[0])
    ensures Unset(content, t, g, Some(b), bs[1..], hunks, p, d)
    ensures Gap(content, g, After(prev), b.lnum, Least(prev), d)
    ensures forall i {:trigger i in g} | i in g :: b.count[i] >= 0
  {
    hide Down, Sync, Gap, SameOld;
    CopiedFits(content, t, g, prev, bs, b, d);
    StretchTo(content, t, g, prev, bs, b.lnum, hunks, q, d);
    var o := Down(t, q, b.lnum[t.orig] - q[t.orig]);
    p := Down(t, o, b.count[t.orig]);
    HunksFrom(content, t, o, 0, p, 1, hunks, d);
  }

  // ----- the shape of a merged block -----

  /** The block starts where the first block or the hunk starts; its end is `k` lines below the end of the last block
      met, and as far from the end of the hunk in the new buffer as in the original. */
  ghost predicate Joins(t: Task, bs: seq<Block>, j: nat, h: Hunk, r: Block, k: int)
    requires t.Valid() && j < |bs|
  {
    var off := bs[0].lnum[t.orig] - h.lnumOrig;
    && (forall i {:trigger i in t.bufs} | i in t.bufs ::
        r.lnum[i] == bs[0].lnum[i] - Max(off, 0) && r.End(i) == bs[j].End(i) + k)
    && r.lnum[t.new_] == h.lnumNew - Max(-off, 0)
    && r.End(t.new_) - h.EndNew() == r.End(t.orig) - h.EndOrig()
  }

  /** How far the end of the merged block is below the end of the last block met: the rest of the hunk, or less than
      nothing when the block is clipped. */
  function Beyond(t: Task, bs: seq<Block>, j: nat, h: Hunk): int
    requires 0 <= t.orig < DB_COUNT && j < |bs|
  {
    if Clips(t, bs, j, h) then Max(h.lnumOrig - bs[0].lnum[t.orig], h.EndOrig() - bs[0].End(t.orig))
    else Max(h.EndOrig() - bs[j].End(t.orig), 0)
  }

  /** The shape of the block that replaces a set block and the blocks below it that the hunk meets. */
  ghost predicate Extends(t: Task, bs: seq<Block>, j: nat, h: Hunk, r: Block)
    requires t.Valid() && j < |bs|
  {
    var b, last := bs[0], bs[j];
    && (forall i {:trigger i in t.bufs} | i in t.bufs ::
          r.lnum[i] == b.lnum[i] && r.End(i) == last.End(i) + Max(h.EndOrig() - last.End(t.orig), 0))
    && r.lnum[t.new_] == b.lnum[t.new_]
    && r.count[t.new_] == b.count[t.new_] + h.countNew - h.countOrig + last.End(t.orig) - b.End(t.orig)
  }

  lemma JoinsUnset(t: Task, bs: seq<Block>, j: nat, h: Hunk)
    requires t.Valid() && j < |bs|
    ensures Joins(t, bs, j, h, Merged(t, bs, j, true, h), Beyond(t, bs, j, h))
  {
    assert t.orig in t.bufs;
  }

  lemma ClippedEnd(t: Task, bs: seq<Block>, j: nat, h: Hunk, r: Block)
    requires t.Valid() && j < |bs| && Joins(t, bs, j, h, r, Beyond(t, bs, j, h)) && Clips(t, bs, j, h)
    ensures r.End(t.orig) < bs[0].End(t.orig)
  {
    assert t.orig in t.bufs;
  }

  lemma JoinsSet(t: Task, bs: seq<Block>, j: nat, h: Hunk)
    requires t.Valid() && j < |bs| && bs[0].lnum[t.orig] <= h.lnumOrig
    ensures Extends(t, bs, j, h, Merged(t, bs, j, false, h))
  {
    assert t.orig in t.bufs;
  }

  /** The blocks up to the last one the hunk meets, and the blocks below that. */
  lemma {:induction false} LastMetIs(content: bool, t: Task, e: Vec, m: nat, bs: seq<Block>, h: Hunk, d: Texts)
    requires t.Valid() && bs != [] && Sync(content, t.bufs, e, m, bs, d) && h.EndOrig() >= bs[0].lnum[t.orig]
    ensures var j := LastMet(t, bs, h);
            && Sync(content, t.bufs, bs[j].Ends(), 1, bs[j + 1..], d)
            && h.EndOrig() >= bs[j].lnum[t.orig]
            && (j + 1 < |bs| ==> h.EndOrig() < bs[j + 1].lnum[t.orig])
            && (forall i {:trigger i in t.bufs} | i in t.bufs ::
                1 <= bs[0].lnum[i] <= bs[j].lnum[i] && bs[j].count[i] >= 0)
            && (j > 0 ==> h.EndOrig() > bs[0].End(t.orig) && bs[j].lnum[t.orig] > bs[0].End(t.orig))
    decreases |bs|
  {
    hide SameText;
    assert t.orig in t.bufs;
    if |bs| > 1 && h.EndOrig() >= bs[1].lnum[t.orig] {
      LastMetIs(content, t, bs[0].Ends(), 1, bs[1..], h, d);
    }
  }

  // ----- a hunk that meets a block -----

  /** The stretch above the merged block. */
  lemma MeetStretch(content: bool, t: Task, g: Bufs, prev: Option<Block>, bs: seq<Block>, j: nat, r: Block, k: int,
                    hunks: seq<Hunk>, q: Vec, d: Texts)
    requires Unset(content, t, g, prev, bs, hunks, q, d) && hunks != [] && j < |bs|
    requires Joins(t, bs, j, hunks[0], r, k) && hunks[0].lnumOrig <= bs[0].End(t.orig)
    ensures Gap(content, g, After(prev), r.lnum, Least(prev), d)
  {
    hide SameText;
    var e, b := After(prev), bs[0];
    assert t.orig in t.bufs;
    HunkNext(content, t, q, Least(prev), hunks, d);
    GapPart(content, t.bufs, e, b.lnum, e, r.lnum, 0, r.lnum[t.orig] - e[t.orig], d);
    hide Sync;
    StretchTo(content, t, g, prev, bs, r.lnum, hunks, q, d);
  }

  /** The blocks below the merged block. */
  lemma MeetBelow(content: bool, t: Task, e: Vec, m: nat, bs: seq<Block>, h: Hunk, r: Block, d: Texts) returns (x: Vec)
    requires t.Valid() && bs != [] && Sync(content, t.bufs, e, m, bs, d) && Meets(t, bs[0], h)
             && h.EndOrig() <= Size(d, t.orig) + 1
    requires var j := LastMet(t, bs, h); Joins(t, bs, j, h, r, Beyond(t, bs, j, h))
    ensures var j := LastMet(t, bs, h);
            && Sync(content, t.bufs, x, 1, bs[j + 1..], d)
            && (forall i {:trigger i in t.bufs} | i in t.bufs ::
                  x[i] - r.End(i) == (if Clips(t, bs, j, h) then -Beyond(t, bs, j, h) else 0) >= 0)
  {
    hide SameText;
    var j := LastMet(t, bs, h);
    assert t.orig in t.bufs;
    LastMetIs(content, t, e, m, bs, h, d);
    x := bs[j].Ends();
    if !Clips(t, bs, j, h) {
      x := ExtendTo(content, t, bs, j, bs[j].Ends(), Beyond(t, bs, j, h), d);
    }
  }

  lemma MeetCounts(content: bool, t: Task, g: Bufs, e: Vec, m: nat, bs: seq<Block>, h: Hunk, r: Block, d: Texts)
    requires Goal(t, g) && bs != [] && Sync(content, t.bufs, e, m, bs, d) && Meets(t, bs[0], h)
    requires h.countOrig >= 0 && h.countNew >= 0
    requires var j := LastMet(t, bs, h); Joins(t, bs, j, h, r, Beyond(t, bs, j, h))
    ensures forall i {:trigger i in g} | i in g :: r.count[i] >= 0
    ensures r.lnum[t.orig] <= h.EndOrig() <= r.End(t.orig)
  {
    hide SameText;
    var j := LastMet(t, bs, h);
    LastMetIs(content, t, e, m, bs, h, d);
    hide Sync;
    assert t.orig in t.bufs;
    forall i | i in g ensures r.count[i] >= 0 {
      assert i != t.new_ ==> i in t.bufs;
    }
  }

  /** The first hunk that meets a block sets it. */
  lemma MeetUnset(content: bool, t: Task, g: Bufs, prev: Option<Block>, bs: seq<Block>, r: Block, hunks: seq<Hunk>,
                  q: Vec, d: Texts)
    returns (p: Vec, x: Vec)
    requires Unset(content, t, g, prev, bs, hunks, q, d) && hunks != [] && bs != [] && Meets(t, bs[0], hunks[0])
    requires var j := LastMet(t, bs, hunks[0]); Joins(t, bs, j, hunks[0], r, Beyond(t, bs, j, hunks[0]))
    requires content && Clips(t, bs, LastMet(t, bs, hunks[0]), hunks[0]) ==> Crossed(hunks[1..], r.End(t.orig))
    ensures Set(content, t, g, prev, [r] + bs[LastMet(t, bs, hunks[0]) + 1..], hunks[1..], p, x, d)
  {
    hide SameText, Sync, Joins, LastMet, Beyond;
    var j, h := LastMet(t, bs, hunks[0]), hunks[0];
    assert t.orig in t.bufs && t.orig in Pair(t);
    HunkNext(content, t, q, Least(prev), hunks, d);
    p := AsBlock(t, h).Ends();
    EndsInRange(content, Pair(t), p, 1, AsBlocks(t, hunks[1..]), d);
    MeetStretch(content, t, g, prev, bs, j, r, Beyond(t, bs, j, h), hunks, q, d);
    MeetCounts(content, t, g, After(prev), Least(prev), bs, h, r, d);
    x := MeetBelow(content, t, After(prev), Least(prev), bs, h, r, d);
    assert ([r] + bs[j + 1..])[1..] == bs[j + 1..];
    JoinsNew(t, bs, j, h, r, Beyond(t, bs, j, h));
  }

  lemma JoinsNew(t: Task, bs: seq<Block>, j: nat, h: Hunk, r: Block, k: int)
    requires t.Valid() && j < |bs| && Joins(t, bs, j, h, r, k) && h.countNew >= 0
    ensures r.lnum[t.new_] <= h.EndNew()
    ensures r.End(t.new_) - h.EndNew() == r.End(t.orig) - h.EndOrig()
  {
  }

  /** The old blocks below it. */
  lemma ExtendBelow(content: bool, t: Task, bs: seq<Block>, h: Hunk, r: Block, x: Vec, d: Texts) returns (y: Vec)
    requires t.Valid() && bs != [] && Sync(content, t.bufs, x, 1, bs[1..], d) && h.EndOrig() <= Size(d, t.orig) + 1
    requires forall i {:trigger i in t.bufs} | i in t.bufs :: x[i] - bs[0].End(i) == x[t.orig] - bs[0].End(t.orig) >= 0
    requires Extends(t, bs, LastMet(t, bs, h), h, r)
    ensures var j := LastMet(t, bs, h);
            && Sync(content, t.bufs, y, 1, bs[j + 1..], d)
            && (forall i {:trigger i in t.bufs} | i in t.bufs :: y[i] - r.End(i) == y[t.orig] - r.End(t.orig) >= 0)
            && (j > 0 ==> y[t.orig] == r.End(t.orig))
            && (j == 0 && h.EndOrig() <= bs[0].End(t.orig) ==> y == x)
            && (forall i {:trigger i in t.bufs} | i in t.bufs :: r.End(i) >= bs[0].End(i))
  {
    hide SameText;
    assert t.orig in t.bufs;
    var j := LastMet(t, bs, h);
    if j > 0 {
      y := ExtendOver(content, t, bs, h, r, x, d);
    } else if r.End(t.orig) <= x[t.orig] {
      y := x;
    } else {
      y := ExtendTo(content, t, bs, 0, x, r.End(t.orig) - x[t.orig], d);
    }
  }

  /** ... when the hunk reaches a further one. */
  lemma ExtendOver(content: bool, t: Task, bs: seq<Block>, h: Hunk, r: Block, x: Vec, d: Texts) returns (y: Vec)
    requires t.Valid() && bs != [] && Sync(content, t.bufs, x, 1, bs[1..], d) && h.EndOrig() <= Size(d, t.orig) + 1
    requires forall i {:trigger i in t.bufs} | i in t.bufs :: x[i] >= bs[0].End(i)
    requires LastMet(t, bs, h) > 0 && Extends(t, bs, LastMet(t, bs, h), h, r)
    ensures var j := LastMet(t, bs, h);
            && Sync(content, t.bufs, y, 1, bs[j + 1..], d)
            && (forall i {:trigger i in t.bufs} | i in t.bufs :: y[i] == r.End(i) >= bs[0].End(i))
  {
    hide SameText;
    assert t.orig in t.bufs;
    var j := LastMet(t, bs, h);
    assert bs[1..][0] == bs[1] && bs[1..][j - 1] == bs[j] && bs[1..][j..] == bs[j + 1..];
    LastMetIs(content, t, x, 1, bs[1..], h, d);
    y := ExtendTo(content, t, bs, j, bs[j].Ends(), Max(h.EndOrig() - bs[j].End(t.orig), 0), d);
  }

  lemma ExtendTo(content: bool, t: Task, bs: seq<Block>, j: nat, x: Vec, k: nat, d: Texts) returns (y: Vec)
    requires t.Valid() && j < |bs| && Sync(content, t.bufs, x, 1, bs[j + 1..], d)
    requires x[t.orig] + k <= Size(d, t.orig) + 1 && (j + 1 < |bs| ==> x[t.orig] + k < bs[j + 1].lnum[t.orig])
    ensures Sync(content, t.bufs, y, 1, bs[j + 1..], d)
    ensures forall i {:trigger i in t.bufs} | i in t.bufs :: y[i] == x[i] + k
  {
    hide SameText;
    assert t.orig in t.bufs;
    y := seq(DB_COUNT, i requires 0 <= i < DB_COUNT => x[i] + k);
    if bs[j + 1..] != [] {
      assert bs[j + 1..][0] == bs[j + 1];
    }
    SyncDrop(content, t.bufs, x, y, 1, k, 1, bs[j + 1..], d);
  }

  /** The extended block in the new buffer. */
  lemma ExtendNew(t: Task, bs: seq<Block>, j: nat, h: Hunk, r: Block, q: Vec)
    requires t.Valid() && j < |bs| && Extends(t, bs, j, h, r)
    requires h.EndOrig() <= bs[j].End(t.orig) && h.countNew >= 0
    requires h.lnumNew - q[t.new_] == h.lnumOrig - q[t.orig] >= 0
    requires bs[0].lnum[t.new_] <= q[t.new_] && bs[0].End(t.new_) - q[t.new_] == bs[0].End(t.orig) - q[t.orig]
    ensures r.End(t.new_) - h.EndNew() == r.End(t.orig) - h.EndOrig() >= 0
    ensures r.lnum[t.new_] <= h.EndNew() && r.count[t.new_] >= 0
  {
    assert t.orig in t.bufs;
  }

  /** What a hunk that meets a set block must not do. */
  predicate Harmless(content: bool, t: Task, g: Bufs, bs: seq<Block>, h: Hunk)
    requires 0 <= t.orig < DB_COUNT && bs != []
  {
    content || t.new_ in g ==> h.EndOrig() <= bs[LastMet(t, bs, h)].End(t.orig)
  }

  /** The end of the first hunk, in both buffers. */
  lemma HunkPassed(content: bool, t: Task, q: Vec, hunks: seq<Hunk>, d: Texts) returns (p: Vec)
    requires HunksFit(content, t, q, 1, hunks, d) && hunks != []
    ensures var h := hunks[0];
            && p[t.orig] == h.EndOrig() <= Size(d, t.orig) + 1 && p[t.new_] == h.EndNew()
            && h.lnumNew - q[t.new_] == h.lnumOrig - q[t.orig] >= 1 && h.countOrig >= 0 && h.countNew >= 0
            && HunksFit(content, t, p, 1, hunks[1..], d)
  {
    hide SameText;
    HunkNext(content, t, q, 1, hunks, d);
    p := AsBlock(t, hunks[0]).Ends();
    assert t.orig in Pair(t);
    EndsInRange(content, Pair(t), p, 1, AsBlocks(t, hunks[1..]), d);
  }

  /** A further hunk that meets the block extends it. */
  lemma MeetSet(content: bool, t: Task, g: Bufs, prev: Option<Block>, bs: seq<Block>, r: Block, hunks: seq<Hunk>,
                q: Vec, x: Vec, d: Texts)
    returns (p: Vec, y: Vec)
    requires Set(content, t, g, prev, bs, hunks, q, x, d) && hunks != [] && Meets(t, bs[0], hunks[0])
    requires Extends(t, bs, LastMet(t, bs, hunks[0]), hunks[0], r) && Harmless(content, t, g, bs, hunks[0])
    ensures Set(content, t, g, prev, [r] + bs[LastMet(t, bs, hunks[0]) + 1..], hunks[1..], p, y, d)
  {
    hide SameText, Sync, LastMet, Extends, Gap;
    var j, h := LastMet(t, bs, hunks[0]), hunks[0];
    p := HunkPassed(content, t, q, hunks, d);
    y := ExtendBelow(content, t, bs, h, r, x, d);
    ExtendEnds(t, bs, j, h, r);
    if t.new_ in g {
      ExtendNew(t, bs, j, h, r, q);
    }
    ExtendKeeps(content, t, g, prev, bs, j, h, r, d);
    assert ([r] + bs[j + 1..])[1..] == bs[j + 1..];
  }

  lemma ExtendEnds(t: Task, bs: seq<Block>, j: nat, h: Hunk, r: Block)
    requires t.Valid() && j < |bs| && Extends(t, bs, j, h, r)
    ensures r.lnum[t.orig] == bs[0].lnum[t.orig] && r.End(t.orig) >= h.EndOrig()
    ensures h.EndOrig() <= bs[j].End(t.orig) ==> r.End(t.orig) == bs[j].End(t.orig)
  {
    assert t.orig in t.bufs;
  }

  lemma ExtendKeeps(content: bool, t: Task, g: Bufs, prev: Option<Block>, bs: seq<Block>, j: nat, h: Hunk, r: Block,
                    d: Texts)
    requires Goal(t, g) && j < |bs| && Extends(t, bs, j, h, r)
    requires Gap(content, g, After(prev), bs[0].lnum, Least(prev), d)
    requires forall i {:trigger i in t.bufs} | i in t.bufs :: r.End(i) >= bs[0].End(i)
    requires forall i {:trigger i in g} | i in g :: bs[0].count[i] >= 0
    requires t.new_ in g ==> r.count[t.new_] >= 0
    ensures Gap(content, g, After(prev), r.lnum, Least(prev), d)
    ensures forall i {:trigger i in g} | i in g :: r.count[i] >= 0
  {
    hide SameText;
    forall i | i in g ensures r.lnum[i] == bs[0].lnum[i] && r.count[i] >= 0 {
      if i != t.new_ {
        assert i in t.bufs;
      }
    }
    GapSame(content, g, After(prev), bs[0].lnum, After(prev), r.lnum, Least(prev), d);
  }

  // ----- a hunk that meets no block -----

  ghost predicate Placed(t: Task, prev: Option<Block>, h: Hunk, r: Block)
    requires t.Valid()
  {
    var e := After(prev);
    && (forall i {:trigger i in t.bufs} | i in t.bufs ::
        r.lnum[i] - e[i] == h.lnumOrig - e[t.orig] && r.count[i] == h.countOrig)
    && r.lnum[t.new_] == h.lnumNew && r.count[t.new_] == h.countNew
  }

  lemma HunkBlockShape(t: Task, prev: Option<Block>, h: Hunk)
    requires t.Valid()
    ensures Placed(t, prev, h, HunkBlock(t, prev, h))
  {
  }

  lemma PlacedStretch(content: bool, t: Task, prev: Option<Block>, bs: seq<Block>, h: Hunk, r: Block, d: Texts)
    requires t.Valid() && Sync(content, t.bufs, After(prev), Least(prev), bs, d) && Placed(t, prev, h, r)
    requires h.countOrig >= 0 && h.lnumOrig - After(prev)[t.orig] >= Least(prev) && h.EndOrig() <= Size(d, t.orig) + 1
    requires bs != [] ==> h.EndOrig() < bs[0].lnum[t.orig]
    ensures Gap(content, t.bufs, After(prev), r.lnum, Least(prev), d)
    ensures Sync(content, t.bufs, r.Ends(), 1, bs, d)
  {
    hide SameText;
    var e := After(prev);
    assert t.orig in t.bufs;
    var n := h.EndOrig() - e[t.orig];
    SyncDrop(content, t.bufs, e, r.Ends(), Least(prev), n, 1, bs, d);
    GapPart(content, t.bufs, e, r.Ends(), e, r.lnum, 0, h.lnumOrig - e[t.orig], d);
  }

  lemma NewBlockFits(content: bool, t: Task, g: Bufs, prev: Option<Block>, bs: seq<Block>, r: Block, hunks: seq<Hunk>,
                     q: Vec, d: Texts)
    returns (p: Vec)
    requires Unset(content, t, g, prev, bs, hunks, q, d) && hunks != [] && !Passes(t, bs, hunks)
    requires bs != [] ==> !Meets(t, bs[0], hunks[0])
    requires Placed(t, prev, hunks[0], r)
    ensures Set(content, t, g, prev, [r] + bs, hunks[1..], p, r.Ends(), d)
  {
    hide SameText, Sync;
    var h := hunks[0];
    HunkNext(content, t, q, Least(prev), hunks, d);
    p := AsBlock(t, h).Ends();
    assert t.orig in t.bufs && t.orig in Pair(t);
    EndsInRange(content, Pair(t), p, 1, AsBlocks(t, hunks[1..]), d);
    PlacedStretch(content, t, prev, bs, h, r, d);
    StretchTo(content, t, g, prev, bs, r.lnum, hunks, q, d);
    assert ([r] + bs)[1..] == bs;
    forall i | i in g ensures r.count[i] >= 0 {
      assert i != t.new_ ==> i in t.bufs;
    }
  }

  // ----- main results -----

  /** The loop is in one of its two states. */
  ghost predicate State(content: bool, t: Task, g: Bufs, prev: Option<Block>, bs: seq<Block>, notset: bool,
                        hunks: seq<Hunk>, q: Vec, x: Vec, d: Texts) {
    if notset then Unset(content, t, g, prev, bs, hunks, q, d) else Set(content, t, g, prev, bs, hunks, q, x, d)
  }

  /** ... and what is left to read harms neither the claim about the new buffer nor the text. */
  ghost predicate Safe(content: bool, t: Task, g: Bufs, prev: Option<Block>, bs: seq<Block>, notset: bool,
                       hunks: seq<Hunk>)
    requires 0 <= t.orig < DB_COUNT && 0 <= t.new_ < DB_COUNT
  {
    && (content || t.new_ in g ==> Uncounted(t, prev, bs, notset, hunks) == 0)
    && (content ==> Recovered(t, prev, bs, notset, hunks))
  }

  lemma {:induction false} ReadSync(content: bool, t: Task, g: Bufs, prev: Option<Block>, bs: seq<Block>, notset: bool,
                                    hunks: seq<Hunk>, q: Vec, x: Vec, d: Texts)
    requires State(content, t, g, prev, bs, notset, hunks, q, x, d) && Safe(content, t, g, prev, bs, notset, hunks)
    ensures Sync(content, g, After(prev), Least(prev), Read(t, prev, bs, notset, hunks), d)
    decreases |hunks|, |bs|
  {
    hide Safe, Sync, HunkBlock, Merged, CopyEntry;
    if Passes(t, bs, hunks) {
      ReadPass(content, t, g, prev, bs, notset, hunks, q, x, d);
    } else if hunks == [] {
      ReadEnd(content, t, g, prev, bs, notset, hunks, q, x, d);
    } else if bs != [] && Meets(t, bs[0], hunks[0]) {
      var r, p, y := ReadMeet(content, t, g, prev, bs, notset, hunks, q, x, d);
      ReadSync(content, t, g, prev, [r] + bs[LastMet(t, bs, hunks[0]) + 1..], false, hunks[1..], p, y, d);
    } else {
      var r := HunkBlock(t, prev, hunks[0]);
      var p := ReadNewState(content, t, g, prev, bs, notset, hunks, q, x, d);
      ReadSync(content, t, g, prev, [r] + bs, false, hunks[1..], p, r.Ends(), d);
    }
  }

  lemma {:induction false} ReadPass(content: bool, t: Task, g: Bufs, prev: Option<Block>, bs: seq<Block>, notset: bool,
                                    hunks: seq<Hunk>, q: Vec, x: Vec, d: Texts)
    requires State(content, t, g, prev, bs, notset, hunks, q, x, d) && Safe(content, t, g, prev, bs, notset, hunks)
    requires Passes(t, bs, hunks)
    ensures Sync(content, g, After(prev), Least(prev), Read(t, prev, bs, notset, hunks), d)
    decreases |hunks|, |bs|, 0
  {
    hide Gap, CopyEntry;
    var b := if notset then CopyEntry(prev, bs[0], t.orig, t.new_) else bs[0];
    var p: Vec;
    if notset {
      CopyShape(t, prev, bs[0]);
      p := PassUnset(content, t, g, prev, bs, b, hunks, q, d);
    } else {
      p := PassSet(content, t, g, prev, bs, hunks, q, x, d);
    }
    ReadSync(content, t, g, Some(b), bs[1..], true, hunks, p, x, d);
    var below := Read(t, Some(b), bs[1..], true, hunks);
    assert ([b] + below)[1..] == below;
  }

  lemma ReadEnd(content: bool, t: Task, g: Bufs, prev: Option<Block>, bs: seq<Block>, notset: bool, hunks: seq<Hunk>,
                q: Vec, x: Vec, d: Texts)
    requires State(content, t, g, prev, bs, notset, hunks, q, x, d) && !Passes(t, bs, hunks) && hunks == []
    ensures Sync(content, g, After(prev), Least(prev), Read(t, prev, bs, notset, hunks), d)
  {
    hide SameText;
    assert bs == [] && notset;
    GapUnion(content, t, g, After(prev), AfterLast(d), 0, q, AfterLast(d), 0, d);
  }

  lemma ReadMeet(content: bool, t: Task, g: Bufs, prev: Option<Block>, bs: seq<Block>, notset: bool, hunks: seq<Hunk>,
                 q: Vec, x: Vec, d: Texts)
    returns (r: Block, p: Vec, y: Vec)
    requires State(content, t, g, prev, bs, notset, hunks, q, x, d) && Safe(content, t, g, prev, bs, notset, hunks)
    requires !Passes(t, bs, hunks) && hunks != [] && bs != [] && Meets(t, bs[0], hunks[0])
    ensures r == Merged(t, bs, LastMet(t, bs, hunks[0]), notset, hunks[0])
    ensures var rest := [r] + bs[LastMet(t, bs, hunks[0]) + 1..];
            && State(content, t, g, prev, rest, false, hunks[1..], p, y, d)
            && Safe(content, t, g, prev, rest, false, hunks[1..])
  {
    hide Gap, Sync, Merged, Joins, Extends;
    var j, h := LastMet(t, bs, hunks[0]), hunks[0];
    r := Merged(t, bs, j, notset, h);
    if notset {
      JoinsUnset(t, bs, j, h);
      if content && Clips(t, bs, j, h) {
        ClippedEnd(t, bs, j, h, r);
        SpansCrosses(hunks[1..], r.End(t.orig), bs[0].End(t.orig));
      }
      p, y := MeetUnset(content, t, g, prev, bs, r, hunks, q, d);
    } else {
      HunkNext(content, t, q, 1, hunks, d);
      JoinsSet(t, bs, j, h);
      p, y := MeetSet(content, t, g, prev, bs, r, hunks, q, x, d);
    }
  }

  lemma ReadNew(content: bool, t: Task, g: Bufs, prev: Option<Block>, bs: seq<Block>, notset: bool, hunks: seq<Hunk>,
                q: Vec, x: Vec, d: Texts)
    requires State(content, t, g, prev, bs, notset, hunks, q, x, d) && Safe(content, t, g, prev, bs, notset, hunks)
    requires !Passes(t, bs, hunks) && hunks != [] && !(bs != [] && Meets(t, bs[0], hunks[0]))
    ensures notset && Safe(content, t, g, prev, [HunkBlock(t, prev, hunks[0])] + bs, false, hunks[1..])
  {
    hide Gap, Sync;
    if !notset {
      HunkNext(content, t, q, 1, hunks, d);
    }
  }

  lemma ReadNewState(content: bool, t: Task, g: Bufs, prev: Option<Block>, bs: seq<Block>, notset: bool,
                     hunks: seq<Hunk>, q: Vec, x: Vec, d: Texts)
    returns (p: Vec)
    requires State(content, t, g, prev, bs, notset, hunks, q, x, d) && Safe(content, t, g, prev, bs, notset, hunks)
    requires !Passes(t, bs, hunks) && hunks != [] && !(bs != [] && Meets(t, bs[0], hunks[0]))
    ensures var r := HunkBlock(t, prev, hunks[0]);
            && notset && Safe(content, t, g, prev, [r] + bs, false, hunks[1..])
            && State(content, t, g, prev, [r] + bs, false, hunks[1..], p, r.Ends(), d)
  {
    hide Gap, Sync, Safe;
    ReadNew(content, t, g, prev, bs, notset, hunks, q, x, d);
    HunkBlockShape(t, prev, hunks[0]);
    p := NewBlockFits(content, t, g, prev, bs, HunkBlock(t, prev, hunks[0]), hunks, q, d);
  }
}

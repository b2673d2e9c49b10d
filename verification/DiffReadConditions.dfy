/** The conditions under which reading the hunks of a further buffer works, stated on the old blocks and the hunks
    alone. */
module DiffReadConditions {
  import opened DiffBlocks
  import opened DiffRead
  import opened DiffReadKeeps

  // ----- where the run reads the ends of the old blocks -----

  /** The hunk starts above the block, below the end `top` of the one above, and ends inside the block. */
  predicate ClippedBy(t: Task, top: int, b: Block, h: Hunk)
    requires 0 <= t.orig < DB_COUNT
  {
    top < h.lnumOrig < b.lnum[t.orig] <= h.EndOrig() < b.End(t.orig)
  }

  /** The end of the block in the original, as the run reads it: too high by as much as a hunk that clips the block
      starts above it, but not above the end of that hunk. */
  function EndRead(t: Task, top: int, b: Block, hunks: seq<Hunk>): int
    requires 0 <= t.orig < DB_COUNT
  {
    if hunks == [] then b.End(t.orig)
    else if ClippedBy(t, top, b, hunks[0])
        then Max(b.End(t.orig) - (b.lnum[t.orig] - hunks[0].lnumOrig), hunks[0].EndOrig())
    else EndRead(t, top, b, hunks[1..])
  }

  /** Lines of the original, from `first` up to `end`. */
  datatype Stretch = Stretch(first: int, end: int)

  /** The old blocks in the original, with their ends as the run reads them. */
  function AsRead(t: Task, top: int, bs: seq<Block>, hunks: seq<Hunk>): seq<Stretch>
    requires 0 <= t.orig < DB_COUNT
    decreases |bs|
  {
    if bs == [] then []
    else
      var end := EndRead(t, top, bs[0], hunks);
      [Stretch(bs[0].lnum[t.orig], end)] + AsRead(t, end, bs[1..], hunks)
  }

  // ----- the two conditions -----

  /** One hunk has all the lines between where the end of a block is read and where it is. */
  predicate EndsRecovered(t: Task, top: int, bs: seq<Block>, hunks: seq<Hunk>)
    requires 0 <= t.orig < DB_COUNT
    decreases |bs|
  {
    bs == [] ||
    (var end := EndRead(t, top, bs[0], hunks);
     (end < bs[0].End(t.orig) ==> Spans(hunks, end, bs[0].End(t.orig))) && EndsRecovered(t, end, bs[1..], hunks))
  }

  /** A block that the hunk meets was reached by an earlier hunk, the last of which ends with line `above`. */
  predicate Bridged(ss: seq<Stretch>, above: int, h: Hunk) {
    ss != [] && ((ss[0].first <= above && h.lnumOrig <= ss[0].end) || Bridged(ss[1..], above, h))
  }

  /** The end of the last block that the hunk reaches, or `end` if it reaches none. */
  function LastReached(ss: seq<Stretch>, end: int, h: Hunk): int {
    if ss == [] || ss[0].first > h.EndOrig() then end else LastReached(ss[1..], ss[0].end, h)
  }

  /** By how many lines a hunk that starts in a block already reached goes beyond the last block it reaches. */
  function Over(ss: seq<Stretch>, above: int, h: Hunk): nat {
    if Bridged(ss, above, h) then Max(h.EndOrig() - LastReached(ss, above, h), 0) else 0
  }

  /** The sum of that for all hunks. */
  function Overrun(ss: seq<Stretch>, above: int, hunks: seq<Hunk>): nat
    decreases |hunks|
  {
    if hunks == [] then 0 else Over(ss, above, hunks[0]) + Overrun(ss, hunks[0].EndOrig(), hunks[1..])
  }

  // ----- hunks and blocks in order -----

  /** Hunks below line x, in order and with a line in between. */
  predicate HunksInOrder(x: int, hunks: seq<Hunk>)
    decreases |hunks|
  {
    hunks == [] || (hunks[0].lnumOrig > x && hunks[0].countOrig >= 0 && HunksInOrder(hunks[0].EndOrig(), hunks[1..]))
  }

  /** Blocks below line x, in order and with a line in between. */
  predicate BlocksInOrder(t: Task, x: int, bs: seq<Block>)
    requires 0 <= t.orig < DB_COUNT
    decreases |bs|
  {
    bs == [] || (bs[0].lnum[t.orig] > x && bs[0].count[t.orig] >= 0 && BlocksInOrder(t, bs[0].End(t.orig), bs[1..]))
  }

  predicate StretchesInOrder(ss: seq<Stretch>) {
    |ss| > 1 ==> ss[0].first <= ss[1].first && StretchesInOrder(ss[1..])
  }

  lemma {:induction false} HunksFitInOrder(t: Task, q: Vec, m: nat, hunks: seq<Hunk>, d: Texts, x: int)
    requires HunksFit(false, t, q, m, hunks, d) && x < q[t.orig] + m
    ensures HunksInOrder(x, hunks)
    decreases |hunks|
  {
    if hunks != [] {
      HunkNext(false, t, q, m, hunks, d);
      HunksFitInOrder(t, AsBlock(t, hunks[0]).Ends(), 1, hunks[1..], d, hunks[0].EndOrig());
    }
  }

  lemma {:induction false} SyncInOrder(t: Task, e: Vec, m: nat, bs: seq<Block>, d: Texts, x: int)
    requires t.Valid() && Sync(false, t.bufs, e, m, bs, d) && x < e[t.orig] + m
    ensures BlocksInOrder(t, x, bs)
    decreases |bs|
  {
    hide SameText;
    assert t.orig in t.bufs;
    if bs != [] {
      SyncInOrder(t, bs[0].Ends(), 1, bs[1..], d, bs[0].End(t.orig));
    }
  }

  // ----- the ends as read -----

  /** Hunks that all start at or below the top of the block do not clip it. */
  lemma {:induction false} NotClipped(t: Task, top: int, b: Block, hunks: seq<Hunk>, x: int)
    requires 0 <= t.orig < DB_COUNT && HunksInOrder(x, hunks) && b.lnum[t.orig] <= x + 1
    ensures EndRead(t, top, b, hunks) == b.End(t.orig)
    decreases |hunks|
  {
    if hunks != [] {
      NotClipped(t, top, b, hunks[1..], hunks[0].EndOrig());
    }
  }

  /** A line above all hunks is as good as another. */
  lemma {:induction false} AnyTop(t: Task, top: int, top': int, b: Block, hunks: seq<Hunk>, x: int)
    requires 0 <= t.orig < DB_COUNT && HunksInOrder(x, hunks) && top <= x && top' <= x
    ensures EndRead(t, top, b, hunks) == EndRead(t, top', b, hunks)
    decreases |hunks|
  {
    if hunks != [] {
      AnyTop(t, top, top', b, hunks[1..], hunks[0].EndOrig());
    }
  }

  lemma AnyTopRead(t: Task, top: int, top': int, bs: seq<Block>, hunks: seq<Hunk>, x: int)
    requires 0 <= t.orig < DB_COUNT && HunksInOrder(x, hunks) && top <= x && top' <= x
    ensures AsRead(t, top, bs, hunks) == AsRead(t, top', bs, hunks)
    ensures EndsRecovered(t, top, bs, hunks) <==> EndsRecovered(t, top', bs, hunks)
  {
    if bs != [] {
      AnyTop(t, top, top', bs[0], hunks, x);
    }
  }

  /** A hunk above all blocks does not matter to them. */
  lemma {:induction false} HunkAbove(t: Task, top: int, bs: seq<Block>, h: Hunk, hunks: seq<Hunk>, x: int)
    requires 0 <= t.orig < DB_COUNT && BlocksInOrder(t, x, bs) && h.EndOrig() <= x
    ensures AsRead(t, top, bs, [h] + hunks) == AsRead(t, top, bs, hunks)
    ensures EndsRecovered(t, top, bs, [h] + hunks) <==> EndsRecovered(t, top, bs, hunks)
    decreases |bs|
  {
    assert ([h] + hunks)[1..] == hunks;
    if bs != [] {
      var end := EndRead(t, top, bs[0], hunks);
      assert EndRead(t, top, bs[0], [h] + hunks) == end;
      HunkAbove(t, end, bs[1..], h, hunks, bs[0].End(t.orig));
    }
  }

  // ----- stretches that do not matter -----

  /** If a later stretch is reached, it does not matter where the earlier ones end. */
  lemma {:induction false} LaterReached(ss: seq<Stretch>, above: int, end: int, end': int, h: Hunk)
    requires Bridged(ss, above, h) && StretchesInOrder(ss) && above <= h.EndOrig()
    ensures ss[0].first <= h.EndOrig() && LastReached(ss, end, h) == LastReached(ss, end', h)
  {
    if !(ss[0].first <= above && h.lnumOrig <= ss[0].end) {
      LaterReached(ss[1..], above, end, end', h);
    }
  }

  /** Stretches that are alike for hunks below line x. */
  ghost predicate Alike(ss: seq<Stretch>, ss': seq<Stretch>, x: int) {
    forall above, h: Hunk {:trigger Over(ss, above, h)} | x <= above < h.lnumOrig && h.countOrig >= 0 ::
        Over(ss, above, h) == Over(ss', above, h)
  }

  lemma {:induction false} AlikeOverrun(ss: seq<Stretch>, ss': seq<Stretch>, x: int, above: int, hunks: seq<Hunk>)
    requires Alike(ss, ss', x) && HunksInOrder(above, hunks) && x <= above
    ensures Overrun(ss, above, hunks) == Overrun(ss', above, hunks)
    decreases |hunks|
  {
    hide Over;
    if hunks != [] {
      AlikeOverrun(ss, ss', x, hunks[0].EndOrig(), hunks[1..]);
    }
  }

  /** A stretch that ends above all hunks. */
  lemma EndsAbove(s: Stretch, ss: seq<Stretch>, x: int)
    requires s.end <= x && s.first <= x && StretchesInOrder(ss)
    ensures Alike([s] + ss, ss, x)
  {
    assert ([s] + ss)[1..] == ss;
    forall above, h: Hunk {:trigger Over([s] + ss, above, h)} | x <= above < h.lnumOrig && h.countOrig >= 0
      ensures Over([s] + ss, above, h) == Over(ss, above, h)
    {
      if Bridged(ss, above, h) {
        LaterReached(ss, above, s.end, above, h);
      }
    }
  }

  /** Two stretches that start above all hunks, and end at the same line or both above all hunks. */
  lemma StartAbove(s: Stretch, s': Stretch, ss: seq<Stretch>, x: int)
    requires s.first <= x && s'.first <= x && (s.end == s'.end || (s.end <= x && s'.end <= x)) && StretchesInOrder(ss)
    ensures Alike([s] + ss, [s'] + ss, x)
  {
    assert ([s] + ss)[1..] == ss && ([s'] + ss)[1..] == ss;
    forall above, h: Hunk {:trigger Over([s] + ss, above, h)} | x <= above < h.lnumOrig && h.countOrig >= 0
      ensures Over([s] + ss, above, h) == Over([s'] + ss, above, h)
    {
      if Bridged(ss, above, h) {
        LaterReached(ss, above, s.end, s'.end, h);
      }
    }
  }

  /** Blocks below all that has been reached are no bridge for the next hunk. */
  lemma {:induction false} NotBridged(t: Task, top: int, bs: seq<Block>, all: seq<Hunk>, x: int, above: int, h: Hunk)
    requires 0 <= t.orig < DB_COUNT && BlocksInOrder(t, x, bs) && above <= x
    ensures !Bridged(AsRead(t, top, bs, all), above, h)
    decreases |bs|
  {
    if bs != [] {
      var end := EndRead(t, top, bs[0], all);
      var below := AsRead(t, end, bs[1..], all);
      NotBridged(t, end, bs[1..], all, bs[0].End(t.orig), above, h);
      assert ([Stretch(bs[0].lnum[t.orig], end)] + below)[1..] == below;
    }
  }

  lemma {:induction false} ReadInOrder(t: Task, top: int, bs: seq<Block>, all: seq<Hunk>, x: int)
    requires 0 <= t.orig < DB_COUNT && BlocksInOrder(t, x, bs)
    ensures StretchesInOrder(AsRead(t, top, bs, all))
    ensures bs != [] ==> AsRead(t, top, bs, all)[0].first > x
    decreases |bs|
  {
    if bs != [] {
      var end := EndRead(t, top, bs[0], all);
      var below := AsRead(t, end, bs[1..], all);
      ReadInOrder(t, end, bs[1..], all, bs[0].End(t.orig));
      assert ([Stretch(bs[0].lnum[t.orig], end)] + below)[1..] == below;
    }
  }

  lemma AlikeBoth(a: seq<Stretch>, b: seq<Stretch>, c: seq<Stretch>, x: int)
    requires Alike(a, b, x) && Alike(b, c, x)
    ensures Alike(a, c, x)
  {
    hide Over;
  }

  // ----- a hunk that meets a block -----

  /** The hunk goes on from the block bs[0], whose end is read as `end`, to the last block it reaches: for the later
      hunks, one stretch stands for all of them. */
  lemma {:induction false} Reach(t: Task, first: int, end: int, bs: seq<Block>, h: Hunk, hunks: seq<Hunk>, x: int,
                                 first': int)
    requires 0 <= t.orig < DB_COUNT && bs != [] && BlocksInOrder(t, x, bs) && HunksInOrder(h.EndOrig(), hunks)
             && h.countOrig >= 0
    requires h.lnumOrig <= end <= bs[0].End(t.orig) && first <= h.EndOrig() && first' <= h.EndOrig()
    ensures var j := LastMet(t, bs, h);
            var end' := Max(if j == 0 then end else bs[j].End(t.orig), h.EndOrig());
            && Alike([Stretch(first, end)] + AsRead(t, end, bs[1..], [h] + hunks),
                [Stretch(first', end')] + AsRead(t, end', bs[j + 1..], hunks), h.EndOrig())
            && (EndsRecovered(t, end, bs[1..], [h] + hunks) <==> EndsRecovered(t, end', bs[j + 1..], hunks))
    decreases |bs|
  {
    hide Over, Alike;
    if |bs| > 1 && h.EndOrig() >= bs[1].lnum[t.orig] {
      ReachNext(t, first, end, bs, h, hunks, x);
      Reach(t, bs[1].lnum[t.orig], bs[1].End(t.orig), bs[1..], h, hunks, bs[0].End(t.orig), first');
      var j := LastMet(t, bs[1..], h);
      assert bs[1..][j + 1..] == bs[j + 2..];
      var end' := Max(bs[1..][j].End(t.orig), h.EndOrig());
      AlikeBoth([Stretch(first, end)] + AsRead(t, end, bs[1..], [h] + hunks),
                [Stretch(bs[1].lnum[t.orig], bs[1].End(t.orig))] + AsRead(t, bs[1].End(t.orig), bs[2..], [h] + hunks),
                [Stretch(first', end')] + AsRead(t, end', bs[j + 2..], hunks), h.EndOrig());
    } else {
      ReachEnds(t, first, end, bs, h, hunks, x, first');
    }
  }

  lemma ReachNext(t: Task, first: int, end: int, bs: seq<Block>, h: Hunk, hunks: seq<Hunk>, x: int)
    requires 0 <= t.orig < DB_COUNT && |bs| > 1 && BlocksInOrder(t, x, bs) && HunksInOrder(h.EndOrig(), hunks)
    requires h.lnumOrig <= end <= bs[0].End(t.orig) && first <= h.EndOrig() && h.EndOrig() >= bs[1].lnum[t.orig]
    ensures var b := bs[1];
            && Alike([Stretch(first, end)] + AsRead(t, end, bs[1..], [h] + hunks),
                     [Stretch(b.lnum[t.orig], b.End(t.orig))] + AsRead(t, b.End(t.orig), bs[2..], [h] + hunks),
                         h.EndOrig())
            && (EndsRecovered(t, end, bs[1..], [h] + hunks) <==> EndsRecovered(t, b.End(t.orig), bs[2..], [h] + hunks))
  {
    var b := bs[1];
    assert ([h] + hunks)[1..] == hunks && bs[1..][0] == b && bs[1..][1..] == bs[2..];
    NotClipped(t, end, b, hunks, h.EndOrig());
    assert EndRead(t, end, b, [h] + hunks) == b.End(t.orig);
    ReadInOrder(t, end, bs[1..], [h] + hunks, bs[0].End(t.orig));
    EndsAbove(Stretch(first, end), AsRead(t, end, bs[1..], [h] + hunks), h.EndOrig());
  }

  lemma ReachEnds(t: Task, first: int, end: int, bs: seq<Block>, h: Hunk, hunks: seq<Hunk>, x: int, first': int)
    requires 0 <= t.orig < DB_COUNT && bs != [] && BlocksInOrder(t, x, bs) && HunksInOrder(h.EndOrig(), hunks)
    requires end <= bs[0].End(t.orig) && first <= h.EndOrig() && first' <= h.EndOrig()
    requires |bs| > 1 ==> h.EndOrig() < bs[1].lnum[t.orig]
    ensures var end' := Max(end, h.EndOrig());
            && Alike([Stretch(first, end)] + AsRead(t, end, bs[1..], [h] + hunks),
                [Stretch(first', end')] + AsRead(t, end', bs[1..], hunks), h.EndOrig())
            && (EndsRecovered(t, end, bs[1..], [h] + hunks) <==> EndsRecovered(t, end', bs[1..], hunks))
  {
    var end' := Max(end, h.EndOrig());
    var y := Max(bs[0].End(t.orig), h.EndOrig());
    assert BlocksInOrder(t, y, bs[1..]) by {
      if |bs| > 1 {
        assert bs[1..][0] == bs[1];
      }
    }
    HunkAbove(t, end, bs[1..], h, hunks, y);
    if end < end' {
      AnyTopRead(t, end, end', bs[1..], hunks, h.EndOrig());
    }
    ReadInOrder(t, end', bs[1..], hunks, y);
    StartAbove(Stretch(first, end), Stretch(first', end'), AsRead(t, end', bs[1..], hunks), h.EndOrig());
  }

  /** The end of the first block the hunk meets, as read. */
  lemma FirstMet(t: Task, top: int, bs: seq<Block>, h: Hunk, hunks: seq<Hunk>)
    requires 0 <= t.orig < DB_COUNT && bs != [] && Meets(t, bs[0], h) && HunksInOrder(h.EndOrig(), hunks)
             && top < h.lnumOrig
    ensures var j := LastMet(t, bs, h);
            EndRead(t, top, bs[0], [h] + hunks)
            == if Clips(t, bs, 0, h) then Max(bs[0].End(t.orig) - (bs[0].lnum[t.orig] - h.lnumOrig), h.EndOrig())
                else bs[0].End(t.orig)
    ensures LastMet(t, bs, h) > 0 && |bs| > 1 && bs[1].lnum[t.orig] > bs[0].End(t.orig) ==> !Clips(t, bs, 0, h)
  {
    assert ([h] + hunks)[1..] == hunks;
    NotClipped(t, top, bs[0], hunks, h.EndOrig());
  }

  // ----- the run -----

  /** What the run has read of the old blocks: the first one may be set. */
  function SoFar(t: Task, top: int, bs: seq<Block>, notset: bool, hunks: seq<Hunk>): seq<Stretch>
    requires 0 <= t.orig < DB_COUNT && (!notset ==> bs != [])
  {
    if notset then AsRead(t, top, bs, hunks)
    else [Stretch(bs[0].lnum[t.orig], bs[0].End(t.orig))] + AsRead(t, bs[0].End(t.orig), bs[1..], hunks)
  }

  predicate RestRecovered(t: Task, top: int, bs: seq<Block>, notset: bool, hunks: seq<Hunk>)
    requires 0 <= t.orig < DB_COUNT && (!notset ==> bs != [])
  {
    if notset then EndsRecovered(t, top, bs, hunks) else EndsRecovered(t, bs[0].End(t.orig), bs[1..], hunks)
  }

  /** Blocks and hunks are in order. If the first block is not set, both are below line y; if it is, the hunks read so
      far end with line `above`, which is in the block. */
  predicate RunInOrder(t: Task, bs: seq<Block>, notset: bool, hunks: seq<Hunk>, top: int, above: int, y: int)
    requires 0 <= t.orig < DB_COUNT
  {
    if notset then BlocksInOrder(t, y, bs) && HunksInOrder(y, hunks) && top <= y && above <= y
    else
      && bs != [] && bs[0].lnum[t.orig] <= above <= bs[0].End(t.orig)
      && HunksInOrder(above, hunks) && BlocksInOrder(t, bs[0].End(t.orig), bs[1..])
  }

  /** Where the block that replaces the met blocks starts and ends in the original. */
  lemma MergedSpan(t: Task, bs: seq<Block>, j: nat, notset: bool, h: Hunk)
    requires t.Valid() && j < |bs| && (!notset ==> bs[0].lnum[t.orig] <= h.lnumOrig)
    ensures var r := Merged(t, bs, j, notset, h);
            && r.lnum[t.orig] <= h.lnumOrig
            && r.End(t.orig) == if Clips(t, bs, j, h)
                then Max(bs[0].End(t.orig) - (bs[0].lnum[t.orig] - h.lnumOrig), h.EndOrig())
                                else Max(bs[j].End(t.orig), h.EndOrig())
  {
    hide Merged;
    assert t.orig in t.bufs;
    if notset {
      JoinsUnset(t, bs, j, h);
    } else {
      JoinsSet(t, bs, j, h);
    }
  }

  /** A block that no hunk meets makes no difference. */
  lemma PassStep(t: Task, bs: seq<Block>, notset: bool, hunks: seq<Hunk>, top: int, above: int, y: int)
    requires t.Valid() && RunInOrder(t, bs, notset, hunks, top, above, y) && Passes(t, bs, hunks)
    ensures var end := bs[0].End(t.orig);
            && RunInOrder(t, bs[1..], true, hunks, end, above, end)
            && Overrun(SoFar(t, top, bs, notset, hunks), above, hunks)
                == Overrun(AsRead(t, end, bs[1..], hunks), above, hunks)
            && (RestRecovered(t, top, bs, notset, hunks) <==> EndsRecovered(t, end, bs[1..], hunks))
  {
    var end, first := bs[0].End(t.orig), bs[0].lnum[t.orig];
    var ss := AsRead(t, end, bs[1..], hunks);
    if notset {
      NotClipped(t, top, bs[0], hunks, end);
    }
    assert SoFar(t, top, bs, notset, hunks) == [Stretch(first, end)] + ss;
    ReadInOrder(t, end, bs[1..], hunks, end);
    EndsAbove(Stretch(first, end), ss, end);
    if hunks != [] {
      NotBridged(t, end, bs[1..], hunks, end, above, hunks[0]);
      assert ([Stretch(first, end)] + ss)[1..] == ss;
      AlikeOverrun([Stretch(first, end)] + ss, ss, end, hunks[0].EndOrig(), hunks[1..]);
    }
  }

  /** A hunk that meets no block becomes a block of its own. */
  lemma NewStep(t: Task, bs: seq<Block>, r: Block, hunks: seq<Hunk>, top: int, above: int, y: int)
    requires t.Valid() && RunInOrder(t, bs, true, hunks, top, above, y) && hunks != []
    requires bs != [] ==> hunks[0].EndOrig() < bs[0].lnum[t.orig]
    requires r.lnum[t.orig] == hunks[0].lnumOrig && r.End(t.orig) == hunks[0].EndOrig()
    ensures var end := hunks[0].EndOrig();
            && RunInOrder(t, [r] + bs, false, hunks[1..], end, end, end)
            && Overrun(AsRead(t, top, bs, hunks), above, hunks)
                == Overrun(SoFar(t, end, [r] + bs, false, hunks[1..]), end, hunks[1..])
            && (EndsRecovered(t, top, bs, hunks) <==> RestRecovered(t, end, [r] + bs, false, hunks[1..]))
  {
    var h, end := hunks[0], hunks[0].EndOrig();
    assert ([r] + bs)[1..] == bs && hunks == [h] + hunks[1..];
    NotBridged(t, top, bs, hunks, y, above, h);
    HunkAbove(t, top, bs, h, hunks[1..], end);
    AnyTopRead(t, top, end, bs, hunks[1..], end);
    var ss := AsRead(t, end, bs, hunks[1..]);
    ReadInOrder(t, end, bs, hunks[1..], end);
    EndsAbove(Stretch(r.lnum[t.orig], end), ss, end);
    AlikeOverrun([Stretch(r.lnum[t.orig], end)] + ss, ss, end, end, hunks[1..]);
  }

  lemma {:induction false} LastMetInOrder(t: Task, bs: seq<Block>, h: Hunk, x: int)
    requires 0 <= t.orig < DB_COUNT && bs != [] && BlocksInOrder(t, x, bs) && h.EndOrig() >= bs[0].lnum[t.orig]
    ensures var j := LastMet(t, bs, h);
            && BlocksInOrder(t, Max(bs[j].End(t.orig), h.EndOrig()), bs[j + 1..])
            && bs[j].lnum[t.orig] <= h.EndOrig() && (j > 0 ==> h.EndOrig() > bs[0].End(t.orig))
    decreases |bs|
  {
    if |bs| > 1 && h.EndOrig() >= bs[1].lnum[t.orig] {
      assert bs[1..][0] == bs[1];
      LastMetInOrder(t, bs[1..], h, bs[0].End(t.orig));
      var j := LastMet(t, bs[1..], h);
      assert bs[1..][j + 1..] == bs[j + 2..];
    } else if |bs| > 1 {
      assert bs[1..][0] == bs[1];
    }
  }

  /** How far the hunk goes beyond the last block it reaches. */
  lemma {:induction false} LastReachedRead(t: Task, bs: seq<Block>, h: Hunk, hunks: seq<Hunk>, x: int, above: int)
    requires 0 <= t.orig < DB_COUNT && bs != [] && BlocksInOrder(t, x, bs) && HunksInOrder(h.EndOrig(), hunks)
    requires h.lnumOrig <= bs[0].End(t.orig)
    ensures LastReached(AsRead(t, bs[0].End(t.orig), bs[1..], [h] + hunks), bs[0].End(t.orig), h)
            == bs[LastMet(t, bs, h)].End(t.orig)
    decreases |bs|
  {
    if |bs| > 1 {
      var b, end := bs[1], bs[0].End(t.orig);
      assert ([h] + hunks)[1..] == hunks && bs[1..][0] == b && bs[1..][1..] == bs[2..];
      var below := AsRead(t, EndRead(t, end, b, [h] + hunks), bs[2..], [h] + hunks);
      assert AsRead(t, end, bs[1..], [h] + hunks)[1..] == below;
      if h.EndOrig() >= b.lnum[t.orig] {
        NotClipped(t, end, b, hunks, h.EndOrig());
        LastReachedRead(t, bs[1..], h, hunks, end, above);
      }
    }
  }

  /** A hunk that meets a block not yet set. */
  lemma MeetUnsetStep(t: Task, bs: seq<Block>, r: Block, h: Hunk, hunks: seq<Hunk>, top: int, above: int, y: int)
    requires t.Valid() && RunInOrder(t, bs, true, [h] + hunks, top, above, y) && bs != [] && Meets(t, bs[0], h)
    requires r == Merged(t, bs, LastMet(t, bs, h), true, h)
    ensures var j, end := LastMet(t, bs, h), h.EndOrig();
            && r.lnum[t.orig] <= end <= r.End(t.orig)
            && Overrun(AsRead(t, top, bs, [h] + hunks), above, [h] + hunks)
               == Overrun([Stretch(r.lnum[t.orig], r.End(t.orig))] + AsRead(t, r.End(t.orig), bs[j + 1..], hunks), end,
                   hunks)
            && (EndsRecovered(t, top, bs, [h] + hunks) <==>
                (Clips(t, bs, j, h) ==> Spans(hunks, r.End(t.orig), bs[0].End(t.orig)))
                && EndsRecovered(t, r.End(t.orig), bs[j + 1..], hunks))
  {
    hide Merged, LastMet, Over, Alike;
    var j, end, first := LastMet(t, bs, h), h.EndOrig(), bs[0].lnum[t.orig];
    assert ([h] + hunks)[1..] == hunks;
    MergedSpan(t, bs, j, true, h);
    LastMetInOrder(t, bs, h, y);
    FirstMet(t, top, bs, h, hunks);
    NotBridged(t, top, bs, [h] + hunks, y, above, h);
    NoOver(AsRead(t, top, bs, [h] + hunks), above, h);
    var e := EndRead(t, top, bs[0], [h] + hunks);
    Reach(t, first, e, bs, h, hunks, y, r.lnum[t.orig]);
    AlikeOverrun([Stretch(first, e)] + AsRead(t, e, bs[1..], [h] + hunks),
                 [Stretch(r.lnum[t.orig], r.End(t.orig))] + AsRead(t, r.End(t.orig), bs[j + 1..], hunks), end, end,
                     hunks);
  }

  lemma NoOver(ss: seq<Stretch>, above: int, h: Hunk)
    requires !Bridged(ss, above, h)
    ensures Over(ss, above, h) == 0
  {
  }

  /** A hunk that meets a block already set. */
  lemma MeetSetStep(t: Task, bs: seq<Block>, r: Block, h: Hunk, hunks: seq<Hunk>, above: int)
    requires t.Valid() && RunInOrder(t, bs, false, [h] + hunks, above, above, above) && Meets(t, bs[0], h)
    requires r == Merged(t, bs, LastMet(t, bs, h), false, h)
    ensures var j, end, b := LastMet(t, bs, h), h.EndOrig(), bs[0];
            && r.lnum[t.orig] <= end <= r.End(t.orig) && !Clips(t, bs, j, h)
            && Overrun([Stretch(b.lnum[t.orig], b.End(t.orig))] + AsRead(t, b.End(t.orig), bs[1..], [h] + hunks), above,
                [h] + hunks)
               == (if end > bs[j].End(t.orig) then end - bs[j].End(t.orig) else 0)
                  + Overrun([Stretch(r.lnum[t.orig], r.End(t.orig))] + AsRead(t, r.End(t.orig), bs[j + 1..], hunks),
                      end, hunks)
            && (EndsRecovered(t, b.End(t.orig), bs[1..], [h] + hunks)
                <==> EndsRecovered(t, r.End(t.orig), bs[j + 1..], hunks))
  {
    hide Merged, LastMet, Alike;
    var j, end, b := LastMet(t, bs, h), h.EndOrig(), bs[0];
    var first, e := b.lnum[t.orig], b.End(t.orig);
    var ss := AsRead(t, e, bs[1..], [h] + hunks);
    assert ([h] + hunks)[1..] == hunks && ([Stretch(first, e)] + ss)[1..] == ss;
    MergedSpan(t, bs, j, false, h);
    LastMetInOrder(t, bs, h, first - 1);
    LastReachedRead(t, bs, h, hunks, first - 1, above);
    assert Over([Stretch(first, e)] + ss, above, h) == Max(end - bs[j].End(t.orig), 0);
    hide Over;
    Reach(t, first, e, bs, h, hunks, first - 1, r.lnum[t.orig]);
    AlikeOverrun([Stretch(first, e)] + ss,
        [Stretch(r.lnum[t.orig], r.End(t.orig))] + AsRead(t, r.End(t.orig), bs[j + 1..], hunks), end, end, hunks);
  }

  /** The blocks and hunks after a hunk that meets a block. */
  lemma MeetInOrder(t: Task, bs: seq<Block>, notset: bool, r: Block, h: Hunk, hunks: seq<Hunk>, top: int, above: int,
                    y: int)
    requires t.Valid() && RunInOrder(t, bs, notset, [h] + hunks, top, above, y) && bs != [] && Meets(t, bs[0], h)
    requires r == Merged(t, bs, LastMet(t, bs, h), notset, h)
    ensures RunInOrder(t, [r] + bs[LastMet(t, bs, h) + 1..], false, hunks, h.EndOrig(), h.EndOrig(), h.EndOrig())
  {
    hide Merged, LastMet;
    var j := LastMet(t, bs, h);
    assert ([h] + hunks)[1..] == hunks && ([r] + bs[j + 1..])[1..] == bs[j + 1..];
    MergedSpan(t, bs, j, notset, h);
    LastMetInOrder(t, bs, h, if notset then y else bs[0].lnum[t.orig] - 1);
    if Clips(t, bs, j, h) && |bs| > 1 {
      assert bs[1..][0] == bs[1];
    }
  }

  /** The conditions on blocks and hunks say what the loop meets. */
  lemma {:induction false} Conditions(t: Task, prev: Option<Block>, bs: seq<Block>, notset: bool, hunks: seq<Hunk>,
                                      top: int, above: int, y: int)
    requires t.Valid() && RunInOrder(t, bs, notset, hunks, top, above, y)
    ensures Uncounted(t, prev, bs, notset, hunks) == Overrun(SoFar(t, top, bs, notset, hunks), above, hunks)
    ensures Recovered(t, prev, bs, notset, hunks) <==> RestRecovered(t, top, bs, notset, hunks)
    decreases |hunks|, |bs|
  {
    hide CopyEntry, Merged, HunkBlock, LastMet, RunInOrder, Overrun, AsRead, EndsRecovered;
    if Passes(t, bs, hunks) {
      var b := if notset then CopyEntry(prev, bs[0], t.orig, t.new_) else bs[0];
      PassStep(t, bs, notset, hunks, top, above, y);
      Conditions(t, Some(b), bs[1..], true, hunks, bs[0].End(t.orig), above, bs[0].End(t.orig));
    } else if hunks == [] {
      AtEnd(t, bs, notset, top, above, y);
    } else if bs != [] && Meets(t, bs[0], hunks[0]) {
      var j, h, hs := LastMet(t, bs, hunks[0]), hunks[0], hunks[1..];
      var r := Merged(t, bs, j, notset, h);
      assert hunks == [h] + hs && ([r] + bs[j + 1..])[1..] == bs[j + 1..];
      MeetInOrder(t, bs, notset, r, h, hs, top, above, y);
      Conditions(t, prev, [r] + bs[j + 1..], false, hs, h.EndOrig(), h.EndOrig(), h.EndOrig());
      if notset {
        MeetUnsetStep(t, bs, r, h, hs, top, above, y);
      } else {
        SetAbove(t, bs, hunks, top, above, y);
        MeetSetStep(t, bs, r, h, hs, above);
      }
    } else {
      var r := HunkBlock(t, prev, hunks[0]);
      assert notset by { SetMeets(t, bs, notset, hunks, top, above, y); }
      HunkBlockSpan(t, prev, hunks[0]);
      NewStep(t, bs, r, hunks, top, above, y);
      Conditions(t, prev, [r] + bs, false, hunks[1..], hunks[0].EndOrig(), hunks[0].EndOrig(), hunks[0].EndOrig());
    }
  }

  lemma AtEnd(t: Task, bs: seq<Block>, notset: bool, top: int, above: int, y: int)
    requires t.Valid() && RunInOrder(t, bs, notset, [], top, above, y) && !Passes(t, bs, [])
    ensures notset && bs == [] && Overrun(AsRead(t, top, bs, []), above, []) == 0 && EndsRecovered(t, top, bs, [])
  {
  }

  lemma SetAbove(t: Task, bs: seq<Block>, hunks: seq<Hunk>, top: int, above: int, y: int)
    requires t.Valid() && RunInOrder(t, bs, false, hunks, top, above, y)
    ensures RunInOrder(t, bs, false, hunks, above, above, above)
  {
  }

  /** The next hunk meets the block that is set, or is below it. */
  lemma SetMeets(t: Task, bs: seq<Block>, notset: bool, hunks: seq<Hunk>, top: int, above: int, y: int)
    requires t.Valid() && RunInOrder(t, bs, notset, hunks, top, above, y) && hunks != []
    requires !Passes(t, bs, hunks) && !(bs != [] && Meets(t, bs[0], hunks[0]))
    ensures notset
  {
  }

  lemma HunkBlockSpan(t: Task, prev: Option<Block>, h: Hunk)
    requires t.Valid()
    ensures HunkBlock(t, prev, h).lnum[t.orig] == h.lnumOrig && HunkBlock(t, prev, h).End(t.orig) == h.EndOrig()
  {
  }

  /** Lists and hunks that fit the buffers are in order. */
  lemma FitInOrder(t: Task, bs: seq<Block>, hunks: seq<Hunk>, d: Texts)
    requires t.Valid() && Aligned(t.bufs, bs, d) && HunksFit(false, t, ONES, 0, hunks, d)
    ensures RunInOrder(t, bs, true, hunks, 0, 0, 0)
  {
    SyncInOrder(t, ONES, 0, bs, d, 0);
    HunksFitInOrder(t, ONES, 0, hunks, d, 0);
  }
}

/** Reading the hunks of a further buffer: what it promises, and exactly when it keeps that. */
module DiffReadResults {
  import opened DiffBlocks
  import opened MarkAdjustExact
  import opened DiffRead
  import opened DiffReadKeeps
  import opened DiffReadExact
  import opened DiffReadConditions

  /** The list after reading all the hunks of the new buffer. */
  function ReadAll(t: Task, bs: seq<Block>, hunks: seq<Hunk>): seq<Block>
    requires 0 <= t.orig < DB_COUNT && 0 <= t.new_ < DB_COUNT
  {
    Read(t, None, bs, true, hunks)
  }

  /** By how many lines hunks go beyond the old blocks that they share with an earlier hunk. */
  function Lacking(t: Task, bs: seq<Block>, hunks: seq<Hunk>): nat
    requires 0 <= t.orig < DB_COUNT
  {
    Overrun(AsRead(t, 0, bs, hunks), 0, hunks)
  }

  /** For every old block whose end is read too high, one hunk has the lines in between. */
  predicate NothingLost(t: Task, bs: seq<Block>, hunks: seq<Hunk>)
    requires 0 <= t.orig < DB_COUNT
  {
    EndsRecovered(t, 0, bs, hunks)
  }

  /** These are what the loop meets. */
  lemma LoopConditions(t: Task, bs: seq<Block>, hunks: seq<Hunk>, d: Texts)
    requires t.Valid() && Aligned(t.bufs, bs, d) && HunksFit(false, t, ONES, 0, hunks, d)
    ensures Uncounted(t, None, bs, true, hunks) == Lacking(t, bs, hunks)
    ensures Recovered(t, None, bs, true, hunks) <==> NothingLost(t, bs, hunks)
  {
    hide Uncounted, Recovered, Overrun, AsRead, EndsRecovered, RunInOrder, Sync;
    FitInOrder(t, bs, hunks, d);
    Conditions(t, None, bs, true, hunks, 0, 0, 0);
  }

  // ----- main results -----

  /** The list stays aligned for the buffers read before; it is aligned for the new one too if and only if no hunk goes
      beyond the old blocks that it shares with an earlier one. */
  lemma ReadAligned(t: Task, bs: seq<Block>, hunks: seq<Hunk>, d: Texts)
    requires t.Valid() && Aligned(t.bufs, bs, d) && HunksFit(false, t, ONES, 0, hunks, d)
    ensures Aligned(t.bufs, ReadAll(t, bs, hunks), d)
    ensures Aligned(t.bufs + {t.new_}, ReadAll(t, bs, hunks), d) <==> Lacking(t, bs, hunks) == 0
  {
    hide Read, Uncounted, Gap, Sync, Lacking;
    var all: Bufs := t.bufs + {t.new_};
    var out := ReadAll(t, bs, hunks);
    LoopConditions(t, bs, hunks, d);
    Start(false, t, t.bufs, bs, hunks, d);
    ReadSync(false, t, t.bufs, None, bs, true, hunks, ONES, ONES, d);
    if Lacking(t, bs, hunks) == 0 {
      Start(false, t, all, bs, hunks, d);
      ReadSync(false, t, all, None, bs, true, hunks, ONES, ONES, d);
    } else if Aligned(all, out, d) {
      ReadShortBy(t, bs, hunks, d);
      Conserved(all, ONES, 0, out, d, t.new_, t.orig);
    }
  }

  /** By as many lines the blocks have too few lines in the new buffer. */
  lemma ReadShortBy(t: Task, bs: seq<Block>, hunks: seq<Hunk>, d: Texts)
    requires t.Valid() && Aligned(t.bufs, bs, d) && HunksFit(false, t, ONES, 0, hunks, d)
    ensures Excess(ReadAll(t, bs, hunks), t.new_, t.orig) == Size(d, t.new_) - Size(d, t.orig) - Lacking(t, bs, hunks)
  {
    hide Read, Uncounted, Gap, Sync, Lacking;
    LoopConditions(t, bs, hunks, d);
    Start(false, t, t.bufs, bs, hunks, d);
    ReadExcess(t, None, bs, true, hunks, ONES, ONES, d);
    HunkExcessIs(t, hunks);
    Conserved(Pair(t), ONES, 0, AsBlocks(t, hunks), d, t.new_, t.orig);
  }

  /** The blocks then cover exactly the lines of the original that an old block or a hunk covers, if and only if nothing
      is lost. */
  lemma ReadCoversAll(t: Task, bs: seq<Block>, hunks: seq<Hunk>, d: Texts)
    requires t.Valid() && Aligned(t.bufs, bs, d) && HunksFit(false, t, ONES, 0, hunks, d)
    ensures (forall l, closed :: Covers(ReadAll(t, bs, hunks), t.orig, l, closed)
                                 <==> Covers(bs, t.orig, l, closed) || HunksCover(hunks, l, closed))
            <==> NothingLost(t, bs, hunks)
  {
    hide Read, Gap, Sync, Recovered, Covers, HunksCover, NothingLost;
    LoopConditions(t, bs, hunks, d);
    Start(false, t, t.bufs, bs, hunks, d);
    if NothingLost(t, bs, hunks) {
      forall l, closed
        ensures Covers(ReadAll(t, bs, hunks), t.orig, l, closed)
                <==> Covers(bs, t.orig, l, closed) || HunksCover(hunks, l, closed)
      {
        ReadCovers(t, None, bs, true, hunks, ONES, ONES, d, l, closed);
      }
    } else {
      var l := ReadLoses(t, None, bs, true, hunks, ONES, ONES, d);
    }
  }

  /** If both conditions hold, lines outside the blocks are the same in all buffers, the new one included; the first of
      them must hold for that. */
  lemma ReadFaithful(t: Task, bs: seq<Block>, hunks: seq<Hunk>, d: Texts)
    requires t.Valid() && Faithful(t.bufs, bs, d) && HunksFit(true, t, ONES, 0, hunks, d)
    ensures Lacking(t, bs, hunks) == 0 && NothingLost(t, bs, hunks) ==>
            Faithful(t.bufs + {t.new_}, ReadAll(t, bs, hunks), d)
    ensures Faithful(t.bufs + {t.new_}, ReadAll(t, bs, hunks), d) ==> Lacking(t, bs, hunks) == 0
  {
    hide Read, Uncounted, Gap, Sync, Recovered, Lacking, NothingLost;
    var all: Bufs := t.bufs + {t.new_};
    Weaken(true, t.bufs, ONES, 0, bs, d);
    Weaken(true, Pair(t), ONES, 0, AsBlocks(t, hunks), d);
    LoopConditions(t, bs, hunks, d);
    ReadAligned(t, bs, hunks, d);
    if Lacking(t, bs, hunks) == 0 && NothingLost(t, bs, hunks) {
      Start(true, t, all, bs, hunks, d);
      ReadSync(true, t, all, None, bs, true, hunks, ONES, ONES, d);
    }
    if Faithful(all, ReadAll(t, bs, hunks), d) {
      Weaken(true, all, ONES, 0, ReadAll(t, bs, hunks), d);
    }
  }

  // ----- both conditions can fail -----

  const SAMPLE_TASK := Task({0, 1}, 0, 2)
  const SAMPLE_OLD_BLOCK: Block := Block([2, 2, 0, 0], [4, 4, 0, 0])
  const SAMPLE_HUNKS: seq<Hunk> := [Hunk(2, 1, 2, 1), Hunk(5, 3, 5, 3)]

  /** Lines 2 to 5 of a file are one block already; the new buffer differs in line 2 and in lines 5 to 7: the second
      hunk shares the block with the first, and goes two lines beyond it. */
  lemma OverrunUncounted()
    ensures Lacking(SAMPLE_TASK, [SAMPLE_OLD_BLOCK], SAMPLE_HUNKS) == 2
  {
    var h, g := Hunk(2, 1, 2, 1), Hunk(5, 3, 5, 3);
    assert SAMPLE_HUNKS[1..] == [g] && [g][1..] == [] && [SAMPLE_OLD_BLOCK][1..] == [];
    assert EndRead(SAMPLE_TASK, 0, SAMPLE_OLD_BLOCK, [g]) == 6;
    assert EndRead(SAMPLE_TASK, 0, SAMPLE_OLD_BLOCK, SAMPLE_HUNKS) == 6;
    var ss := AsRead(SAMPLE_TASK, 0, [SAMPLE_OLD_BLOCK], SAMPLE_HUNKS);
    assert AsRead(SAMPLE_TASK, 6, [], SAMPLE_HUNKS) == [];
    assert ss == [Stretch(2, 6)] && ss[1..] == [];
    assert !Bridged(ss, 0, h) && Bridged(ss, 3, g) && LastReached(ss, 3, g) == 6;
    assert Overrun(ss, 3, [g]) == 2 + Overrun(ss, 8, []);
  }

  lemma SampleOldFits(d: Texts)
    requires Size(d, 0) == 8 && Size(d, 1) == 8
    ensures Aligned({0, 1}, [SAMPLE_OLD_BLOCK], d)
  {
    OneFits({0, 1}, SAMPLE_OLD_BLOCK, d);
  }

  lemma SampleHunksFit(d: Texts)
    requires Size(d, 0) == 8 && Size(d, 2) == 8
    ensures HunksFit(false, SAMPLE_TASK, ONES, 0, SAMPLE_HUNKS, d)
  {
    hide Sync;
    var x, y := AsBlock(SAMPLE_TASK, Hunk(2, 1, 2, 1)), AsBlock(SAMPLE_TASK, Hunk(5, 3, 5, 3));
    SampleAsBlocks(x, y);
    TwoFit(Pair(SAMPLE_TASK), x, y, d);
  }

  lemma SampleAsBlocks(x: Block, y: Block)
    requires x == AsBlock(SAMPLE_TASK, Hunk(2, 1, 2, 1)) && y == AsBlock(SAMPLE_TASK, Hunk(5, 3, 5, 3))
    ensures AsBlocks(SAMPLE_TASK, SAMPLE_HUNKS) == [x, y]
    ensures forall i {:trigger i in Pair(SAMPLE_TASK)} | i in Pair(SAMPLE_TASK) ::
              x.lnum[i] == 2 && x.count[i] == 1 && y.lnum[i] == 5 && y.count[i] == 3
  {
    assert SAMPLE_HUNKS[1..] == [Hunk(5, 3, 5, 3)] && SAMPLE_HUNKS[1..][1..] == [];
    assert AsBlocks(SAMPLE_TASK, SAMPLE_HUNKS[1..]) == [y];
  }

  lemma TwoFit(bufs: Bufs, x: Block, y: Block, d: Texts)
    requires forall i {:trigger i in bufs} | i in bufs ::
             x.lnum[i] == 2 && x.count[i] == 1 && y.lnum[i] == 5 && y.count[i] == 3 && Size(d, i) == 8
    ensures Sync(false, bufs, ONES, 0, [x, y], d)
  {
    hide SameText;
    assert [x, y][1..] == [y] && [y][1..] == [];
    assert Sync(false, bufs, y.Ends(), 1, [], d);
    assert Sync(false, bufs, x.Ends(), 1, [y], d);
  }

  /** So the list does not fit the new buffer, with eight lines in each of the three buffers. */
  lemma OverrunFails(d: Texts)
    requires Size(d, 0) == 8 && Size(d, 1) == 8 && Size(d, 2) == 8
    ensures Aligned({0, 1}, [SAMPLE_OLD_BLOCK], d) && HunksFit(false, SAMPLE_TASK, ONES, 0, SAMPLE_HUNKS, d)
    ensures !Aligned({0, 1, 2}, ReadAll(SAMPLE_TASK, [SAMPLE_OLD_BLOCK], SAMPLE_HUNKS), d)
  {
    hide Lacking, ReadAll, Aligned, HunksFit;
    SampleOldFits(d);
    SampleHunksFit(d);
    OverrunUncounted();
    ReadAligned(SAMPLE_TASK, [SAMPLE_OLD_BLOCK], SAMPLE_HUNKS, d);
    assert SAMPLE_TASK.bufs + {2} == {0, 1, 2};
  }

  const CLIPPED_BLOCK: Block := Block([4, 4, 0, 0], [6, 6, 0, 0])
  const CLIPPING_HUNK: Hunk := Hunk(2, 4, 2, 4)

  lemma ClipFits(d: Texts)
    requires Size(d, 0) == 9 && Size(d, 1) == 9 && Size(d, 2) == 9
    ensures Aligned({0, 1}, [CLIPPED_BLOCK], d) && HunksFit(false, SAMPLE_TASK, ONES, 0, [CLIPPING_HUNK], d)
  {
    hide Sync;
    OneFits({0, 1}, CLIPPED_BLOCK, d);
    var b := AsBlock(SAMPLE_TASK, CLIPPING_HUNK);
    assert [CLIPPING_HUNK][1..] == [] && AsBlocks(SAMPLE_TASK, [CLIPPING_HUNK]) == [b];
    OneFits(Pair(SAMPLE_TASK), b, d);
  }

  lemma OneFits(bufs: Bufs, b: Block, d: Texts)
    requires forall i {:trigger i in bufs} | i in bufs :: b.lnum[i] == b.lnum[0] >= 1 && b.count[i] == b.count[0] >= 0
                                                            && b.End(i) <= Size(d, i) + 1 && Size(d, i) == Size(d, 0)
    ensures Aligned(bufs, [b], d)
  {
    hide SameText;
    assert [b][1..] == [] && Sync(false, bufs, b.Ends(), 1, [], d);
  }

  /** Lines 4 to 9 are one block already; the new buffer differs in lines 2 to 5: the block that replaces it ends with
      line 7, and lines 8 and 9 are in no block any more. */
  lemma ClipLoses(d: Texts)
    requires Size(d, 0) == 9 && Size(d, 1) == 9 && Size(d, 2) == 9
    ensures Aligned({0, 1}, [CLIPPED_BLOCK], d) && HunksFit(false, SAMPLE_TASK, ONES, 0, [CLIPPING_HUNK], d)
    ensures !NothingLost(SAMPLE_TASK, [CLIPPED_BLOCK], [CLIPPING_HUNK])
    ensures var out := ReadAll(SAMPLE_TASK, [CLIPPED_BLOCK], [CLIPPING_HUNK]);
            forall l | 8 <= l <= 9 :: Covers([CLIPPED_BLOCK], 0, l, false) && !Covers(out, 0, l, false)
  {
    ClipFits(d);
    assert [CLIPPED_BLOCK][1..] == [] && [CLIPPING_HUNK][1..] == [];
    assert EndRead(SAMPLE_TASK, 0, CLIPPED_BLOCK, [CLIPPING_HUNK]) == 8 && !Spans([CLIPPING_HUNK], 8, 10);
    var r := Merged(SAMPLE_TASK, [CLIPPED_BLOCK], 0, true, CLIPPING_HUNK);
    assert r.lnum[0] == 2 && r.End(0) == 8;
    assert [r] + [CLIPPED_BLOCK][1..] == [r] && [CLIPPING_HUNK][1..] == [] && [r][1..] == [];
    assert Read(SAMPLE_TASK, None, [r], false, []) == [r] + Read(SAMPLE_TASK, Some(r), [], true, []);
    assert ReadAll(SAMPLE_TASK, [CLIPPED_BLOCK], [CLIPPING_HUNK]) == [r];
  }
}

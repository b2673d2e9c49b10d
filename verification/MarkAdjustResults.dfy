/** What an insertion or deletion of lines does to a list that fits the buffers, and exactly when it fits them again. */
module MarkAdjustResults {
  import opened DiffBlocks
  import opened DiffTrim
  import opened MarkAdjust
  import opened MarkAdjustKeeps
  import opened MarkAdjustExact

  // ----- the condition, on the old list and the new text -----

  /** Lines are inserted in or next to the block, and the line above them, the inserted lines and all that is below them
      in the block are common to all buffers. */
  ghost predicate InsertedAlike(ed: Edit, bufs: Bufs, b: Block, d': Texts)
    requires 0 <= ed.idx < DB_COUNT
  {
    IsInsertion(ed) && b.lnum[ed.idx] <= ed.line1 <= b.End(ed.idx)
    && EndsAlike(bufs, Enlarge(ed, b), b.End(ed.idx) - ed.line1 + ed.Inserted() + 1, d')
  }

  /** The last lines of the block are deleted, perhaps with lines below it but without the next block, and what is left
      of the block ends with a line that is common to all buffers. */
  ghost predicate DeletedAlike(ed: Edit, bufs: Bufs, b: Block, next: Option<Block>, d': Texts)
    requires 0 <= ed.idx < DB_COUNT
  {
    IsDeletion(ed) && b.lnum[ed.idx] < ed.line1 <= b.End(ed.idx) <= ed.line2 && !GoesOn(ed, next)
    && EndsAlike(bufs, CutBottom(ed, bufs, b, ed.line1, LinesBelow(ed, b, next)), 1, d')
  }

  /** One of the blocks is like that. */
  ghost predicate AnyAlike(ed: Edit, bufs: Bufs, bs: seq<Block>, d': Texts)
    requires 0 <= ed.idx < DB_COUNT
  {
    bs != [] && (InsertedAlike(ed, bufs, bs[0], d') || DeletedAlike(ed, bufs, bs[0], Next(bs), d')
        || AnyAlike(ed, bufs, bs[1..], d'))
  }

  lemma ShapeCutBottom(ed: Edit, bufs: Bufs, b: Block, next: Option<Block>, d: Texts)
    requires 0 <= ed.idx < DB_COUNT && IsDeletion(ed) && b.lnum[ed.idx] < ed.line1 <= b.End(ed.idx) <= ed.line2
    ensures var c := CutBottom(ed, bufs, b, ed.line1, LinesBelow(ed, b, next));
            Repair(ed, bufs, b, next, ed.Deleted(), ed.line1, d).block == Trim(bufs, c, d) && c.End(ed.idx) == ed.line1
  {
    hide Trim, LinesBelow;
  }

  /** Lines inserted in the touched block. */
  lemma InsertedText(ed: Edit, bufs: Bufs, prev: Option<Block>, rest: seq<Block>, d: Texts, d': Texts)
    requires Touches(false, ed, bufs, prev, rest, d, d') && IsInsertion(ed)
    ensures Shortened(ed, bufs, rest, d') <==> InsertedAlike(ed, bufs, rest[0], d')
  {
    hide Trim, Repair, EndsAlike, SameText, Sync;
    var b := rest[0];
    TouchesIs(false, ed, bufs, prev, rest, d, d');
    ShapeInserted(ed, bufs, b, Next(rest), ed.line1, d');
    TrimLifts(bufs, Enlarge(ed, b), b.End(ed.idx) - ed.line1 + ed.Inserted() + 1, d', ed.idx);
  }

  /** Lines deleted in the touched block. */
  lemma DeletedText(ed: Edit, bufs: Bufs, prev: Option<Block>, rest: seq<Block>, d: Texts, d': Texts)
    requires Touches(false, ed, bufs, prev, rest, d, d') && IsDeletion(ed)
    ensures Shortened(ed, bufs, rest, d') <==> DeletedAlike(ed, bufs, rest[0], Next(rest), d')
  {
    hide Trim, Repair, EndsAlike, SameText, Sync, CutBottom;
    var b, next := rest[0], Next(rest);
    if b.lnum[ed.idx] >= ed.line1 {
      TopNotShortened(ed, bufs, prev, rest, d, d');
    } else if ed.line2 < b.End(ed.idx) {
      ShapeInside(ed, bufs, b, next, d');
    } else if !GoesOn(ed, next) {
      CutText(ed, bufs, prev, rest, d, d');
    }
  }

  /** ... and below it. */
  lemma CutText(ed: Edit, bufs: Bufs, prev: Option<Block>, rest: seq<Block>, d: Texts, d': Texts)
    requires Touches(false, ed, bufs, prev, rest, d, d') && IsDeletion(ed)
    requires rest[0].lnum[ed.idx] < ed.line1 && rest[0].End(ed.idx) <= ed.line2 && !GoesOn(ed, Next(rest))
    ensures Shortened(ed, bufs, rest, d') <==> DeletedAlike(ed, bufs, rest[0], Next(rest), d')
  {
    hide Trim, Repair, EndsAlike, SameText, Sync;
    var b, next := rest[0], Next(rest);
    TouchesIs(false, ed, bufs, prev, rest, d, d');
    ShapeCutBottom(ed, bufs, b, next, d');
    var e := BelowBottom(false, ed, bufs, prev, rest, d, d');
    EndsInRange(false, bufs, e, 1, rest[1..], d);
    TrimLifts(bufs, CutBottom(ed, bufs, b, ed.line1, LinesBelow(ed, b, next)), 1, d', ed.idx);
  }

  /** Blocks below the edit are not touched. */
  lemma {:induction false} NoneBelow(ed: Edit, bufs: Bufs, e: Vec, m: nat, bs: seq<Block>, d: Texts, d': Texts)
    requires ed.idx in bufs && Sync(false, bufs, e, m, bs, d) && e[ed.idx] + m > ed.line1
    ensures !FiresTwice(ed, bufs, bs, d') && !AnyAlike(ed, bufs, bs, d')
    decreases |bs|
  {
    hide SameText, Repair, EndsAlike;
    if bs != [] {
      NoneBelow(ed, bufs, bs[0].Ends(), 1, bs[1..], d, d');
    }
  }

  /** The test of the loop succeeds a second time if and only if a block is like that. */
  lemma {:induction false} TwiceText(ed: Edit, bufs: Bufs, prev: Option<Block>, rest: seq<Block>, d: Texts, d': Texts)
    requires Above(false, ed, bufs, prev, rest, d, d')
    ensures FiresTwice(ed, bufs, rest, d') <==> AnyAlike(ed, bufs, rest, d')
    decreases |rest|
  {
    hide SameText, Repair, EndsAlike, Walk, Shortened;
    if rest != [] {
      var b := rest[0];
      if b.End(ed.idx) < ed.line1 {
        PassAbove(ed, bufs, prev, rest, d, d');
        NotAbove(ed, bufs, rest, d');
        TwiceText(ed, bufs, Some(b), rest[1..], d, d');
      } else if b.lnum[ed.idx] > Resume(ed) {
        NotBelow(ed, bufs, rest, d');
        NoneBelow(ed, bufs, b.Ends(), 1, rest[1..], d, d');
      } else {
        NoneBelow(ed, bufs, b.Ends(), 1, rest[1..], d, d');
        if IsInsertion(ed) {
          InsertedText(ed, bufs, prev, rest, d, d');
        } else {
          DeletedText(ed, bufs, prev, rest, d, d');
        }
      }
    }
  }

  lemma NotBelow(ed: Edit, bufs: Bufs, rest: seq<Block>, d': Texts)
    requires 0 <= ed.idx < DB_COUNT && rest != [] && rest[0].lnum[ed.idx] > ed.line1
    ensures !Shortened(ed, bufs, rest, d')
  {
    hide Repair;
  }

  lemma WholeList(ed: Edit, bufs: Bufs, bs: seq<Block>, d: Texts, d': Texts)
    requires PureEdit(ed, bufs, d, d') && Aligned(bufs, bs, d)
    ensures FiresTwice(ed, bufs, bs, d') <==> AnyAlike(ed, bufs, bs, d')
  {
    hide FiresTwice, AnyAlike, Sync;
    TwiceText(ed, bufs, None, bs, d, d');
  }

  // ----- main results -----

  /** With two or more buffers, an insertion or deletion of lines leaves an aligned list aligned if and only if
      the block it touches does not end, from the line above the edit on, with lines common to all buffers. */
  lemma AdjustAligned(ed: Edit, bufs: Bufs, bs: seq<Block>, d: Texts, d': Texts, j: int)
    requires PureEdit(ed, bufs, d, d') && Aligned(bufs, bs, d) && j in bufs && j != ed.idx
    ensures Aligned(bufs, Adjust(ed, bufs, false, bs, d'), d') <==> !AnyAlike(ed, bufs, bs, d')
  {
    hide Walk, Gap, FiresTwice, DropEmpty, Sync, AnyAlike;
    WholeList(ed, bufs, bs, d, d');
    if FiresTwice(ed, bufs, bs, d') {
      var out := TwiceExcess(ed, bufs, None, bs, d, d', j);
      assert AsSeq(None) + out == out;
      ExcessDropEmpty(bufs, out, ed.idx, j);
      Conserved(bufs, ONES, 0, bs, d, ed.idx, j);
      if Aligned(bufs, Adjust(ed, bufs, false, bs, d'), d') {
        Conserved(bufs, ONES, 0, Adjust(ed, bufs, false, bs, d'), d', ed.idx, j);
      }
    } else {
      AdjustKeeps(false, ed, bufs, bs, d, d');
    }
  }

  /** Then the text outside the blocks also stays the same in all buffers. */
  lemma AdjustFaithful(ed: Edit, bufs: Bufs, bs: seq<Block>, d: Texts, d': Texts)
    requires PureEdit(ed, bufs, d, d') && Faithful(bufs, bs, d) && !AnyAlike(ed, bufs, bs, d')
    ensures Faithful(bufs, Adjust(ed, bufs, false, bs, d'), d')
  {
    hide FiresTwice, Sync, Adjust, AnyAlike;
    Weaken(true, bufs, ONES, 0, bs, d);
    WholeList(ed, bufs, bs, d, d');
    AdjustKeeps(true, ed, bufs, bs, d, d');
  }

  // The list does get out of step: buffer 0 is [q, a], buffer 1 is [a, a], all of it is one block, and a third line `a`
  // is appended to buffer 0.

  const SAMPLE_BUFS: Bufs := {0, 1}
  const SAMPLE_OLD: Texts := Docs([[[(0, 'q')], [(0, 'a')]], [[(0, 'a')], [(0, 'a')]], [], []], [])
  const SAMPLE_NEW: Texts := Docs([[[(0, 'q')], [(0, 'a')], [(0, 'a')]], [[(0, 'a')], [(0, 'a')]], [], []], [])
  const SAMPLE_BLOCK := Block(ONES, [2, 2, 0, 0])
  const SAMPLE_EDIT := Edit(0, 3, MAXLNUM, 1, 0)

  /** The last two lines of the block, of which one was there and one is new, are common to the buffers; the first is
      not. */
  lemma SampleAlike()
    ensures InsertedAlike(SAMPLE_EDIT, SAMPLE_BUFS, SAMPLE_BLOCK, SAMPLE_NEW)
  {
    hide CommonTop, CommonBottom;
    var c := Enlarge(SAMPLE_EDIT, SAMPLE_BLOCK);
    SampleBottom(c);
    SampleTop(c);
    SampleDiffers(c);
    assert CommonEnds(SAMPLE_BUFS, c, 0, 2, SAMPLE_NEW);
  }

  lemma SampleBottom(c: Block)
    requires c.count[0] == 3 && c.count[1] == 2 && c.lnum[0] == 1 && c.lnum[1] == 1
    ensures CommonBottom(SAMPLE_BUFS, c, 2, SAMPLE_NEW)
  {
    hide Slice;
    SampleSlices();
    assert Size(SAMPLE_NEW, 0) == 3 && Size(SAMPLE_NEW, 1) == 2;
  }

  lemma SampleSlices()
    ensures Slice(SAMPLE_NEW, 0, 2, 4) == Slice(SAMPLE_NEW, 1, 1, 3)
  {
  }

  lemma SampleTop(c: Block)
    requires c.count[0] == 3 && c.count[1] == 2 && c.lnum[0] == 1 && c.lnum[1] == 1
    ensures CommonTop(SAMPLE_BUFS, c, 0, SAMPLE_NEW)
  {
    hide Slice;
    GapNone(true, SAMPLE_BUFS, c.lnum, Without(SAMPLE_BUFS, c, 0, 0).lnum, SAMPLE_NEW);
  }

  lemma SampleDiffers(c: Block)
    requires c.lnum[0] == 1 && c.lnum[1] == 1
    ensures !CommonTop(SAMPLE_BUFS, c, 1, SAMPLE_NEW)
  {
    if CommonTop(SAMPLE_BUFS, c, 1, SAMPLE_NEW) {
      assert 0 in SAMPLE_BUFS && 1 in SAMPLE_BUFS;
      CommonLine(SAMPLE_BUFS, c.lnum, Without(SAMPLE_BUFS, c, 1, 0).lnum, 1, 0, SAMPLE_NEW, 0, 1);
    }
  }

  lemma SampleFits()
    ensures Faithful(SAMPLE_BUFS, [SAMPLE_BLOCK], SAMPLE_OLD) && Aligned(SAMPLE_BUFS, [SAMPLE_BLOCK], SAMPLE_OLD)
  {
    hide SameText, Slice;
    GapNone(true, SAMPLE_BUFS, ONES, SAMPLE_BLOCK.lnum, SAMPLE_OLD);
    GapNone(true, SAMPLE_BUFS, SAMPLE_BLOCK.Ends(), AfterLast(SAMPLE_OLD), SAMPLE_OLD);
    hide Gap;
    assert Sync(true, SAMPLE_BUFS, SAMPLE_BLOCK.Ends(), 1, [SAMPLE_BLOCK][1..], SAMPLE_OLD);
    Weaken(true, SAMPLE_BUFS, ONES, 0, [SAMPLE_BLOCK], SAMPLE_OLD);
  }

  lemma SamplePure()
    ensures PureEdit(SAMPLE_EDIT, SAMPLE_BUFS, SAMPLE_OLD, SAMPLE_NEW)
  {
  }

  lemma AdjustCanFail()
    ensures Faithful(SAMPLE_BUFS, [SAMPLE_BLOCK], SAMPLE_OLD)
            && PureEdit(SAMPLE_EDIT, SAMPLE_BUFS, SAMPLE_OLD, SAMPLE_NEW)
    ensures !Aligned(SAMPLE_BUFS, Adjust(SAMPLE_EDIT, SAMPLE_BUFS, false, [SAMPLE_BLOCK], SAMPLE_NEW), SAMPLE_NEW)
  {
    SampleAlike();
    SampleFits();
    SamplePure();
    hide InsertedAlike, DeletedAlike, Sync, Adjust, PureEdit;
    AdjustAligned(SAMPLE_EDIT, SAMPLE_BUFS, [SAMPLE_BLOCK], SAMPLE_OLD, SAMPLE_NEW, 1);
  }
}

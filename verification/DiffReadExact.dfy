/** Exactly when reading the hunks of a further buffer brings the list in step with it and loses no difference. */
module DiffReadExact {
  import opened DiffBlocks
  import opened DiffRead
  import opened DiffReadKeeps
  import opened MarkAdjustExact

  function HunkExcess(hunks: seq<Hunk>): int {
    if hunks == [] then 0 else hunks[0].countNew - hunks[0].countOrig + HunkExcess(hunks[1..])
  }

  lemma {:induction false} HunkExcessIs(t: Task, hunks: seq<Hunk>)
    requires t.Valid()
    ensures Excess(AsBlocks(t, hunks), t.new_, t.orig) == HunkExcess(hunks)
  {
    if hunks != [] {
      HunkExcessIs(t, hunks[1..]);
      assert AsBlocks(t, hunks)[1..] == AsBlocks(t, hunks[1..]);
    }
  }

  /** What the first block, if set, contributes. */
  function SetExcess(t: Task, bs: seq<Block>, notset: bool): int
    requires 0 <= t.orig < DB_COUNT && 0 <= t.new_ < DB_COUNT
  {
    if notset || bs == [] then 0 else bs[0].count[t.new_] - bs[0].count[t.orig]
  }

  lemma JoinsExcess(t: Task, bs: seq<Block>, j: nat, h: Hunk, r: Block, k: int)
    requires t.Valid() && j < |bs| && Joins(t, bs, j, h, r, k)
    ensures r.count[t.new_] - r.count[t.orig] == h.countNew - h.countOrig
  {
    assert t.orig in t.bufs;
  }

  lemma ExtendsExcess(t: Task, bs: seq<Block>, j: nat, h: Hunk, r: Block)
    requires t.Valid() && j < |bs| && Extends(t, bs, j, h, r)
    ensures r.count[t.new_] - r.count[t.orig]
         == bs[0].count[t.new_] - bs[0].count[t.orig]
             + h.countNew - h.countOrig - Max(h.EndOrig() - bs[j].End(t.orig), 0)
  {
    assert t.orig in t.bufs;
  }

  lemma MeetExcess(t: Task, prev: Option<Block>, bs: seq<Block>, notset: bool, hunks: seq<Hunk>, q: Vec, x: Vec,
                   d: Texts)
    requires State(false, t, t.bufs, prev, bs, notset, hunks, q, x, d)
    requires hunks != [] && bs != [] && Meets(t, bs[0], hunks[0])
    ensures var j, h := LastMet(t, bs, hunks[0]), hunks[0];
            var r, over := Merged(t, bs, j, notset, h), h.EndOrig() - bs[j].End(t.orig);
            (r.count[t.new_] - r.count[t.orig]
             == SetExcess(t, bs, notset) + h.countNew - h.countOrig - (if !notset && over > 0 then over else 0))
  {
    hide Merged, LastMet, Joins, Extends, Gap;
    var j, h := LastMet(t, bs, hunks[0]), hunks[0];
    if notset {
      JoinsUnset(t, bs, j, h);
      JoinsExcess(t, bs, j, h, Merged(t, bs, j, true, h), Beyond(t, bs, j, h));
    } else {
      HunkNext(false, t, q, 1, hunks, d);
      JoinsSet(t, bs, j, h);
      ExtendsExcess(t, bs, j, h, Merged(t, bs, j, false, h));
    }
  }

  /** A block that no hunk meets contributes only what was read before. */
  lemma PassExcess(t: Task, prev: Option<Block>, bs: seq<Block>, notset: bool, hunks: seq<Hunk>, q: Vec, x: Vec,
                   b: Block, d: Texts)
    returns (p: Vec)
    requires State(false, t, t.bufs, prev, bs, notset, hunks, q, x, d) && Passes(t, bs, hunks)
    requires b == if notset then CopyEntry(prev, bs[0], t.orig, t.new_) else bs[0]
    ensures State(false, t, t.bufs, Some(b), bs[1..], true, hunks, p, x, d)
    ensures b.count[t.new_] - b.count[t.orig] == SetExcess(t, bs, notset)
  {
    hide Gap, Sync, CopyEntry;
    if notset {
      CopyShape(t, prev, bs[0]);
      p := PassUnset(false, t, t.bufs, prev, bs, b, hunks, q, d);
      assert t.orig in t.bufs && b.count[t.orig] == bs[0].count[t.orig];
    } else {
      p := PassSet(false, t, t.bufs, prev, bs, hunks, q, x, d);
    }
  }

  /** The blocks account for all the lines the hunks add or take away, except for the uncounted ones. */
  lemma {:induction false} ReadExcess(t: Task, prev: Option<Block>, bs: seq<Block>, notset: bool, hunks: seq<Hunk>,
                                      q: Vec, x: Vec, d: Texts)
    requires State(false, t, t.bufs, prev, bs, notset, hunks, q, x, d)
    ensures Excess(Read(t, prev, bs, notset, hunks), t.new_, t.orig)
         == SetExcess(t, bs, notset) + HunkExcess(hunks) - Uncounted(t, prev, bs, notset, hunks)
    decreases |hunks|, |bs|
  {
    hide Gap, Sync, CopyEntry, Merged, LastMet, HunkBlock;
    if Passes(t, bs, hunks) {
      var b := if notset then CopyEntry(prev, bs[0], t.orig, t.new_) else bs[0];
      var p := PassExcess(t, prev, bs, notset, hunks, q, x, b, d);
      ReadExcess(t, Some(b), bs[1..], true, hunks, p, x, d);
      var below := Read(t, Some(b), bs[1..], true, hunks);
      assert ([b] + below)[1..] == below;
    } else if hunks == [] {
    } else if bs != [] && Meets(t, bs[0], hunks[0]) {
      MeetExcess(t, prev, bs, notset, hunks, q, x, d);
      var r, p, y := ReadMeet(false, t, t.bufs, prev, bs, notset, hunks, q, x, d);
      ReadExcess(t, prev, [r] + bs[LastMet(t, bs, hunks[0]) + 1..], false, hunks[1..], p, y, d);
    } else {
      var r := HunkBlock(t, prev, hunks[0]);
      assert t.Valid();
      hide Unset, Set;
      HunkBlockShape(t, prev, hunks[0]);
      assert t.orig in t.bufs;
      var p := ReadNewState(false, t, t.bufs, prev, bs, notset, hunks, q, x, d);
      ReadExcess(t, prev, [r] + bs, false, hunks[1..], p, r.Ends(), d);
    }
  }

  // ----- the lines the list covers -----

  /** Line l of buffer i is in a block, or just below one if `closed`. */
  predicate Covers(bs: seq<Block>, i: int, l: int, closed: bool)
    requires 0 <= i < DB_COUNT
  {
    bs != [] && (InBlock(bs[0].lnum[i], bs[0].End(i), l, closed) || Covers(bs[1..], i, l, closed))
  }

  predicate InBlock(a: int, b: int, l: int, closed: bool) { a <= l < b || (closed && a <= l == b) }

  predicate HunksCover(hunks: seq<Hunk>, l: int, closed: bool) {
    hunks != [] && (InBlock(hunks[0].lnumOrig, hunks[0].EndOrig(), l, closed) || HunksCover(hunks[1..], l, closed))
  }

  lemma {:induction false} CoversBelow(bufs: Bufs, e: Vec, m: nat, bs: seq<Block>, d: Texts, i: int, l: int,
                                       closed: bool)
    requires Sync(false, bufs, e, m, bs, d) && i in bufs && Covers(bs, i, l, closed)
    ensures l >= e[i] + m
    decreases |bs|
  {
    hide SameText;
    if !InBlock(bs[0].lnum[i], bs[0].End(i), l, closed) {
      CoversBelow(bufs, bs[0].Ends(), 1, bs[1..], d, i, l, closed);
    }
  }

  lemma {:induction false} HunksBelow(t: Task, q: Vec, m: nat, hunks: seq<Hunk>, d: Texts, l: int, closed: bool)
    requires HunksFit(false, t, q, m, hunks, d) && HunksCover(hunks, l, closed)
    ensures l >= hunks[0].lnumOrig
    decreases |hunks|
  {
    HunkNext(false, t, q, m, hunks, d);
    if !InBlock(hunks[0].lnumOrig, hunks[0].EndOrig(), l, closed) {
      HunksBelow(t, AsBlock(t, hunks[0]).Ends(), 1, hunks[1..], d, l, closed);
    }
  }

  /** The first block is a proper one, and the others are below it. */
  ghost predicate Ordered(t: Task, bs: seq<Block>, x: Vec, d: Texts) {
    && t.Valid() && bs != []
    && bs[0].lnum[t.orig] <= bs[0].End(t.orig) <= x[t.orig]
    && Sync(false, t.bufs, x, 1, bs[1..], d)
  }

  lemma OrderedNext(t: Task, bs: seq<Block>, x: Vec, d: Texts)
    requires Ordered(t, bs, x, d) && |bs| > 1
    ensures Ordered(t, bs[1..], bs[1].Ends(), d) && bs[1].lnum[t.orig] > bs[0].End(t.orig)
  {
    hide SameText;
    assert t.orig in t.bufs;
    assert bs[1..][0] == bs[1];
  }

  /** The blocks the hunk meets, and the hunk, leave no line uncovered between them. */
  lemma {:induction false} CoversMet(t: Task, bs: seq<Block>, x: Vec, h: Hunk, d: Texts, l: int, closed: bool)
    requires Ordered(t, bs, x, d) && Meets(t, bs[0], h) && h.countOrig >= 0
    ensures var j := LastMet(t, bs, h);
            Covers(bs, t.orig, l, closed) || InBlock(h.lnumOrig, h.EndOrig(), l, closed)
            <==> InBlock(Min(bs[0].lnum[t.orig], h.lnumOrig), Max(bs[j].End(t.orig), h.EndOrig()), l, closed)
                 || Covers(bs[j + 1..], t.orig, l, closed)
    decreases |bs|
  {
    hide Sync;
    if |bs| > 1 && h.EndOrig() >= bs[1].lnum[t.orig] {
      OrderedNext(t, bs, x, d);
      var g := Hunk(bs[1].lnum[t.orig], h.EndOrig() - bs[1].lnum[t.orig], 0, 0);
      LastMetEnd(t, bs[1..], bs[1].Ends(), h, d);
      CoversMet(t, bs[1..], bs[1].Ends(), g, d, l, closed);
      LastMetSame(t, bs[1..], h, g);
    }
  }

  lemma {:induction false} LastMetEnd(t: Task, bs: seq<Block>, x: Vec, h: Hunk, d: Texts)
    requires Ordered(t, bs, x, d)
    ensures bs[LastMet(t, bs, h)].End(t.orig) >= bs[0].End(t.orig)
  {
    hide Sync;
    if |bs| > 1 && h.EndOrig() >= bs[1].lnum[t.orig] {
      OrderedNext(t, bs, x, d);
      LastMetEnd(t, bs[1..], bs[1].Ends(), h, d);
    }
  }

  lemma {:induction false} LastMetSame(t: Task, bs: seq<Block>, h: Hunk, g: Hunk)
    requires t.Valid() && bs != [] && h.EndOrig() == g.EndOrig()
    ensures LastMet(t, bs, h) == LastMet(t, bs, g)
  {
    if |bs| > 1 && h.EndOrig() >= bs[1].lnum[t.orig] {
      LastMetSame(t, bs[1..], h, g);
    }
  }

  /** Where the block that replaces the met blocks starts and ends in the original. */
  lemma MeetSpan(t: Task, prev: Option<Block>, bs: seq<Block>, notset: bool, hunks: seq<Hunk>, q: Vec, x: Vec, d: Texts)
    requires State(false, t, t.bufs, prev, bs, notset, hunks, q, x, d)
    requires hunks != [] && bs != [] && Meets(t, bs[0], hunks[0])
    ensures var j, h := LastMet(t, bs, hunks[0]), hunks[0];
            var r := Merged(t, bs, j, notset, h);
            && r.lnum[t.orig] == Min(bs[0].lnum[t.orig], h.lnumOrig)
            && (Clips(t, bs, j, h) ==>
                  notset && r.End(t.orig) < bs[0].End(t.orig)
                  && r.End(t.orig) == Max(bs[0].End(t.orig) - (bs[0].lnum[t.orig] - h.lnumOrig), h.EndOrig()))
            && (!Clips(t, bs, j, h) ==> r.End(t.orig) == Max(bs[j].End(t.orig), h.EndOrig()))
  {
    hide Merged, LastMet, Gap;
    var j, h := LastMet(t, bs, hunks[0]), hunks[0];
    assert t.orig in t.bufs;
    if notset {
      JoinsUnset(t, bs, j, h);
    } else {
      HunkNext(false, t, q, 1, hunks, d);
      JoinsSet(t, bs, j, h);
    }
  }

  lemma {:induction false} SpansCover(hunks: seq<Hunk>, x: int, y: int, l: int, closed: bool)
    requires Spans(hunks, x, y) && x <= l && (l < y || (closed && l == y))
    ensures HunksCover(hunks, l, closed)
  {
    if !(hunks[0].lnumOrig <= x && y <= hunks[0].EndOrig()) {
      SpansCover(hunks[1..], x, y, l, closed);
    }
  }

  /** Since there is a line between two hunks, several of them do not cover what none of them spans. */
  lemma {:induction false} NotSpanned(t: Task, q: Vec, m: nat, hunks: seq<Hunk>, d: Texts, x: int, y: int)
      returns (l: int)
    requires HunksFit(false, t, q, m, hunks, d) && !Spans(hunks, x, y) && x < y
    ensures x <= l < y && !HunksCover(hunks, l, false)
    decreases |hunks|
  {
    l := x;
    if hunks != [] {
      var h := hunks[0];
      HunkNext(false, t, q, m, hunks, d);
      if h.EndOrig() <= x {
        l := NotSpanned(t, AsBlock(t, h).Ends(), 1, hunks[1..], d, x, y);
      } else {
        l := if h.lnumOrig <= x then h.EndOrig() else x;
        if HunksCover(hunks[1..], l, false) {
          HunksBelow(t, AsBlock(t, h).Ends(), 1, hunks[1..], d, l, false);
        }
      }
    }
  }

  lemma StateOrdered(t: Task, prev: Option<Block>, bs: seq<Block>, notset: bool, hunks: seq<Hunk>, q: Vec, x: Vec,
                     d: Texts) returns (y: Vec)
    requires State(false, t, t.bufs, prev, bs, notset, hunks, q, x, d) && bs != []
    ensures Ordered(t, bs, y, d)
  {
    hide SameText;
    assert t.orig in t.bufs;
    y := if notset then bs[0].Ends() else x;
  }

  /** One hunk that meets a block, and covered lines. */
  lemma MeetCovers(t: Task, prev: Option<Block>, bs: seq<Block>, notset: bool, r: Block, hunks: seq<Hunk>, q: Vec,
                   x: Vec, p: Vec, z: Vec, d: Texts, l: int, closed: bool)
    requires State(false, t, t.bufs, prev, bs, notset, hunks, q, x, d)
    requires hunks != [] && bs != [] && Meets(t, bs[0], hunks[0])
    requires r == Merged(t, bs, LastMet(t, bs, hunks[0]), notset, hunks[0])
    requires State(false, t, t.bufs, prev, [r] + bs[LastMet(t, bs, hunks[0]) + 1..], false, hunks[1..], p, z, d)
    ensures var j := LastMet(t, bs, hunks[0]);
            var before := Covers(bs, t.orig, l, closed) || HunksCover(hunks, l, closed);
            var after := Covers([r] + bs[j + 1..], t.orig, l, closed) || HunksCover(hunks[1..], l, closed);
            && (after ==> before)
            && (!Clips(t, bs, j, hunks[0]) ==> (before ==> after))
            && (Spans(hunks[1..], r.End(t.orig), bs[0].End(t.orig)) ==> (before ==> after))
  {
    var j, h := LastMet(t, bs, hunks[0]), hunks[0];
    var rest := [r] + bs[j + 1..];
    hide Merged, LastMet, Gap, Sync, HunkBlock;
    HunkFirst(t, prev, bs, notset, hunks, q, x, d);
    var y := StateOrdered(t, prev, bs, notset, hunks, q, x, d);
    CoversMet(t, bs, y, h, d, l, closed);
    MeetSpan(t, prev, bs, notset, hunks, q, x, d);
    assert rest[1..] == bs[j + 1..];
    if Clips(t, bs, j, h) && Spans(hunks[1..], r.End(t.orig), bs[0].End(t.orig))
       && r.End(t.orig) <= l && (l < bs[0].End(t.orig) || (closed && l == bs[0].End(t.orig))) {
      SpansCover(hunks[1..], r.End(t.orig), bs[0].End(t.orig), l, closed);
    }
  }

  lemma HunkFirst(t: Task, prev: Option<Block>, bs: seq<Block>, notset: bool, hunks: seq<Hunk>, q: Vec, x: Vec,
                  d: Texts)
    requires State(false, t, t.bufs, prev, bs, notset, hunks, q, x, d) && hunks != []
    ensures hunks[0].countOrig >= 0
  {
    hide Gap, Sync;
    HunkNext(false, t, q, if notset then Least(prev) else 1, hunks, d);
  }

  /** If no line is lost for good, the blocks cover the lines of the old blocks and of the hunks, and no others. */
  lemma {:induction false} ReadCovers(t: Task, prev: Option<Block>, bs: seq<Block>, notset: bool, hunks: seq<Hunk>,
                                      q: Vec, x: Vec, d: Texts, l: int, closed: bool)
    requires State(false, t, t.bufs, prev, bs, notset, hunks, q, x, d)
    ensures Covers(Read(t, prev, bs, notset, hunks), t.orig, l, closed)
            ==> Covers(bs, t.orig, l, closed) || HunksCover(hunks, l, closed)
    ensures Recovered(t, prev, bs, notset, hunks) ==>
              (Covers(bs, t.orig, l, closed) || HunksCover(hunks, l, closed)
               ==> Covers(Read(t, prev, bs, notset, hunks), t.orig, l, closed))
    decreases |hunks|, |bs|
  {
    hide Gap, Sync, CopyEntry, Merged, LastMet, HunkBlock, InBlock;
    if Passes(t, bs, hunks) {
      var b, p := PassState(t, prev, bs, notset, hunks, q, x, d);
      ReadCovers(t, Some(b), bs[1..], true, hunks, p, x, d, l, closed);
      var below := Read(t, Some(b), bs[1..], true, hunks);
      assert ([b] + below)[1..] == below;
    } else if hunks == [] {
    } else if bs != [] && Meets(t, bs[0], hunks[0]) {
      var r, p, y := ReadMeet(false, t, t.bufs, prev, bs, notset, hunks, q, x, d);
      var rest := [r] + bs[LastMet(t, bs, hunks[0]) + 1..];
      ReadCovers(t, prev, rest, false, hunks[1..], p, y, d, l, closed);
      MeetCovers(t, prev, bs, notset, r, hunks, q, x, p, y, d, l, closed);
    } else {
      var r, p := NewState(t, prev, bs, notset, hunks, q, x, d);
      ReadCovers(t, prev, [r] + bs, false, hunks[1..], p, r.Ends(), d, l, closed);
      assert ([r] + bs)[1..] == bs;
    }
  }

  lemma PassState(t: Task, prev: Option<Block>, bs: seq<Block>, notset: bool, hunks: seq<Hunk>, q: Vec, x: Vec,
                  d: Texts)
    returns (b: Block, p: Vec)
    requires State(false, t, t.bufs, prev, bs, notset, hunks, q, x, d) && Passes(t, bs, hunks)
    ensures b == (if notset then CopyEntry(prev, bs[0], t.orig, t.new_) else bs[0])
    ensures b.lnum[t.orig] == bs[0].lnum[t.orig] && b.End(t.orig) == bs[0].End(t.orig)
    ensures State(false, t, t.bufs, Some(b), bs[1..], true, hunks, p, x, d)
  {
    hide Gap, Sync, CopyEntry;
    b := if notset then CopyEntry(prev, bs[0], t.orig, t.new_) else bs[0];
    if notset {
      CopyShape(t, prev, bs[0]);
      p := PassUnset(false, t, t.bufs, prev, bs, b, hunks, q, d);
      assert t.orig in t.bufs;
    } else {
      p := PassSet(false, t, t.bufs, prev, bs, hunks, q, x, d);
    }
  }

  lemma NewState(t: Task, prev: Option<Block>, bs: seq<Block>, notset: bool, hunks: seq<Hunk>, q: Vec, x: Vec, d: Texts)
    returns (r: Block, p: Vec)
    requires State(false, t, t.bufs, prev, bs, notset, hunks, q, x, d)
    requires !Passes(t, bs, hunks) && hunks != [] && !(bs != [] && Meets(t, bs[0], hunks[0]))
    ensures r == HunkBlock(t, prev, hunks[0])
    ensures r.lnum[t.orig] == hunks[0].lnumOrig && r.End(t.orig) == hunks[0].EndOrig()
    ensures State(false, t, t.bufs, prev, [r] + bs, false, hunks[1..], p, r.Ends(), d)
  {
    hide Gap, Sync, HunkBlock;
    r := HunkBlock(t, prev, hunks[0]);
    ReadNew(false, t, t.bufs, prev, bs, notset, hunks, q, x, d);
    HunkBlockShape(t, prev, hunks[0]);
    assert t.orig in t.bufs;
    p := NewBlockFits(false, t, t.bufs, prev, bs, r, hunks, q, d);
  }

  /** If the end of a block is lost for good, some line that differs is outside all blocks. */
  lemma {:induction false} ReadLoses(t: Task, prev: Option<Block>, bs: seq<Block>, notset: bool, hunks: seq<Hunk>,
                                     q: Vec, x: Vec, d: Texts)
    returns (l: int)
    requires State(false, t, t.bufs, prev, bs, notset, hunks, q, x, d)
    requires !Recovered(t, prev, bs, notset, hunks)
    ensures Covers(bs, t.orig, l, false) || HunksCover(hunks, l, false)
    ensures !Covers(Read(t, prev, bs, notset, hunks), t.orig, l, false)
    decreases |hunks|, |bs|
  {
    hide Gap, Sync, CopyEntry, Merged, LastMet, HunkBlock;
    if Passes(t, bs, hunks) {
      var b, p := PassState(t, prev, bs, notset, hunks, q, x, d);
      l := ReadLoses(t, Some(b), bs[1..], true, hunks, p, x, d);
      var below := Read(t, Some(b), bs[1..], true, hunks);
      assert ([b] + below)[1..] == below;
      LostBelow(t, b, bs[1..], hunks, p, x, d, l);
    } else if bs != [] && Meets(t, bs[0], hunks[0]) {
      var r, p, y := ReadMeet(false, t, t.bufs, prev, bs, notset, hunks, q, x, d);
      var j := LastMet(t, bs, hunks[0]);
      var rest := [r] + bs[j + 1..];
      if Clips(t, bs, j, hunks[0]) && !Spans(hunks[1..], r.End(t.orig), bs[0].End(t.orig)) {
        l := ClipUncovered(t, prev, bs, notset, r, hunks, q, x, p, y, d);
        ReadCovers(t, prev, rest, false, hunks[1..], p, y, d, l, false);
      } else {
        l := ReadLoses(t, prev, rest, false, hunks[1..], p, y, d);
        MeetCovers(t, prev, bs, notset, r, hunks, q, x, p, y, d, l, false);
      }
    } else {
      var r, p := NewState(t, prev, bs, notset, hunks, q, x, d);
      l := ReadLoses(t, prev, [r] + bs, false, hunks[1..], p, r.Ends(), d);
      assert ([r] + bs)[1..] == bs;
    }
  }

  /** A line of a clipped block that no hunk spans. */
  lemma ClipUncovered(t: Task, prev: Option<Block>, bs: seq<Block>, notset: bool, r: Block, hunks: seq<Hunk>, q: Vec,
                      x: Vec, p: Vec, z: Vec, d: Texts) returns (l: int)
    requires State(false, t, t.bufs, prev, bs, notset, hunks, q, x, d)
    requires hunks != [] && bs != [] && Meets(t, bs[0], hunks[0]) && Clips(t, bs, LastMet(t, bs, hunks[0]), hunks[0])
    requires r == Merged(t, bs, LastMet(t, bs, hunks[0]), notset, hunks[0])
    requires State(false, t, t.bufs, prev, [r] + bs[LastMet(t, bs, hunks[0]) + 1..], false, hunks[1..], p, z, d)
    requires !Spans(hunks[1..], r.End(t.orig), bs[0].End(t.orig))
    ensures Covers(bs, t.orig, l, false) && !HunksCover(hunks[1..], l, false)
    ensures !Covers([r] + bs[LastMet(t, bs, hunks[0]) + 1..], t.orig, l, false)
  {
    hide Merged, Gap, LastMet, SameText;
    var rest := [r] + bs[LastMet(t, bs, hunks[0]) + 1..];
    MeetSpan(t, prev, bs, notset, hunks, q, x, d);
    HunkFirst(t, prev, bs, notset, hunks, q, x, d);
    l := NotSpanned(t, p, 1, hunks[1..], d, r.End(t.orig), bs[0].End(t.orig));
    assert rest[1..] == bs[1..];
    var y := StateOrdered(t, prev, bs, notset, hunks, q, x, d);
    if Covers(bs[1..], t.orig, l, false) {
      CoversBelow(t.bufs, y, 1, bs[1..], d, t.orig, l, false);
    }
  }

  lemma LostBelow(t: Task, b: Block, bs: seq<Block>, hunks: seq<Hunk>, p: Vec, x: Vec, d: Texts, l: int)
    requires State(false, t, t.bufs, Some(b), bs, true, hunks, p, x, d)
    requires Covers(bs, t.orig, l, false) || HunksCover(hunks, l, false)
    ensures l > b.End(t.orig)
  {
    hide Gap, SameText;
    if Covers(bs, t.orig, l, false) {
      CoversBelow(t.bufs, b.Ends(), 1, bs, d, t.orig, l, false);
    } else {
      HunkNext(false, t, p, 1, hunks, d);
      HunksBelow(t, p, 1, hunks, d, l, false);
    }
  }

  lemma Start(content: bool, t: Task, g: Bufs, bs: seq<Block>, hunks: seq<Hunk>, d: Texts)
    requires Goal(t, g) && Sync(content, t.bufs, ONES, 0, bs, d) && HunksFit(content, t, ONES, 0, hunks, d)
    ensures State(content, t, g, None, bs, true, hunks, ONES, ONES, d)
  {
  }
}

/** A `:diffget` or `:diffput` that takes every block makes the two buffers equal, except in one situation. */
module DiffGetAll {
  import opened LineCompare
  import opened TextLines
  import opened DiffBlocks
  import opened DiffList
  import opened DiffGet
  import opened Sequences

  /** All blocks are in the range, and none is cut by it. */
  ghost predicate TakesAll(c: Command, bs: seq<Block>)
    requires c.Valid()
  {
    forall k | 0 <= k < |bs| :: Takes(c, bs[k], 0) && Whole(c, bs[k], 0)
  }

  /** When the block's turn comes, the text is a single empty line: line above the block in the source, or last line
      below it in the target. The block has no lines in the target, and the empty line is taken for one that only stands
      for an empty buffer. */
  predicate Mistaken(c: Command, b: Block, target: seq<Line>, source: seq<Line>)
    requires c.Valid()
  {
    b.count[c.to] == 0 && b.count[c.from] > 0
    && IsEmpty(Lines(source, 1, b.lnum[c.from]) + Lines(target, b.lnum[c.to], |target| + 1))
  }

  /** The list fits the text of both buffers below line e, comparing lines exactly. */
  ghost predicate Exactly(c: Command, e: Vec, m: nat, bs: seq<Block>, opt: DiffOpt, text: Buffers)
    requires c.Valid()
  {
    && !opt.icase && !opt.iwhite
    && Sync(true, {c.from, c.to}, e, m, bs, KeysOf(opt, text))
  }

  lemma SameStretch(c: Command, opt: DiffOpt, text: Buffers, e: Vec, f: Vec, m: nat)
    requires c.Valid() && !opt.icase && !opt.iwhite && Gap(true, {c.from, c.to}, e, f, m, KeysOf(opt, text))
    ensures Lines(text[c.to], e[c.to], f[c.to]) == Lines(text[c.from], e[c.from], f[c.from])
  {
    hide Normal;
    var d := KeysOf(opt, text);
    var (i, j) := (c.to, c.from);
    assert i in {c.from, c.to} && j in {c.from, c.to};
    var (x, y) := (Lines(text[i], e[i], f[i]), Lines(text[j], e[j], f[j]));
    forall k | 0 <= k < |x| ensures x[k] == y[k] {
      assert Slice(d, i, e[i], f[i])[k] == Normal(opt, x[k]);
      assert Slice(d, j, e[j], f[j])[k] == Normal(opt, y[k]);
      SameExact(opt, x[k], y[k]);
    }
  }

  lemma ExactlyNext(c: Command, e: Vec, m: nat, bs: seq<Block>, opt: DiffOpt, text: Buffers)
    requires c.Valid() && Exactly(c, e, m, bs, opt, text) && TakesAll(c, bs)
    ensures Fit(c, e, m, bs, text[c.to], text[c.from], KeysOf(opt, text))
    ensures 1 <= e[c.from] <= |text[c.from]| + 1 && 1 <= e[c.to] <= |text[c.to]| + 1
    ensures bs == [] ==>
              Lines(text[c.to], e[c.to], |text[c.to]| + 1)
                  == Lines(text[c.from], e[c.from], |text[c.from]| + 1)
    ensures bs != [] ==>
              && Lines(text[c.to], e[c.to], bs[0].lnum[c.to]) == Lines(text[c.from], e[c.from], bs[0].lnum[c.from])
              && Exactly(c, bs[0].Ends(), 1, bs[1..], opt, text) && TakesAll(c, bs[1..]) && Takes(c, bs[0], 0)
    ensures NoneCut(c, bs)
  {
    hide SameText;
    var both: Bufs := {c.from, c.to};
    var d := KeysOf(opt, text);
    assert c.from in both && c.to in both;
    Weaken(true, both, e, m, bs, d);
    EndsInRange(true, both, e, m, bs, d);
    if bs == [] {
      SameStretch(c, opt, text, e, AfterLast(d), 0);
    } else {
      SameStretch(c, opt, text, e, bs[0].lnum, m);
    }
  }

  /** All lines below come from the source, and no block is left. */
  lemma {:induction false} PatchedAll(c: Command, e: Vec, m: nat, bs: seq<Block>, s: int, opt: DiffOpt, text: Buffers)
    requires c.Valid() && Exactly(c, e, m, bs, opt, text) && TakesAll(c, bs) && 1 <= e[c.from] <= |text[c.from]| + 1
    ensures Patched(c, e[c.to], bs, text[c.to], text[c.from]) == Lines(text[c.from], e[c.from], |text[c.from]| + 1)
    ensures Kept(c, bs, s) == []
    decreases |bs|
  {
    hide Fit, Exactly, Lines, TakesAll, Takes;
    var source := text[c.from];
    ExactlyNext(c, e, m, bs, opt, text);
    if bs != [] {
      var b := bs[0];
      FitNext(c, e, m, bs, text[c.to], source, KeysOf(opt, text));
      PatchedAll(c, b.Ends(), 1, bs[1..], s + b.count[c.from] - b.count[c.to], opt, text);
      Rejoin(source, e[c.from], b.lnum[c.from], b.End(c.from));
    }
  }

  lemma Rejoin(lines: seq<Line>, a: int, b: int, c: int)
    requires 1 <= a <= b <= c <= |lines| + 1
    ensures Lines(lines, a, b) + Lines(lines, b, c) + Lines(lines, c, |lines| + 1) == Lines(lines, a, |lines| + 1)
  {
  }

  lemma JoinedLines(lines: seq<Line>, a: int, b: int, c: int)
    requires 1 <= a <= b <= c <= |lines| + 1
    ensures Lines(lines, 1, a) + Lines(lines, a, b) + Lines(lines, b, c) == Lines(lines, 1, c)
    ensures Lines(lines, 1, a) + Lines(lines, a, b) == Lines(lines, 1, b)
  {
  }

  /** Whether the block at hand is mistaken, in terms of the text as it is. */
  lemma MistakenHere(c: Command, e: Vec, b: Block, s: int, lines: seq<Line>, target: seq<Line>, source: seq<Line>)
    requires c.Valid() && 1 <= e[c.from] <= b.lnum[c.from] <= |source| + 1
    requires e[c.to] <= b.lnum[c.to] && b.count[c.to] >= 0 && b.End(c.to) <= |target| + 1
    requires 1 <= e[c.to] <= |target| + 1 && lines == Lines(source, 1, e[c.from]) + Lines(target, e[c.to], |target| + 1)
    requires Lines(target, e[c.to], b.lnum[c.to]) == Lines(source, e[c.from], b.lnum[c.from])
    ensures Mistaken(c, b, target, source) <==> IsEmpty(lines) && b.count[c.to] == 0 && b.count[c.from] > 0
  {
    hide Lines, IsEmpty;
    var top := Lines(source, 1, e[c.from]);
    LinesJoin(target, e[c.to], b.lnum[c.to], |target| + 1);
    Associate(top, Lines(target, e[c.to], b.lnum[c.to]), Lines(target, b.lnum[c.to], |target| + 1));
    JoinedLines(source, e[c.from], b.lnum[c.from], b.lnum[c.from]);
  }

  lemma MisledUnfold(c: Command, bs: seq<Block>, s: int, lines: seq<Line>, source: seq<Line>)
    requires c.Valid() && bs != [] && Takes(c, bs[0], 0) && bs[0].count[c.cur] >= 0
    ensures var b := bs[0];
            var (text, added) := ReplaceLines(lines, b.lnum[c.to] + s, b.count[c.to], source, b.lnum[c.from],
                b.count[c.from]);
            Misled(c, bs, s, lines, source)
            <==> (IsEmpty(lines) && b.count[c.to] == 0 && b.count[c.from] > 0)
                 || Misled(c, bs[1..], s + added, text, source)
  {
    hide ReplaceLines;
    TakesIs(c, bs[0], 0);
  }

  /** The loop is misled exactly when it meets a mistaken block. */
  lemma {:induction false} MisledAt(c: Command, e: Vec, m: nat, bs: seq<Block>, s: int, lines: seq<Line>, opt: DiffOpt,
                                    text: Buffers)
    requires c.Valid() && Exactly(c, e, m, bs, opt, text) && TakesAll(c, bs) && 1 <= e[c.from] <= |text[c.from]| + 1
    requires Partial(c, e, s, Lines(text[c.from], 1, e[c.from]), lines, text[c.to])
    ensures Misled(c, bs, s, lines, text[c.from]) <==> exists b :: b in bs && Mistaken(c, b, text[c.to], text[c.from])
    decreases |bs|
  {
    hide Fit, Exactly, Lines, TakesAll, Mistaken, Partial, ReplaceLines, Misled, Takes, IsEmpty;
    var (target, source) := (text[c.to], text[c.from]);
    ExactlyNext(c, e, m, bs, opt, text);
    if bs == [] {
      MisledNone(c, s, lines, source);
    } else {
      var b := bs[0];
      var d := KeysOf(opt, text);
      FitNext(c, e, m, bs, target, source, d);
      PartialIs(c, e, s, Lines(source, 1, e[c.from]), lines, target);
      MistakenHere(c, e, b, s, lines, target, source);
      MisledUnfold(c, bs, s, lines, source);
      var top := Lines(source, 1, e[c.from]);
      assert bs == [b] + bs[1..];
      if Mistaken(c, b, target, source) {
      } else if b.count[c.to] == |lines| && b.count[c.from] == 0 {
        TextGone(c, e, m, bs, s, top, lines, target, source, d);
        GoneLast(c, e, b, s, top, lines, target);
        assert bs[1..] == [];
      } else {
        TextTake(c, e, m, bs, s, top, lines, target, source, d);
        var (more, added) := ReplaceLines(lines, b.lnum[c.to] + s, b.count[c.to], source, b.lnum[c.from],
            b.count[c.from]);
        JoinedLines(source, e[c.from], b.lnum[c.from], b.End(c.from));
        MisledAt(c, b.Ends(), 1, bs[1..], s + added, more, opt, text);
      }
    }
  }

  lemma MisledNone(c: Command, s: int, lines: seq<Line>, source: seq<Line>)
    requires c.Valid()
    ensures !Misled(c, [], s, lines, source)
  {
  }

  /** A block that has all lines of the text is the last one. */
  lemma GoneLast(c: Command, e: Vec, b: Block, s: int, top: seq<Line>, lines: seq<Line>, target: seq<Line>)
    requires c.Valid() && Partial(c, e, s, top, lines, target)
    requires e[c.to] <= b.lnum[c.to] && b.count[c.to] == |lines| && b.End(c.to) <= |target| + 1
    ensures b.End(c.to) == |target| + 1
  {
  }

  /** When all blocks of two buffers are taken, none is left, and the target has the text of the source: exactly when no
      block is mistaken. */
  lemma TakeAll(c: Command, bs: seq<Block>, opt: DiffOpt, text: Buffers)
    requires c.Valid() && !opt.icase && !opt.iwhite && Faithful({c.from, c.to}, bs, KeysOf(opt, text))
    requires TakesAll(c, bs) && |text[c.to]| >= 1 && |text[c.from]| >= 1
    ensures Get(c, bs, 0, text[c.to], text[c.from]).0 == []
    ensures Get(c, bs, 0, text[c.to], text[c.from]).1 == text[c.from]
            <==> forall b | b in bs :: !Mistaken(c, b, text[c.to], text[c.from])
  {
    hide Lines, Fit, Mistaken, TakesAll, Misled, Get, Kept, Patched, Normal, Exactly, Partial, Sync, KeysOf, Faithful;
    ExactlyAtStart(c, bs, opt, text);
    TakeAllText(c, bs, opt, text);
    PartialAtStart(c, text[c.to]);
    WholeText(text[c.from]);
    MisledAt(c, ONES, 0, bs, 0, text[c.to], opt, text);
  }

  lemma TakeAllText(c: Command, bs: seq<Block>, opt: DiffOpt, text: Buffers)
    requires c.Valid() && Exactly(c, ONES, 0, bs, opt, text) && TakesAll(c, bs) && |text[c.to]| >= 1
             && |text[c.from]| >= 1
    ensures Get(c, bs, 0, text[c.to], text[c.from]).0 == []
    ensures Get(c, bs, 0, text[c.to], text[c.from]).1 == text[c.from] <==> !Misled(c, bs, 0, text[c.to], text[c.from])
  {
    hide Lines, Fit, TakesAll, Misled, Get, Kept, Patched, KeyLines, Exactly, Partial, Sync, KeysOf, OrDummy, ShiftAll;
    ExactlyNext(c, ONES, 0, bs, opt, text);
    PatchedAll(c, ONES, 0, bs, 0, opt, text);
    WholeText(text[c.from]);
    TakenText(c, bs, text[c.to], text[c.from], KeysOf(opt, text));
  }

  /** When what the loop makes of the target is the source. */
  lemma TakenText(c: Command, bs: seq<Block>, target: seq<Line>, source: seq<Line>, d: Texts)
    requires c.Valid() && Fit(c, ONES, 0, bs, target, source, d) && |target| >= 1 && |source| >= 1
    requires Patched(c, 1, bs, target, source) == source && Kept(c, bs, 0) == [] && NoneCut(c, bs)
    ensures Get(c, bs, 0, target, source).0 == []
    ensures Get(c, bs, 0, target, source).1 == source <==> !Misled(c, bs, 0, target, source)
  {
    hide Lines, Fit, Misled, Get, Kept, Patched, Partial, ShiftAll;
    PartialAtStart(c, target);
    GetBlocks(c, ONES, 0, bs, 0, target, target, source, d);
    GetText(c, ONES, 0, bs, 0, [], target, target, source, d);
    assert [] + source == source;
  }

  lemma ExactlyAtStart(c: Command, bs: seq<Block>, opt: DiffOpt, text: Buffers)
    requires c.Valid() && !opt.icase && !opt.iwhite && Faithful({c.from, c.to}, bs, KeysOf(opt, text))
    ensures Exactly(c, ONES, 0, bs, opt, text)
  {
  }

  lemma PartialAtStart(c: Command, lines: seq<Line>)
    requires c.Valid() && |lines| >= 1
    ensures Partial(c, ONES, 0, [], lines, lines)
  {
    WholeText(lines);
  }

  lemma WholeText(lines: seq<Line>)
    ensures Lines(lines, 1, |lines| + 1) == lines && Lines(lines, 1, 1) == []
  {
  }

  // ----- the situation where it goes wrong -----

  /** ["x", ""] should become ["", "b"]: the first block deletes "x", the second adds "b" below the empty line. */
  const SAMPLE: Command := Command(0, 1, 0, true, 0, 3)
  const SAMPLE_TOP: Block := Block([1, 1, 0, 0], [1, 0, 0, 0])
  const SAMPLE_BOTTOM: Block := Block([3, 2, 0, 0], [0, 1, 0, 0])

  lemma SampleFits(opt: DiffOpt, text: Buffers)
    requires text[0] == ["x", ""] && text[1] == ["", "b"]
    ensures Faithful({0, 1}, [SAMPLE_TOP, SAMPLE_BOTTOM], KeysOf(opt, text))
  {
    hide KeysOf, Gap;
    SampleGaps(opt, text);
    SyncTwo({0, 1}, SAMPLE_TOP, SAMPLE_BOTTOM, KeysOf(opt, text));
  }

  lemma SampleGaps(opt: DiffOpt, text: Buffers)
    requires text[0] == ["x", ""] && text[1] == ["", "b"]
    ensures var d := KeysOf(opt, text);
            && Gap(true, {0, 1}, ONES, SAMPLE_TOP.lnum, 0, d)
            && Gap(true, {0, 1}, SAMPLE_TOP.Ends(), SAMPLE_BOTTOM.lnum, 1, d)
            && Gap(true, {0, 1}, SAMPLE_BOTTOM.Ends(), AfterLast(d), 0, d)
  {
    hide KeysOf, KeyLines, Slice, Gap, Lines;
    var d := KeysOf(opt, text);
    KeySlice(opt, text, 0, 2, 3);
    KeySlice(opt, text, 1, 1, 2);
    GapNone(true, {0, 1}, ONES, SAMPLE_TOP.lnum, d);
    GapNone(true, {0, 1}, SAMPLE_BOTTOM.Ends(), AfterLast(d), d);
    SampleEmptyLine(text);
    SampleMiddle(SAMPLE_TOP.Ends(), d);
  }

  lemma SampleEmptyLine(text: Buffers)
    requires text[0] == ["x", ""] && text[1] == ["", "b"]
    ensures Lines(text[0], 2, 3) == Lines(text[1], 1, 2)
  {
  }

  lemma SampleMiddle(e: Vec, d: Texts)
    requires e[0] == 2 && e[1] == 1 && Size(d, 0) == 2 && Size(d, 1) == 2 && Slice(d, 0, 2, 3) == Slice(d, 1, 1, 2)
    ensures Gap(true, {0, 1}, e, SAMPLE_BOTTOM.lnum, 1, d)
  {
    hide Slice;
  }

  lemma SyncTwo(bufs: Bufs, x: Block, y: Block, d: Texts)
    requires Gap(true, bufs, ONES, x.lnum, 0, d) && Gap(true, bufs, x.Ends(), y.lnum, 1, d)
             && Gap(true, bufs, y.Ends(), AfterLast(d), 0, d)
    requires forall i {:trigger i in bufs} | i in bufs :: x.count[i] >= 0 && y.count[i] >= 0
    ensures Faithful(bufs, [x, y], d)
  {
    hide Gap;
    assert [x, y][1..] == [y] && [y][1..] == [];
    assert Sync(true, bufs, y.Ends(), 1, [], d);
    assert Sync(true, bufs, x.Ends(), 1, [y], d);
  }

  lemma SampleLost(opt: DiffOpt, text: Buffers)
    requires !opt.icase && !opt.iwhite && text[0] == ["x", ""] && text[1] == ["", "b"]
    ensures var bs := [SAMPLE_TOP, SAMPLE_BOTTOM];
            TakesAll(SAMPLE, bs) && Get(SAMPLE, bs, 0, text[0], text[1]).1 != text[1]
  {
    hide Normal, Get, Faithful, KeysOf;
    var bs := [SAMPLE_TOP, SAMPLE_BOTTOM];
    SampleFits(opt, text);
    assert {0, 1} == {SAMPLE.from, SAMPLE.to};
    TakesIs(SAMPLE, SAMPLE_TOP, 0);
    TakesIs(SAMPLE, SAMPLE_BOTTOM, 0);
    TakeAll(SAMPLE, bs, opt, text);
    assert Lines(text[1], 1, 2) + Lines(text[0], 3, 3) == [""];
    assert Mistaken(SAMPLE, bs[1], text[0], text[1]);
  }

  // ----- what is left fits -----

  lemma KeySlice(opt: DiffOpt, text: Buffers, i: int, a: int, b: int)
    requires 0 <= i < DB_COUNT
    ensures Slice(KeysOf(opt, text), i, a, b) == KeyLines(opt, Lines(text[i], a, b))
    ensures Size(KeysOf(opt, text), i) == |text[i]|
  {
    hide Normal;
  }

  /** The position in the new text. */
  function NewPlace(c: Command, e: Vec, s: int): (r: Vec)
    requires 0 <= c.to < DB_COUNT
    ensures r[c.to] == e[c.to] + s && forall i | 0 <= i < DB_COUNT && i != c.to :: r[i] == e[i]
  {
    e[c.to := e[c.to] + s]
  }

  /** The new text of the target is `top` and what the blocks below line e make of it. */
  ghost predicate Becomes(c: Command, e: Vec, s: int, top: seq<Line>, bs: seq<Block>, text: Buffers, after: Buffers)
    requires c.Valid()
  {
    && after[c.from] == text[c.from] && |top| == e[c.to] - 1 + s
    && after[c.to] == top + Patched(c, e[c.to], bs, text[c.to], text[c.from])
  }

  /** A stretch of the new text that has the lines of the source is a gap. */
  lemma GapMade(content: bool, c: Command, e: Vec, f: Vec, m: nat, opt: DiffOpt, after: Buffers)
    requires c.Valid() && f[c.to] - e[c.to] == f[c.from] - e[c.from] >= m
    requires 1 <= e[c.to] && f[c.to] <= |after[c.to]| + 1 && 1 <= e[c.from] && f[c.from] <= |after[c.from]| + 1
    requires content ==>
              KeyLines(opt, Lines(after[c.to], e[c.to], f[c.to]))
                  == KeyLines(opt, Lines(after[c.from], e[c.from], f[c.from]))
    ensures Gap(content, {c.from, c.to}, e, f, m, KeysOf(opt, after))
  {
    hide Lines, KeyLines, KeysOf, Slice, Size;
    var d := KeysOf(opt, after);
    KeySlice(opt, after, c.to, e[c.to], f[c.to]);
    KeySlice(opt, after, c.from, e[c.from], f[c.from]);
    assert Apart({c.from, c.to}, e, f, m, d);
    if content {
      assert Slice(d, c.to, e[c.to], f[c.to]) == Slice(d, c.from, e[c.from], f[c.from]);
      assert SameText({c.from, c.to}, e, f, d);
    }
  }

  /** The lines from a to b of a text that starts with `top` and goes on with x and y. */
  lemma LinesOf(lines: seq<Line>, top: seq<Line>, x: seq<Line>, y: seq<Line>)
    requires lines == top + (x + y)
    ensures Lines(lines, |top| + 1, |top| + 1 + |x|) == x && |top| + |x| <= |lines|
  {
  }

  /** The stretch above the first block, in the new text. */
  lemma KeptGap(content: bool, c: Command, e: Vec, f: Vec, m: nat, s: int, top: seq<Line>, rest: seq<Line>,
                opt: DiffOpt, text: Buffers, after: Buffers)
    requires c.Valid() && Gap(content, {c.from, c.to}, e, f, m, KeysOf(opt, text))
    requires after[c.from] == text[c.from] && |top| == e[c.to] - 1 + s
    requires after[c.to] == top + (Lines(text[c.to], e[c.to], f[c.to]) + rest)
    ensures Gap(content, {c.from, c.to}, NewPlace(c, e, s), NewPlace(c, f, s), m, KeysOf(opt, after))
  {
    hide KeyLines, Lines, KeysOf, Gap;
    GapShape(content, c, e, f, m, opt, text);
    LinesSize(text[c.to], e[c.to], f[c.to]);
    LinesOf(after[c.to], top, Lines(text[c.to], e[c.to], f[c.to]), rest);
    GapMade(content, c, NewPlace(c, e, s), NewPlace(c, f, s), m, opt, after);
  }

  /** A gap between the two buffers, in terms of their lines. */
  lemma GapShape(content: bool, c: Command, e: Vec, f: Vec, m: nat, opt: DiffOpt, text: Buffers)
    requires c.Valid() && Gap(content, {c.from, c.to}, e, f, m, KeysOf(opt, text))
    ensures f[c.to] - e[c.to] == f[c.from] - e[c.from] >= m && 1 <= e[c.to] && 1 <= e[c.from]
    ensures f[c.to] <= |text[c.to]| + 1 && f[c.from] <= |text[c.from]| + 1
    ensures content ==>
              KeyLines(opt, Lines(text[c.to], e[c.to], f[c.to]))
                  == KeyLines(opt, Lines(text[c.from], e[c.from], f[c.from]))
  {
    hide KeyLines, Lines, KeysOf, Slice;
    var both: Bufs := {c.from, c.to};
    assert c.from in both && c.to in both;
    KeySlice(opt, text, c.to, e[c.to], f[c.to]);
    KeySlice(opt, text, c.from, e[c.from], f[c.from]);
  }

  /** A taken block, in the new text. */
  lemma TakenGap(content: bool, c: Command, b: Block, s: int, top: seq<Line>, rest: seq<Line>, opt: DiffOpt,
                 text: Buffers, after: Buffers)
    requires c.Valid() && b.count[c.from] >= 0 && 1 <= b.lnum[c.from] && b.End(c.from) <= |text[c.from]| + 1
    requires after[c.from] == text[c.from] && |top| == b.lnum[c.to] - 1 + s
    requires after[c.to] == top + (Lines(text[c.from], b.lnum[c.from], b.End(c.from)) + rest)
    ensures Gap(content, {c.from, c.to}, NewPlace(c, b.lnum, s),
            NewPlace(c, b.Ends(), s + b.count[c.from] - b.count[c.to]), 0, KeysOf(opt, after))
  {
    hide KeyLines, Lines;
    LinesSize(text[c.from], b.lnum[c.from], b.End(c.from));
    LinesOf(after[c.to], top, Lines(text[c.from], b.lnum[c.from], b.End(c.from)), rest);
    GapMade(content, c, NewPlace(c, b.lnum, s), NewPlace(c, b.Ends(), s + b.count[c.from] - b.count[c.to]), 0, opt,
        after);
  }

  /** The blocks that are left fit the new text. */
  lemma {:induction false} KeptFits(content: bool, c: Command, e: Vec, m: nat, bs: seq<Block>, s: int, top: seq<Line>,
                                    opt: DiffOpt, text: Buffers, after: Buffers)
    requires c.Valid() && Sync(content, {c.from, c.to}, e, m, bs, KeysOf(opt, text))
             && Becomes(c, e, s, top, bs, text, after)
    ensures Sync(content, {c.from, c.to}, NewPlace(c, e, s), m, Kept(c, bs, s), KeysOf(opt, after))
    decreases |bs|
  {
    hide Gap, Lines, KeysOf;
    var d := KeysOf(opt, text);
    var both: Bufs := {c.from, c.to};
    if bs == [] {
      KeptEnd(content, c, e, s, top, opt, text, after);
    } else {
      var b := bs[0];
      KeptStep(content, c, e, m, bs, s, top, opt, text, after);
      if Takes(c, b, 0) {
        var s' := s + b.count[c.from] - b.count[c.to];
        KeptFits(content, c, b.Ends(), 1, bs[1..], s',
                 top + Lines(text[c.to], e[c.to], b.lnum[c.to]) + Lines(text[c.from], b.lnum[c.from], b.End(c.from)),
                     opt, text, after);
        SyncExtend(content, both, NewPlace(c, e, s), NewPlace(c, b.Ends(), s'), m, 1, Kept(c, bs[1..], s'),
            KeysOf(opt, after));
      } else {
        KeptFits(content, c, b.Ends(), 1, bs[1..], s,
                 top + Lines(text[c.to], e[c.to], b.lnum[c.to]) + Lines(text[c.to], b.lnum[c.to], b.End(c.to)), opt,
                     text, after);
        KeptKeeps(content, c, e, m, b, s, Kept(c, bs[1..], s), KeysOf(opt, after));
      }
    }
  }

  /** Below the last block. */
  lemma KeptEnd(content: bool, c: Command, e: Vec, s: int, top: seq<Line>, opt: DiffOpt, text: Buffers, after: Buffers)
    requires c.Valid() && Becomes(c, e, s, top, [], text, after)
    requires Gap(content, {c.from, c.to}, e, AfterLast(KeysOf(opt, text)), 0, KeysOf(opt, text))
    ensures Gap(content, {c.from, c.to}, NewPlace(c, e, s), AfterLast(KeysOf(opt, after)), 0, KeysOf(opt, after))
  {
    hide Gap, Lines, KeysOf, Patched;
    var both: Bufs := {c.from, c.to};
    var f := AfterLast(KeysOf(opt, text));
    assert c.from in both && c.to in both;
    GapSizes(content, both, e, f, 0, KeysOf(opt, text));
    KeySlice(opt, text, c.to, 1, 1);
    KeySlice(opt, text, c.from, 1, 1);
    KeySlice(opt, after, c.to, 1, 1);
    KeySlice(opt, after, c.from, 1, 1);
    PatchedEnd(c, e, s, top, text, after, f);
    KeptGap(content, c, e, f, 0, s, top, [], opt, text, after);
    GapSame(content, both, NewPlace(c, e, s), NewPlace(c, f, s), NewPlace(c, e, s), AfterLast(KeysOf(opt, after)), 0,
        KeysOf(opt, after));
  }

  lemma PatchedEnd(c: Command, e: Vec, s: int, top: seq<Line>, text: Buffers, after: Buffers, f: Vec)
    requires c.Valid() && Becomes(c, e, s, top, [], text, after) && f[c.to] == |text[c.to]| + 1
             && 1 <= e[c.to] <= f[c.to]
    ensures after[c.to] == top + (Lines(text[c.to], e[c.to], f[c.to]) + []) && |after[c.to]| == |text[c.to]| + s
  {
  }

  /** A block that is not taken, above those that are left. */
  lemma KeptKeeps(content: bool, c: Command, e: Vec, m: nat, b: Block, s: int, rest: seq<Block>, d: Texts)
    requires c.Valid() && Gap(content, {c.from, c.to}, NewPlace(c, e, s), NewPlace(c, b.lnum, s), m, d)
    requires b.count[c.from] >= 0 && b.count[c.to] >= 0
    requires Sync(content, {c.from, c.to}, NewPlace(c, b.Ends(), s), 1, rest, d)
    ensures Sync(content, {c.from, c.to}, NewPlace(c, e, s), m, [Shifted(c, b, s)] + rest, d)
  {
    hide Gap;
    var x := Shifted(c, b, s);
    SyncSame(content, {c.from, c.to}, NewPlace(c, b.Ends(), s), x.Ends(), 1, rest, d);
    assert ([x] + rest)[1..] == rest && x.lnum == NewPlace(c, b.lnum, s);
  }

  /** One block, in the new text. */
  lemma KeptStep(content: bool, c: Command, e: Vec, m: nat, bs: seq<Block>, s: int, top: seq<Line>, opt: DiffOpt,
                 text: Buffers, after: Buffers)
    requires c.Valid() && Sync(content, {c.from, c.to}, e, m, bs, KeysOf(opt, text))
             && Becomes(c, e, s, top, bs, text, after)
    requires bs != []
    ensures var b := bs[0];
            var s' := s + b.count[c.from] - b.count[c.to];
            var above := top + Lines(text[c.to], e[c.to], b.lnum[c.to]);
            && b.count[c.from] >= 0 && b.count[c.to] >= 0
                && Sync(content, {c.from, c.to}, b.Ends(), 1, bs[1..], KeysOf(opt, text))
            && (if Takes(c, b, 0) then
                  && Becomes(c, b.Ends(), s', above + Lines(text[c.from], b.lnum[c.from], b.End(c.from)), bs[1..], text,
                      after)
                  && Gap(content, {c.from, c.to}, NewPlace(c, e, s), NewPlace(c, b.Ends(), s'), m, KeysOf(opt, after))
                else
                  && Becomes(c, b.Ends(), s, above + Lines(text[c.to], b.lnum[c.to], b.End(c.to)), bs[1..], text, after)
                  && Gap(content, {c.from, c.to}, NewPlace(c, e, s), NewPlace(c, b.lnum, s), m, KeysOf(opt, after)))
  {
    hide Gap, Lines, KeysOf;
    var (b, d) := (bs[0], KeysOf(opt, text));
    var both: Bufs := {c.from, c.to};
    assert c.from in both && c.to in both;
    EndsInRange(content, both, b.Ends(), 1, bs[1..], d);
    KeySlice(opt, text, c.to, 1, 1);
    KeySlice(opt, text, c.from, 1, 1);
    GapSizes(content, both, e, b.lnum, m, d);
    var x := Lines(text[c.to], e[c.to], b.lnum[c.to]);
    var y := if Takes(c, b, 0) then Lines(text[c.from], b.lnum[c.from], b.End(c.from))
        else Lines(text[c.to], b.lnum[c.to], b.End(c.to));
    var z := Patched(c, b.End(c.to), bs[1..], text[c.to], text[c.from]);
    LinesSize(text[c.to], e[c.to], b.lnum[c.to]);
    Associate4(top, x, y, z);
    Associate(x, y, z);
    KeptGap(content, c, e, b.lnum, m, s, top, y + z, opt, text, after);
    if Takes(c, b, 0) {
      LinesSize(text[c.from], b.lnum[c.from], b.End(c.from));
      Associate(top + x, y, z);
      TakenGap(content, c, b, s, top + x, z, opt, text, after);
      GapJoin(content, both, NewPlace(c, e, s), NewPlace(c, b.lnum, s),
          NewPlace(c, b.Ends(), s + b.count[c.from] - b.count[c.to]), m, 0, KeysOf(opt, after));
    } else {
      LinesSize(text[c.to], b.lnum[c.to], b.End(c.to));
    }
  }

  lemma GapSizes(content: bool, bufs: Bufs, e: Vec, f: Vec, m: nat, d: Texts)
    requires Gap(content, bufs, e, f, m, d)
    ensures forall i {:trigger i in bufs} | i in bufs :: 1 <= e[i] && e[i] + m <= f[i] <= Size(d, i) + 1
  {
  }

  /** Whatever blocks are taken, all of them whole: unless the loop is misled, the list that is left fits the new text,
      and lines outside its blocks are the same if they were before. */
  lemma GetFits(content: bool, c: Command, bs: seq<Block>, opt: DiffOpt, text: Buffers)
    requires c.Valid() && Sync(content, {c.from, c.to}, ONES, 0, bs, KeysOf(opt, text)) && NoneCut(c, bs)
    requires |text[c.to]| >= 1 && |text[c.from]| >= 1 && !Misled(c, bs, 0, text[c.to], text[c.from])
    ensures var r := Get(c, bs, 0, text[c.to], text[c.from]);
            Sync(content, {c.from, c.to}, ONES, 0, r.0, KeysOf(opt, text[c.to := r.1]))
  {
    hide Sync, KeysOf, Get, Misled, Kept, Patched, Lines, Partial;
    var (target, source, d) := (text[c.to], text[c.from], KeysOf(opt, text));
    KeySlice(opt, text, c.to, 1, 1);
    KeySlice(opt, text, c.from, 1, 1);
    Weaken(content, {c.from, c.to}, ONES, 0, bs, d);
    PartialAtStart(c, target);
    GetBlocks(c, ONES, 0, bs, 0, target, target, source, d);
    GetText(c, ONES, 0, bs, 0, [], target, target, source, d);
    var r := Get(c, bs, 0, target, source);
    var made := [] + Patched(c, 1, bs, target, source);
    PatchedNotEmpty(c, bs, target, source, d);
    assert r.1 == made;
    KeptFits(content, c, ONES, 0, bs, 0, [], opt, text, text[c.to := made]);
    assert NewPlace(c, ONES, 0) == ONES;
  }

  lemma PatchedNotEmpty(c: Command, bs: seq<Block>, target: seq<Line>, source: seq<Line>, d: Texts)
    requires c.Valid() && Fit(c, ONES, 0, bs, target, source, d) && |target| >= 1 && |source| >= 1
    ensures Patched(c, 1, bs, target, source) != []
  {
    hide Fit, Lines;
    if bs == [] {
      LinesSize(target, 1, |target| + 1);
    } else {
      var b := bs[0];
      FitNext(c, ONES, 0, bs, target, source, d);
      LinesSize(target, 1, b.lnum[c.to]);
      LinesSize(target, b.lnum[c.to], b.End(c.to));
      LinesSize(source, b.lnum[c.from], b.End(c.from));
      if |bs| > 1 {
        FitNext(c, b.Ends(), 1, bs[1..], target, source, d);
        LinesSize(target, b.End(c.to), bs[1].lnum[c.to]);
      } else {
        FitLast(c, b.Ends(), 1, bs[1..], target, source, d);
        LinesSize(target, b.End(c.to), |target| + 1);
      }
    }
  }

  lemma FitLast(c: Command, e: Vec, m: nat, bs: seq<Block>, target: seq<Line>, source: seq<Line>, d: Texts)
    requires c.Valid() && Fit(c, e, m, bs, target, source, d) && bs == []
    ensures |target| + 1 - e[c.to] == |source| + 1 - e[c.from]
  {
    var both: Bufs := {c.from, c.to};
    assert c.from in both && c.to in both;
  }
}

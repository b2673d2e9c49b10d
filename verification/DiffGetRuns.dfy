/** Whole runs of `:diffget` and `:diffput`: when no block is cut, and when every turn leaves the list right. */
module DiffGetRuns {
  import opened LineCompare
  import opened TextLines
  import opened DiffBlocks
  import opened DiffDisplay
  import opened MarkAdjust
  import opened DiffList
  import opened Sequences
  import opened DiffGet
  import opened DiffGetMarks
  import opened DiffGetTurn
  import opened DiffGetCut
  import opened DiffGetKeeps

  // ----- a list that fits two buffers -----

  /** The blocks are within the buffers, and end above `limit`. */
  ghost predicate Bounded(bs: seq<Block>, idx: int, first: int, limit: int)
    requires 0 <= idx < DB_COUNT
  {
    forall i | 0 <= i < |bs| :: first <= bs[i].lnum[idx] && bs[i].count[idx] >= 0 && bs[i].End(idx) <= limit
  }

  lemma {:induction false} FitSpread(c: Command, e: Vec, m: nat, bs: seq<Block>, target: seq<Line>, source: seq<Line>,
                                     d: Texts, idx: int)
    requires c.Valid() && Fit(c, e, m, bs, target, source, d) && (idx == c.from || idx == c.to)
    requires forall i | 0 <= i < |bs| :: !Empty({c.from, c.to}, bs[i])
    ensures Spread({c.from, c.to}, idx, bs)
    ensures Bounded(bs, idx, e[idx] + m, if idx == c.to then |target| + 1 else |source| + 1)
    ensures bs != [] ==> e[idx] >= 1
    decreases |bs|
  {
    hide Fit, Empty;
    if bs != [] {
      FitNext(c, e, m, bs, target, source, d);
      FitSpread(c, bs[0].Ends(), 1, bs[1..], target, source, d, idx);
      forall i | 0 <= i < |bs| ensures bs[i] == if i == 0 then bs[0] else bs[1..][i - 1] {
      }
    }
  }

  // ----- blocks that are taken whole -----

  lemma PushShift(ed: Edit, c: Command, b: Block, s: int)
    requires c.Valid() && ed.idx == c.to && b.End(c.to) + s >= ed.line1
    ensures Pushed(ed, Shifted(c, b, s)) == Shifted(c, b, s + ed.after)
  {
    var x := Pushed(ed, Shifted(c, b, s));
    assert x.lnum == Shifted(c, b, s + ed.after).lnum && x.count == b.count;
  }

  lemma {:induction false} PushShifted(ed: Edit, c: Command, bs: seq<Block>, s: int)
    requires c.Valid() && ed.idx == c.to && forall b | b in bs :: b.End(c.to) + s >= ed.line1
    ensures PushAll(ed, ShiftAll(c, bs, s)) == ShiftAll(c, bs, s + ed.after)
  {
    hide Pushed, Shifted;
    if bs != [] {
      PushShift(ed, c, bs[0], s);
      PushShifted(ed, c, bs[1..], s);
      assert ShiftAll(c, bs, s)[1..] == ShiftAll(c, bs[1..], s);
    }
  }

  lemma ShiftedIs(c: Command, b: Block, s: int)
    requires c.Valid()
    ensures var x := Shifted(c, b, s);
            && x.count == b.count && x.lnum[c.to] == b.lnum[c.to] + s && x.lnum[c.from] == b.lnum[c.from]
            && x.End(c.to) == b.End(c.to) + s && x.End(c.from) == b.End(c.from)
  {
  }

  /** The loop of the specification, one block further. */
  lemma GetSkips(c: Command, bs: seq<Block>, s: int, lines: seq<Line>, source: seq<Line>)
    requires c.Valid() && bs != [] && bs[0].lnum[c.cur] <= c.line2 && bs[0].End(c.cur) <= c.line1
    ensures Get(c, bs, s, lines, source).0 == [Shifted(c, bs[0], s)] + Get(c, bs[1..], s, lines, source).0
    ensures Get(c, bs, s, lines, source).1 == Get(c, bs[1..], s, lines, source).1
  {
    hide Shifted, ReplaceLines, ShiftAll;
  }

  lemma GetTakes(c: Command, bs: seq<Block>, s: int, lines: seq<Line>, source: seq<Line>, text: seq<Line>, added: int)
    requires c.Valid() && bs != [] && Takes(c, bs[0], 0) && bs[0].count[c.cur] >= 0
    requires var r := ReplaceLines(lines, bs[0].lnum[c.to] + s, bs[0].count[c.to], source, bs[0].lnum[c.from],
             bs[0].count[c.from]);
             text == r.0 && added == r.1
    ensures Get(c, bs, s, lines, source).0 == Get(c, bs[1..], s + added, text, source).0
    ensures Get(c, bs, s, lines, source).1 == Get(c, bs[1..], s + added, text, source).1
  {
    hide Shifted, ReplaceLines, ShiftAll;
    TakesIs(c, bs[0], 0);
  }

  lemma ReplacedBy(lines: seq<Line>, l: int, count: nat, source: seq<Line>, first: int, n: nat)
    requires 1 <= first && first + n <= |source| + 1
    ensures ReplaceLines(lines, l, count, source, first, n).1 == n - count
  {
    hide DeleteLines, CopyLines;
    var (less, last) := DeleteLines(lines, l, count, IsEmpty(lines));
    CopiesAll(less, l, 0, n, source, first, last);
  }

  lemma GetStops(c: Command, bs: seq<Block>, s: int, lines: seq<Line>, source: seq<Line>)
    requires c.Valid() && (bs != [] ==> bs[0].lnum[c.cur] > c.line2)
    ensures Get(c, bs, s, lines, source).0 == ShiftAll(c, bs, s) && Get(c, bs, s, lines, source).1 == lines
  {
    hide Shifted, ReplaceLines;
  }

  /** What the range and the buffers must be: no block is empty or cut by the range, and the line numbers do not
      overflow. */
  ghost predicate Fitting(c: Command, bs: seq<Block>, target: seq<Line>, source: seq<Line>) {
    && c.Valid() && |target| + |source| < MAXLNUM
    && (forall i | 0 <= i < |bs| :: !Empty({c.from, c.to}, bs[i]))
    && NoneCut(c, bs)
  }

  /** Where the loop stands: `done` blocks are kept, and the blocks from position i of the original list are to come,
      moved by s lines. */
  ghost predicate Standing(c: Command, bs: seq<Block>, target: seq<Line>, source: seq<Line>,
                           now: seq<Block>, lines: seq<Line>, i: nat, done: seq<Block>, s: int) {
    && c.Valid() && i <= |bs| && now == done + ShiftAll(c, bs[i..], s)
    && Spread({c.from, c.to}, c.to, now) && (i < |bs| ==> s < bs[i].lnum[c.from])
    && Get(c, bs, 0, target, source).0 == done + Get(c, bs[i..], s, lines, source).0
    && Get(c, bs, 0, target, source).1 == Get(c, bs[i..], s, lines, source).1
  }

  /** The original list. */
  ghost predicate Sound(c: Command, bs: seq<Block>, target: seq<Line>, source: seq<Line>) {
    && Fitting(c, bs, target, source) && Spread({c.from, c.to}, c.from, bs) && Spread({c.from, c.to}, c.to, bs)
    && Bounded(bs, c.to, 1, |target| + 1) && Bounded(bs, c.from, 1, |source| + 1)
  }

  lemma StandingSkips(c: Command, bs: seq<Block>, target: seq<Line>, source: seq<Line>,
                      now: seq<Block>, lines: seq<Line>, i: nat, done: seq<Block>, s: int)
    requires Sound(c, bs, target, source) && Standing(c, bs, target, source, now, lines, i, done, s)
    requires i < |bs| && bs[i].lnum[c.cur] <= c.line2 && bs[i].End(c.cur) <= c.line1
    ensures Standing(c, bs, target, source, now, lines, i + 1, done + [Shifted(c, bs[i], s)], s)
  {
    hide Spread, Get, Shifted, Fitting, Bounded;
    var x := Shifted(c, bs[i], s);
    assert bs[i..][0] == bs[i] && bs[i..][1..] == bs[i + 1..];
    GetSkips(c, bs[i..], s, lines, source);
    Associate(done, [x], ShiftAll(c, bs[i + 1..], s));
    Associate(done, [x], Get(c, bs[i + 1..], s, lines, source).0);
    NextStarts({c.from, c.to}, c.from, bs, i);
  }

  lemma NextStarts(bufs: Bufs, idx: int, bs: seq<Block>, i: nat)
    requires 0 <= idx < DB_COUNT && Spread(bufs, idx, bs) && i < |bs|
    ensures bs[i].count[idx] >= 0 && (i + 1 < |bs| ==> bs[i].End(idx) < bs[i + 1].lnum[idx])
  {
    hide Empty;
  }

  lemma LaterBelow(c: Command, bufs: Bufs, bs: seq<Block>, i: nat, s: int)
    requires c.Valid() && Spread(bufs, c.to, bs) && i < |bs|
    ensures forall b | b in bs[i + 1..] :: b.End(c.to) + s >= bs[i].lnum[c.to] + s
  {
    hide Empty;
    var rest := bs[i + 1..];
    forall j | 0 <= j < |rest| ensures rest[j].End(c.to) >= bs[i].lnum[c.to] {
      assert rest[j] == bs[i + 1 + j];
    }
  }

  lemma ShiftAllNext(c: Command, bs: seq<Block>, i: nat, s: int)
    requires c.Valid() && i < |bs|
    ensures ShiftAll(c, bs[i..], s) == [Shifted(c, bs[i], s)] + ShiftAll(c, bs[i + 1..], s)
  {
    hide Shifted;
    assert bs[i..][0] == bs[i] && bs[i..][1..] == bs[i + 1..];
  }

  /** The list after a block is taken. */
  lemma TakenList(c: Command, bs: seq<Block>, now: seq<Block>, i: nat, done: seq<Block>, s: int, k: nat, n: int)
    requires c.Valid() && i < |bs| && now == done + ShiftAll(c, bs[i..], s) && k == |done|
             && n == bs[i].count[c.from] >= 0
    requires Spread({c.from, c.to}, c.to, now) && Spread({c.from, c.to}, c.to, bs)
    ensures k < |now| && now[k] == Shifted(c, bs[i], s)
    ensures now[..k] + PushAll(BlockEdit(c.to, now[k], n), now[k + 1..]) == done
            + ShiftAll(c, bs[i + 1..], s + n - bs[i].count[c.to])
    ensures Spread({c.from, c.to}, c.to, done + ShiftAll(c, bs[i + 1..], s + n - bs[i].count[c.to]))
  {
    hide Spread, Shifted, PushAll, ShiftAll;
    var (x, rest) := (Shifted(c, bs[i], s), ShiftAll(c, bs[i + 1..], s));
    ShiftedIs(c, bs[i], s);
    ShiftAllNext(c, bs, i, s);
    assert now == done + [x] + rest && now[..k] == done && now[k + 1..] == rest;
    LaterBelow(c, {c.from, c.to}, bs, i, s);
    PushShifted(BlockEdit(c.to, x, n), c, bs[i + 1..], s);
    TakeOut({c.from, c.to}, c.to, done, x, rest, n);
  }

  lemma StandingTakes(c: Command, bs: seq<Block>, target: seq<Line>, source: seq<Line>, now: seq<Block>,
                      lines: seq<Line>, i: nat, done: seq<Block>, s: int, k: nat, after: seq<Block>, text: seq<Line>,
                      added: int)
    requires Sound(c, bs, target, source) && Standing(c, bs, target, source, now, lines, i, done, s)
    requires i < |bs| && Takes(c, bs[i], 0) && k == |done| && k < |now| && now[k] == Shifted(c, bs[i], s)
    requires added == bs[i].count[c.from] - bs[i].count[c.to]
    requires text == ReplaceLines(lines, bs[i].lnum[c.to] + s, bs[i].count[c.to], source, bs[i].lnum[c.from],
             bs[i].count[c.from]).0
    requires 1 <= bs[i].lnum[c.from] && bs[i].End(c.from) <= |source| + 1 && bs[i].count[c.from] >= 0
             && bs[i].count[c.to] >= 0
    requires after == now[..k] + PushAll(BlockEdit(c.to, now[k], bs[i].count[c.from]), now[k + 1..])
    ensures Standing(c, bs, target, source, after, text, i + 1, done, s + added)
  {
    hide Spread, Get, Shifted, Fitting, Bounded, ReplaceLines, PushAll, Takes, ShiftAll, BlockEdit;
    assert bs[i..][0] == bs[i] && bs[i..][1..] == bs[i + 1..];
    NextStarts({c.from, c.to}, c.from, bs, i);
    NextStarts({c.from, c.to}, c.to, bs, i);
    TakenList(c, bs, now, i, done, s, k, bs[i].count[c.from]);
    ReplacedBy(lines, bs[i].lnum[c.to] + s, bs[i].count[c.to], source, bs[i].lnum[c.from], bs[i].count[c.from]);
    GetTakes(c, bs[i..], s, lines, source, text, added);
  }

  /** The block at hand. */
  lemma StandingAt(c: Command, bs: seq<Block>, target: seq<Line>, source: seq<Line>,
                   now: seq<Block>, lines: seq<Line>, i: nat, done: seq<Block>, s: int)
    requires Sound(c, bs, target, source) && Standing(c, bs, target, source, now, lines, i, done, s)
    ensures |now| == |done| + |bs| - i && i <= |bs|
    ensures i < |bs| ==>
              var b := now[|done|];
              && b == Shifted(c, bs[i], s) && b.count == bs[i].count
              && b.lnum[c.to] == bs[i].lnum[c.to] + s && b.lnum[c.from] == bs[i].lnum[c.from]
              && 1 <= b.lnum[c.from] && b.count[c.from] >= 0 && b.End(c.from) <= |source| + 1 && b.End(c.to) <= MAXLNUM
              && (Takes(c, bs[i], 0) ==> Whole(c, bs[i], 0))
    ensures i == |bs| ==> now == done
    ensures i == |bs| || bs[i].lnum[c.cur] > c.line2 ==>
              now == Get(c, bs, 0, target, source).0 && lines == Get(c, bs, 0, target, source).1
  {
    hide Spread, Get, Shifted, ReplaceLines, Takes, Whole;
    if i < |bs| {
      ShiftedIs(c, bs[i], s);
      assert bs[i..][0] == bs[i];
    }
    if i == |bs| || bs[i].lnum[c.cur] > c.line2 {
      GetStops(c, bs[i..], s, lines, source);
    }
  }

  lemma SoundAtStart(c: Command, bs: seq<Block>, target: seq<Line>, source: seq<Line>, d: Texts)
    requires c.Valid() && Fit(c, ONES, 0, bs, target, source, d) && Fitting(c, bs, target, source)
    ensures Sound(c, bs, target, source) && Standing(c, bs, target, source, bs, target, 0, [], 0)
  {
    hide Fit, Spread, Get, Whole, Shifted, Takes, Empty;
    FitSpread(c, ONES, 0, bs, target, source, d, c.to);
    FitSpread(c, ONES, 0, bs, target, source, d, c.from);
    assert bs[0..] == bs;
    ShiftNone(c, bs);
    assert [] + ShiftAll(c, bs, 0) == bs;
    assert [] + Get(c, bs, 0, target, source).0 == Get(c, bs, 0, target, source).0;
  }

  lemma {:induction false} ShiftNone(c: Command, bs: seq<Block>)
    requires c.Valid()
    ensures ShiftAll(c, bs, 0) == bs
  {
    if bs != [] {
      ShiftNone(c, bs[1..]);
      assert bs[0].lnum[c.to := bs[0].lnum[c.to]] == bs[0].lnum;
    }
  }

  /** What is known of a block that is taken whole, with only two buffers in the diff. */
  ghost predicate TakenWhole(c: Command, now: seq<Block>, k: nat, off: int, text: Buffers) {
    && c.Valid() && k < |now| && Whole(c, now[k], off) && Spread({c.from, c.to}, c.to, now)
    && now[k].lnum[c.from] >= 1 && now[k].count[c.from] >= 0 && now[k].count[c.to] >= 0
    && now[k].End(c.from) <= |text[c.from]| + 1 && now[k].End(c.to) <= MAXLNUM
  }

  /** Such a block is replaced, its entry is taken out, and the later ones are moved. */
  lemma WholeTurn(c: Command, opt: DiffOpt, now: seq<Block>, k: nat, off: int, text: Buffers)
    requires TakenWhole(c, now, k, off, text)
    ensures var (b, t) := (now[k], Turn(c, {c.from, c.to}, opt, now, k, off, text));
            && t.removed && t.steady && t.added == b.count[c.from] - b.count[c.to]
            && t.lines == ReplaceLines(text[c.to], b.lnum[c.to], b.count[c.to], text[c.from], b.lnum[c.from],
                b.count[c.from]).0
            && t.blocks == now[..k] + PushAll(BlockEdit(c.to, b, b.count[c.from]), now[k + 1..])
  {
    hide Turn, Spread, PushAll, Adjust, Steady, KeysOf, ReplaceLines, EqualEntry, PartOf, EditAt, Neighbours;
    var (both, b, p) := ({c.from, c.to}, now[k], PartOf(c, now[k], off));
    WholePart(c, b, off);
    TurnUnfold(c, both, opt, now, k, off, text);
    TurnReplaces(c, both, opt, now, k, off, text);
    ReplacedBy(text[c.to], b.lnum[c.to], b.count[c.to], text[c.from], b.lnum[c.from], b.count[c.from]);
    var added := b.count[c.from] - b.count[c.to];
    if added != 0 {
      EditPlaced(PartEdit(c, p, added), both, now, k);
      NeighboursAre(c, both, now, k);
      RemovedTurn(c, both, now, k, p, added, KeysOf(opt, TextAfter(c, both, opt, now, k, off, text)));
    } else {
      PushNothing(BlockEdit(c.to, b, b.count[c.from]), now[k + 1..]);
    }
  }

  lemma WholePart(c: Command, b: Block, off: int)
    requires c.Valid() && Whole(c, b, off)
    ensures PartOf(c, b, off) == Part(0, 0, b.lnum[c.to], b.count[c.to])
  {
  }

  lemma NeighboursAre(c: Command, bufs: Bufs, bs: seq<Block>, k: nat)
    requires c.Valid() && k < |bs| && Spread(bufs, c.to, bs)
    ensures Neighbours(c, bs, k)
  {
    hide Empty;
  }

  /** The target text and the list of a run that takes blocks whole are those of `Get`. */
  lemma {:induction false} WholeRun(c: Command, opt: DiffOpt, bs: seq<Block>, target: seq<Line>, text: Buffers,
                                    now: seq<Block>, i: nat, done: seq<Block>, s: int)
    requires c.Valid() && Sound(c, bs, target, text[c.from])
             && Standing(c, bs, target, text[c.from], now, text[c.to], i, done, s)
    ensures var (both, off) := ({c.from, c.to}, if c.cur == c.to then s else 0);
            var r := Get(c, bs, 0, target, text[c.from]);
            && GetPut(c, both, opt, now, |done|, off, text).0 == r.0
                && GetPut(c, both, opt, now, |done|, off, text).1 == r.1
            && Lasts(c, both, opt, now, |done|, off, text)
    decreases |bs| - i
  {
    hide Sound, Standing, Spread, Get, Turn, ReplaceLines, PushAll, BlockEdit, Shifted, ShiftAll;
    var (both, off, k, source) := ({c.from, c.to}, if c.cur == c.to then s else 0, |done|, text[c.from]);
    StandingValid(c, bs, target, source, now, text[c.to], i, done, s);
    StandingAt(c, bs, target, source, now, text[c.to], i, done, s);
    if i < |bs| && bs[i].lnum[c.cur] <= c.line2 {
      var b := now[k];
      TakesIs(c, bs[i], 0);
      if InRange(c, b, off) {
        WholeTurn(c, opt, now, k, off, text);
        var t := Turn(c, both, opt, now, k, off, text);
        StandingTakes(c, bs, target, source, now, text[c.to], i, done, s, k, t.blocks, t.lines, t.added);
        TurnSize(c, both, opt, now, k, off, text);
        WholeRun(c, opt, bs, target, text[c.to := t.lines], t.blocks, i + 1, done, s + t.added);
      } else {
        StandingSkips(c, bs, target, source, now, text[c.to], i, done, s);
        WholeRun(c, opt, bs, target, text, now, i + 1, done + [Shifted(c, bs[i], s)], s);
      }
    }
  }

  lemma StandingValid(c: Command, bs: seq<Block>, target: seq<Line>, source: seq<Line>, now: seq<Block>,
                      lines: seq<Line>, i: nat, done: seq<Block>, s: int)
    requires Sound(c, bs, target, source) && Standing(c, bs, target, source, now, lines, i, done, s)
    ensures c.Valid() && Spread({c.from, c.to}, c.to, now) && (i < |bs| ==> bs[i].count[c.to] >= 0)
  {
    hide Empty, Get, Shifted, ShiftAll;
  }

  /** If the range cuts no block and only two buffers are in the diff, the loop does what `Get` says, and no entry in
      use is taken out of the list while marks are adjusted. */
  lemma RunIsGet(c: Command, opt: DiffOpt, bs: seq<Block>, text: Buffers, d: Texts)
    requires c.Valid() && Fit(c, ONES, 0, bs, text[c.to], text[c.from], d) && Fitting(c, bs, text[c.to], text[c.from])
    ensures var r := Get(c, bs, 0, text[c.to], text[c.from]);
            && GetPut(c, {c.from, c.to}, opt, bs, 0, 0, text).0 == r.0
                && GetPut(c, {c.from, c.to}, opt, bs, 0, 0, text).1 == r.1
            && Lasts(c, {c.from, c.to}, opt, bs, 0, 0, text)
  {
    hide Fit, Fitting, Sound, Standing, Get, GetPut, Lasts;
    SoundAtStart(c, bs, text[c.to], text[c.from], d);
    WholeRun(c, opt, bs, text[c.to], text, bs, 0, [], 0);
  }

  // ----- runs in general -----

  /** Every turn of the loop leaves the list right, and none takes a real empty line for an empty buffer. With
      `content`, no turn merges the next block into the one at hand. */
  predicate AllRight(content: bool, c: Command, bufs: Bufs, opt: DiffOpt, bs: seq<Block>, k: nat, off: int,
                     text: Buffers)
    requires 0 <= c.cur < DB_COUNT && 0 <= c.from < DB_COUNT && 0 <= c.to < DB_COUNT
    decreases |bs| - k
  {
    k >= |bs| || bs[k].lnum[c.cur] > c.line2 + off ||
    if !InRange(c, bs[k], off) then AllRight(content, c, bufs, opt, bs, k + 1, off, text)
    else
      var t := Turn(c, bufs, opt, bs, k, off, text);
      TurnSize(c, bufs, opt, bs, k, off, text);
      && !Misjudged(c, bs[k], PartOf(c, bs[k], off), text[c.to]) && Right(c, bufs, opt, bs, k, off, text)
      && (content ==> !TakesNext(c, bufs, opt, bs, k, off, text))
      && |t.lines| < MAXLNUM
          && AllRight(content, c, bufs, opt, t.blocks, NextAt(k, t), NextOff(c, off, t), text[c.to := t.lines])
  }

  /** The list fits the buffers, with `content` also their text, and its blocks have lines. */
  ghost predicate RunReady(content: bool, c: Command, bufs: Bufs, opt: DiffOpt, bs: seq<Block>, text: Buffers) {
    && c.Valid() && c.from in bufs && c.to in bufs
    && Sync(content, bufs, ONES, 0, bs, KeysOf(opt, text)) && (forall i | 0 <= i < |bs| :: !Empty(bufs, bs[i]))
    && 1 <= |text[c.to]| < MAXLNUM && 1 <= |text[c.from]|
  }

  /** A turn that leaves the list right keeps all of that, and the entries in use. */
  lemma TurnKeeps(content: bool, c: Command, bufs: Bufs, opt: DiffOpt, bs: seq<Block>, k: nat, off: int, text: Buffers)
    requires RunReady(content, c, bufs, opt, bs, text) && k < |bs| && InRange(c, bs[k], off)
    requires !Misjudged(c, bs[k], PartOf(c, bs[k], off), text[c.to]) && Right(c, bufs, opt, bs, k, off, text)
    requires |Turn(c, bufs, opt, bs, k, off, text).lines| < MAXLNUM
             && (content ==> !TakesNext(c, bufs, opt, bs, k, off, text))
    ensures var t := Turn(c, bufs, opt, bs, k, off, text);
            RunReady(content, c, bufs, opt, t.blocks, text[c.to := t.lines]) && t.steady && bs[k].lnum[c.from] >= 1
  {
    hide Turn, PartOf, KeysOf, Sync, Misjudged, InRange, Empty, Right, TakesNext;
    Weaken(content, bufs, ONES, 0, bs, KeysOf(opt, text));
    if content {
      TurnFaithful(c, bufs, opt, bs, k, off, text);
    }
    TurnFits(c, bufs, opt, bs, k, off, text);
    TurnNotEmpty(c, bufs, opt, bs, k, off, text);
    PartFits(c, bufs, opt, bs, k, off, text);
    TurnText(c, bufs, opt, bs, k, off, text);
    PartIs(c, bs[k], off);
  }

  /** After such turns the list fits the buffers, whatever the range takes; with `content`, lines outside its blocks are
      the same if they were before. */
  lemma {:induction false} RunFits(content: bool, c: Command, bufs: Bufs, opt: DiffOpt, bs: seq<Block>, k: nat,
                                   off: int, text: Buffers)
    requires c.Valid() && RunReady(content, c, bufs, opt, bs, text) && AllRight(content, c, bufs, opt, bs, k, off, text)
    ensures var r := GetPut(c, bufs, opt, bs, k, off, text); RunReady(content, c, bufs, opt, r.0, text[c.to := r.1])
    ensures Lasts(c, bufs, opt, bs, k, off, text)
    decreases |bs| - k
  {
    hide RunReady, Turn, Misjudged, Right, PartOf, TakesNext;
    if k >= |bs| || bs[k].lnum[c.cur] > c.line2 + off {
      assert text[c.to := text[c.to]] == text;
    } else if !InRange(c, bs[k], off) {
      RunFits(content, c, bufs, opt, bs, k + 1, off, text);
    } else {
      var t := Turn(c, bufs, opt, bs, k, off, text);
      TurnSize(c, bufs, opt, bs, k, off, text);
      TurnKeeps(content, c, bufs, opt, bs, k, off, text);
      var after := text[c.to := t.lines];
      RunFits(content, c, bufs, opt, t.blocks, NextAt(k, t), NextOff(c, off, t), after);
      var r := GetPut(c, bufs, opt, t.blocks, NextAt(k, t), NextOff(c, off, t), after);
      assert after[c.to := r.1] == text[c.to := r.1];
    }
  }

  /** Only the block at position k is in the range. */
  ghost predicate OnlyOne(c: Command, bs: seq<Block>, k: nat)
    requires 0 <= c.cur < DB_COUNT && k < |bs|
  {
    && InRange(c, bs[k], 0)
    && (forall i | 0 <= i < k :: bs[i].lnum[c.cur] <= c.line2 && bs[i].End(c.cur) <= c.line1)
    && (forall i | k < i < |bs| :: bs[i].lnum[c.cur] > c.line2)
  }

  lemma {:induction false} SkipsTo(c: Command, bufs: Bufs, opt: DiffOpt, bs: seq<Block>, i: nat, k: nat, text: Buffers)
    requires c.Valid() && i <= k < |bs| && OnlyOne(c, bs, k)
    ensures GetPut(c, bufs, opt, bs, i, 0, text) == GetPut(c, bufs, opt, bs, k, 0, text)
    decreases k - i
  {
    hide Turn;
    if i < k {
      SkipsTo(c, bufs, opt, bs, i + 1, k, text);
    }
  }

  /** The entries below the block are past the range also after the turn. */
  lemma PastAfter(c: Command, bufs: Bufs, opt: DiffOpt, bs: seq<Block>, k: nat, text: Buffers)
    requires Ready(c, bufs, opt, bs, k, 0, text) && !Misjudged(c, bs[k], PartOf(c, bs[k], 0), text[c.to])
             && OnlyOne(c, bs, k)
    ensures var t := Turn(c, bufs, opt, bs, k, 0, text);
            NextAt(k, t) < |t.blocks| ==> t.blocks[NextAt(k, t)].lnum[c.cur] > c.line2 + NextOff(c, 0, t)
  {
    hide Ready, Turn, PartOf, Misjudged, KeysOf, PushAll, EditAt, Stays, Tail, Fair, Proper, Neighbours, InRange,
        Spread, BelowEdit, Empty;
    ReadyPart(c, bufs, opt, bs, k, 0, text);
    var (t, p, rest) := (Turn(c, bufs, opt, bs, k, 0, text), PartOf(c, bs[k], 0), bs[k + 1..]);
    TurnText(c, bufs, opt, bs, k, 0, text);
    RestPast(c, bs, k);
    if t.added != 0 {
      TurnPlaced(c, bufs, opt, bs, k, 0, text, t.added);
      EditAtIs(PartEdit(c, p, t.added), bufs, bs[..k], rest);
      PushedPast(c, bufs, p, t.added, rest);
    }
    if t.removed {
      TurnRemoved(c, bufs, opt, bs, k, 0, text);
      NextIs(bs[..k], t.blocks[k..], t.blocks, k, 0);
    } else {
      TurnKept(c, bufs, opt, bs, k, 0, text);
      if t.added != 0 {
        TailPast(c, bufs, bs[k], p, t.added, rest, KeysOf(opt, TextAfter(c, bufs, opt, bs, k, 0, text)));
        NextIs(bs[..k], t.blocks[k..], t.blocks, k, 1);
      }
    }
  }

  /** All blocks are past the range, which has moved by `off` lines. */
  ghost predicate AllPast(c: Command, off: int, bs: seq<Block>)
    requires 0 <= c.cur < DB_COUNT
  {
    forall i | 0 <= i < |bs| :: bs[i].lnum[c.cur] > c.line2 + off
  }

  lemma RestPast(c: Command, bs: seq<Block>, k: nat)
    requires 0 <= c.cur < DB_COUNT && k < |bs| && OnlyOne(c, bs, k)
    ensures AllPast(c, 0, bs[k + 1..])
  {
    hide InRange;
  }

  lemma NextIs(above: seq<Block>, tail: seq<Block>, all: seq<Block>, k: nat, j: nat)
    requires |above| == k <= |all| && tail == all[k..]
    ensures k + j < |all| ==> j < |tail| && all[k + j] == tail[j]
  {
  }

  lemma PushedPast(c: Command, bufs: Bufs, p: Part, added: int, rest: seq<Block>)
    requires c.Valid() && Spread(bufs, c.to, rest) && BelowEdit(PartEdit(c, p, added), rest) && AllPast(c, 0, rest)
    ensures AllPast(c, if c.cur == c.to then added else 0, PushAll(PartEdit(c, p, added), rest))
  {
    hide Pushed, Empty;
    var ed := PartEdit(c, p, added);
    forall i | 0 <= i < |rest| ensures PushAll(ed, rest)[i].lnum[c.cur] == rest[i].lnum[c.cur]
        + (if c.cur == c.to then added else 0) {
      PushedAt(ed, rest[i]);
    }
  }

  lemma TailPast(c: Command, bufs: Bufs, b: Block, p: Part, added: int, rest: seq<Block>, d: Texts)
    requires c.Valid() && AllPast(c, if c.cur == c.to then added else 0, PushAll(PartEdit(c, p, added), rest))
    ensures var tail := Tail(c, bufs, b, p, added, rest, d);
            |tail| > 1 ==> tail[1].lnum[c.cur] > c.line2 + if c.cur == c.to then added else 0
  {
    hide Marked, MeetsNext, Merge, Pushed, Resized, Empty;
    var ed := PartEdit(c, p, added);
    if MeetsNext(ed, Marked(c, bufs, b, p, added, d), rest) {
      MeetsSome(ed, Marked(c, bufs, b, p, added, d), rest);
      assert PushAll(ed, rest) == [Pushed(ed, rest[0])] + PushAll(ed, rest[1..]);
    }
  }

  /** When the range has lines of one block only, the list fits afterwards exactly when the turn leaves it right. */
  lemma RunOneFits(c: Command, bufs: Bufs, opt: DiffOpt, bs: seq<Block>, k: nat, text: Buffers)
    requires Ready(c, bufs, opt, bs, k, 0, text) && !Misjudged(c, bs[k], PartOf(c, bs[k], 0), text[c.to])
             && OnlyOne(c, bs, k)
    ensures var r := GetPut(c, bufs, opt, bs, 0, 0, text);
            && r.0 == Turn(c, bufs, opt, bs, k, 0, text).blocks && r.1 == Turn(c, bufs, opt, bs, k, 0, text).lines
            && (Aligned(bufs, r.0, KeysOf(opt, text[c.to := r.1])) <==> Right(c, bufs, opt, bs, k, 0, text))
  {
    hide Turn, PartOf, Misjudged, Right, Aligned, KeysOf;
    SkipsTo(c, bufs, opt, bs, 0, k, text);
    PastAfter(c, bufs, opt, bs, k, text);
    TurnSize(c, bufs, opt, bs, k, 0, text);
    TurnFits(c, bufs, opt, bs, k, 0, text);
  }
}

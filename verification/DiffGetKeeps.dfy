/** `:diffget` and `:diffput` of any range: lines outside the blocks of the list stay the same in all buffers. */
module DiffGetKeeps {
  import opened LineCompare
  import opened DiffBlocks
  import opened DiffTrim
  import opened DiffDisplay
  import opened MarkAdjust
  import opened DiffList
  import opened DiffGet
  import opened DiffGetMarks
  import opened DiffGetTurn
  import opened DiffGetCut

  // ----- the text around the replaced lines -----

  /** The edit replaces its lines in one buffer; those above stay, those below are moved. */
  ghost predicate LinesReplaced(ed: Edit, bufs: Bufs, d: Texts, d': Texts)
    requires 0 <= ed.idx < DB_COUNT
  {
    && (forall i {:trigger i in bufs} | i in bufs && i != ed.idx :: d'.lines[i] == d.lines[i])
    && 1 <= ed.line1 <= ed.line2 + 1 <= Size(d, ed.idx) + 1 && ed.line1 <= ed.line2 + ed.after + 1
    && Size(d', ed.idx) == Size(d, ed.idx) + ed.after
    && d'.lines[ed.idx][..ed.line1 - 1] == d.lines[ed.idx][..ed.line1 - 1]
    && d'.lines[ed.idx][ed.line2 + ed.after..] == d.lines[ed.idx][ed.line2..]
  }

  lemma SameAbove(ed: Edit, bufs: Bufs, d: Texts, d': Texts, i: int, a: int, b: int)
    requires 0 <= ed.idx < DB_COUNT && LinesReplaced(ed, bufs, d, d') && i in bufs && (i == ed.idx ==> b <= ed.line1)
    requires 1 <= a <= b <= Size(d, i) + 1
    ensures Slice(d', i, a, b) == Slice(d, i, a, b) && b <= Size(d', i) + 1
  {
    if i == ed.idx {
      var n := ed.line1 - 1;
      PartOfFirst(d.lines[i], n, a - 1, b - 1);
      PartOfFirst(d'.lines[i], n, a - 1, b - 1);
    }
  }

  lemma PartOfFirst<T>(s: seq<T>, n: nat, a: nat, b: nat)
    requires a <= b <= n <= |s|
    ensures s[a..b] == s[..n][a..b]
  {
  }

  lemma PartOfLast<T>(s: seq<T>, n: nat, a: nat, b: nat)
    requires n <= a <= b <= |s|
    ensures s[a..b] == s[n..][a - n..b - n]
  {
  }

  lemma SameBelow(ed: Edit, bufs: Bufs, d: Texts, d': Texts, i: int, a: int, b: int)
    requires 0 <= ed.idx < DB_COUNT && LinesReplaced(ed, bufs, d, d') && i in bufs && (i == ed.idx ==> ed.line2 < a)
    requires 1 <= a <= b <= Size(d, i) + 1
    ensures var n := if i == ed.idx then ed.after else 0;
            1 <= a + n && b + n <= Size(d', i) + 1 && Slice(d', i, a + n, b + n) == Slice(d, i, a, b)
  {
    if i == ed.idx {
      PartOfLast(d.lines[i], ed.line2, a - 1, b - 1);
      PartOfLast(d'.lines[i], ed.line2 + ed.after, a + ed.after - 1, b + ed.after - 1);
    }
  }

  lemma StretchAbove(ed: Edit, bufs: Bufs, e: Vec, f: Vec, m: nat, d: Texts, d': Texts)
    requires ed.idx in bufs && LinesReplaced(ed, bufs, d, d') && Gap(true, bufs, e, f, m, d) && f[ed.idx] <= ed.line1
    ensures Gap(true, bufs, e, f, m, d')
  {
    hide Slice, LinesReplaced;
    forall i | i in bufs ensures Slice(d', i, e[i], f[i]) == Slice(d, i, e[i], f[i]) && f[i] <= Size(d', i) + 1 {
      SameAbove(ed, bufs, d, d', i, e[i], f[i]);
    }
  }

  lemma StretchBelow(ed: Edit, bufs: Bufs, e: Vec, f: Vec, m: nat, d: Texts, d': Texts)
    requires ed.idx in bufs && LinesReplaced(ed, bufs, d, d') && Gap(true, bufs, e, f, m, d) && ed.line2 < e[ed.idx]
    ensures Gap(true, bufs, Lowered(ed, e), Lowered(ed, f), m, d')
  {
    hide Slice, LinesReplaced;
    forall i | i in bufs
      ensures Slice(d', i, Lowered(ed, e)[i], Lowered(ed, f)[i]) == Slice(d, i, e[i], f[i])
      ensures 1 <= Lowered(ed, e)[i] && Lowered(ed, f)[i] <= Size(d', i) + 1
    {
      SameBelow(ed, bufs, d, d', i, e[i], f[i]);
    }
  }

  /** The stretches above stay as they are. */
  lemma {:induction false} TextAbove(ed: Edit, bufs: Bufs, e: Vec, m: nat, above: seq<Block>, rest: seq<Block>,
                                     rest': seq<Block>, d: Texts, d': Texts)
    requires ed.idx in bufs && LinesReplaced(ed, bufs, d, d') && Sync(true, bufs, e, m, above + rest, d)
             && EndOfList(e, above)[ed.idx] <= ed.line1
    requires Sync(true, bufs, EndOfList(e, above), LeastAfter(m, above), rest', d')
    ensures Sync(true, bufs, e, m, above + rest', d')
    decreases |above|
  {
    hide Gap, LinesReplaced;
    if above == [] {
      assert above + rest == rest && above + rest' == rest';
    } else {
      var (all, all') := (above + rest, above + rest');
      assert all[0] == above[0] && all[1..] == above[1..] + rest && all'[0] == above[0]
          && all'[1..] == above[1..] + rest';
      EndsUp(bufs, ed.idx, above[0].Ends(), 1, above[1..], rest, d);
      assert EndOfList(e, above) == EndOfList(above[0].Ends(), above[1..]);
      StretchAbove(ed, bufs, e, above[0].lnum, m, d, d');
      TextAbove(ed, bufs, above[0].Ends(), 1, above[1..], rest, rest', d, d');
    }
  }

  lemma {:induction false} EndsUp(bufs: Bufs, idx: int, e: Vec, m: nat, above: seq<Block>, rest: seq<Block>, d: Texts)
    requires idx in bufs && Sync(true, bufs, e, m, above + rest, d)
    ensures e[idx] <= EndOfList(e, above)[idx]
    decreases |above|
  {
    hide SameText;
    if above != [] {
      var all := above + rest;
      assert all[0] == above[0] && all[1..] == above[1..] + rest;
      EndsUp(bufs, idx, above[0].Ends(), 1, above[1..], rest, d);
      assert EndOfList(e, above) == EndOfList(above[0].Ends(), above[1..]);
    }
  }

  /** The stretches below are moved. */
  lemma {:induction false} TextBelow(ed: Edit, bufs: Bufs, e: Vec, m: nat, rest: seq<Block>, d: Texts, d': Texts)
    requires ed.idx in bufs && LinesReplaced(ed, bufs, d, d') && Sync(true, bufs, e, m, rest, d) && ed.line2 < e[ed.idx]
             && BelowEdit(ed, rest)
    ensures Sync(true, bufs, Lowered(ed, e), m, PushAll(ed, rest), d')
    decreases |rest|
  {
    hide Gap, LinesReplaced;
    if rest == [] {
      StretchBelow(ed, bufs, e, AfterLast(d), 0, d, d');
      ReplacedSizes(ed, bufs, d, d');
      GapSame(true, bufs, Lowered(ed, e), Lowered(ed, AfterLast(d)), Lowered(ed, e), AfterLast(d'), 0, d');
    } else {
      var b := rest[0];
      PushedAt(ed, b);
      StretchBelow(ed, bufs, e, b.lnum, m, d, d');
      TextBelow(ed, bufs, b.Ends(), 1, rest[1..], d, d');
      SyncSame(true, bufs, Lowered(ed, b.Ends()), Pushed(ed, b).Ends(), 1, PushAll(ed, rest[1..]), d');
    }
  }

  lemma ReplacedSizes(ed: Edit, bufs: Bufs, d: Texts, d': Texts)
    requires ed.idx in bufs && LinesReplaced(ed, bufs, d, d')
    ensures forall i {:trigger i in bufs} | i in bufs :: Size(d', i) == Size(d, i) + if i == ed.idx then ed.after else 0
  {
  }

  // ----- the turn -----

  /** The turn replaces the lines p of the target, as the comparison sees it. */
  lemma TurnReplaced(c: Command, bufs: Bufs, opt: DiffOpt, bs: seq<Block>, k: nat, off: int, text: Buffers)
    requires Ready(c, bufs, opt, bs, k, off, text) && !Misjudged(c, bs[k], PartOf(c, bs[k], off), text[c.to])
    ensures var (b, p, t) := (bs[k], PartOf(c, bs[k], off), Turn(c, bufs, opt, bs, k, off, text));
            && LinesReplaced(PartEdit(c, p, t.added), bufs, KeysOf(opt, text),
                KeysOf(opt, TextAfter(c, bufs, opt, bs, k, off, text)))
            && b.lnum[c.to] <= p.lnum && p.lnum + p.count <= b.End(c.to) && p.count >= 0
  {
    hide Turn, KeysOf, Ready, PartOf, Misjudged, InRange, Lines, LinesReplaced;
    ReadyPart(c, bufs, opt, bs, k, off, text);
    var (b, p, t) := (bs[k], PartOf(c, bs[k], off), Turn(c, bufs, opt, bs, k, off, text));
    PartFits(c, bufs, opt, bs, k, off, text);
    PartIs(c, b, off);
    TurnText(c, bufs, opt, bs, k, off, text);
    KeysReplaced(c, bufs, opt, text, t.lines, p, t.added,
        Lines(text[c.from], b.lnum[c.from] + p.top, b.lnum[c.from] + p.top + TakenCount(c, b, p)));
  }

  lemma KeysReplaced(c: Command, bufs: Bufs, opt: DiffOpt, text: Buffers, lines: seq<Line>, p: Part, added: int,
                     copied: seq<Line>)
    requires c.Valid() && c.to in bufs && 1 <= p.lnum && p.count >= 0 && p.lnum + p.count <= |text[c.to]| + 1
             && p.count + added >= 0
    requires lines == Lines(text[c.to], 1, p.lnum) + copied + Lines(text[c.to], p.lnum + p.count, |text[c.to]| + 1)
    requires |lines| == |text[c.to]| + added
    ensures LinesReplaced(PartEdit(c, p, added), bufs, KeysOf(opt, text), KeysOf(opt, text[c.to := lines]))
  {
    hide Lines, KeyLines, Normal;
    var (was, after) := (text[c.to], text[c.to := lines]);
    LinesAre(was, 1, p.lnum - 1);
    LinesAre(was, p.lnum + p.count, |was| + 1 - p.lnum - p.count);
    TextEnds(was[..p.lnum - 1], copied, was[p.lnum + p.count - 1..], lines);
    KeysFirst(opt, was, lines, p.lnum - 1);
    KeysLast(opt, was, lines, p.lnum + p.count - 1, p.lnum + p.count - 1 + added);
  }

  lemma TextEnds<T>(a: seq<T>, b: seq<T>, c: seq<T>, all: seq<T>)
    requires all == a + b + c
    ensures all[..|a|] == a && all[|all| - |c|..] == c
  {
  }

  lemma KeysFirst(opt: DiffOpt, a: seq<Line>, b: seq<Line>, n: nat)
    requires n <= |a| && n <= |b| && a[..n] == b[..n]
    ensures KeyLines(opt, a)[..n] == KeyLines(opt, b)[..n]
  {
    hide Normal;
    forall k | 0 <= k < n ensures a[k] == b[k] {
      assert a[k] == a[..n][k] && b[k] == b[..n][k];
    }
  }

  lemma KeysLast(opt: DiffOpt, a: seq<Line>, b: seq<Line>, m: nat, n: nat)
    requires m <= |a| && n <= |b| && a[m..] == b[n..]
    ensures KeyLines(opt, a)[m..] == KeyLines(opt, b)[n..]
  {
    hide Normal;
    var (x, y) := (KeyLines(opt, a)[m..], KeyLines(opt, b)[n..]);
    forall k | 0 <= k < |x| ensures x[k] == y[k] {
      assert a[m..][k] == b[n..][k];
    }
  }

  // ----- the entry stays -----

  /** mark_adjust takes off lines that are the same in all buffers only. */
  lemma MarkedText(c: Command, bufs: Bufs, b: Block, p: Part, added: int, d: Texts)
    requires c.to in bufs && Fair(c, b, p, added) && Proper(bufs, b) && b.End(c.to) + added <= Size(d, c.to) + 1
    requires forall i {:trigger i in bufs} | i in bufs && i != c.to :: b.End(i) <= Size(d, i) + 1
    ensures var x := Marked(c, bufs, b, p, added, d);
            x.lnum[c.to] >= b.lnum[c.to] && Gap(true, bufs, b.lnum, x.lnum, x.lnum[c.to] - b.lnum[c.to], d)
  {
    hide Counted, Trim, Gap, Recount, Surplus, Sane;
    var (x, y) := (Marked(c, bufs, b, p, added, d), Counted(c, bufs, b, p, added));
    var f, r := MarkedShape(c, bufs, b, p, added, d);
    CountedIs(c, bufs, b, p, added);
    if Looked(c, b, p, added) && Sane(bufs, y, d) {
      CountedProper(c, bufs, b, p, added);
      ProperWithin(bufs, y, d);
      var f', r' := TrimIs(bufs, y, d);
      GapSame(true, bufs, y.lnum, x.lnum, b.lnum, x.lnum, f', d);
    } else {
      NotTrimmed(c, bufs, b, p, added, d);
      GapNone(true, bufs, b.lnum, x.lnum, d);
    }
  }

  lemma CountedProper(c: Command, bufs: Bufs, b: Block, p: Part, added: int)
    requires c.to in bufs && Fair(c, b, p, added) && Proper(bufs, b) && Looked(c, b, p, added)
    ensures Proper(bufs, Counted(c, bufs, b, p, added))
  {
    hide Counted;
    CountedIs(c, bufs, b, p, added);
  }

  lemma NotTrimmed(c: Command, bufs: Bufs, b: Block, p: Part, added: int, d: Texts)
    requires c.to in bufs && !(Looked(c, b, p, added) && Sane(bufs, Counted(c, bufs, b, p, added), d))
    ensures forall i {:trigger i in bufs} | i in bufs :: Marked(c, bufs, b, p, added, d).lnum[i] == b.lnum[i]
  {
    hide Counted;
    CountedIs(c, bufs, b, p, added);
  }

  /** The entry stays by itself: lines between the blocks are the same if they were before. */
  lemma AloneText(c: Command, bufs: Bufs, e: Vec, m: nat, b: Block, p: Part, added: int, rest: seq<Block>, d0: Texts,
                  d: Texts)
    requires c.to in bufs && TurnAt(c, bufs, e, m, b, p, added, rest, d0, d) && Sync(true, bufs, e, m, [b] + rest, d0)
             && LinesReplaced(PartEdit(c, p, added), bufs, d0, d)
    requires RightMarks(c, bufs, b, p, added, rest, d)
             && !MeetsNext(PartEdit(c, p, added), Marked(c, bufs, b, p, added, d), rest)
    requires rest != [] ==> Proper(bufs, rest[0]) && !Empty(bufs, rest[0])
    ensures Sync(true, bufs, e, m, Tail(c, bufs, b, p, added, rest, d), d)
  {
    hide Sync, LinesReplaced, TurnAt, Marked, Gap, PushAll, MeetsNext, Empty, Recount, Surplus, Shape;
    var (ed, x, n) := (PartEdit(c, p, added), Marked(c, bufs, b, p, added, d), In(c, b) + added);
    var (z, q) := (Resized(c, x, n), PushAll(ed, rest));
    TailFits(c, bufs, e, m, b, p, added, rest, d0, d);
    AloneTop(c, bufs, e, m, b, p, added, rest, d0, d);
    AloneBottom(c, bufs, e, m, b, p, added, rest, d0, d, z);
    SyncHead(bufs, e, m, z, q, d);
  }

  /** A list that starts with block z. */
  lemma SyncHead(bufs: Bufs, e: Vec, m: nat, z: Block, rest: seq<Block>, d: Texts)
    requires Sync(false, bufs, e, m, [z] + rest, d) && Gap(true, bufs, e, z.lnum, m, d)
             && Sync(true, bufs, z.Ends(), 1, rest, d)
    ensures Sync(true, bufs, e, m, [z] + rest, d)
  {
    hide Gap;
    assert ([z] + rest)[1..] == rest;
  }

  lemma AloneTop(c: Command, bufs: Bufs, e: Vec, m: nat, b: Block, p: Part, added: int, rest: seq<Block>, d0: Texts,
                 d: Texts)
    requires c.to in bufs && TurnAt(c, bufs, e, m, b, p, added, rest, d0, d) && Sync(true, bufs, e, m, [b] + rest, d0)
             && LinesReplaced(PartEdit(c, p, added), bufs, d0, d)
    ensures Gap(true, bufs, e, Resized(c, Marked(c, bufs, b, p, added, d), In(c, b) + added).lnum, m, d)
  {
    hide SameText, LinesReplaced, Marked;
    var x := Marked(c, bufs, b, p, added, d);
    EndsInRange(false, bufs, b.Ends(), 1, rest, d0);
    ReplacedSizes(PartEdit(c, p, added), bufs, d0, d);
    StretchAbove(PartEdit(c, p, added), bufs, e, b.lnum, m, d0, d);
    MarkedText(c, bufs, b, p, added, d);
    GapJoin(true, bufs, e, b.lnum, x.lnum, m, x.lnum[c.to] - b.lnum[c.to], d);
  }

  lemma AloneBottom(c: Command, bufs: Bufs, e: Vec, m: nat, b: Block, p: Part, added: int, rest: seq<Block>, d0: Texts,
                    d: Texts, z: Block)
    requires c.to in bufs && TurnAt(c, bufs, e, m, b, p, added, rest, d0, d) && Sync(true, bufs, e, m, [b] + rest, d0)
             && LinesReplaced(PartEdit(c, p, added), bufs, d0, d)
    requires z == Resized(c, Marked(c, bufs, b, p, added, d), In(c, b) + added)
             && Sync(false, bufs, e, m, [z] + PushAll(PartEdit(c, p, added), rest), d)
    requires Recount(c, b, p, added) - Marked(c, bufs, b, p, added, d).count[c.to] == Surplus(c, b, p, added)
    ensures Sync(true, bufs, z.Ends(), 1, PushAll(PartEdit(c, p, added), rest), d)
  {
    hide LinesReplaced, Marked, Recount, Surplus, PushAll, SameText;
    var (ed, q) := (PartEdit(c, p, added), PushAll(PartEdit(c, p, added), rest));
    assert ([b] + rest)[1..] == rest && ([z] + q)[1..] == q;
    var f, r := MarkedShape(c, bufs, b, p, added, d);
    TextBelow(ed, bufs, b.Ends(), 1, rest, d0, d);
    SyncDrop(true, bufs, Lowered(ed, b.Ends()), z.Ends(), 1, f, 1, q, d);
  }

  // ----- the entry is taken out, or the number of lines is the same -----

  /** The lines that were copied are those of the source. */
  lemma CopiedText(c: Command, bufs: Bufs, opt: DiffOpt, bs: seq<Block>, k: nat, off: int, text: Buffers)
    requires Ready(c, bufs, opt, bs, k, off, text) && !Misjudged(c, bs[k], PartOf(c, bs[k], off), text[c.to])
    requires PartOf(c, bs[k], off) == Part(0, 0, bs[k].lnum[c.to], bs[k].count[c.to])
    ensures var (b, d) := (bs[k], KeysOf(opt, TextAfter(c, bufs, opt, bs, k, off, text)));
            && b.lnum[c.to] + b.count[c.from] <= Size(d, c.to) + 1 && b.End(c.from) <= Size(d, c.from) + 1
            && Slice(d, c.to, b.lnum[c.to], b.lnum[c.to] + b.count[c.from])
                == Slice(d, c.from, b.lnum[c.from], b.End(c.from))
  {
    hide Turn, KeysOf, Ready, PartOf, Misjudged, InRange, Lines, Slice;
    ReadyPart(c, bufs, opt, bs, k, off, text);
    var (b, t, after) := (bs[k], Turn(c, bufs, opt, bs, k, off, text), TextAfter(c, bufs, opt, bs, k, off, text));
    PartFits(c, bufs, opt, bs, k, off, text);
    TurnText(c, bufs, opt, bs, k, off, text);
    KeySizes(opt, after);
    LinesSize(text[c.to], 1, b.lnum[c.to]);
    LinesAre(text[c.from], b.lnum[c.from], b.count[c.from]);
    MiddleLines(t.lines, Lines(text[c.to], 1, b.lnum[c.to]), Lines(text[c.from], b.lnum[c.from], b.End(c.from)),
                Lines(text[c.to], b.End(c.to), |text[c.to]| + 1));
    KeysOfLines(opt, after, c.to, b.lnum[c.to], b.lnum[c.to] + b.count[c.from]);
    KeysOfLines(opt, after, c.from, b.lnum[c.from], b.End(c.from));
  }

  lemma MiddleLines(all: seq<Line>, x: seq<Line>, y: seq<Line>, z: seq<Line>)
    requires all == x + y + z
    ensures Lines(all, |x| + 1, |x| + 1 + |y|) == y
  {
  }

  lemma KeysOfLines(opt: DiffOpt, text: Buffers, i: int, a: int, b: int)
    requires 0 <= i < DB_COUNT
    ensures Slice(KeysOf(opt, text), i, a, b) == KeyLines(opt, Lines(text[i], a, b))
  {
    hide Normal;
  }

  /** A block that is the same in all buffers is a stretch between blocks. */
  lemma EqualGap(c: Command, bufs: Bufs, b: Block, g: Vec, d: Texts)
    requires c.Valid() && c.from in bufs && Proper(bufs, b)
             && EqualElsewhere(c, bufs, Resized(c, b, b.count[c.from]), d)
    requires forall i {:trigger i in bufs} | i in bufs :: g[i] == b.lnum[i] + b.count[c.from]
    requires b.lnum[c.to] + b.count[c.from] <= Size(d, c.to) + 1 && b.End(c.from) <= Size(d, c.from) + 1
    requires forall i {:trigger i in bufs} | i in bufs :: g[i] <= Size(d, i) + 1
    requires Slice(d, c.to, b.lnum[c.to], b.lnum[c.to] + b.count[c.from])
             == Slice(d, c.from, b.lnum[c.from], b.End(c.from))
    ensures Gap(true, bufs, b.lnum, g, b.count[c.from], d)
  {
    hide Slice, EqualEntry;
    forall i | i in bufs ensures Slice(d, i, b.lnum[i], g[i]) == Slice(d, c.from, b.lnum[c.from], g[c.from]) {
      if i != c.from && i != c.to {
        var x := Resized(c, b, b.count[c.from]);
        assert x.lnum == b.lnum && x.count[c.from] == b.count[c.from];
        EqualSlice(bufs, x, c.from, i, d);
      }
    }
  }

  lemma EqualSlice(bufs: Bufs, b: Block, i: int, j: int, d: Texts)
    requires 0 <= i < DB_COUNT && 0 <= j < DB_COUNT && EqualEntry(bufs, b, i, j, d) && i in bufs && j in bufs
             && b.lnum[i] >= 1 && b.lnum[j] >= 1
    requires b.count[i] >= 0 && b.End(i) <= Size(d, i) + 1 && b.lnum[j] + b.count[i] <= Size(d, j) + 1
    ensures Slice(d, j, b.lnum[j], b.lnum[j] + b.count[i]) == Slice(d, i, b.lnum[i], b.End(i))
  {
    var (x, y) := (Slice(d, i, b.lnum[i], b.End(i)), Slice(d, j, b.lnum[j], b.End(j)));
    forall k | 0 <= k < b.count[i] ensures x[k] == y[k] {
      var l := b.lnum[i] + k;
      assert LineKey(d, i, l) == LineKey(d, j, l - b.lnum[i] + b.lnum[j]);
    }
  }

  // ----- the whole list -----

  lemma {:induction false} TextRest(bufs: Bufs, e: Vec, m: nat, above: seq<Block>, rest: seq<Block>, d: Texts)
    requires Sync(true, bufs, e, m, above + rest, d)
    ensures Sync(true, bufs, EndOfList(e, above), LeastAfter(m, above), rest, d)
    decreases |above|
  {
    hide Gap;
    if above == [] {
      assert above + rest == rest;
    } else {
      var all := above + rest;
      assert all[0] == above[0] && all[1..] == above[1..] + rest;
      TextRest(bufs, above[0].Ends(), 1, above[1..], rest, d);
      assert EndOfList(e, above) == EndOfList(above[0].Ends(), above[1..]);
    }
  }

  /** What is known of the text around the block at hand. */
  ghost predicate TextAt(c: Command, bufs: Bufs, above: seq<Block>, b: Block, rest: seq<Block>, ed: Edit, d0: Texts,
                         d: Texts)
    requires 0 <= ed.idx < DB_COUNT
  {
    var (e, m) := (EndOfList(ONES, above), LeastAfter(0, above));
    && ed.idx in bufs && LinesReplaced(ed, bufs, d0, d) && BelowEdit(ed, rest)
    && Sync(true, bufs, ONES, 0, above + ([b] + rest), d0) && Sync(true, bufs, e, m, [b] + rest, d0)
    && b.lnum[ed.idx] <= ed.line1 && ed.line2 < b.End(ed.idx)
  }

  lemma TurnTextAt(c: Command, bufs: Bufs, opt: DiffOpt, bs: seq<Block>, k: nat, off: int, text: Buffers)
    requires Ready(c, bufs, opt, bs, k, off, text) && !Misjudged(c, bs[k], PartOf(c, bs[k], off), text[c.to])
    requires Faithful(bufs, bs, KeysOf(opt, text))
    ensures var (b, p, t) := (bs[k], PartOf(c, bs[k], off), Turn(c, bufs, opt, bs, k, off, text));
            && bs == bs[..k] + ([b] + bs[k + 1..])
            && TextAt(c, bufs, bs[..k], b, bs[k + 1..], PartEdit(c, p, t.added), KeysOf(opt, text),
                KeysOf(opt, TextAfter(c, bufs, opt, bs, k, off, text)))
  {
    hide Turn, KeysOf, PartOf, Misjudged, InRange, Sync, LinesReplaced, Empty;
    var (b, p, t, d0) := (bs[k], PartOf(c, bs[k], off), Turn(c, bufs, opt, bs, k, off, text), KeysOf(opt, text));
    AtBlock(bufs, bs, k, d0);
    TurnReplaced(c, bufs, opt, bs, k, off, text);
    TextRest(bufs, ONES, 0, bs[..k], [b] + bs[k + 1..], d0);
    SyncSpread(bufs, b.Ends(), 1, bs[k + 1..], d0, c.to);
  }

  /** A new tail for the list. */
  lemma NewTail(c: Command, bufs: Bufs, above: seq<Block>, b: Block, rest: seq<Block>, ed: Edit, d0: Texts, d: Texts,
                tail: seq<Block>)
    requires 0 <= ed.idx < DB_COUNT && TextAt(c, bufs, above, b, rest, ed, d0, d)
    requires Sync(true, bufs, EndOfList(ONES, above), LeastAfter(0, above), tail, d)
    ensures Faithful(bufs, above + tail, d)
  {
    hide LinesReplaced, SameText;
    TextAbove(ed, bufs, ONES, 0, above, [b] + rest, tail, d0, d);
  }

  /** The stretches next to the block, in the new text. */
  lemma TextAround(c: Command, bufs: Bufs, above: seq<Block>, b: Block, rest: seq<Block>, ed: Edit, d0: Texts, d: Texts)
    requires 0 <= ed.idx < DB_COUNT && TextAt(c, bufs, above, b, rest, ed, d0, d)
    ensures Gap(true, bufs, EndOfList(ONES, above), b.lnum, LeastAfter(0, above), d)
    ensures Sync(true, bufs, Lowered(ed, b.Ends()), 1, PushAll(ed, rest), d) && Proper(bufs, b)
  {
    hide LinesReplaced, SameText;
    assert ([b] + rest)[1..] == rest;
    StretchAbove(ed, bufs, EndOfList(ONES, above), b.lnum, LeastAfter(0, above), d0, d);
    TextBelow(ed, bufs, b.Ends(), 1, rest, d0, d);
  }

  /** The number of lines is the same. */
  lemma EvenText(c: Command, bufs: Bufs, above: seq<Block>, b: Block, rest: seq<Block>, ed: Edit, d0: Texts, d: Texts)
    requires 0 <= ed.idx < DB_COUNT && TextAt(c, bufs, above, b, rest, ed, d0, d) && ed.after == 0
    ensures Faithful(bufs, above + ([b] + rest), d)
  {
    hide LinesReplaced, Gap, PushAll;
    TextAround(c, bufs, above, b, rest, ed, d0, d);
    PushNothing(ed, rest);
    SyncSame(true, bufs, Lowered(ed, b.Ends()), b.Ends(), 1, rest, d);
    assert ([b] + rest)[1..] == rest;
    NewTail(c, bufs, above, b, rest, ed, d0, d, [b] + rest);
  }

  /** The block is the same in all buffers, and its entry was taken out. */
  lemma RemovedText(c: Command, bufs: Bufs, above: seq<Block>, b: Block, rest: seq<Block>, ed: Edit, d0: Texts,
                    d: Texts)
    requires 0 <= ed.idx < DB_COUNT && TextAt(c, bufs, above, b, rest, ed, d0, d)
    requires Gap(true, bufs, b.lnum, Lowered(ed, b.Ends()), 0, d)
    ensures Faithful(bufs, above + PushAll(ed, rest), d)
  {
    hide LinesReplaced, Gap, PushAll, Sync, TextAt;
    var (e, m, g) := (EndOfList(ONES, above), LeastAfter(0, above), Lowered(ed, b.Ends()));
    TextAround(c, bufs, above, b, rest, ed, d0, d);
    GapJoin(true, bufs, e, b.lnum, g, m, 0, d);
    SyncExtend(true, bufs, e, g, m, 1, PushAll(ed, rest), d);
    NewTail(c, bufs, above, b, rest, ed, d0, d, PushAll(ed, rest));
  }

  /** The next entry is merged in. */
  predicate TakesNext(c: Command, bufs: Bufs, opt: DiffOpt, bs: seq<Block>, k: nat, off: int, text: Buffers)
    requires 0 <= c.cur < DB_COUNT && 0 <= c.from < DB_COUNT && 0 <= c.to < DB_COUNT && k < |bs|
  {
    var (b, p, t) := (bs[k], PartOf(c, bs[k], off), Turn(c, bufs, opt, bs, k, off, text));
    && !t.removed && t.added != 0
    && MeetsNext(PartEdit(c, p, t.added),
        Marked(c, bufs, b, p, t.added, KeysOf(opt, TextAfter(c, bufs, opt, bs, k, off, text))), bs[k + 1..])
  }

  /** If the list is right after the turn, lines outside its blocks are the same in all buffers if they were before,
      unless the next block was merged into the one at hand. */
  lemma TurnFaithful(c: Command, bufs: Bufs, opt: DiffOpt, bs: seq<Block>, k: nat, off: int, text: Buffers)
    requires Ready(c, bufs, opt, bs, k, off, text) && !Misjudged(c, bs[k], PartOf(c, bs[k], off), text[c.to])
    requires Faithful(bufs, bs, KeysOf(opt, text)) && Right(c, bufs, opt, bs, k, off, text)
             && !TakesNext(c, bufs, opt, bs, k, off, text)
    ensures Faithful(bufs, Turn(c, bufs, opt, bs, k, off, text).blocks,
            KeysOf(opt, TextAfter(c, bufs, opt, bs, k, off, text)))
  {
    hide Turn, KeysOf, PartOf, Misjudged, InRange, Sync, Ready, TextAt, Tail, PushAll, Marked, MeetsNext, TurnAt, Gap,
        LinesReplaced;
    ReadyPart(c, bufs, opt, bs, k, off, text);
    var (b, p, t) := (bs[k], PartOf(c, bs[k], off), Turn(c, bufs, opt, bs, k, off, text));
    var (above, rest) := (bs[..k], bs[k + 1..]);
    var (d0, d, ed) := (KeysOf(opt, text), KeysOf(opt, TextAfter(c, bufs, opt, bs, k, off, text)),
        PartEdit(c, p, t.added));
    TurnTextAt(c, bufs, opt, bs, k, off, text);
    if t.removed {
      RemovedGap(c, bufs, opt, bs, k, off, text);
      TurnRemoved(c, bufs, opt, bs, k, off, text);
      RemovedText(c, bufs, above, b, rest, ed, d0, d);
      if t.added == 0 { PushNothing(ed, rest); }
    } else {
      TurnKept(c, bufs, opt, bs, k, off, text);
      if t.added == 0 {
        EvenText(c, bufs, above, b, rest, ed, d0, d);
      } else {
        TurnPlace(c, bufs, opt, bs, k, off, text);
        TextAtIs(c, bufs, above, b, rest, ed, d0, d);
        AloneText(c, bufs, EndOfList(ONES, above), LeastAfter(0, above), b, p, t.added, rest, d0, d);
        NewTail(c, bufs, above, b, rest, ed, d0, d, Tail(c, bufs, b, p, t.added, rest, d));
      }
    }
  }

  lemma TextAtIs(c: Command, bufs: Bufs, above: seq<Block>, b: Block, rest: seq<Block>, ed: Edit, d0: Texts, d: Texts)
    requires 0 <= ed.idx < DB_COUNT && TextAt(c, bufs, above, b, rest, ed, d0, d)
    ensures LinesReplaced(ed, bufs, d0, d)
            && Sync(true, bufs, EndOfList(ONES, above), LeastAfter(0, above), [b] + rest, d0)
  {
  }

  /** When the entry is rightly taken out, the block is the same in all buffers. */
  lemma RemovedGap(c: Command, bufs: Bufs, opt: DiffOpt, bs: seq<Block>, k: nat, off: int, text: Buffers)
    requires Ready(c, bufs, opt, bs, k, off, text) && !Misjudged(c, bs[k], PartOf(c, bs[k], off), text[c.to])
    requires Turn(c, bufs, opt, bs, k, off, text).removed && Right(c, bufs, opt, bs, k, off, text)
    ensures var (b, p, t) := (bs[k], PartOf(c, bs[k], off), Turn(c, bufs, opt, bs, k, off, text));
            Gap(true, bufs, b.lnum, Lowered(PartEdit(c, p, t.added), b.Ends()), 0,
                KeysOf(opt, TextAfter(c, bufs, opt, bs, k, off, text)))
  {
    hide Turn, KeysOf, PartOf, Misjudged, InRange, Sync, Ready, EqualElsewhere, Gap, Slice, Resized, Lines;
    ReadyPart(c, bufs, opt, bs, k, off, text);
    var (b, p, t) := (bs[k], PartOf(c, bs[k], off), Turn(c, bufs, opt, bs, k, off, text));
    RemovedFacts(c, bufs, opt, bs, k, off, text);
    CopiedText(c, bufs, opt, bs, k, off, text);
    OthersInside(c, bufs, opt, bs, k, off, text);
    hide TextAfter;
    EqualStretch(c, bufs, b, p, t.added, KeysOf(opt, TextAfter(c, bufs, opt, bs, k, off, text)));
  }

  lemma RemovedFacts(c: Command, bufs: Bufs, opt: DiffOpt, bs: seq<Block>, k: nat, off: int, text: Buffers)
    requires Ready(c, bufs, opt, bs, k, off, text) && !Misjudged(c, bs[k], PartOf(c, bs[k], off), text[c.to])
    requires Turn(c, bufs, opt, bs, k, off, text).removed && Right(c, bufs, opt, bs, k, off, text)
    ensures var (b, t, d) :=
            (bs[k], Turn(c, bufs, opt, bs, k, off, text), KeysOf(opt, TextAfter(c, bufs, opt, bs, k, off, text)));
            && PartOf(c, b, off) == Part(0, 0, b.lnum[c.to], b.count[c.to])
                && t.added == b.count[c.from] - b.count[c.to]
            && EqualElsewhere(c, bufs, Resized(c, b, b.count[c.from]), d)
            && forall i {:trigger i in bufs} | i in bufs && i != c.to :: b.count[i] == b.count[c.from]
  {
    hide Turn, KeysOf, PartOf, Misjudged, InRange, Sync, Ready, EqualElsewhere, Resized, Lines, TextAfter;
    ReadyPart(c, bufs, opt, bs, k, off, text);
    PartFits(c, bufs, opt, bs, k, off, text);
    PartIs(c, bs[k], off);
    TurnText(c, bufs, opt, bs, k, off, text);
    TurnUnfold(c, bufs, opt, bs, k, off, text);
    EqualCounts(c, bufs, opt, bs, k, off, text);
  }

  lemma EqualStretch(c: Command, bufs: Bufs, b: Block, p: Part, added: int, d: Texts)
    requires c.Valid() && c.from in bufs && Proper(bufs, b)
             && EqualElsewhere(c, bufs, Resized(c, b, b.count[c.from]), d)
    requires added == b.count[c.from] - b.count[c.to] && b.End(c.to) + added <= Size(d, c.to) + 1
    requires forall i {:trigger i in bufs} | i in bufs && i != c.to ::
             b.count[i] == b.count[c.from] && b.End(i) <= Size(d, i) + 1
    requires Slice(d, c.to, b.lnum[c.to], b.lnum[c.to] + b.count[c.from])
             == Slice(d, c.from, b.lnum[c.from], b.End(c.from))
    ensures Gap(true, bufs, b.lnum, Lowered(PartEdit(c, p, added), b.Ends()), 0, d)
  {
    hide EqualElsewhere, Gap, Slice, Resized;
    var g := Lowered(PartEdit(c, p, added), b.Ends());
    EqualGap(c, bufs, b, g, d);
    GapLess(bufs, b.lnum, g, b.count[c.from], d);
  }

  lemma GapLess(bufs: Bufs, e: Vec, f: Vec, m: nat, d: Texts)
    requires Gap(true, bufs, e, f, m, d)
    ensures Gap(true, bufs, e, f, 0, d)
  {
    hide SameText;
  }

  /** The block is within the other buffers, whose text does not change. */
  lemma OthersInside(c: Command, bufs: Bufs, opt: DiffOpt, bs: seq<Block>, k: nat, off: int, text: Buffers)
    requires Ready(c, bufs, opt, bs, k, off, text)
    ensures var d := KeysOf(opt, TextAfter(c, bufs, opt, bs, k, off, text));
            forall i {:trigger i in bufs} | i in bufs && i != c.to ::
                bs[k].lnum[i] >= 1 && bs[k].count[i] >= 0 && bs[k].End(i) <= Size(d, i) + 1
    ensures Proper(bufs, bs[k])
  {
    hide Turn, KeysOf, Sync, InRange, PartOf;
    AtBlock(bufs, bs, k, KeysOf(opt, text));
    EndsInRange(false, bufs, bs[k].Ends(), 1, bs[k + 1..], KeysOf(opt, text));
    KeySizes(opt, text);
    KeySizes(opt, TextAfter(c, bufs, opt, bs, k, off, text));
  }
}

/** Inputs at which `:diffget` leaves a list that does not fit the buffers. */
module DiffGetSamples {
  import opened LineCompare
  import opened DiffBlocks
  import opened DiffTrim
  import opened MarkAdjust
  import opened DiffList
  import opened DiffGet
  import opened DiffGetMarks
  import opened DiffGetTurn
  import opened DiffGetCut
  import opened DiffGetRuns

  /** The first five of six lines and the first three of four are a block. */
  const LONGER: Block := Block([1, 1, 0, 0], [5, 3, 0, 0])

  /** Lines 2 to 5 of buffer 0 are fetched from buffer 1. */
  const BELOW_FIRST: Command := Command(0, 1, 0, true, 2, 5)

  /** Lines 1 to 4. */
  const ABOVE_LAST: Command := Command(0, 1, 0, true, 1, 4)

  ghost predicate TwoTexts(text: Buffers) { |text[0]| == 6 && |text[1]| == 4 }

  lemma LongerFits(c: Command, opt: DiffOpt, text: Buffers)
    requires TwoTexts(text) && (c == BELOW_FIRST || c == ABOVE_LAST)
    ensures Ready(c, {0, 1}, opt, [LONGER], 0, 0, text) && OnlyOne(c, [LONGER], 0)
  {
    hide KeysOf, SameText;
    var d := KeysOf(opt, text);
    KeySizes(opt, text);
    assert [LONGER][1..] == [] && Sync(false, {0, 1}, LONGER.Ends(), 1, [], d);
    assert !Empty({0, 1}, LONGER) by { assert 0 in {0, 1}; }
  }

  /** The text becomes right, but the block gets five lines in buffer 1, which has only four in all. */
  lemma KeptWrongly(opt: DiffOpt, text: Buffers)
    requires TwoTexts(text)
    ensures Aligned({0, 1}, [LONGER], KeysOf(opt, text))
    ensures var r := GetPut(BELOW_FIRST, {0, 1}, opt, [LONGER], 0, 0, text);
            && r.1 == Lines(text[0], 1, 2) + Lines(text[1], 2, 4) + Lines(text[0], 6, 7)
            && !Aligned({0, 1}, r.0, KeysOf(opt, text[0 := r.1]))
  {
    hide GetPut, Turn, Aligned, KeysOf, Ready, OnlyOne, Trim, Lines;
    var (c, b, p) := (BELOW_FIRST, LONGER, PartOf(BELOW_FIRST, LONGER, 0));
    LongerFits(c, opt, text);
    FitsBefore(c, {0, 1}, opt, [LONGER], 0, 0, text);
    TurnText(c, {0, 1}, opt, [LONGER], 0, 0, text);
    TurnUnfold(c, {0, 1}, opt, [LONGER], 0, 0, text);
    RunOneFits(c, {0, 1}, opt, [LONGER], 0, text);
    var d := KeysOf(opt, TextAfter(c, {0, 1}, opt, [LONGER], 0, 0, text));
    KeySizes(opt, TextAfter(c, {0, 1}, opt, [LONGER], 0, 0, text));
    CountedIs(c, {0, 1}, b, p, -2);
    NotShrunk({0, 1}, 1, Counted(c, {0, 1}, b, p, -2), d);
  }

  lemma FitsBefore(c: Command, bufs: Bufs, opt: DiffOpt, bs: seq<Block>, k: nat, off: int, text: Buffers)
    requires Ready(c, bufs, opt, bs, k, off, text)
    ensures Aligned(bufs, bs, KeysOf(opt, text))
  {
  }

  /** A block that goes past the end of a buffer is not shrunk. */
  lemma NotShrunk(bufs: Bufs, i: int, b: Block, d: Texts)
    requires i in bufs && b.End(i) - 1 > Size(d, i)
    ensures Trim(bufs, b, d) == b
  {
  }

  /** One line of the block is left in buffer 0, but the entry is taken out of the list. */
  lemma RemovedWrongly(opt: DiffOpt, text: Buffers)
    requires TwoTexts(text)
    ensures Aligned({0, 1}, [LONGER], KeysOf(opt, text))
    ensures var r := GetPut(ABOVE_LAST, {0, 1}, opt, [LONGER], 0, 0, text);
            && r.1 == Lines(text[0], 1, 1) + Lines(text[1], 1, 4) + Lines(text[0], 5, 7)
            && r.0 == [] && !Aligned({0, 1}, r.0, KeysOf(opt, text[0 := r.1]))
  {
    hide GetPut, Turn, Aligned, KeysOf, Ready, OnlyOne, Lines, PartOf, Right, TextAfter;
    var (c, bufs, b) := (ABOVE_LAST, {0, 1}, LONGER);
    LongerFits(c, opt, text);
    FitsBefore(c, bufs, opt, [b], 0, 0, text);
    assert PartOf(c, b, 0) == Part(0, 0, 1, 4) by { PartAboveLast(); }
    TurnText(c, bufs, opt, [b], 0, 0, text);
    RemovedCut(c, bufs, opt, [b], 0, 0, text);
    RunOneFits(c, bufs, opt, [b], 0, text);
    NoneLeft(c, bufs, opt, b, text);
    assert text[0 := Turn(c, bufs, opt, [b], 0, 0, text).lines] == TextAfter(c, bufs, opt, [b], 0, 0, text) by {
      TextAfterIs(c, bufs, opt, [b], 0, 0, text);
    }
  }

  lemma PartAboveLast()
    ensures PartOf(ABOVE_LAST, LONGER, 0) == Part(0, 0, 1, 4)
  {
  }

  lemma TextAfterIs(c: Command, bufs: Bufs, opt: DiffOpt, bs: seq<Block>, k: nat, off: int, text: Buffers)
    requires c.Valid() && k < |bs|
    ensures TextAfter(c, bufs, opt, bs, k, off, text) == text[c.to := Turn(c, bufs, opt, bs, k, off, text).lines]
  {
    hide Turn;
  }

  /** With two buffers, a block from whose end no line of the source is skipped is taken out of the list, also if the
      range cuts it: then that is wrong. */
  lemma RemovedCut(c: Command, bufs: Bufs, opt: DiffOpt, bs: seq<Block>, k: nat, off: int, text: Buffers)
    requires c.Valid() && bufs == {c.from, c.to} && k < |bs|
    requires var p := PartOf(c, bs[k], off); p.top == 0 && p.bottom == 0 && p.count != bs[k].count[c.to]
    ensures Turn(c, bufs, opt, bs, k, off, text).removed && !Right(c, bufs, opt, bs, k, off, text)
  {
    hide Turn, PartOf, KeysOf, RightMarks;
    TurnUnfold(c, bufs, opt, bs, k, off, text);
  }

  lemma NoneLeft(c: Command, bufs: Bufs, opt: DiffOpt, b: Block, text: Buffers)
    requires Ready(c, bufs, opt, [b], 0, 0, text) && !Misjudged(c, b, PartOf(c, b, 0), text[c.to])
    requires Turn(c, bufs, opt, [b], 0, 0, text).removed
    ensures Turn(c, bufs, opt, [b], 0, 0, text).blocks == []
  {
    hide Turn, Ready, PartOf, Misjudged;
    ReadyPart(c, bufs, opt, [b], 0, 0, text);
    TurnRemoved(c, bufs, opt, [b], 0, 0, text);
  }

  // ----- three buffers -----

  /** All lines of buffer 0 but the last, as of the others: five, three and two. */
  const THREE_WAY: Block := Block([1, 1, 1, 0], [5, 3, 2, 0])

  const FROM_SECOND: Command := Command(0, 1, 0, true, 1, 5)

  ghost predicate ThreeTexts(text: Buffers) { |text[0]| == 6 && |text[1]| == 4 && |text[2]| == 3 }

  lemma ThreeWayFits(opt: DiffOpt, text: Buffers)
    requires ThreeTexts(text)
    ensures Ready(FROM_SECOND, {0, 1, 2}, opt, [THREE_WAY], 0, 0, text) && OnlyOne(FROM_SECOND, [THREE_WAY], 0)
  {
    hide KeysOf, SameText;
    var d := KeysOf(opt, text);
    KeySizes(opt, text);
    assert [THREE_WAY][1..] == [] && Sync(false, {0, 1, 2}, THREE_WAY.Ends(), 1, [], d);
    assert !Empty({0, 1, 2}, THREE_WAY) by { assert 0 in {0, 1, 2}; }
  }

  /** All of the block is fetched from buffer 1. Buffer 2 still differs, so the entry stays, with two lines in buffer 1
      and one in buffer 2 instead of three and two. */
  lemma ThirdDiffers(opt: DiffOpt, text: Buffers)
    requires ThreeTexts(text)
    ensures Aligned({0, 1, 2}, [THREE_WAY], KeysOf(opt, text))
    ensures var r := GetPut(FROM_SECOND, {0, 1, 2}, opt, [THREE_WAY], 0, 0, text);
            && r.1 == Lines(text[0], 1, 1) + Lines(text[1], 1, 4) + Lines(text[0], 6, 7)
            && !Aligned({0, 1, 2}, r.0, KeysOf(opt, text[0 := r.1]))
  {
    hide GetPut, Turn, Aligned, KeysOf, Ready, OnlyOne, Lines, Right, PartOf;
    var (c, bufs, b) := (FROM_SECOND, {0, 1, 2}, THREE_WAY);
    ThreeWayFits(opt, text);
    FitsBefore(c, bufs, opt, [b], 0, 0, text);
    assert PartOf(c, b, 0) == Part(0, 0, 1, 5) by { WholePart(c, b, 0); }
    TurnText(c, bufs, opt, [b], 0, 0, text);
    FewerFromTop(c, bufs, opt, [b], 0, 0, text, 2);
    RunOneFits(c, bufs, opt, [b], 0, text);
  }

  /** When the lines of a whole block are replaced by fewer, but another buffer differs there: the list fits exactly
      when the target had twice as many. */
  lemma FewerFromTop(c: Command, bufs: Bufs, opt: DiffOpt, bs: seq<Block>, k: nat, off: int, text: Buffers, i: int)
    requires Ready(c, bufs, opt, bs, k, off, text) && !Misjudged(c, bs[k], PartOf(c, bs[k], off), text[c.to])
    requires PartOf(c, bs[k], off) == Part(0, 0, bs[k].lnum[c.to], bs[k].count[c.to])
             && bs[k].count[c.from] < bs[k].count[c.to]
    requires i in bufs && i != c.from && i != c.to && bs[k].count[i] != bs[k].count[c.from]
    ensures Right(c, bufs, opt, bs, k, off, text) <==> bs[k].count[c.to] == 2 * bs[k].count[c.from]
  {
    hide Turn, KeysOf, Ready, Lines, PartOf, Misjudged, InRange, Trim;
    ReadyPart(c, bufs, opt, bs, k, off, text);
    var (b, p, t) := (bs[k], PartOf(c, bs[k], off), Turn(c, bufs, opt, bs, k, off, text));
    PartFits(c, bufs, opt, bs, k, off, text);
    TurnText(c, bufs, opt, bs, k, off, text);
    TurnUnfold(c, bufs, opt, bs, k, off, text);
    CountsDiffer(c, bufs, Resized(c, b, In(c, b) + t.added), KeysOf(opt, TextAfter(c, bufs, opt, bs, k, off, text)), i);
    CountedIs(c, bufs, b, p, t.added);
    TurnPlaced(c, bufs, opt, bs, k, off, text, t.added);
    FewerRight(c, bufs, b, p, t.added, bs[k + 1..], KeysOf(opt, TextAfter(c, bufs, opt, bs, k, off, text)));
  }

  lemma FewerRight(c: Command, bufs: Bufs, b: Block, p: Part, added: int, rest: seq<Block>, d: Texts)
    requires c.Valid() && c.to in bufs && c.from in bufs && Fair(c, b, p, added) && Proper(bufs, b)
             && p == Part(0, 0, b.lnum[c.to], b.count[c.to])
    requires added == b.count[c.from] - b.count[c.to] < 0
    requires rest != [] ==> rest[0].lnum[c.to] > b.End(c.to) && Proper(bufs, rest[0]) && !Empty(bufs, rest[0])
    requires rest == [] ==> b.End(c.to) + added <= Size(d, c.to) + 1
    ensures RightMarks(c, bufs, b, p, added, rest, d) <==> b.count[c.to] == 2 * b.count[c.from]
  {
    hide Trim, MeetsNext, Empty;
    MarkedAbove(c, bufs, b, p, added, rest, d);
    CountedIs(c, bufs, b, p, added);
    NotEmptyAt(bufs, c.from, Marked(c, bufs, b, p, added, d));
  }

  lemma NotEmptyAt(bufs: Bufs, i: int, b: Block)
    requires i in bufs && b.count[i] != 0
    ensures !Empty(bufs, b)
  {
  }

  lemma CountsDiffer(c: Command, bufs: Bufs, b: Block, d: Texts, i: int)
    requires c.Valid() && i in bufs && i != c.from && i != c.to && b.count[i] != b.count[c.from]
    ensures !EqualElsewhere(c, bufs, b, d)
  {
  }

  // ----- lines that are equal afterwards -----

  /** With two buffers, when the first lines of a block are copied over fewer lines, but not all of the block is: the
      first lines are equal afterwards, mark_adjust shrinks the block by them, and the list does not fit. The only
      exceptions are that the next block is merged in, and that there are too few lines below to look at. */
  lemma MoreFromTop(c: Command, bufs: Bufs, opt: DiffOpt, bs: seq<Block>, k: nat, off: int, text: Buffers)
    requires Ready(c, bufs, opt, bs, k, off, text) && !Misjudged(c, bs[k], PartOf(c, bs[k], off), text[c.to])
             && bufs == {c.from, c.to}
    requires var (b, p, t) := (bs[k], PartOf(c, bs[k], off), Turn(c, bufs, opt, bs, k, off, text));
             var d := KeysOf(opt, TextAfter(c, bufs, opt, bs, k, off, text));
             && p.top == 0 && p.bottom > 0 && t.added > 0 && Sane(bufs, Counted(c, bufs, b, p, t.added), d)
             && !MeetsNext(PartEdit(c, p, t.added), Marked(c, bufs, b, p, t.added, d), bs[k + 1..])
    ensures !Right(c, bufs, opt, bs, k, off, text)
  {
    hide Turn, KeysOf, Ready, Trim, Lines, PartOf, Counted, Sane, MeetsNext, Misjudged, InRange;
    ReadyPart(c, bufs, opt, bs, k, off, text);
    var (b, p, t) := (bs[k], PartOf(c, bs[k], off), Turn(c, bufs, opt, bs, k, off, text));
    PartFits(c, bufs, opt, bs, k, off, text);
    PartIs(c, b, off);
    TurnText(c, bufs, opt, bs, k, off, text);
    TurnUnfold(c, bufs, opt, bs, k, off, text);
    CountedIs(c, bufs, b, p, t.added);
    FirstCopied(c, bufs, opt, bs, k, off, text);
    Shrinks(c, bufs, Counted(c, bufs, b, p, t.added), KeysOf(opt, TextAfter(c, bufs, opt, bs, k, off, text)));
  }

  /** The first line of the block in the target is then that of the source. */
  lemma FirstCopied(c: Command, bufs: Bufs, opt: DiffOpt, bs: seq<Block>, k: nat, off: int, text: Buffers)
    requires Ready(c, bufs, opt, bs, k, off, text) && !Misjudged(c, bs[k], PartOf(c, bs[k], off), text[c.to])
    requires PartOf(c, bs[k], off).top == 0 && TakenCount(c, bs[k], PartOf(c, bs[k], off)) > 0
    ensures var d := KeysOf(opt, TextAfter(c, bufs, opt, bs, k, off, text));
            LineKey(d, c.to, bs[k].lnum[c.to]) == LineKey(d, c.from, bs[k].lnum[c.from])
  {
    hide Turn, KeysOf, Ready, Lines, PartOf, Misjudged, InRange, Normal;
    ReadyPart(c, bufs, opt, bs, k, off, text);
    var (b, p, after) := (bs[k], PartOf(c, bs[k], off), TextAfter(c, bufs, opt, bs, k, off, text));
    PartFits(c, bufs, opt, bs, k, off, text);
    PartIs(c, b, off);
    TurnText(c, bufs, opt, bs, k, off, text);
    var n := TakenCount(c, b, p);
    FirstLine(text[c.to], p.lnum, text[c.from], b.lnum[c.from], n,
        Lines(text[c.to], p.lnum + p.count, |text[c.to]| + 1));
    KeyOfLine(opt, after, c.to, b.lnum[c.to]);
    KeyOfLine(opt, after, c.from, b.lnum[c.from]);
  }

  lemma FirstLine(lines: seq<Line>, l: int, source: seq<Line>, first: int, n: nat, rest: seq<Line>)
    requires 1 <= l <= |lines| + 1 && 1 <= first && first + n <= |source| + 1 && n > 0
    ensures var all := Lines(lines, 1, l) + Lines(source, first, first + n) + rest;
            l <= |all|
            && all[l - 1] == source[first - 1]
  {
  }

  lemma Shrinks(c: Command, bufs: Bufs, y: Block, d: Texts)
    requires c.Valid() && bufs == {c.from, c.to} && Proper(bufs, y) && y.count[c.from] > 0 && y.count[c.to] > 0
             && Sane(bufs, y, d)
    requires LineKey(d, c.to, y.lnum[c.to]) == LineKey(d, c.from, y.lnum[c.from])
    ensures Trim(bufs, y, d).count[c.to] < y.count[c.to]
  {
    hide Trim, LineKey, Gap, TopSame, BottomSame, Sane;
    assert c.to in bufs;
    ProperWithin(bufs, y, d);
    var f, r := TrimIs(bufs, y, d);
    TrimMost(bufs, y, d);
    var x, org := Trim(bufs, y, d), FirstBuf(bufs);
    if f + r == 0 {
      TopIsSame(c, bufs, org, x, y, d);
    }
  }

  lemma TopIsSame(c: Command, bufs: Bufs, org: int, x: Block, y: Block, d: Texts)
    requires c.Valid() && bufs == {c.from, c.to} && org in bufs && y.count[c.from] > 0 && y.count[c.to] > 0
             && Shrunk(bufs, y, x, 0, 0)
    requires LineKey(d, c.to, y.lnum[c.to]) == LineKey(d, c.from, y.lnum[c.from])
    ensures x.count[org] > 0 && TopSame(bufs, org, x, d)
  {
    hide LineKey;
  }
}

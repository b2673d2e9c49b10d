/** The line of one buffer that goes with a line of another: `diff_get_corresponding_line` and `diff_lnum_win` of
    src/nvim/diff.c. */
module DiffLines {
  import opened DiffBlocks
  import opened DiffDisplay

  function Clamped(l: int, size: int): int { if l > size then size else l }

  /** The loop of `diff_get_corresponding_line`; `other` is the line in the target buffer the cursor is on. */
  function LineFrom(bs: seq<Block>, baseline: int, i: int, l: int, j: int, other: int, size: int): int
    requires 0 <= i < DB_COUNT && 0 <= j < DB_COUNT
    decreases |bs|
  {
    if bs == [] then Clamped(l - baseline, size)
    else
      var b := bs[0];
      if b.lnum[i] > l then Clamped(l - baseline, size)
      else if b.End(i) > l then
        var n := l - b.lnum[i];
        b.lnum[j] + (if n > b.count[j] then b.count[j] else n)
      else if b.lnum[i] == l && b.count[i] == 0 && b.lnum[j] <= other && b.End(j) > other then other
      else LineFrom(bs[1..], b.End(i) - b.End(j), i, l, j, other, size)
  }

  /** `diff_get_corresponding_line` */
  function CorrespondingLine(bs: seq<Block>, i: int, l: int, j: int, other: int, size: int): int
    requires 0 <= i < DB_COUNT && 0 <= j < DB_COUNT
  {
    if bs == [] then l else LineFrom(bs, 0, i, l, j, other, size)
  }

  /** `diff_lnum_win` */
  function LnumWin(bs: seq<Block>, i: int, l: int, j: int, sizeI: int, sizeJ: int): int
    requires 0 <= i < DB_COUNT && 0 <= j < DB_COUNT
  {
    match BlockAt(bs, i, l)
    case None => sizeJ - (sizeI - l)
    case Some(b) =>
      var n := l + (b.lnum[j] - b.lnum[i]);
      if n > b.End(j) then b.End(j) else n
  }

  /** The line is outside every block of buffer i. */
  predicate OutsideAll(bs: seq<Block>, i: int, l: int)
    requires 0 <= i < DB_COUNT
  {
    bs == [] || (!(bs[0].lnum[i] <= l < bs[0].End(i)) && OutsideAll(bs[1..], i, l))
  }

  /** The target line for a line below `e`, as a lookup that starts at the end `e` of the block above. */
  ghost predicate Lookup(bufs: Bufs, e: Vec, m: nat, bs: seq<Block>, baseline: int, i: int, j: int, other: int,
                         d: Texts) {
    && i in bufs && j in bufs && Sync(false, bufs, e, m, bs, d)
    && baseline == e[i] - e[j] && OutsideAll(bs, j, other)
  }

  lemma LookupNext(bufs: Bufs, e: Vec, m: nat, bs: seq<Block>, baseline: int, i: int, j: int, other: int, d: Texts)
    requires Lookup(bufs, e, m, bs, baseline, i, j, other, d) && bs != []
    ensures Lookup(bufs, bs[0].Ends(), 1, bs[1..], bs[0].End(i) - bs[0].End(j), i, j, other, d)
    ensures bs[0].lnum[i] - bs[0].lnum[j] == baseline && bs[0].lnum[i] >= e[i] + m && bs[0].lnum[j] >= e[j] + m
    ensures bs[0].count[i] >= 0 && bs[0].count[j] >= 0 && bs[0].End(i) <= Size(d, i) + 1
            && bs[0].End(j) <= Size(d, j) + 1
    ensures |bs| > 1 ==> bs[0].End(i) < bs[1].lnum[i] && bs[0].End(j) < bs[1].lnum[j]
  {
    hide SameText;
    EndsInRange(false, bufs, bs[0].Ends(), 1, bs[1..], d);
  }

  /** An unchanged line is taken to the line at its place in the other buffer. */
  lemma {:induction false} LineOutside(bufs: Bufs, e: Vec, m: nat, bs: seq<Block>, baseline: int, i: int, l: int,
                                       j: int, other: int, d: Texts)
    requires Lookup(bufs, e, m, bs, baseline, i, j, other, d) && e[i] <= l <= Size(d, i) && OutsideAll(bs, i, l)
    ensures var k := LineFrom(bs, baseline, i, l, j, other, Size(d, j));
            Corresponds(e, bs, i, l, j, k) && e[j] <= k <= Size(d, j) && OutsideAll(bs, j, k)
    decreases |bs|
  {
    hide SameText;
    if bs != [] {
      var k := LineFrom(bs, baseline, i, l, j, other, Size(d, j));
      if bs[0].lnum[i] > l {
        AllBelow(bufs, bs[0].Ends(), 1, bs[1..], j, k, d);
      }
      hide Sync;
      LookupNext(bufs, e, m, bs, baseline, i, j, other, d);
      if bs[0].lnum[i] <= l {
        LineOutside(bufs, bs[0].Ends(), 1, bs[1..], bs[0].End(i) - bs[0].End(j), i, l, j, other, d);
      }
    }
  }

  lemma {:induction false} AllBelow(bufs: Bufs, e: Vec, m: nat, bs: seq<Block>, j: int, k: int, d: Texts)
    requires j in bufs && Sync(false, bufs, e, m, bs, d) && k < e[j]
    ensures OutsideAll(bs, j, k)
    decreases |bs|
  {
    hide SameText;
    if bs != [] {
      AllBelow(bufs, bs[0].Ends(), 1, bs[1..], j, k, d);
    }
  }

  /** Which line corresponds is determined by the line. */
  lemma {:induction false} CorrespondsOnce(bufs: Bufs, e: Vec, m: nat, bs: seq<Block>, i: int, l: int, j: int, k: int,
                                           k': int, d: Texts)
    requires i in bufs && j in bufs && Sync(false, bufs, e, m, bs, d)
    requires Corresponds(e, bs, i, l, j, k) && Corresponds(e, bs, i, l, j, k')
    ensures k == k'
    decreases |bs|
  {
    hide SameText;
    if bs != [] {
      if Corresponds(bs[0].Ends(), bs[1..], i, l, j, k) {
        CorrespondsBelow(bufs, bs[0].Ends(), 1, bs[1..], i, l, j, k, d);
      }
      if Corresponds(bs[0].Ends(), bs[1..], i, l, j, k') {
        CorrespondsBelow(bufs, bs[0].Ends(), 1, bs[1..], i, l, j, k', d);
      }
      if l >= bs[0].End(i) {
        CorrespondsOnce(bufs, bs[0].Ends(), 1, bs[1..], i, l, j, k, k', d);
      }
    }
  }

  lemma {:induction false} CorrespondsBack(e: Vec, bs: seq<Block>, i: int, l: int, j: int, k: int)
    requires 0 <= i < DB_COUNT && 0 <= j < DB_COUNT && Corresponds(e, bs, i, l, j, k)
    ensures Corresponds(e, bs, j, k, i, l)
    decreases |bs|
  {
    if bs != [] && Corresponds(bs[0].Ends(), bs[1..], i, l, j, k) {
      CorrespondsBack(bs[0].Ends(), bs[1..], i, l, j, k);
    }
  }

  /** There and back again: on unchanged lines the lookup in the other direction is its inverse. */
  lemma RoundTrip(bufs: Bufs, bs: seq<Block>, i: int, l: int, j: int, other: int, back: int, d: Texts)
    requires i in bufs && j in bufs && Aligned(bufs, bs, d)
    requires 1 <= l <= Size(d, i) && OutsideAll(bs, i, l) && OutsideAll(bs, j, other) && OutsideAll(bs, i, back)
    ensures var k := CorrespondingLine(bs, i, l, j, other, Size(d, j));
            && 1 <= k <= Size(d, j) && OutsideAll(bs, j, k) && Corresponds(ONES, bs, i, l, j, k)
            && CorrespondingLine(bs, j, k, i, back, Size(d, i)) == l
  {
    hide SameText, LineFrom, Corresponds;
    LineOutside(bufs, ONES, 0, bs, 0, i, l, j, other, d);
    SameLookup(bufs, bs, i, l, j, other, d);
    var k := CorrespondingLine(bs, i, l, j, other, Size(d, j));
    LineOutside(bufs, ONES, 0, bs, 0, j, k, i, back, d);
    SameLookup(bufs, bs, j, k, i, back, d);
    CorrespondsBack(ONES, bs, i, l, j, k);
    CorrespondsOnce(bufs, ONES, 0, bs, j, k, i, l, CorrespondingLine(bs, j, k, i, back, Size(d, i)), d);
  }

  /** Without any block, returning the line itself is what the loop would do. */
  lemma SameLookup(bufs: Bufs, bs: seq<Block>, i: int, l: int, j: int, other: int, d: Texts)
    requires i in bufs && j in bufs && Aligned(bufs, bs, d) && l <= Size(d, i)
    ensures CorrespondingLine(bs, i, l, j, other, Size(d, j)) == LineFrom(bs, 0, i, l, j, other, Size(d, j))
  {
    hide SameText;
  }

  lemma {:induction false} LineLow(bufs: Bufs, e: Vec, m: nat, bs: seq<Block>, baseline: int, i: int, l: int, j: int,
                                   other: int, d: Texts)
    requires Lookup(bufs, e, m, bs, baseline, i, j, other, d) && e[i] <= l <= Size(d, i)
    ensures e[j] <= LineFrom(bs, baseline, i, l, j, other, Size(d, j))
    decreases |bs|
  {
    hide SameText;
    if bs != [] {
      LookupNext(bufs, e, m, bs, baseline, i, j, other, d);
      hide Sync;
      if l >= bs[0].End(i) {
        LineLow(bufs, bs[0].Ends(), 1, bs[1..], bs[0].End(i) - bs[0].End(j), i, l, j, other, d);
      }
    }
  }

  lemma {:induction false} LineMonotone(bufs: Bufs, e: Vec, m: nat, bs: seq<Block>, baseline: int, i: int, l: int,
                                        l': int, j: int, other: int, d: Texts)
    requires Lookup(bufs, e, m, bs, baseline, i, j, other, d) && e[i] <= l <= l' <= Size(d, i)
    ensures LineFrom(bs, baseline, i, l, j, other, Size(d, j)) <= LineFrom(bs, baseline, i, l', j, other, Size(d, j))
    decreases |bs|
  {
    hide SameText;
    if bs != [] {
      LookupNext(bufs, e, m, bs, baseline, i, j, other, d);
      hide Sync;
      if l' >= bs[0].End(i) {
        if l >= bs[0].End(i) {
          LineMonotone(bufs, bs[0].Ends(), 1, bs[1..], bs[0].End(i) - bs[0].End(j), i, l, l', j, other, d);
        } else {
          LineLow(bufs, bs[0].Ends(), 1, bs[1..], bs[0].End(i) - bs[0].End(j), i, l', j, other, d);
        }
      }
    }
  }

  lemma {:induction false} LineInside(bufs: Bufs, e: Vec, m: nat, bs: seq<Block>, baseline: int, i: int, l: int, j: int,
                                      other: int, size: int, k: nat, d: Texts)
    requires i in bufs && j in bufs && Sync(false, bufs, e, m, bs, d)
    requires k < |bs| && bs[k].lnum[i] <= l < bs[k].End(i)
    ensures bs[k].lnum[i] >= e[i] + m && bs[k].End(j) <= Size(d, j) + 1
    ensures LineFrom(bs, baseline, i, l, j, other, size)
         == bs[k].lnum[j] + (if l - bs[k].lnum[i] > bs[k].count[j] then bs[k].count[j] else l - bs[k].lnum[i])
    decreases |bs|
  {
    hide SameText;
    if k > 0 {
      LineInside(bufs, bs[0].Ends(), 1, bs[1..], bs[0].End(i) - bs[0].End(j), i, l, j, other, size, k - 1, d);
    } else {
      EndsInRange(false, bufs, bs[0].Ends(), 1, bs[1..], d);
    }
  }

  /** Inside a block, the line at the same distance from its top, but at most the line below the block. That is past the
      last line exactly when the block ends the buffer and has no such line there. */
  lemma InsideBlock(bufs: Bufs, bs: seq<Block>, i: int, l: int, j: int, other: int, k: nat, d: Texts)
    requires i in bufs && j in bufs && Aligned(bufs, bs, d) && k < |bs| && bs[k].lnum[i] <= l < bs[k].End(i)
    ensures var n, b := CorrespondingLine(bs, i, l, j, other, Size(d, j)), bs[k];
            && b.lnum[j] <= n <= b.End(j)
            && n == (if l - b.lnum[i] < b.count[j] then b.lnum[j] + (l - b.lnum[i]) else b.End(j))
            && (n > Size(d, j) <==> b.End(j) == Size(d, j) + 1 && l - b.lnum[i] >= b.count[j])
  {
    hide LineFrom;
    LineInside(bufs, ONES, 0, bs, 0, i, l, j, other, Size(d, j), k, d);
    CountsAt(bufs, ONES, 0, bs, j, k, d);
  }

  lemma {:induction false} CountsAt(bufs: Bufs, e: Vec, m: nat, bs: seq<Block>, j: int, k: nat, d: Texts)
    requires j in bufs && Sync(false, bufs, e, m, bs, d) && k < |bs|
    ensures bs[k].count[j] >= 0
    decreases |bs|
  {
    hide SameText;
    if k > 0 {
      CountsAt(bufs, bs[0].Ends(), 1, bs[1..], j, k - 1, d);
    }
  }

  /** A lower line never corresponds to a higher one. */
  lemma Monotone(bufs: Bufs, bs: seq<Block>, i: int, l: int, l': int, j: int, other: int, d: Texts)
    requires i in bufs && j in bufs && Aligned(bufs, bs, d) && OutsideAll(bs, j, other) && 1 <= l <= l' <= Size(d, i)
    ensures CorrespondingLine(bs, i, l, j, other, Size(d, j)) <= CorrespondingLine(bs, i, l', j, other, Size(d, j))
  {
    if bs != [] {
      LineMonotone(bufs, ONES, 0, bs, 0, i, l, l', j, other, d);
    }
  }

  /** Line l is just below a block that has more lines in buffer j. */
  predicate BelowLonger(bs: seq<Block>, i: int, l: int, j: int)
    requires 0 <= i < DB_COUNT && 0 <= j < DB_COUNT
  {
    match BlockAt(bs, i, l)
    case None => false
    case Some(b) => l == b.End(i) && b.count[j] > b.count[i]
  }

  lemma {:induction false} LookupsFrom(bufs: Bufs, e: Vec, m: nat, bs: seq<Block>, baseline: int, i: int, l: int,
                                       j: int, other: int, d: Texts)
    requires Lookup(bufs, e, m, bs, baseline, i, j, other, d) && e[i] <= l <= Size(d, i)
    ensures var k, n := LineFrom(bs, baseline, i, l, j, other, Size(d, j)),
            LnumWin(bs, i, l, j, Size(d, i), Size(d, j));
            if BelowLonger(bs, i, l, j) then n < k else n == k
    ensures l == e[i] && m > 0 ==> LineFrom(bs, baseline, i, l, j, other, Size(d, j)) == e[j]
    decreases |bs|
  {
    hide SameText;
    if bs != [] {
      LookupNext(bufs, e, m, bs, baseline, i, j, other, d);
      hide Sync;
      if l >= bs[0].End(i) {
        LookupsFrom(bufs, bs[0].Ends(), 1, bs[1..], bs[0].End(i) - bs[0].End(j), i, l, j, other, d);
      }
    }
  }

  /** The two lookups agree on every line of the buffer, except just below a block that is longer on the other side,
      where `diff_lnum_win` gives a smaller line number. */
  lemma Lookups(bufs: Bufs, bs: seq<Block>, i: int, l: int, j: int, other: int, d: Texts)
    requires i in bufs && j in bufs && Aligned(bufs, bs, d) && OutsideAll(bs, j, other) && 1 <= l <= Size(d, i)
    ensures var k, n := CorrespondingLine(bs, i, l, j, other, Size(d, j)), LnumWin(bs, i, l, j, Size(d, i), Size(d, j));
            if BelowLonger(bs, i, l, j) then n < k else n == k
  {
    hide SameText, LnumWin, LineFrom, BelowLonger;
    SameLookup(bufs, bs, i, l, j, other, d);
    LookupsFrom(bufs, ONES, 0, bs, 0, i, l, j, other, d);
  }

  // ----- just below filler lines -----

  /** Line l of buffer i is just below a block that has no lines there, and line `other` of buffer j is in that block.
      */
  ghost predicate AtFiller(b: Block, i: int, l: int, j: int, other: int)
    requires 0 <= i < DB_COUNT && 0 <= j < DB_COUNT
  {
    b.count[i] == 0 && b.lnum[i] == l && b.lnum[j] <= other < b.End(j)
  }

  lemma {:induction false} FillerFrom(bufs: Bufs, e: Vec, m: nat, bs: seq<Block>, base: int, i: int, l: int, j: int,
                                      other: int, size: int, d: Texts, b: Block)
    requires i in bufs && j in bufs && Sync(false, bufs, e, m, bs, d) && b in bs && AtFiller(b, i, l, j, other)
    ensures LineFrom(bs, base, i, l, j, other, size) == other && l >= e[i] && other >= e[j]
    decreases |bs|
  {
    hide SameText;
    if bs[0] != b {
      assert bs == [bs[0]] + bs[1..];
      FillerFrom(bufs, bs[0].Ends(), 1, bs[1..], bs[0].End(i) - bs[0].End(j), i, l, j, other, size, d, b);
      BlockDown(bufs, bs[0].Ends(), 1, bs[1..], i, d, b);
    }
  }

  /** A block of the list starts below where the list does. */
  lemma {:induction false} BlockDown(bufs: Bufs, e: Vec, m: nat, bs: seq<Block>, i: int, d: Texts, b: Block)
    requires i in bufs && Sync(false, bufs, e, m, bs, d) && b in bs
    ensures b.lnum[i] >= e[i] + m && b.count[i] >= 0
    decreases |bs|
  {
    hide SameText;
    if bs[0] != b {
      assert bs == [bs[0]] + bs[1..];
      BlockDown(bufs, bs[0].Ends(), 1, bs[1..], i, d, b);
    }
  }

  lemma {:induction false} FillerBack(bufs: Bufs, e: Vec, m: nat, bs: seq<Block>, base: int, i: int, l: int, j: int,
                                      other: int, back: int, size: int, d: Texts, b: Block)
    requires i in bufs && j in bufs && Sync(false, bufs, e, m, bs, d) && b in bs && AtFiller(b, i, l, j, other)
    ensures LineFrom(bs, base, j, other, i, back, size) == l
    decreases |bs|
  {
    hide SameText;
    if bs[0] != b {
      assert bs == [bs[0]] + bs[1..];
      FillerBack(bufs, bs[0].Ends(), 1, bs[1..], bs[0].End(j) - bs[0].End(i), i, l, j, other, back, size, d, b);
      BlockDown(bufs, bs[0].Ends(), 1, bs[1..], j, d, b);
    }
  }

  /** Going from just below filler lines to the window that shows lines there leaves its cursor where it is, and going
      back leads to the same line, so that the two steps can be repeated. */
  lemma FillerStays(bufs: Bufs, bs: seq<Block>, b: Block, i: int, l: int, j: int, other: int, back: int, d: Texts)
    requires i in bufs && j in bufs && Aligned(bufs, bs, d) && b in bs && AtFiller(b, i, l, j, other)
    ensures CorrespondingLine(bs, i, l, j, other, Size(d, j)) == other
    ensures CorrespondingLine(bs, j, other, i, back, Size(d, i)) == l
  {
    hide Sync;
    FillerFrom(bufs, ONES, 0, bs, 0, i, l, j, other, Size(d, j), d, b);
    FillerBack(bufs, ONES, 0, bs, 0, i, l, j, other, back, Size(d, i), d, b);
  }
}

/** Shrinking a block whose first or last lines are equal in all buffers: `diff_check_unchanged` of src/nvim/diff.c. */
module DiffTrim {
  import opened DiffBlocks

  /** The buffer the others are compared with: the first one in use. */
  function FirstBuf(bufs: Bufs): (org: int)
    requires exists i :: i in bufs
    ensures org in bufs && forall i {:trigger i in bufs} | i in bufs :: org <= i
  {
    if 0 in bufs then 0 else if 1 in bufs then 1 else if 2 in bufs then 2 else 3
  }

  /** `diff_check_sanity` */
  predicate Sane(bufs: Bufs, b: Block, d: Texts) {
    forall i {:trigger i in bufs} | i in bufs :: b.End(i) - 1 <= Size(d, i)
  }

  /** The first line of the block is in every buffer, and is the same line. */
  predicate TopSame(bufs: Bufs, org: int, b: Block, d: Texts)
    requires org in bufs
  {
    forall i {:trigger i in bufs} | i in bufs && i != org ::
      b.count[i] > 0 && LineKey(d, i, b.lnum[i]) == LineKey(d, org, b.lnum[org])
  }

  predicate BottomSame(bufs: Bufs, org: int, b: Block, d: Texts)
    requires org in bufs
  {
    forall i {:trigger i in bufs} | i in bufs && i != org ::
      b.count[i] > 0 && LineKey(d, i, b.End(i) - 1) == LineKey(d, org, b.End(org) - 1)
  }

  /** The block without its first `top` and last `bottom` lines. */
  function Without(bufs: Bufs, b: Block, top: int, bottom: int): (t: Block)
    ensures forall i {:trigger i in bufs} | i in bufs ::
            t.lnum[i] == b.lnum[i] + top && t.count[i] == b.count[i] - top - bottom
    ensures forall i | 0 <= i < DB_COUNT && i !in bufs :: t.lnum[i] == b.lnum[i] && t.count[i] == b.count[i]
  {
    Block(seq(DB_COUNT, i requires 0 <= i < DB_COUNT => if i in bufs then b.lnum[i] + top else b.lnum[i]),
          seq(DB_COUNT, i requires 0 <= i < DB_COUNT => if i in bufs then b.count[i] - top - bottom else b.count[i]))
  }

  function TrimTop(bufs: Bufs, org: int, b: Block, d: Texts): Block
    requires org in bufs
    decreases b.count[org]
  {
    if b.count[org] > 0 && TopSame(bufs, org, b, d) then TrimTop(bufs, org, Without(bufs, b, 1, 0), d) else b
  }

  function TrimBottom(bufs: Bufs, org: int, b: Block, d: Texts): Block
    requires org in bufs
    decreases b.count[org]
  {
    if b.count[org] > 0 && BottomSame(bufs, org, b, d) then TrimBottom(bufs, org, Without(bufs, b, 0, 1), d) else b
  }

  /** What `diff_check_unchanged` leaves of a block. */
  function Trim(bufs: Bufs, b: Block, d: Texts): Block {
    if !(exists i :: i in bufs) || !Sane(bufs, b, d) then b
    else
      var org := FirstBuf(bufs);
      TrimBottom(bufs, org, TrimTop(bufs, org, b, d), d)
  }

  /** The lines of the block are lines of the text, in every buffer. */
  ghost predicate Within(bufs: Bufs, b: Block, d: Texts) {
    forall i {:trigger i in bufs} | i in bufs :: 1 <= b.lnum[i] && b.count[i] >= 0 && b.End(i) <= Size(d, i) + 1
  }

  lemma SliceOne(d: Texts, i: int, l: int)
    requires 0 <= i < DB_COUNT && 1 <= l <= Size(d, i)
    ensures Slice(d, i, l, l + 1) == [LineKey(d, i, l)]
  {
  }

  /** Lines that are the same line in every buffer make up a stretch. */
  lemma OneLine(bufs: Bufs, org: int, e: Vec, f: Vec, d: Texts)
    requires org in bufs
    requires forall i {:trigger i in bufs} | i in bufs ::
               1 <= e[i] <= Size(d, i) && f[i] == e[i] + 1 && LineKey(d, i, e[i]) == LineKey(d, org, e[org])
    ensures Gap(true, bufs, e, f, 1, d)
  {
    forall i | i in bufs ensures Slice(d, i, e[i], f[i]) == [LineKey(d, org, e[org])] {
      SliceOne(d, i, e[i]);
    }
  }

  lemma TopGap(bufs: Bufs, org: int, b: Block, d: Texts)
    requires org in bufs && Within(bufs, b, d) && b.count[org] > 0 && TopSame(bufs, org, b, d)
    ensures Gap(true, bufs, b.lnum, Without(bufs, b, 1, 0).lnum, 1, d)
    ensures Within(bufs, Without(bufs, b, 1, 0), d)
  {
    hide Slice, LineKey;
    OneLine(bufs, org, b.lnum, Without(bufs, b, 1, 0).lnum, d);
  }

  lemma BottomGap(bufs: Bufs, org: int, b: Block, d: Texts)
    requires org in bufs && Within(bufs, b, d) && b.count[org] > 0 && BottomSame(bufs, org, b, d)
    ensures Gap(true, bufs, Without(bufs, b, 0, 1).Ends(), b.Ends(), 1, d)
    ensures Within(bufs, Without(bufs, b, 0, 1), d)
  {
    hide Slice, LineKey;
    OneLine(bufs, org, Without(bufs, b, 0, 1).Ends(), b.Ends(), d);
  }

  /** `t` is `b` without its first `top` and last `bottom` lines, in the buffers that matter. */
  ghost predicate Shrunk(bufs: Bufs, b: Block, t: Block, top: nat, bottom: nat) {
    forall i {:trigger i in bufs} | i in bufs ::
        t.lnum[i] == b.lnum[i] + top && t.count[i] == b.count[i] - top - bottom >= 0
  }

  lemma {:induction false} TrimTopIs(bufs: Bufs, org: int, b: Block, d: Texts) returns (f: nat)
    requires org in bufs && Within(bufs, b, d)
    ensures var t := TrimTop(bufs, org, b, d); Shrunk(bufs, b, t, f, 0) && Gap(true, bufs, b.lnum, t.lnum, f, d)
    decreases b.count[org]
  {
    f := 0;
    if b.count[org] > 0 && TopSame(bufs, org, b, d) {
      var c := Without(bufs, b, 1, 0);
      TopGap(bufs, org, b, d);
      f := TrimTopIs(bufs, org, c, d);
      GapJoin(true, bufs, b.lnum, c.lnum, TrimTop(bufs, org, c, d).lnum, 1, f, d);
      f := f + 1;
    }
  }

  lemma {:induction false} TrimBottomIs(bufs: Bufs, org: int, b: Block, d: Texts) returns (r: nat)
    requires org in bufs && Within(bufs, b, d)
    ensures var t := TrimBottom(bufs, org, b, d); Shrunk(bufs, b, t, 0, r) && Gap(true, bufs, t.Ends(), b.Ends(), r, d)
    decreases b.count[org]
  {
    r := 0;
    if b.count[org] > 0 && BottomSame(bufs, org, b, d) {
      var c := Without(bufs, b, 0, 1);
      BottomGap(bufs, org, b, d);
      r := TrimBottomIs(bufs, org, c, d);
      GapJoin(true, bufs, TrimBottom(bufs, org, c, d).Ends(), c.Ends(), b.Ends(), r, 1, d);
      r := r + 1;
    }
  }

  lemma {:induction false} TrimTopMost(bufs: Bufs, org: int, b: Block, d: Texts)
    requires org in bufs
    ensures var t := TrimTop(bufs, org, b, d); t.count[org] > 0 ==> !TopSame(bufs, org, t, d)
    decreases b.count[org]
  {
    if b.count[org] > 0 && TopSame(bufs, org, b, d) {
      TrimTopMost(bufs, org, Without(bufs, b, 1, 0), d);
    }
  }

  lemma {:induction false} TrimBottomMost(bufs: Bufs, org: int, b: Block, d: Texts)
    requires org in bufs
    requires b.count[org] > 0 ==> !TopSame(bufs, org, b, d)
    ensures var t := TrimBottom(bufs, org, b, d);
            t.count[org] > 0 ==> !BottomSame(bufs, org, t, d) && !TopSame(bufs, org, t, d)
    decreases b.count[org]
  {
    if b.count[org] > 0 && BottomSame(bufs, org, b, d) {
      var c := Without(bufs, b, 0, 1);
      var i :| i in bufs && i != org && !(b.count[i] > 0 && LineKey(d, i, b.lnum[i]) == LineKey(d, org, b.lnum[org]));
      assert !(c.count[i] > 0 && LineKey(d, i, c.lnum[i]) == LineKey(d, org, c.lnum[org]));
      TrimBottomMost(bufs, org, c, d);
    }
  }

  /** If the reference buffer has any of what is left, it can be shrunk neither at its top nor at its bottom. */
  lemma TrimMost(bufs: Bufs, b: Block, d: Texts)
    requires exists i :: i in bufs
    requires Sane(bufs, b, d)
    ensures var t, org := Trim(bufs, b, d), FirstBuf(bufs);
            t.count[org] > 0 ==> !TopSame(bufs, org, t, d) && !BottomSame(bufs, org, t, d)
  {
    var org := FirstBuf(bufs);
    TrimTopMost(bufs, org, b, d);
    TrimBottomMost(bufs, org, TrimTop(bufs, org, b, d), d);
  }

  lemma ShrunkTwice(bufs: Bufs, b: Block, c: Block, t: Block, f: nat, r: nat, d: Texts)
    requires Shrunk(bufs, b, c, f, 0) && Shrunk(bufs, c, t, 0, r)
    ensures Shrunk(bufs, b, t, f, r)
    ensures forall i {:trigger i in bufs} | i in bufs :: c.Ends()[i] == b.Ends()[i] && c.lnum[i] == t.lnum[i]
  {
  }

  lemma ShrunkWithin(bufs: Bufs, b: Block, t: Block, f: nat, r: nat, d: Texts)
    requires Within(bufs, b, d) && Shrunk(bufs, b, t, f, r)
    ensures Within(bufs, t, d)
  {
  }

  /** Only lines that are equal in all buffers are taken off, the same number in every buffer. */
  lemma TrimIs(bufs: Bufs, b: Block, d: Texts) returns (f: nat, r: nat)
    requires Within(bufs, b, d) && exists i :: i in bufs
    ensures var t := Trim(bufs, b, d);
            && Shrunk(bufs, b, t, f, r)
            && Gap(true, bufs, b.lnum, t.lnum, f, d)
            && Gap(true, bufs, t.Ends(), b.Ends(), r, d)
  {
    hide TrimTop, TrimBottom, Slice, SameText, Shrunk, Within, FirstBuf;
    var org := FirstBuf(bufs);
    var c := TrimTop(bufs, org, b, d);
    f := TrimTopIs(bufs, org, b, d);
    ShrunkWithin(bufs, b, c, f, 0, d);
    r := TrimBottomIs(bufs, org, c, d);
    var t := TrimBottom(bufs, org, c, d);
    ShrunkTwice(bufs, b, c, t, f, r, d);
    GapSame(true, bufs, t.Ends(), c.Ends(), t.Ends(), b.Ends(), r, d);
    GapSame(true, bufs, b.lnum, c.lnum, b.lnum, t.lnum, f, d);
  }

  // ----- how much is taken off, in terms of the text -----

  /** The first f lines of the block are the same in all buffers. */
  ghost predicate CommonTop(bufs: Bufs, b: Block, f: nat, d: Texts) {
    && (forall i {:trigger i in bufs} | i in bufs :: f <= b.count[i])
    && Gap(true, bufs, b.lnum, Without(bufs, b, f, 0).lnum, f, d)
  }

  /** The last n lines of the block are the same in all buffers. */
  ghost predicate CommonBottom(bufs: Bufs, b: Block, n: nat, d: Texts) {
    && (forall i {:trigger i in bufs} | i in bufs :: n <= b.count[i])
    && Gap(true, bufs, Without(bufs, b, 0, n).Ends(), b.Ends(), n, d)
  }

  /** Exactly the first f lines are common at the top, and n further lines at the bottom. */
  ghost predicate CommonEnds(bufs: Bufs, b: Block, f: nat, n: nat, d: Texts) {
    && CommonTop(bufs, b, f, d) && !CommonTop(bufs, b, f + 1, d) && CommonBottom(bufs, b, n, d)
    && forall i {:trigger i in bufs} | i in bufs :: f + n <= b.count[i]
  }

  /** The last n lines of the block are the same in all buffers, besides its first lines, as many of them as are. */
  ghost predicate EndsAlike(bufs: Bufs, b: Block, n: nat, d: Texts) {
    exists f: nat :: CommonEnds(bufs, b, f, n, d)
  }

  lemma CommonLess(bufs: Bufs, b: Block, f: nat, g: nat, d: Texts)
    requires CommonTop(bufs, b, f, d) && g <= f
    ensures CommonTop(bufs, b, g, d)
  {
    hide SameText;
    GapPart(true, bufs, b.lnum, Without(bufs, b, f, 0).lnum, b.lnum, Without(bufs, b, g, 0).lnum, 0, g, d);
  }

  /** Line k of the lines that are common at the top. */
  lemma CommonLine(bufs: Bufs, e: Vec, f: Vec, n: nat, k: nat, d: Texts, i: int, j: int)
    requires Gap(true, bufs, e, f, n, d) && i in bufs && j in bufs && k < n
    ensures LineKey(d, i, e[i] + k) == LineKey(d, j, e[j] + k)
  {
    hide Slice, LineKey;
    var a: Vec := seq(DB_COUNT, x requires 0 <= x < DB_COUNT => e[x] + k);
    var b: Vec := seq(DB_COUNT, x requires 0 <= x < DB_COUNT => e[x] + k + 1);
    GapPart(true, bufs, e, f, a, b, k, k + 1, d);
    SliceOne(d, i, e[i] + k);
    SliceOne(d, j, e[j] + k);
  }

  /** The loop at the top takes off all the lines that are common there. */
  lemma TopIsCommon(bufs: Bufs, org: int, b: Block, d: Texts) returns (f: nat)
    requires org in bufs && Within(bufs, b, d)
    ensures Shrunk(bufs, b, TrimTop(bufs, org, b, d), f, 0)
    ensures CommonTop(bufs, b, f, d) && !CommonTop(bufs, b, f + 1, d)
  {
    hide SameText, LineKey, TrimTop;
    f := TrimTopIs(bufs, org, b, d);
    TrimTopMost(bufs, org, b, d);
    var t := TrimTop(bufs, org, b, d);
    GapSame(true, bufs, b.lnum, t.lnum, b.lnum, Without(bufs, b, f, 0).lnum, f, d);
    hide TopSame, Gap, Within;
    if CommonTop(bufs, b, f + 1, d) {
      OneMore(bufs, org, b, t, f, d);
    }
  }

  lemma OneMore(bufs: Bufs, org: int, b: Block, t: Block, f: nat, d: Texts)
    requires org in bufs && Shrunk(bufs, b, t, f, 0) && CommonTop(bufs, b, f + 1, d)
    ensures t.count[org] > 0 && TopSame(bufs, org, t, d)
  {
    hide Gap, LineKey;
    forall i | i in bufs && i != org ensures LineKey(d, i, t.lnum[i]) == LineKey(d, org, t.lnum[org]) {
      CommonLine(bufs, b.lnum, Without(bufs, b, f + 1, 0).lnum, f + 1, f, d, i, org);
    }
  }

  /** Shrinking takes n lines or more off the end of the block if and only if so many are common there. */
  lemma TrimLifts(bufs: Bufs, b: Block, n: nat, d: Texts, idx: int)
    requires idx in bufs && Within(bufs, b, d) && n > 0
    ensures Trim(bufs, b, d).End(idx) <= b.End(idx) - n <==> EndsAlike(bufs, b, n, d)
  {
    hide SameText, LineKey, TrimTop, TrimBottom, CommonTop, CommonBottom, TopSame, BottomSame, Gap, Without;
    var org := FirstBuf(bufs);
    var f := TopIsCommon(bufs, org, b, d);
    var c := TrimTop(bufs, org, b, d);
    TrimTopMost(bufs, org, b, d);
    TrimBottomMost(bufs, org, c, d);
    var r := TrimBottomIs(bufs, org, c, d);
    var t := TrimBottom(bufs, org, c, d);
    assert Trim(bufs, b, d) == t;
    if r >= n {
      BottomCommon(bufs, b, c, t, f, r, n, d);
      assert CommonEnds(bufs, b, f, n, d);
    }
    if EndsAlike(bufs, b, n, d) && r < n {
      var g: nat :| CommonEnds(bufs, b, g, n, d);
      OneTop(bufs, b, f, g, d);
      BottomGoesOn(bufs, org, b, t, f, r, n, d);
    }
  }

  lemma OneTop(bufs: Bufs, b: Block, f: nat, g: nat, d: Texts)
    requires CommonTop(bufs, b, f, d) && !CommonTop(bufs, b, f + 1, d)
    requires CommonTop(bufs, b, g, d) && !CommonTop(bufs, b, g + 1, d)
    ensures f == g
  {
    hide CommonTop;
    if f < g {
      CommonLess(bufs, b, g, f + 1, d);
    } else if g < f {
      CommonLess(bufs, b, f, g + 1, d);
    }
  }

  lemma BottomCommon(bufs: Bufs, b: Block, c: Block, t: Block, f: nat, r: nat, n: nat, d: Texts)
    requires Shrunk(bufs, b, c, f, 0) && Shrunk(bufs, c, t, 0, r) && n <= r && Gap(true, bufs, t.Ends(), c.Ends(), r, d)
    ensures CommonBottom(bufs, b, n, d) && forall i {:trigger i in bufs} | i in bufs :: f + n <= b.count[i]
  {
    hide SameText;
    GapPart(true, bufs, t.Ends(), c.Ends(), Without(bufs, b, 0, n).Ends(), b.Ends(), r - n, r, d);
  }

  /** As long as the lines that are common at the bottom are not all taken off, the next one is. */
  lemma BottomGoesOn(bufs: Bufs, org: int, b: Block, t: Block, f: nat, r: nat, n: nat, d: Texts)
    requires org in bufs && Shrunk(bufs, b, t, f, r) && r < n && CommonBottom(bufs, b, n, d)
    requires forall i {:trigger i in bufs} | i in bufs :: f + n <= b.count[i]
    ensures BottomSame(bufs, org, t, d) && t.count[org] > 0
  {
    hide SameText, LineKey, Slice;
    var e := Without(bufs, b, 0, n).Ends();
    forall i | i in bufs && i != org ensures LineKey(d, i, t.End(i) - 1) == LineKey(d, org, t.End(org) - 1) {
      CommonLine(bufs, e, b.Ends(), n, n - r - 1, d, i, org);
    }
  }
}

/** The list of diff blocks of a tab page and what it means for the list to fit the buffers. */
module DiffBlocks {
  import opened LineCompare

  const DB_COUNT: int := 4
  const MAXLNUM: int := 0x7fff_ffff

  datatype Option<+T> = None | Some(value: T)

  /** One number for each of the DB_COUNT buffers. */
  type Vec = v: seq<int> | |v| == DB_COUNT witness [0, 0, 0, 0]

  /** The indices of the buffers that take part in the diff. */
  type Bufs = s: set<int> | forall i :: i in s ==> 0 <= i < DB_COUNT

  function Min(a: int, b: int): int { if a < b then a else b }
  function Max(a: int, b: int): int { if a > b then a else b }

  const ONES: Vec := [1, 1, 1, 1]

  datatype Block = Block(lnum: Vec, count: Vec) {
    function End(i: int): int
      requires 0 <= i < DB_COUNT
    {
      lnum[i] + count[i]
    }

    function Ends(): (e: Vec)
      ensures forall i | 0 <= i < DB_COUNT :: e[i] == End(i)
    {
      seq(DB_COUNT, i requires 0 <= i < DB_COUNT => lnum[i] + count[i])
    }
  }

  /** The text of the buffers, each line given by its comparison key; `missing` is what reading past the end yields. */
  datatype Docs = Docs(lines: seq<seq<Key>>, missing: Key)

  type Texts = d: Docs | |d.lines| == DB_COUNT witness Docs([[], [], [], []], [])

  function Size(d: Texts, i: int): nat
    requires 0 <= i < DB_COUNT
  {
    |d.lines[i]|
  }

  function AfterLast(d: Texts): (e: Vec)
    ensures forall i | 0 <= i < DB_COUNT :: e[i] == Size(d, i) + 1
  {
    seq(DB_COUNT, i requires 0 <= i < DB_COUNT => |d.lines[i]| + 1)
  }

  /** Line `l` of buffer `i`, as ml_get_buf gives it also for line numbers out of range. */
  function LineKey(d: Texts, i: int, l: int): Key
    requires 0 <= i < DB_COUNT
  {
    if l > Size(d, i) then d.missing
    else if l <= 0 then (if Size(d, i) > 0 then d.lines[i][0] else d.missing)
    else d.lines[i][l - 1]
  }

  /** Lines a up to (not including) b of buffer i. */
  function Slice(d: Texts, i: int, a: int, b: int): seq<Key>
    requires 0 <= i < DB_COUNT
  {
    if 1 <= a <= b <= Size(d, i) + 1 then d.lines[i][a - 1 .. b - 1] else []
  }

  /** The stretch from e to f is within the text and of the same length, at least `min`, in every buffer. */
  ghost predicate Apart(bufs: Bufs, e: Vec, f: Vec, min: nat, d: Texts) {
    && (forall i {:trigger i in bufs} | i in bufs :: 1 <= e[i] && e[i] + min <= f[i] <= Size(d, i) + 1)
    && (forall i, j {:trigger i in bufs, j in bufs} | i in bufs && j in bufs :: f[i] - e[i] == f[j] - e[j])
  }

  /** The stretch from e to f has the same text in every buffer. */
  ghost predicate SameText(bufs: Bufs, e: Vec, f: Vec, d: Texts) {
    forall i, j {:trigger i in bufs, j in bufs} | i in bufs && j in bufs ::
        Slice(d, i, e[i], f[i]) == Slice(d, j, e[j], f[j])
  }

  ghost predicate Gap(content: bool, bufs: Bufs, e: Vec, f: Vec, min: nat, d: Texts) {
    Apart(bufs, e, f, min, d) && (content ==> SameText(bufs, e, f, d))
  }

  /** Below `e`, the buffers fit the list `bs`: unchanged stretches of equal length alternate with
      blocks, the first stretch being at least `min` lines and the later ones at least one line.
      With `content` the unchanged stretches also have the same text. */
  ghost predicate Sync(content: bool, bufs: Bufs, e: Vec, min: nat, bs: seq<Block>, d: Texts)
    decreases |bs|
  {
    if bs == [] then Gap(content, bufs, e, AfterLast(d), 0, d)
    else
      && Gap(content, bufs, e, bs[0].lnum, min, d)
      && (forall i {:trigger i in bufs} | i in bufs :: bs[0].count[i] >= 0)
      && Sync(content, bufs, bs[0].Ends(), 1, bs[1..], d)
  }

  /** Counts are not negative; the first block starts at the same line in every buffer; between two
      blocks there is the same number of lines in every buffer, at least one; the same number of
      lines follows the last block in every buffer. */
  ghost predicate Aligned(bufs: Bufs, bs: seq<Block>, d: Texts) {
    Sync(false, bufs, ONES, 0, bs, d)
  }

  /** Aligned, and lines outside the blocks are the same as the lines they correspond to. */
  ghost predicate Faithful(bufs: Bufs, bs: seq<Block>, d: Texts) {
    Sync(true, bufs, ONES, 0, bs, d)
  }

  /** The list starts with a block at `s` and fits the text below it. */
  ghost predicate SyncAt(content: bool, bufs: Bufs, s: Vec, bs: seq<Block>, d: Texts) {
    && bs != []
    && (forall i {:trigger i in bufs} | i in bufs :: bs[0].lnum[i] == s[i] && 1 <= s[i] && bs[0].count[i] >= 0)
    && Sync(content, bufs, bs[0].Ends(), 1, bs[1..], d)
  }

  // ----- stretches -----

  /** Where the stretch above the next block begins. */
  function After(prev: Option<Block>): Vec {
    if prev.None? then ONES else prev.value.Ends()
  }

  /** The least length of that stretch. */
  function Least(prev: Option<Block>): nat {
    if prev.None? then 0 else 1
  }

  lemma SliceJoin(d: Texts, i: int, a: int, b: int, c: int)
    requires 0 <= i < DB_COUNT && 1 <= a <= b <= c <= Size(d, i) + 1
    ensures Slice(d, i, a, c) == Slice(d, i, a, b) + Slice(d, i, b, c)
  {
  }

  lemma PartOfPart<T>(s: seq<T>, a: nat, b: nat, lo: nat, hi: nat)
    requires lo <= hi && a + hi <= b <= |s|
    ensures s[a..b][lo..hi] == s[a + lo..a + hi]
  {
    var part := s[a..b];
    assert |part[lo..hi]| == hi - lo == |s[a + lo..a + hi]|;
    assert forall k | 0 <= k < hi - lo :: part[lo..hi][k] == s[a + lo..a + hi][k];
  }

  lemma SlicePart(d: Texts, i: int, a: int, b: int, lo: nat, hi: nat)
    requires 0 <= i < DB_COUNT && 1 <= a && lo <= hi && a + hi <= b <= Size(d, i) + 1
    ensures Slice(d, i, a + lo, a + hi) == Slice(d, i, a, b)[lo..hi]
  {
    PartOfPart(d.lines[i], a - 1, b - 1, lo, hi);
  }

  lemma GapJoin(content: bool, bufs: Bufs, e: Vec, f: Vec, g: Vec, m: nat, n: nat, d: Texts)
    requires Gap(content, bufs, e, f, m, d) && Gap(content, bufs, f, g, n, d)
    ensures Gap(content, bufs, e, g, m + n, d)
  {
    if content {
      forall i, j | i in bufs && j in bufs ensures Slice(d, i, e[i], g[i]) == Slice(d, j, e[j], g[j]) {
        SliceJoin(d, i, e[i], f[i], g[i]);
        SliceJoin(d, j, e[j], f[j], g[j]);
      }
    }
  }

  lemma GapNone(content: bool, bufs: Bufs, e: Vec, f: Vec, d: Texts)
    requires forall i {:trigger i in bufs} | i in bufs :: e[i] == f[i] && 1 <= e[i] <= Size(d, i) + 1
    ensures Gap(content, bufs, e, f, 0, d)
  {
  }

  lemma GapSame(content: bool, bufs: Bufs, e: Vec, f: Vec, e': Vec, f': Vec, m: nat, d: Texts)
    requires Gap(content, bufs, e, f, m, d)
    requires forall i {:trigger i in bufs} | i in bufs :: e[i] == e'[i] && f[i] == f'[i]
    ensures Gap(content, bufs, e', f', m, d)
  {
  }

  /** Part of a stretch that is common to all buffers is common to all buffers. */
  lemma GapPart(content: bool, bufs: Bufs, e: Vec, f: Vec, a: Vec, b: Vec, lo: nat, hi: nat, d: Texts)
    requires Gap(content, bufs, e, f, 0, d)
    requires lo <= hi
    requires forall i {:trigger i in bufs} | i in bufs :: a[i] == e[i] + lo && b[i] == e[i] + hi && b[i] <= f[i]
    ensures Gap(content, bufs, a, b, hi - lo, d)
  {
    if content {
      forall i, j | i in bufs && j in bufs ensures Slice(d, i, a[i], b[i]) == Slice(d, j, a[j], b[j]) {
        SlicePart(d, i, e[i], f[i], lo, hi);
        SlicePart(d, j, e[j], f[j], lo, hi);
      }
    }
  }

  /** A stretch may be prolonged upwards. */
  lemma SyncExtend(content: bool, bufs: Bufs, e: Vec, f: Vec, m: nat, n: nat, bs: seq<Block>, d: Texts)
    requires Gap(content, bufs, e, f, m, d) && Sync(content, bufs, f, n, bs, d)
    ensures Sync(content, bufs, e, m + n, bs, d) || bs == []
    ensures Sync(content, bufs, e, 0, bs, d)
    ensures Sync(content, bufs, e, m, bs, d)
    ensures Sync(content, bufs, e, n, bs, d)
  {
    if bs == [] {
      GapJoin(content, bufs, e, f, AfterLast(d), m, 0, d);
    } else {
      GapJoin(content, bufs, e, f, bs[0].lnum, m, n, d);
    }
  }

  /** ... or shortened by the `n` lines at its start. */
  lemma SyncDrop(content: bool, bufs: Bufs, e: Vec, f: Vec, m: nat, n: nat, k: nat, bs: seq<Block>, d: Texts)
    requires Sync(content, bufs, e, m, bs, d)
    requires forall i {:trigger i in bufs} | i in bufs :: f[i] == e[i] + n
    requires forall i {:trigger i in bufs} | i in bufs ::
               if bs == [] then f[i] <= Size(d, i) + 1 else f[i] + k <= bs[0].lnum[i]
    ensures Sync(content, bufs, f, k, bs, d)
    ensures Gap(content, bufs, e, f, n, d)
  {
    var g := if bs == [] then AfterLast(d) else bs[0].lnum;
    if i :| i in bufs {
      GapPart(content, bufs, e, g, f, g, n, g[i] - e[i], d);
      GapPart(content, bufs, e, g, e, f, 0, n, d);
    }
  }

  lemma SyncSame(content: bool, bufs: Bufs, e: Vec, f: Vec, m: nat, bs: seq<Block>, d: Texts)
    requires Sync(content, bufs, e, m, bs, d)
    requires forall i {:trigger i in bufs} | i in bufs :: e[i] == f[i]
    ensures Sync(content, bufs, f, m, bs, d)
  {
  }

  lemma Prepend(content: bool, bufs: Bufs, b: Block, s: Vec, bs: seq<Block>, d: Texts)
    requires SyncAt(content, bufs, s, bs, d)
    requires forall i {:trigger i in bufs} | i in bufs :: b.count[i] >= 0 && b.lnum[i] >= 1
    requires Gap(content, bufs, b.Ends(), s, 1, d)
    ensures SyncAt(content, bufs, b.lnum, [b] + bs, d)
  {
    assert ([b] + bs)[1..] == bs;
  }

  lemma EndsInRange(content: bool, bufs: Bufs, e: Vec, m: nat, bs: seq<Block>, d: Texts)
    requires Sync(content, bufs, e, m, bs, d)
    ensures forall i {:trigger i in bufs} | i in bufs :: 1 <= e[i] <= Size(d, i) + 1
  {
  }

  lemma {:induction false} Weaken(content: bool, bufs: Bufs, e: Vec, m: nat, bs: seq<Block>, d: Texts)
    requires Sync(content, bufs, e, m, bs, d)
    ensures Sync(false, bufs, e, m, bs, d)
    decreases |bs|
  {
    if bs != [] {
      Weaken(content, bufs, bs[0].Ends(), 1, bs[1..], d);
    }
  }
}

/** Merging the hunks of one more buffer into the list of diff blocks: `diff_read` and `diff_copy_entry` of
    src/nvim/diff.c. */
module DiffRead {
  import opened DiffBlocks

  /** A change between the original and the new buffer, as read from the output of diff. */
  datatype Hunk = Hunk(lnumOrig: int, countOrig: int, lnumNew: int, countNew: int) {
    function EndOrig(): int { lnumOrig + countOrig }
    function EndNew(): int { lnumNew + countNew }
  }

  /** The buffers read so far, the original one among them, and the buffer to add. */
  datatype Task = Task(bufs: Bufs, orig: int, new_: int) {
    ghost predicate Valid() { orig in bufs && 0 <= new_ < DB_COUNT && new_ !in bufs }
  }

  /** A block with its entry for buffer i set. */
  function With(b: Block, i: int, lnum: int, count: int): Block
    requires 0 <= i < DB_COUNT
  {
    Block(b.lnum[i := lnum], b.count[i := count])
  }

  /** `diff_copy_entry`: the lines that are in buffer i what they are in the original, given the block above. */
  function CopiedLnum(prev: Option<Block>, lnumOrig: int, orig: int, i: int): int
    requires 0 <= orig < DB_COUNT && 0 <= i < DB_COUNT
  {
    if prev.None? then lnumOrig else lnumOrig - (prev.value.End(orig) - prev.value.End(i))
  }

  function CopyEntry(prev: Option<Block>, b: Block, orig: int, i: int): Block
    requires 0 <= orig < DB_COUNT && 0 <= i < DB_COUNT
  {
    With(b, i, CopiedLnum(prev, b.lnum[orig], orig, i), b.count[orig])
  }

  /** A new block for a hunk that touches no block. */
  function HunkBlock(t: Task, prev: Option<Block>, h: Hunk): (b: Block)
    requires 0 <= t.orig < DB_COUNT
  {
    Block(seq(DB_COUNT, i requires 0 <= i < DB_COUNT =>
                if i == t.orig then h.lnumOrig
                else if i == t.new_ then h.lnumNew
                else if i in t.bufs then CopiedLnum(prev, h.lnumOrig, t.orig, i) else 0),
          seq(DB_COUNT, i requires 0 <= i < DB_COUNT =>
                if i == t.new_ then h.countNew
                else if i == t.orig || i in t.bufs then h.countOrig else 0))
  }

  /** The hunk meets the block: they overlap, or one ends where the other starts. */
  predicate Meets(t: Task, b: Block, h: Hunk)
    requires 0 <= t.orig < DB_COUNT
  {
    h.lnumOrig <= b.End(t.orig) && h.EndOrig() >= b.lnum[t.orig]
  }

  /** The index of the last block that the hunk reaches, given that it meets the first. */
  function LastMet(t: Task, bs: seq<Block>, h: Hunk): (j: nat)
    requires 0 <= t.orig < DB_COUNT && bs != []
    ensures j < |bs|
  {
    if |bs| > 1 && h.EndOrig() >= bs[1].lnum[t.orig] then 1 + LastMet(t, bs[1..], h) else 0
  }

  /** The block raised to the start of the hunk, where its entry for the new buffer is set or adjusted. */
  function Opened(t: Task, b: Block, last: Block, notset: bool, h: Hunk): Block
    requires 0 <= t.orig < DB_COUNT && 0 <= t.new_ < DB_COUNT
  {
    var off := b.lnum[t.orig] - h.lnumOrig;
    if off > 0 then
      Block(seq(DB_COUNT, i requires 0 <= i < DB_COUNT =>
                  if i == t.new_ then h.lnumNew else if i in t.bufs then b.lnum[i] - off else b.lnum[i]),
            b.count[t.new_ := h.countNew])
    else if notset then With(b, t.new_, h.lnumNew + off, h.countNew - off)
    else
      With(b, t.new_, b.lnum[t.new_],
           b.count[t.new_] + h.countNew - h.countOrig + last.End(t.orig) - b.End(t.orig))
  }

  /** The block that replaces bs[..j + 1] when the hunk reaches from the first to block j. */
  function Merged(t: Task, bs: seq<Block>, j: nat, notset: bool, h: Hunk): Block
    requires 0 <= t.orig < DB_COUNT && 0 <= t.new_ < DB_COUNT && j < |bs|
  {
    var b := Opened(t, bs[0], bs[j], notset, h);
    // When there is only one block, its end is read after its start has been moved.
    var last := if j == 0 then b else bs[j];
    Closed(t, b, last, notset, h.EndOrig() - last.End(t.orig))
  }

  /** The block extended to the end of `last`, or `off` lines further. */
  function Closed(t: Task, b: Block, last: Block, notset: bool, off: int): Block
    requires 0 <= t.new_ < DB_COUNT
  {
    Block(b.lnum,
          seq(DB_COUNT, i requires 0 <= i < DB_COUNT =>
                if i == t.new_ then b.count[i] + (if off < 0 && notset then -off else 0)
                else if i in t.bufs then last.lnum[i] + last.count[i] - b.lnum[i] + (if off < 0 then 0 else off)
                else b.count[i]))
  }

  /** The blocks from `bs` on after reading the hunks; `prev` is the block above, and `notset` tells whether the first
      block lacks its entry for the new buffer. */
  function Read(t: Task, prev: Option<Block>, bs: seq<Block>, notset: bool, hunks: seq<Hunk>): seq<Block>
    requires 0 <= t.orig < DB_COUNT && 0 <= t.new_ < DB_COUNT
    decreases |hunks|, |bs|
  {
    if bs != [] && (hunks == [] || hunks[0].lnumOrig > bs[0].End(t.orig)) then
      var b := if notset then CopyEntry(prev, bs[0], t.orig, t.new_) else bs[0];
      [b] + Read(t, Some(b), bs[1..], true, hunks)
    else if hunks == [] then []
    else if bs != [] && Meets(t, bs[0], hunks[0]) then
      var j := LastMet(t, bs, hunks[0]);
      Read(t, prev, [Merged(t, bs, j, notset, hunks[0])] + bs[j + 1..], false, hunks[1..])
    else
      Read(t, prev, [HunkBlock(t, prev, hunks[0])] + bs, false, hunks[1..])
  }
}

/** What an edit does to the list of diff blocks: `diff_mark_adjust_tp` of src/nvim/diff.c. */
module MarkAdjust {
  import opened DiffBlocks
  import opened DiffTrim

  /** The arguments of `mark_adjust`, and the index of the buffer that was edited. */
  datatype Edit = Edit(idx: int, line1: int, line2: int, amount: int, after: int) {
    function Inserted(): int {
      if line2 == MAXLNUM then amount else if after > 0 then after else 0
    }

    function Deleted(): int {
      if line2 == MAXLNUM || after > 0 then 0 else -after
    }
  }

  /** Blocks `dp` and its predecessor are not touched by the edit, which falls between them. */
  predicate Fires(ed: Edit, prev: Option<Block>, rest: seq<Block>)
    requires 0 <= ed.idx < DB_COUNT
  {
    && (rest == [] || rest[0].lnum[ed.idx] - 1 > ed.line2
        || (ed.line2 == MAXLNUM && rest[0].lnum[ed.idx] > ed.line1))
    && (prev.None? || prev.value.End(ed.idx) < ed.line1)
  }

  /** The block for an edit outside all blocks. */
  function NewBlock(ed: Edit, bufs: Bufs, prev: Option<Block>, deleted: int): Block
    requires 0 <= ed.idx < DB_COUNT
  {
    Block(seq(DB_COUNT, i requires 0 <= i < DB_COUNT =>
                if i == ed.idx then ed.line1
                else if i !in bufs then 0
                else if prev.None? then ed.line1
                else ed.line1 + prev.value.End(i) - prev.value.End(ed.idx)),
          seq(DB_COUNT, i requires 0 <= i < DB_COUNT =>
                if i == ed.idx then ed.Inserted()
                else if i !in bufs then 0
                else deleted))
  }

  function SetIdx(b: Block, idx: int, lnum: int, count: int): Block
    requires 0 <= idx < DB_COUNT
  {
    Block(b.lnum[idx := lnum], b.count[idx := count])
  }

  /** The other buffers' part of the block starts `off` lines higher and has `n` lines more. */
  function GrowOthers(b: Block, bufs: Bufs, idx: int, off: int, n: int): (r: Block)
    ensures forall i {:trigger i in bufs} | i in bufs && i != idx ::
            r.lnum[i] == b.lnum[i] - off && r.count[i] == b.count[i] + n
    ensures forall i | 0 <= i < DB_COUNT && (i == idx || i !in bufs) ::
            r.lnum[i] == b.lnum[i] && r.count[i] == b.count[i]
  {
    Block(seq(DB_COUNT, i requires 0 <= i < DB_COUNT => if i in bufs && i != idx then b.lnum[i] - off else b.lnum[i]),
          seq(DB_COUNT, i requires 0 <= i < DB_COUNT => if i in bufs && i != idx then b.count[i] + n else b.count[i]))
  }

  function Merge(bufs: Bufs, a: Block, b: Block): (r: Block)
    ensures r.lnum == a.lnum
    ensures forall i {:trigger i in bufs} | i in bufs :: r.count[i] == a.count[i] + b.count[i]
  {
    Block(a.lnum, seq(DB_COUNT, i requires 0 <= i < DB_COUNT => if i in bufs then a.count[i] + b.count[i]
        else a.count[i]))
  }

  /** A block after the edit, what is left to delete, and where that starts. */
  datatype Repaired = Repaired(block: Block, deleted: int, from: int)

  /** The deletion reaches the next block. */
  predicate GoesOn(ed: Edit, next: Option<Block>)
    requires 0 <= ed.idx < DB_COUNT
  {
    next.Some? && next.value.lnum[ed.idx] - 1 <= ed.line2
  }

  /** The block without its deleted first lines; the other buffers get the lines deleted above it. */
  function CutTop(ed: Edit, bufs: Bufs, b: Block, from: int): Block
    requires 0 <= ed.idx < DB_COUNT
  {
    var off := b.lnum[ed.idx] - from;
    GrowOthers(SetIdx(b, ed.idx, ed.line1, b.count[ed.idx] - (ed.line2 - b.lnum[ed.idx] + 1)), bufs, ed.idx, off, off)
  }

  /** The block without its lines from `from` on; the other buffers get `n` lines that are deleted below it. */
  function CutBottom(ed: Edit, bufs: Bufs, b: Block, from: int, n: int): Block
    requires 0 <= ed.idx < DB_COUNT
  {
    GrowOthers(SetIdx(b, ed.idx, b.lnum[ed.idx], b.count[ed.idx] - (b.End(ed.idx) - from)), bufs, ed.idx, 0, n)
  }

  /** How many unchanged lines below the block are deleted with its end. */
  function LinesBelow(ed: Edit, b: Block, next: Option<Block>): int
    requires 0 <= ed.idx < DB_COUNT
  {
    (if GoesOn(ed, next) then next.value.lnum[ed.idx] - 1 else ed.line2) - (b.End(ed.idx) - 1)
  }

  /** The block with the inserted lines. */
  function Enlarge(ed: Edit, b: Block): Block
    requires 0 <= ed.idx < DB_COUNT
  {
    SetIdx(b, ed.idx, b.lnum[ed.idx], b.count[ed.idx] + ed.Inserted())
  }

  /** Cases 4 and 5: the deletion covers the top of the block. */
  function RepairTop(ed: Edit, bufs: Bufs, b: Block, next: Option<Block>, deleted: int, from: int, d: Texts): Repaired
    requires 0 <= ed.idx < DB_COUNT
  {
    var off := b.lnum[ed.idx] - from;
    if b.End(ed.idx) - 1 <= ed.line2 then
      var c := SetIdx(b, ed.idx, ed.line1, 0);
      if GoesOn(ed, next) then
        var n := next.value.lnum[ed.idx] - from;
        Repaired(GrowOthers(c, bufs, ed.idx, off, n - b.count[ed.idx]), deleted - n, next.value.lnum[ed.idx])
      else
        Repaired(GrowOthers(c, bufs, ed.idx, off, deleted - b.count[ed.idx]), deleted, from)
    else
      Repaired(Trim(bufs, CutTop(ed, bufs, b, from), d), deleted, from)
  }

  /** Cases 2 and 3: the block starts above the deletion. */
  function RepairBottom(ed: Edit, bufs: Bufs, b: Block, next: Option<Block>, deleted: int, from: int,
                        d: Texts): Repaired
    requires 0 <= ed.idx < DB_COUNT
  {
    if b.End(ed.idx) - 1 < ed.line2 then
      var c := Trim(bufs, CutBottom(ed, bufs, b, from, LinesBelow(ed, b, next)), d);
      if GoesOn(ed, next) then Repaired(c, deleted - (next.value.lnum[ed.idx] - from), next.value.lnum[ed.idx])
      else Repaired(c, deleted, from)
    else
      Repaired(SetIdx(b, ed.idx, b.lnum[ed.idx], b.count[ed.idx] - deleted), deleted, from)
  }

  /** One block after the edit. */
  function Repair(ed: Edit, bufs: Bufs, b: Block, next: Option<Block>, deleted: int, from: int, d: Texts): Repaired
    requires 0 <= ed.idx < DB_COUNT
  {
    if b.End(ed.idx) - 1 < ed.line1 - 1 then Repaired(b, deleted, from)
    else if Below(ed, b, deleted) then
      Repaired(SetIdx(b, ed.idx, b.lnum[ed.idx] + ed.after, b.count[ed.idx]), deleted, from)
    else if deleted > 0 then
      if b.lnum[ed.idx] >= ed.line1 then RepairTop(ed, bufs, b, next, deleted, from, d)
      else RepairBottom(ed, bufs, b, next, deleted, from, d)
    else if b.lnum[ed.idx] <= ed.line1 then
      Repaired(Trim(bufs, Enlarge(ed, b), d), deleted, from)
    else
      Repaired(SetIdx(b, ed.idx, b.lnum[ed.idx] + ed.Inserted(), b.count[ed.idx]), deleted, from)
  }

  /** Case 6: the edit is above the block. */
  predicate Below(ed: Edit, b: Block, deleted: int)
    requires 0 <= ed.idx < DB_COUNT
  {
    b.lnum[ed.idx] - (if deleted + ed.Inserted() != 0 then 1 else 0) > ed.line2
  }

  /** Nothing below needs a change. */
  predicate Stops(ed: Edit, b: Block, deleted: int)
    requires 0 <= ed.idx < DB_COUNT
  {
    b.End(ed.idx) - 1 >= ed.line1 - 1 && Below(ed, b, deleted) && ed.after == 0
  }

  function Next(rest: seq<Block>): Option<Block> {
    if |rest| > 1 then Some(rest[1]) else None
  }

  function AsSeq(b: Option<Block>): seq<Block> {
    if b.Some? then [b.value] else []
  }

  /** The loop over the blocks: the blocks from `prev` on, where `prev` is done and `rest` is not. */
  function Walk(ed: Edit, bufs: Bufs, busy: bool, prev: Option<Block>, rest: seq<Block>, deleted: int, from: int,
                d: Texts): seq<Block>
    requires 0 <= ed.idx < DB_COUNT
    decreases |rest|
  {
    var made := if Fires(ed, prev, rest) && !busy then [NewBlock(ed, bufs, prev, deleted)] else [];
    if rest == [] then AsSeq(prev) + made
    else if Stops(ed, rest[0], deleted) then AsSeq(prev) + made + rest
    else
      var r := Repair(ed, bufs, rest[0], Next(rest), deleted, from, d);
      if prev.Some? && prev.value.End(ed.idx) == r.block.lnum[ed.idx] then
        Walk(ed, bufs, busy, Some(Merge(bufs, prev.value, r.block)), rest[1..], r.deleted, r.from, d)
      else
        AsSeq(prev) + made + Walk(ed, bufs, busy, Some(r.block), rest[1..], r.deleted, r.from, d)
  }

  predicate Empty(bufs: Bufs, b: Block) {
    forall i | i in bufs :: b.count[i] == 0
  }

  /** The list without the blocks that have no lines in any buffer. */
  function DropEmpty(bufs: Bufs, bs: seq<Block>): seq<Block> {
    if bs == [] then []
    else if Empty(bufs, bs[0]) then DropEmpty(bufs, bs[1..])
    else [bs[0]] + DropEmpty(bufs, bs[1..])
  }

  /** The list after the edit; `d` is the text after the edit. */
  function Adjust(ed: Edit, bufs: Bufs, busy: bool, bs: seq<Block>, d: Texts): seq<Block>
    requires 0 <= ed.idx < DB_COUNT
  {
    DropEmpty(bufs, Walk(ed, bufs, busy, None, bs, ed.Deleted(), ed.line1, d))
  }

  /** The loop over the blocks does not merge any of the next j blocks with the one above. */
  predicate Unmerged(ed: Edit, bufs: Bufs, prev: Option<Block>, rest: seq<Block>, deleted: int, from: int, d: Texts,
                     j: nat)
    requires 0 <= ed.idx < DB_COUNT
    decreases j
  {
    j == 0 || rest == [] || Stops(ed, rest[0], deleted) ||
    (var r := Repair(ed, bufs, rest[0], Next(rest), deleted, from, d);
     && !(prev.Some? && prev.value.End(ed.idx) == r.block.lnum[ed.idx])
     && Unmerged(ed, bufs, Some(r.block), rest[1..], r.deleted, r.from, d, j - 1))
  }

  /** The first j entries of the list are still its first j entries after the edit. */
  predicate Steady(ed: Edit, bufs: Bufs, bs: seq<Block>, d: Texts, j: nat)
    requires 0 <= ed.idx < DB_COUNT
  {
    var out := Walk(ed, bufs, true, None, bs, ed.Deleted(), ed.line1, d);
    && j <= |bs| && j <= |out| && Unmerged(ed, bufs, None, bs, ed.Deleted(), ed.line1, d, j)
    && forall i | 0 <= i < j :: !Empty(bufs, out[i])
  }
}

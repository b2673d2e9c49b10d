/** The loop of `ex_diffgetput` in src/nvim/diff.c in full: any range, any number of buffers, and what `mark_adjust`
    does to the list meanwhile. */
module DiffGetTurn {
  import opened LineCompare
  import opened DiffBlocks
  import opened DiffDisplay
  import opened MarkAdjust
  import opened DiffList
  import opened DiffGet

  // ----- the lines of a block that are in the range -----

  /** How many lines at the start and at the end of the block are skipped in the source, and which lines of the target
      go. */
  datatype Part = Part(top: int, bottom: int, lnum: int, count: int)

  /** The lines that a range takes; it has moved by `off` lines. */
  function PartOf(c: Command, b: Block, off: int): (p: Part)
    requires 0 <= c.cur < DB_COUNT && 0 <= c.from < DB_COUNT && 0 <= c.to < DB_COUNT
    ensures p.top >= 0
  {
    if !c.ranged then Part(0, 0, b.lnum[c.to], b.count[c.to])
    else
      var top := AboveRange(c, b, off);
      var skipped := if top > 0 then Min(top, b.count[c.to]) else 0;
      var below := b.End(c.cur) - 1 - (c.line2 + off);
      var (l, n) := (b.lnum[c.to] + skipped, b.count[c.to] - skipped);
      if below <= 0 then Part(top, 0, l, n)
      else if c.cur == c.from then Part(top, below, l, Min(n, b.count[c.from] - top - below))
      else Part(top, Max(b.count[c.from] - top - (n - below), 0), l, n - below)
  }

  /** How many lines of the block are above the range. */
  function AboveRange(c: Command, b: Block, off: int): nat
    requires 0 <= c.cur < DB_COUNT
  {
    Max(c.line1 + off - b.lnum[c.cur], 0)
  }

  // ----- one turn of the loop -----

  /** In the buffer of the command, the lines taken are those of both the block and the range. In the other one, they
      are the lines at the same distance from the top, as far as there are any, and if the range does not cut the bottom
      of the block all that follow. A block without lines in the buffer of the command is not cut. */
  lemma PartMeans(c: Command, b: Block, off: int)
    requires c.Valid() && InRange(c, b, off) && b.count[c.from] >= 0 && b.count[c.to] >= 0
    ensures Whole(c, b, off) || b.count[c.cur] == 0 ==> PartOf(c, b, off) == Part(0, 0, b.lnum[c.to], b.count[c.to])
    ensures c.ranged && b.count[c.cur] > 0 ==>
              var p := PartOf(c, b, off);
              var (first, last) := (Max(c.line1 + off, b.lnum[c.cur]), Min(c.line2 + off, b.End(c.cur) - 1));
              var cut := b.End(c.cur) - 1 > c.line2 + off;
              && p.top == first - b.lnum[c.cur]
              && (c.cur == c.to ==>
                    && p.lnum == first && p.lnum + p.count - 1 == last
                    && b.count[c.from] - p.bottom == if cut then Min(b.count[c.from], p.top + p.count)
                        else b.count[c.from])
              && (c.cur == c.from ==>
                    && b.lnum[c.from] + b.count[c.from] - p.bottom - 1 == last
                    && p.lnum == b.lnum[c.to] + Min(p.top, b.count[c.to])
                    && p.lnum + p.count == b.lnum[c.to] + if cut then Min(b.count[c.from] - p.bottom, b.count[c.to])
                        else b.count[c.to])
  {
  }

  /** The block has the same lines in the source and in all buffers other than the two of the command. */
  predicate EqualElsewhere(c: Command, bufs: Bufs, b: Block, d: Texts)
    requires 0 <= c.from < DB_COUNT
  {
    forall i {:trigger i in bufs} | i in bufs && i != c.from && i != c.to :: EqualEntry(bufs, b, c.from, i, d)
  }

  /** After a turn: the list, whether the entry was taken out of it, how many lines the target has more, its text, and
      whether the entries above, the one at hand and otherwise the next one stayed in the list. */
  datatype Turned = Turned(blocks: seq<Block>, removed: bool, added: int, lines: seq<Line>, steady: bool)

  /** `mark_adjust` for the lines p of the target, of which it has `added` more now. */
  function PartEdit(c: Command, p: Part, added: int): Edit { Edit(c.to, p.lnum, p.lnum + p.count - 1, MAXLNUM, added) }

  /** The block with its new number of lines in the target. */
  function Resized(c: Command, b: Block, n: int): Block
    requires 0 <= c.to < DB_COUNT
  {
    Block(b.lnum, b.count[c.to := n])
  }

  /** The turn that takes lines of the block at position k. */
  function Turn(c: Command, bufs: Bufs, opt: DiffOpt, bs: seq<Block>, k: nat, off: int, text: Buffers): Turned
    requires 0 <= c.cur < DB_COUNT && 0 <= c.from < DB_COUNT && 0 <= c.to < DB_COUNT && k < |bs|
  {
    var (b, p) := (bs[k], PartOf(c, bs[k], off));
    var (lines, added) :=
      ReplaceLines(text[c.to], p.lnum, p.count, text[c.from], b.lnum[c.from] + p.top,
          b.count[c.from] - p.top - p.bottom);
    var d := KeysOf(opt, text[c.to := lines]);
    var b' := Resized(c, b, b.count[c.to] + added);
    var removed := p.top == 0 && p.bottom == 0 && EqualElsewhere(c, bufs, b', d);
    var list := if removed then bs[..k] + bs[k + 1..] else bs[k := b'];
    if added == 0 then Turned(list, removed, added, lines, true)
    else
      var ed := PartEdit(c, p, added);
      var out := Adjust(ed, bufs, true, list, d);
      var steady := Steady(ed, bufs, list, d, Min(k + 1, |list|));
      Turned(if removed || !steady
          || k >= |out| then out else out[k := Resized(c, out[k], b'.count[c.to])], removed, added, lines, steady)
  }

  lemma {:induction false} WalkSize(ed: Edit, bufs: Bufs, prev: Option<Block>, rest: seq<Block>, deleted: int,
                                    from: int, d: Texts)
    requires 0 <= ed.idx < DB_COUNT
    ensures |Walk(ed, bufs, true, prev, rest, deleted, from, d)| <= |AsSeq(prev)| + |rest|
    decreases |rest|
  {
    hide Fires, Stops, Repair, Merge;
    if rest != [] {
      var r := Repair(ed, bufs, rest[0], Next(rest), deleted, from, d);
      if prev.Some? {
        WalkSize(ed, bufs, Some(Merge(bufs, prev.value, r.block)), rest[1..], r.deleted, r.from, d);
      }
      WalkSize(ed, bufs, Some(r.block), rest[1..], r.deleted, r.from, d);
    }
  }

  lemma {:induction false} DropSize(bufs: Bufs, bs: seq<Block>)
    ensures |DropEmpty(bufs, bs)| <= |bs|
  {
    hide Empty;
    if bs != [] {
      DropSize(bufs, bs[1..]);
    }
  }

  /** The list does not become longer, and shorter if the entry is taken out. */
  lemma TurnSize(c: Command, bufs: Bufs, opt: DiffOpt, bs: seq<Block>, k: nat, off: int, text: Buffers)
    requires 0 <= c.cur < DB_COUNT && 0 <= c.from < DB_COUNT && 0 <= c.to < DB_COUNT && k < |bs|
    ensures var t := Turn(c, bufs, opt, bs, k, off, text); |t.blocks| <= |bs| - if t.removed then 1 else 0
  {
    hide PartOf, ReplaceLines, EqualElsewhere, Walk, DropEmpty, KeysOf, Resized, Steady;
    var t := Turn(c, bufs, opt, bs, k, off, text);
    var d := KeysOf(opt, text[c.to := t.lines]);
    var b' := Resized(c, bs[k], bs[k].count[c.to] + t.added);
    var list := if t.removed then bs[..k] + bs[k + 1..] else bs[k := b'];
    var ed := PartEdit(c, PartOf(c, bs[k], off), t.added);
    WalkSize(ed, bufs, None, list, ed.Deleted(), ed.line1, d);
    DropSize(bufs, Walk(ed, bufs, true, None, list, ed.Deleted(), ed.line1, d));
  }

  /** The text after the turn. */
  function TextAfter(c: Command, bufs: Bufs, opt: DiffOpt, bs: seq<Block>, k: nat, off: int, text: Buffers): Buffers
    requires 0 <= c.cur < DB_COUNT && 0 <= c.from < DB_COUNT && 0 <= c.to < DB_COUNT && k < |bs|
  {
    text[c.to := Turn(c, bufs, opt, bs, k, off, text).lines]
  }

  lemma TurnReplaces(c: Command, bufs: Bufs, opt: DiffOpt, bs: seq<Block>, k: nat, off: int, text: Buffers)
    requires c.Valid() && k < |bs|
    ensures var (b, p, t) := (bs[k], PartOf(c, bs[k], off), Turn(c, bufs, opt, bs, k, off, text));
            var r := ReplaceLines(text[c.to], p.lnum, p.count, text[c.from], b.lnum[c.from] + p.top,
                b.count[c.from] - p.top - p.bottom);
            t.lines == r.0 && t.added == r.1
  {
    hide PartOf, ReplaceLines, EqualElsewhere, Adjust, Steady, KeysOf;
  }

  /** The number of lines the block has in the target. */
  function In(c: Command, b: Block): int
    requires 0 <= c.to < DB_COUNT
  {
    b.count[c.to]
  }

  lemma TurnUnfold(c: Command, bufs: Bufs, opt: DiffOpt, bs: seq<Block>, k: nat, off: int, text: Buffers)
    requires c.Valid() && k < |bs|
    ensures var (b, p, t) := (bs[k], PartOf(c, bs[k], off), Turn(c, bufs, opt, bs, k, off, text));
            var d := KeysOf(opt, TextAfter(c, bufs, opt, bs, k, off, text));
            var list := if t.removed then bs[..k] + bs[k + 1..] else bs[k := Resized(c, b, In(c, b) + t.added)];
            var out := Adjust(PartEdit(c, p, t.added), bufs, true, list, d);
            && (t.removed <==>
                      p.top == 0 && p.bottom == 0
                          && EqualElsewhere(c, bufs, Resized(c, b, In(c, b) + t.added), d))
            && (t.added == 0 ==> t.blocks == list && t.steady)
            && (t.added != 0 ==>
                  && t.steady == Steady(PartEdit(c, p, t.added), bufs, list, d, Min(k + 1, |list|))
                  && (t.removed || !t.steady ==> t.blocks == out)
                  && (!t.removed && t.steady && k < |out| ==>
                      t.blocks == out[k := Resized(c, out[k], In(c, b) + t.added)]))
  {
    hide PartOf, ReplaceLines, EqualElsewhere, Adjust, Steady, KeysOf, Resized;
    var r := ReplaceLines(text[c.to], PartOf(c, bs[k], off).lnum, PartOf(c, bs[k], off).count, text[c.from],
                          bs[k].lnum[c.from] + PartOf(c, bs[k], off).top,
                              bs[k].count[c.from] - PartOf(c, bs[k], off).top - PartOf(c, bs[k], off).bottom);
    ResizedTo(c, bs[k], In(c, bs[k]) + r.1);
  }

  lemma ResizedTo(c: Command, b: Block, n: int)
    requires 0 <= c.to < DB_COUNT
    ensures Resized(c, b, n).count[c.to] == n && Resized(c, b, n).lnum == b.lnum
    ensures n == b.count[c.to] ==> Resized(c, b, n) == b
  {
  }

  // ----- the loop -----

  /** The list and the text of the target after the loop, which stands at position k; the range has moved by `off`
      lines. */
  function GetPut(c: Command, bufs: Bufs, opt: DiffOpt, bs: seq<Block>, k: nat, off: int, text: Buffers): (seq<Block>,
                  seq<Line>)
    requires 0 <= c.cur < DB_COUNT && 0 <= c.from < DB_COUNT && 0 <= c.to < DB_COUNT
    decreases |bs| - k
  {
    if k >= |bs| || bs[k].lnum[c.cur] > c.line2 + off then (bs, text[c.to])
    else if !InRange(c, bs[k], off) then GetPut(c, bufs, opt, bs, k + 1, off, text)
    else
      var t := Turn(c, bufs, opt, bs, k, off, text);
      TurnSize(c, bufs, opt, bs, k, off, text);
      GetPut(c, bufs, opt, t.blocks, NextAt(k, t), NextOff(c, off, t), text[c.to := t.lines])
  }

  /** A block that the range takes has its turn, one that it does not take is left as it is, and past the range
      nothing is done any more. */
  lemma GetPutMeans(c: Command, bufs: Bufs, opt: DiffOpt, bs: seq<Block>, k: nat, off: int, text: Buffers)
    requires c.Valid() && k < |bs| && bs[k].count[c.cur] >= 0
    ensures Takes(c, bs[k], off) ==>
              var t := Turn(c, bufs, opt, bs, k, off, text);
              GetPut(c, bufs, opt, bs, k, off, text)
              == GetPut(c, bufs, opt, t.blocks, NextAt(k, t), NextOff(c, off, t), text[c.to := t.lines])
    ensures !Takes(c, bs[k], off) && bs[k].lnum[c.cur] <= c.line2 + off ==>
              GetPut(c, bufs, opt, bs, k, off, text) == GetPut(c, bufs, opt, bs, k + 1, off, text)
    ensures bs[k].lnum[c.cur] > c.line2 + off ==> GetPut(c, bufs, opt, bs, k, off, text) == (bs, text[c.to])
  {
    hide Turn;
    TakesIs(c, bs[k], off);
  }

  /** If the range takes no block, list and text stay as they are. */
  lemma {:induction false} GetPutNone(c: Command, bufs: Bufs, opt: DiffOpt, bs: seq<Block>, k: nat, off: int,
                                      text: Buffers)
    requires c.Valid() && forall i | k <= i < |bs| :: bs[i].count[c.cur] >= 0 && !Takes(c, bs[i], off)
    ensures GetPut(c, bufs, opt, bs, k, off, text) == (bs, text[c.to])
    decreases |bs| - k
  {
    hide Turn, Takes, GetPut;
    if k < |bs| {
      GetPutMeans(c, bufs, opt, bs, k, off, text);
      GetPutNone(c, bufs, opt, bs, k + 1, off, text);
    } else {
      GetPutEnd(c, bufs, opt, bs, k, off, text);
    }
  }

  lemma GetPutEnd(c: Command, bufs: Bufs, opt: DiffOpt, bs: seq<Block>, k: nat, off: int, text: Buffers)
    requires c.Valid() && k >= |bs|
    ensures GetPut(c, bufs, opt, bs, k, off, text) == (bs, text[c.to])
  {
  }

  function NextAt(k: nat, t: Turned): nat { if t.removed then k else k + 1 }

  function NextOff(c: Command, off: int, t: Turned): int { if c.cur == c.to then off + t.added else off }

  /** No entry that the loop still uses is taken out of the list while marks are adjusted, and lines are copied from
      line numbers that can exist. */
  predicate Lasts(c: Command, bufs: Bufs, opt: DiffOpt, bs: seq<Block>, k: nat, off: int, text: Buffers)
    requires 0 <= c.cur < DB_COUNT && 0 <= c.from < DB_COUNT && 0 <= c.to < DB_COUNT
    decreases |bs| - k
  {
    k >= |bs| || bs[k].lnum[c.cur] > c.line2 + off ||
    if !InRange(c, bs[k], off) then Lasts(c, bufs, opt, bs, k + 1, off, text)
    else
      var t := Turn(c, bufs, opt, bs, k, off, text);
      TurnSize(c, bufs, opt, bs, k, off, text);
      && t.steady && bs[k].lnum[c.from] >= 1
      && Lasts(c, bufs, opt, t.blocks, NextAt(k, t), NextOff(c, off, t), text[c.to := t.lines])
  }
}

/** The loop of `ex_diffgetput` on the linked list and the buffers; src/nvim/diff.c. */
module DiffGetList {
  import opened LineCompare
  import opened TextLines
  import opened DiffBlocks
  import opened DiffDisplay
  import opened MarkAdjust
  import opened DiffList
  import opened DiffLookup
  import opened Sequences
  import opened DiffGet
  import opened DiffGetTurn

  // ----- one block -----

  /** How many lines at the start and at the end of the block are skipped, and which lines of the target are in the
      range; `off` is how far the lines of the range have moved. */
  method Skips(dp: DiffNode, c: Command, off: int) returns (startSkip: int, endSkip: int, lnum: int, count: int)
    requires c.Valid()
    ensures var p := PartOf(c, dp.Value(), off);
            startSkip == p.top && endSkip == p.bottom && lnum == p.lnum && count == p.count
  {
    startSkip, endSkip, lnum, count := 0, 0, dp.lnum[c.to], dp.count[c.to];
    if c.ranged {
      startSkip := c.line1 + off - dp.lnum[c.cur];
      if startSkip > 0 {
        if startSkip > count {
          lnum := lnum + count;
          count := 0;
        } else {
          count := count - startSkip;
          lnum := lnum + startSkip;
        }
      } else {
        startSkip := 0;
      }
      endSkip := dp.lnum[c.cur] + dp.count[c.cur] - 1 - (c.line2 + off);
      if endSkip > 0 {
        if c.cur == c.from {
          var i := dp.count[c.cur] - startSkip - endSkip;
          if count > i {
            count := i;
          }
        } else {
          count := count - endSkip;
          endSkip := dp.count[c.from] - startSkip - count;
          if endSkip < 0 {
            endSkip := 0;
          }
        }
      } else {
        endSkip := 0;
      }
    }
  }

  /** Deletes the lines of the block. */
  method DeleteBlockLines(to: Buffer, lnum: int, count: int) returns (bufEmpty: bool)
    modifies to
    ensures (to.lines, bufEmpty) == DeleteLines(old(to.lines), lnum, count, IsEmpty(old(to.lines)))
  {
    bufEmpty := IsEmpty(to.lines);
    var i := 0;
    while i < count
      invariant i <= count || i == 0
      invariant DeleteLines(to.lines, lnum, count - i, bufEmpty)
                == DeleteLines(old(to.lines), lnum, count, IsEmpty(old(to.lines)))
    {
      bufEmpty := |to.lines| == 1;
      to.MlDelete(lnum);
      i := i + 1;
    }
  }

  /** Copies lines of the source. */
  method CopyBlockLines(from: Buffer, to: Buffer, lnum: int, n: int, first: int, bufEmpty0: bool) returns (copied: int)
    requires from != to && first >= 1
    modifies to
    ensures (to.lines, copied) == CopyLines(old(to.lines), lnum, 0, n, from.lines, first, bufEmpty0)
  {
    hide Appended, Deleted;
    var bufEmpty := bufEmpty0;
    var i := 0;
    copied := 0;
    while i < n
      invariant 0 <= i == copied && from.lines == old(from.lines)
      invariant CopyLines(to.lines, lnum, i, n, from.lines, first, bufEmpty)
                == CopyLines(old(to.lines), lnum, 0, n, from.lines, first, bufEmpty0)
      decreases n - i
    {
      var nr := first + i;
      if nr > |from.lines| {
        break;
      }
      var p := from.MlGet(nr);
      to.MlAppend(lnum + i - 1, p);
      copied := copied + 1;
      if bufEmpty && |to.lines| == 2 {
        bufEmpty := false;
        to.MlDelete(2);
      }
      i := i + 1;
    }
  }

  /** Whether the block has the same lines in the source and in all buffers but the target. */
  method EqualsElsewhere(dp: DiffNode, c: Command, bufs: Bufs, opt: DiffOpt, text: Buffers) returns (equal: bool)
    requires c.Valid() && Sensible(opt)
    ensures equal <==> EqualElsewhere(c, bufs, dp.Value(), KeysOf(opt, text))
  {
    hide EqualEntry, KeysOf;
    for i := 0 to DB_COUNT
      invariant forall j {:trigger j in bufs} | j in bufs && j < i && j != c.from && j != c.to ::
                EqualEntry(bufs, dp.Value(), c.from, j, KeysOf(opt, text))
    {
      if i in bufs && i != c.from && i != c.to {
        equal := DiffEqualEntry(dp, bufs, c.from, i, opt, text);
        if !equal {
          return;
        }
      }
    }
    equal := true;
  }

  /** The text of all buffers, those of the two buffers of the command being `source` and `target`. */
  function BuffersWith(c: Command, text: Buffers, source: seq<Line>, target: seq<Line>): (r: Buffers)
    requires c.Valid()
    ensures r[c.from] == source && r[c.to] == target
  {
    text[c.from := source][c.to := target]
  }

  lemma BuffersAfter(c: Command, text: Buffers, source: seq<Line>, target: seq<Line>, lines: seq<Line>)
    requires c.Valid()
    ensures BuffersWith(c, text, source, target)[c.to := lines] == BuffersWith(c, text, source, lines)
  {
  }

  /** Replaces the lines p of the target by lines of the source. */
  method ReplaceLinesOf(dp: DiffNode, c: Command, from: Buffer, to: Buffer, startSkip: int, endSkip: int, lnum: int,
                        count: int) returns (added: int)
    requires c.Valid() && from != to && dp.lnum[c.from] + startSkip >= 1
    modifies to
    ensures var r := ReplaceLines(old(to.lines), lnum, count, from.lines, dp.lnum[c.from] + startSkip,
            dp.count[c.from] - startSkip - endSkip);
            to.lines == r.0 && added == r.1
  {
    hide DeleteLines, CopyLines;
    var bufEmpty := DeleteBlockLines(to, lnum, count);
    var copied := CopyBlockLines(from, to, lnum, dp.count[c.from] - startSkip - endSkip, dp.lnum[c.from] + startSkip,
        bufEmpty);
    added := copied - (if count > 0 then count else 0);
  }

  /** Sets the number of lines of the block in the target. */
  method SetTargetCount(tp: TabPage, dp: DiffNode, c: Command, n: int, ghost k: nat)
    requires tp.Valid() && k < |tp.nodes| && dp == tp.nodes[k] && c.Valid()
    modifies dp`count
    ensures tp.Valid() && tp.Blocks() == old(tp.Blocks()[k := Resized(c, tp.Blocks()[k], n)])
  {
    hide Distinct;
    ghost var bs := tp.Blocks();
    Others(tp.nodes, k);
    dp.count := dp.count[c.to := n];
    BlocksWith(tp, bs, k);
  }

  /** `mark_adjust`, which changes the list unless no lines were added or deleted. */
  method AdjustEntries(tp: TabPage, c: Command, bufs: Bufs, lnum: int, count: int, added: int, opt: DiffOpt,
                       text: Buffers, ghost j: nat)
    requires tp.Valid() && c.Valid() && Sensible(opt)
    modifies tp, tp.NodeSet()
    ensures tp.Valid() && fresh(tp.NodeSet() - old(tp.NodeSet()))
    ensures var ed := PartEdit(c, Part(0, 0, lnum, count), added);
            && tp.Blocks() == (if added == 0 then old(tp.Blocks())
                else Adjust(ed, bufs, true, old(tp.Blocks()), KeysOf(opt, text)))
            && (added == 0 ==> tp.nodes == old(tp.nodes))
            && (added != 0 && Steady(ed, bufs, old(tp.Blocks()), KeysOf(opt, text), j) ==>
                SameFirst(tp.nodes, old(tp.nodes), j))
  {
    hide Adjust, Steady, KeysOf, Distinct;
    if added != 0 {
      DiffMarkAdjustTp(tp, Edit(c.to, lnum, lnum + count - 1, MAXLNUM, added), bufs, true, opt, text, j);
    }
  }

  /** The list, before `mark_adjust`, of a turn that has set the number of lines of block b to n. */
  ghost function Entries(c: Command, bs: seq<Block>, k: nat, n: int, removed: bool): seq<Block>
    requires c.Valid() && k < |bs|
  {
    if removed then bs[..k] + bs[k + 1..] else bs[k := Resized(c, bs[k], n)]
  }

  /** Setting the number of lines again changes nothing. */
  lemma SameEntry(c: Command, bs: seq<Block>, k: nat, n: int)
    requires c.Valid() && k < |bs|
    ensures var list := Entries(c, bs, k, n, false); list[k := Resized(c, list[k], n)] == list
  {
    var x := Resized(c, bs[k], n);
    assert x.count[c.to := n] == x.count;
  }

  /** `mark_adjust` for the lines p of the target. */
  ghost function ListAfter(c: Command, bufs: Bufs, list: seq<Block>, lnum: int, count: int, added: int,
                           d: Texts): seq<Block>
    requires c.Valid()
  {
    if added == 0 then list else Adjust(PartEdit(c, Part(0, 0, lnum, count), added), bufs, true, list, d)
  }

  /** ... and that the first j entries stay. */
  ghost predicate Stay(c: Command, bufs: Bufs, list: seq<Block>, lnum: int, count: int, added: int, d: Texts, j: nat)
    requires c.Valid()
  {
    added == 0 || Steady(PartEdit(c, Part(0, 0, lnum, count), added), bufs, list, d, j)
  }

  /** Takes the node out of the list. */
  method UnlinkEntry(tp: TabPage, dprev: DiffNode?, dp: DiffNode, ghost k: nat, ghost bs: seq<Block>)
    returns (below: DiffNode?)
    requires At(tp, k, dprev, dp) && tp.Blocks() == bs
    modifies tp, tp.NodeSet()
    ensures tp.Valid() && tp.NodeSet() <= old(tp.NodeSet()) && tp.Blocks() == bs[..k] + bs[k + 1..]
    ensures k <= |tp.nodes| == |bs| - 1 && dprev == PrevNode(tp, k) && below == tp.NodeAt(k)
  {
    hide Distinct;
    below := dp.next;
    UnlinkBlocks(tp, dprev, below, k, k + 1, bs);
  }

  /** The node is taken out of the list, and marks are adjusted. */
  method DropEntry(tp: TabPage, dprev: DiffNode?, dp: DiffNode, c: Command, bufs: Bufs, lnum: int, count: int,
                   added: int, opt: DiffOpt, text: Buffers, ghost k: nat,
                   ghost bs: seq<Block>) returns (below: DiffNode?)
    requires At(tp, k, dprev, dp) && c.Valid() && Sensible(opt) && tp.Blocks() == bs
    requires var list := bs[..k] + bs[k + 1..];
             Stay(c, bufs, list, lnum, count, added, KeysOf(opt, text), Min(k + 1, |list|))
    modifies tp, tp.NodeSet()
    ensures At(tp, k, dprev, below) && fresh(tp.NodeSet() - old(tp.NodeSet()))
    ensures tp.Blocks() == ListAfter(c, bufs, bs[..k] + bs[k + 1..], lnum, count, added, KeysOf(opt, text))
  {
    hide Distinct, KeysOf, Adjust, Steady, TabPage.Valid;
    below := UnlinkEntry(tp, dprev, dp, k, bs);
    ghost var list, ns, j := tp.Blocks(), tp.nodes, Min(k + 1, |bs| - 1);
    AdjustEntries(tp, c, bufs, lnum, count, added, opt, text, j);
    AdjustSize(PartEdit(c, Part(0, 0, lnum, count), added), bufs, list, KeysOf(opt, text));
    AtDropped(tp, ns, k, dprev, below, j);
  }

  lemma AtDropped(tp: TabPage, ns: seq<DiffNode>, k: nat, dprev: DiffNode?, below: DiffNode?, j: nat)
    requires tp.Valid() && SameFirst(tp.nodes, ns, j) && |tp.nodes| <= |ns| && j == Min(k + 1, |ns|) && k <= |ns|
    requires dprev == (if k == 0 then null else ns[k - 1]) && below == (if k < |ns| then ns[k] else null)
    ensures At(tp, k, dprev, below)
  {
    hide Distinct;
    if k > 0 {
      assert tp.nodes[k - 1] == tp.nodes[..j][k - 1] == ns[k - 1];
    }
    if k < |ns| {
      assert tp.nodes[k] == tp.nodes[..j][k] == ns[k];
    }
  }

  /** The node stays, marks are adjusted, and its number of lines in the target is set again. */
  method KeepEntry(tp: TabPage, dprev: DiffNode?, dp: DiffNode, c: Command, bufs: Bufs, lnum: int, count: int,
                   added: int, newCount: int, opt: DiffOpt, text: Buffers, ghost k: nat, ghost bs: seq<Block>)
    requires At(tp, k, dprev, dp) && c.Valid() && Sensible(opt) && tp.Blocks() == bs && k < |bs|
    requires Stay(c, bufs, bs, lnum, count, added, KeysOf(opt, text), k + 1)
    modifies tp, tp.NodeSet()
    ensures At(tp, k + 1, dp, dp.next) && fresh(tp.NodeSet() - old(tp.NodeSet()))
    ensures var out := ListAfter(c, bufs, bs, lnum, count, added, KeysOf(opt, text));
            k < |out| && tp.Blocks() == out[k := Resized(c, out[k], newCount)]
  {
    hide Distinct, KeysOf, Adjust, Steady, Resized;
    ghost var ns := tp.nodes;
    AdjustEntries(tp, c, bufs, lnum, count, added, opt, text, k + 1);
    AtKept(tp, ns, k, dp);
    SetTargetCount(tp, dp, c, newCount, k);
  }

  lemma AtKept(tp: TabPage, ns: seq<DiffNode>, k: nat, dp: DiffNode)
    requires tp.Valid() && SameFirst(tp.nodes, ns, k + 1) && ns[k] == dp
    ensures k < |tp.nodes| && tp.nodes[k] == dp && At(tp, k + 1, dp, dp.next)
  {
    hide Distinct;
    assert tp.nodes[k] == tp.nodes[..k + 1][k] == ns[k];
  }

  /** The list part of a turn; `text` has the new text of the target. */
  method UpdateList(tp: TabPage, dprev: DiffNode?, dp: DiffNode, c: Command, bufs: Bufs, whole: bool, lnum: int,
                    count: int, added: int, opt: DiffOpt, text: Buffers, ghost k: nat, ghost bs: seq<Block>)
    returns (removed: bool, above: DiffNode?, below: DiffNode?)
    requires At(tp, k, dprev, dp) && c.Valid() && Sensible(opt) && tp.Blocks() == bs && k < |bs|
    requires var (n, d) := (bs[k].count[c.to] + added, KeysOf(opt, text));
             var list := Entries(c, bs, k, n, whole && EqualElsewhere(c, bufs, Resized(c, bs[k], n), d));
             Stay(c, bufs, list, lnum, count, added, d, Min(k + 1, |list|))
    modifies tp, tp.NodeSet()
    ensures fresh(tp.NodeSet() - old(tp.NodeSet()))
    ensures var (n, d) := (bs[k].count[c.to] + added, KeysOf(opt, text));
            && removed == (whole && EqualElsewhere(c, bufs, Resized(c, bs[k], n), d))
            && At(tp, if removed then k else k + 1, above, below)
            && var out := ListAfter(c, bufs, Entries(c, bs, k, n, removed), lnum, count, added, d);
               if removed then tp.Blocks() == out else k < |out| && tp.Blocks() == out[k := Resized(c, out[k], n)]
  {
    hide Distinct, EqualElsewhere, KeysOf, ListAfter, Stay, Resized, TabPage.Valid;
    var newCount := dp.count[c.to] + added;
    SetNewCount(tp, dprev, dp, c, newCount, k);
    ghost var cs := tp.Blocks();
    assert cs[..k] == bs[..k] && cs[k + 1..] == bs[k + 1..];
    removed := false;
    if whole {
      removed := EqualsElsewhere(dp, c, bufs, opt, text);
    }
    if removed {
      above := dprev;
      below := DropEntry(tp, dprev, dp, c, bufs, lnum, count, added, opt, text, k, cs);
    } else {
      KeepEntry(tp, dprev, dp, c, bufs, lnum, count, added, newCount, opt, text, k, cs);
      above, below := dp, dp.next;
    }
  }

  method SetNewCount(tp: TabPage, dprev: DiffNode?, dp: DiffNode, c: Command, n: int, ghost k: nat)
    requires At(tp, k, dprev, dp) && c.Valid()
    modifies dp`count
    ensures At(tp, k, dprev, dp) && k < |tp.Blocks()| && dp.Value() == tp.Blocks()[k]
    ensures tp.Blocks() == old(tp.Blocks()[k := Resized(c, tp.Blocks()[k], n)])
  {
    hide Distinct;
    SetTargetCount(tp, dp, c, n, k);
  }

  lemma AdjustSize(ed: Edit, bufs: Bufs, bs: seq<Block>, d: Texts)
    requires 0 <= ed.idx < DB_COUNT
    ensures |Adjust(ed, bufs, true, bs, d)| <= |bs|
  {
    hide Walk, DropEmpty;
    WalkSize(ed, bufs, None, bs, ed.Deleted(), ed.line1, d);
    DropSize(bufs, Walk(ed, bufs, true, None, bs, ed.Deleted(), ed.line1, d));
  }

  // ----- the loop -----

  /** The list of a turn, in terms of its parts. */
  lemma TurnEntries(c: Command, bufs: Bufs, opt: DiffOpt, bs: seq<Block>, k: nat, off: int, text: Buffers)
    requires c.Valid() && k < |bs|
    ensures var (p, t) := (PartOf(c, bs[k], off), Turn(c, bufs, opt, bs, k, off, text));
            var (n, d) := (bs[k].count[c.to] + t.added, KeysOf(opt, text[c.to := t.lines]));
            var list := Entries(c, bs, k, n, t.removed);
            var out := ListAfter(c, bufs, list, p.lnum, p.count, t.added, d);
            && (t.removed <==> p.top == 0 && p.bottom == 0 && EqualElsewhere(c, bufs, Resized(c, bs[k], n), d))
            && (t.steady ==>
                  && Stay(c, bufs, list, p.lnum, p.count, t.added, d, Min(k + 1, |list|))
                  && (t.removed ==> t.blocks == out)
                  && (!t.removed && k < |out| ==> t.blocks == out[k := Resized(c, out[k], n)]))
  {
    hide Turn, PartOf, KeysOf, EqualElsewhere, Resized, Adjust, Steady;
    TurnUnfold(c, bufs, opt, bs, k, off, text);
    SameEntry(c, bs, k, bs[k].count[c.to] + Turn(c, bufs, opt, bs, k, off, text).added);
  }

  /** The turn that takes lines of the block at hand. */
  method TakeTurn(tp: TabPage, dprev: DiffNode?, dp: DiffNode, c: Command, bufs: Bufs, opt: DiffOpt, off: int,
                  from: Buffer, to: Buffer, text: Buffers, ghost k: nat, ghost bs: seq<Block>)
    returns (above: DiffNode?, below: DiffNode?, added: int, removed: bool)
    requires At(tp, k, dprev, dp) && c.Valid() && Sensible(opt) && from != to && tp.Blocks() == bs && k < |bs|
             && bs[k].lnum[c.from] >= 1
    requires Turn(c, bufs, opt, bs, k, off, BuffersWith(c, text, from.lines, to.lines)).steady
    modifies tp, tp.NodeSet(), to
    ensures fresh(tp.NodeSet() - old(tp.NodeSet()))
    ensures var t := Turn(c, bufs, opt, bs, k, off, BuffersWith(c, text, from.lines, old(to.lines)));
            && tp.Blocks() == t.blocks && to.lines == t.lines && added == t.added && removed == t.removed
            && At(tp, NextAt(k, t), above, below)
  {
    hide Distinct, KeysOf, Turn, PartOf, ReplaceLines, BuffersWith, EqualElsewhere, Resized, Adjust, Steady,
        TabPage.Valid, TabPage.Blocks, ListAfter, Stay, Entries;
    ghost var old_ := BuffersWith(c, text, from.lines, to.lines);
    TurnEntries(c, bufs, opt, bs, k, off, old_);
    TurnReplaces(c, bufs, opt, bs, k, off, old_);
    assert dp.Value() == bs[k];
    var startSkip, endSkip, lnum, count := Skips(dp, c, off);
    added := ReplaceLinesOf(dp, c, from, to, startSkip, endSkip, lnum, count);
    BuffersAfter(c, text, from.lines, old(to.lines), to.lines);
    removed, above, below :=
      UpdateList(tp, dprev, dp, c, bufs, startSkip == 0
          && endSkip == 0, lnum, count, added, opt, BuffersWith(c, text, from.lines, to.lines), k, bs);
  }

  /** One turn of the loop; `past` if the block at hand is past the range. */
  method GetTurn(tp: TabPage, dprev: DiffNode?, dp: DiffNode, c: Command, bufs: Bufs, opt: DiffOpt, off0: int,
                 from: Buffer, to: Buffer, text: Buffers, ghost k0: nat)
    returns (past: bool, above: DiffNode?, below: DiffNode?, off: int, ghost k: nat)
    requires At(tp, k0, dprev, dp) && c.Valid() && Sensible(opt) && from != to
    requires Lasts(c, bufs, opt, tp.Blocks(), k0, off0, BuffersWith(c, text, from.lines, to.lines))
    modifies tp, tp.NodeSet(), to
    ensures tp.Valid() && fresh(tp.NodeSet() - old(tp.NodeSet()))
    ensures var target :=
            GetPut(c, bufs, opt, old(tp.Blocks()), k0, off0, BuffersWith(c, text, from.lines, old(to.lines)));
            if past then tp.Blocks() == target.0 && to.lines == target.1
            else && At(tp, k, above, below) && |tp.Blocks()| - k < |old(tp.Blocks())| - k0
                 && GetPut(c, bufs, opt, tp.Blocks(), k, off, BuffersWith(c, text, from.lines, to.lines)) == target
                 && Lasts(c, bufs, opt, tp.Blocks(), k, off, BuffersWith(c, text, from.lines, to.lines))
  {
    hide Distinct, KeysOf, Turn, BuffersWith, TabPage.Valid, Lasts, GetPut;
    ghost var bs, old_ := tp.Blocks(), BuffersWith(c, text, from.lines, to.lines);
    GetPutUnfold(c, bufs, opt, bs, k0, off0, old_);
    past, above, below, off, k := dp.lnum[c.cur] > c.line2 + off0, dprev, dp, off0, k0;
    if !past {
      if dp.lnum[c.cur] + dp.count[c.cur] > c.line1 + off {
        TurnSize(c, bufs, opt, bs, k0, off0, old_);
        var added, removed;
        above, below, added, removed := TakeTurn(tp, dprev, dp, c, bufs, opt, off, from, to, text, k0, bs);
        BuffersAfter(c, text, from.lines, old(to.lines), to.lines);
        if c.cur == c.to {
          off := off + added;
        }
        k := if removed then k0 else k0 + 1;
      } else {
        PassEntry(tp, dprev, dp, k0);
        above, below, k := dp, dp.next, k0 + 1;
      }
    }
  }

  lemma PassEntry(tp: TabPage, dprev: DiffNode?, dp: DiffNode, k: nat)
    requires At(tp, k, dprev, dp)
    ensures At(tp, k + 1, dp, dp.next)
  {
  }

  /** `ex_diffgetput`: for any range and any buffers, the list and the text of the target become what `GetPut` says. */
  method ExDiffGetPut(tp: TabPage, c: Command, bufs: Bufs, opt: DiffOpt, from: Buffer, to: Buffer, text: Buffers)
    requires tp.Valid() && c.Valid() && Sensible(opt) && from != to
    requires Lasts(c, bufs, opt, tp.Blocks(), 0, 0, BuffersWith(c, text, from.lines, to.lines))
    modifies tp, tp.NodeSet(), to
    ensures tp.Valid() && fresh(tp.NodeSet() - old(tp.NodeSet()))
    ensures var target := GetPut(c, bufs, opt, old(tp.Blocks()), 0, 0, BuffersWith(c, text, from.lines, old(to.lines)));
            tp.Blocks() == target.0 && to.lines == target.1
  {
    hide Distinct, KeysOf, BuffersWith, TabPage.Valid, TabPage.Blocks, Lasts, GetPut;
    ghost var target := GetPut(c, bufs, opt, tp.Blocks(), 0, 0, BuffersWith(c, text, from.lines, to.lines));
    var off := 0;
    var dprev: DiffNode?, dp := null, tp.first;
    AtFirst(tp);
    ghost var k: nat := 0;
    var past := false;
    while dp != null && !past
      invariant tp.Valid() && from.lines == old(from.lines) && fresh(tp.NodeSet() - old(tp.NodeSet()))
      invariant past ==> tp.Blocks() == target.0 && to.lines == target.1
      invariant !past ==>
                  && At(tp, k, dprev, dp)
                      && Lasts(c, bufs, opt, tp.Blocks(), k, off, BuffersWith(c, text, from.lines, to.lines))
                  && GetPut(c, bufs, opt, tp.Blocks(), k, off, BuffersWith(c, text, from.lines, to.lines)) == target
      decreases !past, |tp.Blocks()| - k
    {
      past, dprev, dp, off, k := GetTurn(tp, dprev, dp, c, bufs, opt, off, from, to, text, k);
    }
    if !past {
      GetPutEnds(tp, c, bufs, opt, k, dprev, off, BuffersWith(c, text, from.lines, to.lines));
    }
  }

  lemma GetPutEnds(tp: TabPage, c: Command, bufs: Bufs, opt: DiffOpt, k: nat, dprev: DiffNode?, off: int, text: Buffers)
    requires At(tp, k, dprev, null) && c.Valid()
    ensures var r := GetPut(c, bufs, opt, tp.Blocks(), k, off, text); r.0 == tp.Blocks() && r.1 == text[c.to]
  {
  }

  lemma GetPutUnfold(c: Command, bufs: Bufs, opt: DiffOpt, bs: seq<Block>, k: nat, off: int, text: Buffers)
    requires c.Valid() && k < |bs|
    ensures bs[k].lnum[c.cur] > c.line2 + off ==> GetPut(c, bufs, opt, bs, k, off, text) == (bs, text[c.to])
    ensures bs[k].lnum[c.cur] <= c.line2 + off && !InRange(c, bs[k], off) ==>
              && GetPut(c, bufs, opt, bs, k, off, text) == GetPut(c, bufs, opt, bs, k + 1, off, text)
              && (Lasts(c, bufs, opt, bs, k, off, text) ==> Lasts(c, bufs, opt, bs, k + 1, off, text))
    ensures InRange(c, bs[k], off) ==>
              var t := Turn(c, bufs, opt, bs, k, off, text);
              && GetPut(c, bufs, opt, bs, k, off, text)
                  == GetPut(c, bufs, opt, t.blocks, NextAt(k, t), NextOff(c, off, t), text[c.to := t.lines])
              && (Lasts(c, bufs, opt, bs, k, off, text) ==>
                    t.steady && bs[k].lnum[c.from] >= 1
                        && Lasts(c, bufs, opt, t.blocks, NextAt(k, t), NextOff(c, off, t), text[c.to := t.lines]))
  {
    hide Turn;
  }
}

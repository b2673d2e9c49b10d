/** `diff_read` and `diff_copy_entry` of src/nvim/diff.c on the linked list of blocks. */
module DiffReadList {
  import opened DiffBlocks
  import opened DiffRead
  import opened DiffList
  import opened Sequences

  ghost function ValueOf(n: DiffNode?): Option<Block>
    reads n
  {
    if n == null then None else Some(n.Value())
  }

  /** `diff_copy_entry` */
  method DiffCopyEntry(dprev: DiffNode?, dp: DiffNode, orig: int, i: int)
    requires 0 <= orig < DB_COUNT && 0 <= i < DB_COUNT && dprev != dp
    modifies dp`lnum, dp`count
    ensures dp.Value() == CopyEntry(ValueOf(dprev), old(dp.Value()), orig, i)
  {
    var off := 0;
    if dprev != null {
      off := (dprev.lnum[orig] + dprev.count[orig]) - (dprev.lnum[i] + dprev.count[i]);
    }
    var lnum, count := dp.lnum[orig] - off, dp.count[orig];
    dp.lnum := dp.lnum[i := lnum];
    dp.count := dp.count[i := count];
  }

  /** The last node that the hunk reaches. */
  method FindLastMet(tp: TabPage, t: Task, dp: DiffNode, h: Hunk, ghost k: nat) returns (dpl: DiffNode)
    requires tp.Valid() && k < |tp.nodes| && dp == tp.nodes[k] && 0 <= t.orig < DB_COUNT
    ensures dpl == tp.nodes[k + LastMet(t, tp.Blocks()[k..], h)]
  {
    hide Distinct, LastMet;
    dpl := dp;
    ghost var j := 0;
    ghost var bs := tp.Blocks();
    while dpl.next != null && h.EndOrig() >= dpl.next.lnum[t.orig]
      invariant k + j < |tp.nodes| && dpl == tp.nodes[k + j]
      invariant j + LastMet(t, bs[k + j..], h) == LastMet(t, bs[k..], h)
      decreases |tp.nodes| - j
    {
      LastMetNext(t, bs, k + j, h);
      dpl := dpl.next;
      j := j + 1;
    }
    LastMetNext(t, bs, k + j, h);
  }

  lemma LastMetNext(t: Task, bs: seq<Block>, k: nat, h: Hunk)
    requires 0 <= t.orig < DB_COUNT && k < |bs|
    ensures LastMet(t, bs[k..], h)
         == if k + 1 < |bs| && h.EndOrig() >= bs[k + 1].lnum[t.orig] then 1 + LastMet(t, bs[k + 1..], h) else 0
  {
    assert bs[k..][1..] == bs[k + 1..];
  }

  /** Moves the start of the block up to the start of the hunk, and sets or adjusts its entry for the new buffer. */
  method OpenNode(t: Task, dp: DiffNode, dpl: DiffNode, notset: bool, h: Hunk)
    requires t.Valid() && forall i {:trigger i in t.bufs} | i in t.bufs :: t.orig <= i < t.new_
    modifies dp`lnum, dp`count
    ensures dp.Value() == Opened(t, old(dp.Value()), old(dpl.Value()), notset, h)
  {
    ghost var b := Opened(t, dp.Value(), dpl.Value(), notset, h);
    ghost var lnum := dp.lnum;
    var off := dp.lnum[t.orig] - h.lnumOrig;
    if off > 0 {
      for i := t.orig to t.new_
        invariant dp.count == old(dp.count)
        invariant forall j {:trigger dp.lnum[j]} | 0 <= j < DB_COUNT ::
                  dp.lnum[j] == lnum[j] - (if j in t.bufs && j < i then off else 0)
      {
        if i in t.bufs {
          dp.lnum := dp.lnum[i := dp.lnum[i] - off];
        }
      }
      dp.lnum := dp.lnum[t.new_ := h.lnumNew];
      dp.count := dp.count[t.new_ := h.countNew];
      assert dp.lnum == b.lnum;
    } else if notset {
      dp.lnum := dp.lnum[t.new_ := h.lnumNew + off];
      dp.count := dp.count[t.new_ := h.countNew - off];
    } else {
      dp.count := dp.count[t.new_ := dp.count[t.new_] + h.countNew - h.countOrig + dpl.lnum[t.orig] + dpl.count[t.orig]
                                     - (dp.lnum[t.orig] + dp.count[t.orig])];
      assert dp.lnum == lnum[t.new_ := lnum[t.new_]];
    }
  }

  /** Extends the block to the end of the last block met, or of the hunk. */
  method CloseNode(t: Task, dp: DiffNode, dpl: DiffNode, notset: bool, h: Hunk)
    requires t.Valid() && forall i {:trigger i in t.bufs} | i in t.bufs :: t.orig <= i < t.new_
    modifies dp`count
    ensures dp.Value() == Closed(t, old(dp.Value()), old(dpl.Value()), notset,
            h.EndOrig() - old(dpl.Value()).End(t.orig))
  {
    ghost var was, last := dp.Value(), dpl.Value();
    var off := h.EndOrig() - (dpl.lnum[t.orig] + dpl.count[t.orig]);
    ghost var b := Closed(t, was, last, notset, off);
    if off < 0 {
      if notset {
        dp.count := dp.count[t.new_ := dp.count[t.new_] + -off];
      }
      off := 0;
    }
    for i := t.orig to t.new_
      invariant dpl != dp ==> dpl.count == last.count
      invariant forall j {:trigger dp.count[j]} | 0 <= j < DB_COUNT ::
        dp.count[j] == (if j == t.new_ || (j in t.bufs && j < i) then b.count[j] else was.count[j])
    {
      if i in t.bufs {
        dp.count := dp.count[i := dpl.lnum[i] + dpl.count[i] - dp.lnum[i] + off];
      }
    }
    assert dp.count == b.count;
  }

  /** The entries of a new node for a hunk that touches no block. */
  method FillHunkNode(t: Task, dprev: DiffNode?, dp: DiffNode, h: Hunk)
    requires t.Valid() && (forall i {:trigger i in t.bufs} | i in t.bufs :: t.orig <= i < t.new_) && dprev != dp
    requires dp.lnum == [0, 0, 0, 0] && dp.count == [0, 0, 0, 0]
    modifies dp`lnum, dp`count
    ensures dp.Value() == HunkBlock(t, ValueOf(dprev), h)
  {
    ghost var b := HunkBlock(t, ValueOf(dprev), h);
    dp.lnum := dp.lnum[t.orig := h.lnumOrig];
    dp.count := dp.count[t.orig := h.countOrig];
    dp.lnum := dp.lnum[t.new_ := h.lnumNew];
    dp.count := dp.count[t.new_ := h.countNew];
    for i := t.orig + 1 to t.new_
      invariant forall j {:trigger dp.lnum[j]} | 0 <= j < DB_COUNT ::
        dp.lnum[j] == (if j == t.orig || j == t.new_ || (j in t.bufs && j < i) then b.lnum[j] else 0)
      invariant forall j {:trigger dp.count[j]} | 0 <= j < DB_COUNT ::
        dp.count[j] == (if j == t.orig || j == t.new_ || (j in t.bufs && j < i) then b.count[j] else 0)
    {
      if i in t.bufs {
        DiffCopyEntry(dprev, dp, t.orig, i);
      }
    }
    assert dp.lnum == b.lnum && dp.count == b.count;
  }

  /** What the whole list becomes when the loop stands at position k. */
  ghost function Outcome(t: Task, bs: seq<Block>, k: nat, notset: bool, hunks: seq<Hunk>): seq<Block>
    requires k <= |bs| && 0 <= t.orig < DB_COUNT && 0 <= t.new_ < DB_COUNT
  {
    bs[..k] + Read(t, PrevBlock(bs, k), bs[k..], notset, hunks)
  }

  /** The block at position k is passed, its entry copied if need be. */
  lemma OutcomePass(t: Task, bs: seq<Block>, k: nat, notset: bool, hunks: seq<Hunk>, b: Block)
    requires k < |bs| && 0 <= t.orig < DB_COUNT && 0 <= t.new_ < DB_COUNT
    requires hunks == [] || hunks[0].lnumOrig > bs[k].End(t.orig)
    requires b == if notset then CopyEntry(PrevBlock(bs, k), bs[k], t.orig, t.new_) else bs[k]
    ensures Outcome(t, bs, k, notset, hunks) == Outcome(t, bs[k := b], k + 1, true, hunks)
  {
    hide CopyEntry;
    assert bs[k..][1..] == bs[k + 1..] == bs[k := b][k + 1..];
    assert bs[k := b][..k + 1] == bs[..k] + [b];
  }

  lemma OutcomeMeet(t: Task, bs: seq<Block>, k: nat, notset: bool, hunks: seq<Hunk>, out: seq<Block>)
    requires k < |bs| && 0 <= t.orig < DB_COUNT && 0 <= t.new_ < DB_COUNT
    requires hunks != [] && Meets(t, bs[k], hunks[0])
    requires var j := LastMet(t, bs[k..], hunks[0]);
             out == bs[..k] + [Merged(t, bs[k..], j, notset, hunks[0])]
             + bs[k + j + 1..]
    ensures Outcome(t, bs, k, notset, hunks) == Outcome(t, out, k, false, hunks[1..])
  {
    hide Merged;
    var j := LastMet(t, bs[k..], hunks[0]);
    var r := Merged(t, bs[k..], j, notset, hunks[0]);
    assert bs[k..][j + 1..] == bs[k + j + 1..];
    assert out[k..] == [r] + bs[k + j + 1..] && out[..k] == bs[..k];
    hide LastMet;
  }

  lemma OutcomeNew(t: Task, bs: seq<Block>, k: nat, notset: bool, hunks: seq<Hunk>, out: seq<Block>)
    requires k <= |bs| && 0 <= t.orig < DB_COUNT && 0 <= t.new_ < DB_COUNT
    requires hunks != [] && (k < |bs| ==> hunks[0].lnumOrig <= bs[k].End(t.orig) && !Meets(t, bs[k], hunks[0]))
    requires out == bs[..k] + [HunkBlock(t, PrevBlock(bs, k), hunks[0])] + bs[k..]
    ensures Outcome(t, bs, k, notset, hunks) == Outcome(t, out, k, false, hunks[1..])
  {
    hide HunkBlock;
    var r := HunkBlock(t, PrevBlock(bs, k), hunks[0]);
    assert out[k..] == [r] + bs[k..] && out[..k] == bs[..k];
  }

  /** Only the buffers between the original and the new one have been read. */
  ghost predicate InOrder(t: Task) {
    t.Valid() && forall i {:trigger i in t.bufs} | i in t.bufs :: t.orig <= i < t.new_
  }

  /** Where the loop stands: the list so far, and the blocks around the current position. */
  ghost predicate Standing(tp: TabPage, t: Task, k: nat, dprev: DiffNode?, dp: DiffNode?, notset: bool,
                           hunks: seq<Hunk>, target: seq<Block>)
    reads tp, tp.nodes
  {
    At(tp, k, dprev, dp) && InOrder(t) && Outcome(t, tp.Blocks(), k, notset, hunks) == target
  }

  /** Goes past the block at position k. */
  method PassNode(tp: TabPage, t: Task, dprev: DiffNode?, dp: DiffNode, notset: bool, ghost hunks: seq<Hunk>,
                  ghost k: nat, ghost target: seq<Block>)
    requires Standing(tp, t, k, dprev, dp, notset, hunks, target)
    requires hunks == [] || hunks[0].lnumOrig > dp.lnum[t.orig] + dp.count[t.orig]
    modifies dp`lnum, dp`count
    ensures Standing(tp, t, k + 1, dp, dp.next, true, hunks, target) && k < |tp.nodes| && dp in tp.NodeSet()
  {
    hide Distinct, CopyEntry, Outcome;
    ghost var bs := tp.Blocks();
    Others(tp.nodes, k);
    if notset {
      DiffCopyEntry(dprev, dp, t.orig, t.new_);
    }
    BlocksWith(tp, bs, k);
    OutcomePass(t, bs, k, notset, hunks, dp.Value());
  }

  /** Replaces the block's entries by those of the merged block. */
  method MergeEntries(tp: TabPage, t: Task, dp: DiffNode, dpl: DiffNode, notset: bool, h: Hunk, ghost k: nat,
                      ghost j: nat, ghost bs: seq<Block>)
    requires tp.Valid() && tp.Blocks() == bs && k + j < |tp.nodes| && dp == tp.nodes[k] && dpl == tp.nodes[k + j]
             && InOrder(t)
    modifies dp`lnum, dp`count
    ensures tp.Valid() && tp.Blocks() == bs[k := Merged(t, bs[k..], j, notset, h)]
  {
    hide Distinct, Opened, Closed;
    Others(tp.nodes, k);
    OpenNode(t, dp, dpl, notset, h);
    CloseNode(t, dp, dpl, notset, h);
    assert dp.Value() == Merged(t, bs[k..], j, notset, h);
    BlocksWith(tp, bs, k);
  }

  lemma MergedList(bs: seq<Block>, k: nat, j: nat, b: Block)
    requires k + j < |bs|
    ensures bs[k := b][..k + 1] + bs[k := b][k + j + 1..] == bs[..k] + [b] + bs[k + j + 1..]
  {
  }

  /** The hunk meets the block at position k. */
  method MeetNode(tp: TabPage, t: Task, dprev: DiffNode?, dp: DiffNode, notset: bool, h: Hunk, ghost hunks: seq<Hunk>,
                  ghost k: nat)
    requires At(tp, k, dprev, dp) && InOrder(t)
    requires hunks != [] && h == hunks[0] && Meets(t, dp.Value(), h)
    modifies tp, tp.NodeSet()
    ensures At(tp, k, dprev, dp) && tp.NodeSet() <= old(tp.NodeSet())
    ensures Outcome(t, tp.Blocks(), k, false, hunks[1..]) == Outcome(t, old(tp.Blocks()), k, notset, hunks)
  {
    hide Distinct, Merged, Outcome, LastMet;
    ghost var bs := tp.Blocks();
    var dpl := FindLastMet(tp, t, dp, h, k);
    ghost var j := LastMet(t, bs[k..], h);
    ghost var b := Merged(t, bs[k..], j, notset, h);
    MergeEntries(tp, t, dp, dpl, notset, h, k, j, bs);
    MergedList(bs, k, j, b);
    CutOut(tp, dprev, dp, dpl, k, j, bs[k := b]);
    OutcomeMeet(t, bs, k, notset, hunks, tp.Blocks());
  }

  /** Takes the nodes after `dp` up to `dpl` out of the list. */
  method CutOut(tp: TabPage, ghost dprev: DiffNode?, dp: DiffNode, dpl: DiffNode, ghost k: nat, ghost j: nat,
                ghost cs: seq<Block>)
    requires At(tp, k, dprev, dp) && tp.Blocks() == cs && k + j < |tp.nodes| && dpl == tp.nodes[k + j]
    modifies tp, dp`next
    ensures At(tp, k, dprev, dp) && tp.NodeSet() <= old(tp.NodeSet())
    ensures tp.Blocks() == cs[..k + 1] + cs[k + j + 1..]
  {
    hide Distinct;
    var below := dpl.next;
    UnlinkBlocks(tp, dp, below, k + 1, k + j + 1, cs);
  }

  /** The hunk meets no block: a new one is made at position k. */
  method NewNode(tp: TabPage, t: Task, dprev: DiffNode?, dp: DiffNode?, notset: bool, h: Hunk, ghost hunks: seq<Hunk>,
                 ghost k: nat)
    returns (dnew: DiffNode)
    requires At(tp, k, dprev, dp) && InOrder(t)
    requires hunks != [] && h == hunks[0]
    requires dp != null ==> h.lnumOrig <= dp.lnum[t.orig] + dp.count[t.orig] && !Meets(t, dp.Value(), h)
    modifies tp, (if dprev == null then {} else {dprev})`next
    ensures At(tp, k, dprev, dnew) && fresh(tp.NodeSet() - old(tp.NodeSet()))
    ensures Outcome(t, tp.Blocks(), k, false, hunks[1..]) == Outcome(t, old(tp.Blocks()), k, notset, hunks)
  {
    hide Distinct, HunkBlock, Outcome;
    ghost var bs, ns := tp.Blocks(), tp.nodes;
    dnew := tp.DiffAllocNew(dprev, dp, k);
    FillHunkNode(t, dprev, dnew, h);
    BlocksInserted(tp, ns, bs, k);
    OutcomeNew(t, bs, k, notset, hunks, tp.Blocks());
  }

  /** The inner loop: goes past the blocks above the hunk. */
  method PassBlocks(tp: TabPage, t: Task, dprev0: DiffNode?, dp0: DiffNode?, notset0: bool, h: Hunk,
                    ghost hunks: seq<Hunk>, ghost k0: nat, ghost target: seq<Block>)
    returns (dprev: DiffNode?, dp: DiffNode?, notset: bool, ghost k: nat)
    requires hunks != [] && hunks[0] == h && Standing(tp, t, k0, dprev0, dp0, notset0, hunks, target)
    modifies tp.NodeSet()
    ensures Standing(tp, t, k, dprev, dp, notset, hunks, target)
    ensures dp != null ==> h.lnumOrig <= dp.lnum[t.orig] + dp.count[t.orig]
  {
    dprev, dp, notset, k := dprev0, dp0, notset0, k0;
    StandingIs(tp, t, k, dprev, dp, notset, hunks, target);
    hide Standing;
    while dp != null && h.lnumOrig > dp.lnum[t.orig] + dp.count[t.orig]
      invariant Standing(tp, t, k, dprev, dp, notset, hunks, target) && (dp != null ==> dp in tp.NodeSet())
      decreases |tp.nodes| - k
    {
      PassNode(tp, t, dprev, dp, notset, hunks, k, target);
      dprev, dp, notset := dp, dp.next, true;
      k := k + 1;
      StandingIs(tp, t, k, dprev, dp, notset, hunks, target);
    }
  }

  lemma StandingIs(tp: TabPage, t: Task, k: nat, dprev: DiffNode?, dp: DiffNode?, notset: bool, hunks: seq<Hunk>,
                   target: seq<Block>)
    requires Standing(tp, t, k, dprev, dp, notset, hunks, target)
    ensures dp != null ==> dp in tp.NodeSet()
    ensures 0 <= t.orig < DB_COUNT && 0 <= t.new_ < DB_COUNT
  {
  }

  /** The last loop: no hunks are left. */
  method PassRest(tp: TabPage, t: Task, dprev0: DiffNode?, dp0: DiffNode?, notset0: bool, ghost k0: nat,
                  ghost target: seq<Block>)
    requires Standing(tp, t, k0, dprev0, dp0, notset0, [], target)
    modifies tp.NodeSet()
    ensures tp.Valid() && tp.Blocks() == target
  {
    hide Standing, Outcome, TabPage.Valid, TabPage.Blocks;
    var dprev, dp, notset := dprev0, dp0, notset0;
    ghost var k := k0;
    StandingIs(tp, t, k, dprev, dp, notset, [], target);
    while dp != null
      invariant Standing(tp, t, k, dprev, dp, notset, [], target) && (dp != null ==> dp in tp.NodeSet())
      decreases |tp.nodes| - k
    {
      PassNode(tp, t, dprev, dp, notset, [], k, target);
      dprev, dp, notset := dp, dp.next, true;
      k := k + 1;
      StandingIs(tp, t, k, dprev, dp, notset, [], target);
    }
    StandingEnd(tp, t, k, dprev, notset, target);
  }

  lemma StandingEnd(tp: TabPage, t: Task, k: nat, dprev: DiffNode?, notset: bool, target: seq<Block>)
    requires Standing(tp, t, k, dprev, null, notset, [], target)
    ensures tp.Valid() && tp.Blocks() == target
  {
    hide Outcome;
    OutcomeEnd(t, tp.Blocks(), k, notset);
  }

  /** `diff_read`, its input given as hunks. */
  method ReadDiff(tp: TabPage, t: Task, hunks: seq<Hunk>)
    requires tp.Valid() && InOrder(t)
    modifies tp, tp.NodeSet()
    ensures tp.Valid() && fresh(tp.NodeSet() - old(tp.NodeSet()))
    ensures tp.Blocks() == Read(t, None, old(tp.Blocks()), true, hunks)
  {
    hide Distinct, Outcome, Read;
    var dprev: DiffNode?, dp := null, tp.first;
    ghost var k: nat := 0;
    var notset := true;
    ghost var target := Read(t, None, tp.Blocks(), true, hunks);
    OutcomeStart(t, tp.Blocks(), hunks);
    for n := 0 to |hunks|
      invariant Standing(tp, t, k, dprev, dp, notset, hunks[n..], target) && fresh(tp.NodeSet() - old(tp.NodeSet()))
    {
      var h := hunks[n];
      dprev, dp, notset, k := PassBlocks(tp, t, dprev, dp, notset, h, hunks[n..], k, target);
      assert hunks[n..][1..] == hunks[n + 1..];
      if dp != null && h.EndOrig() >= dp.lnum[t.orig] {
        MeetNode(tp, t, dprev, dp, notset, h, hunks[n..], k);
      } else {
        dp := NewNode(tp, t, dprev, dp, notset, h, hunks[n..], k);
      }
      notset := false;
    }
    assert hunks[|hunks|..] == [];
    PassRest(tp, t, dprev, dp, notset, k, target);
  }

  lemma OutcomeStart(t: Task, bs: seq<Block>, hunks: seq<Hunk>)
    requires 0 <= t.orig < DB_COUNT && 0 <= t.new_ < DB_COUNT
    ensures Outcome(t, bs, 0, true, hunks[0..]) == Read(t, None, bs, true, hunks)
  {
    assert bs[0..] == bs && hunks[0..] == hunks;
  }

  lemma OutcomeEnd(t: Task, bs: seq<Block>, k: nat, notset: bool)
    requires k == |bs| && 0 <= t.orig < DB_COUNT && 0 <= t.new_ < DB_COUNT
    ensures Outcome(t, bs, k, notset, []) == bs
  {
  }
}

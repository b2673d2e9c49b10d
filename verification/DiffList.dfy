/** The linked list of diff blocks of a tab page, and the operations that change it in place; src/nvim/diff.c. */
module DiffList {
  import opened LineCompare
  import opened DiffBlocks
  import opened DiffTrim
  import opened MarkAdjust
  import opened Sequences

  /** The text of the buffers, line by line. */
  type Buffers = t: seq<seq<Line>> | |t| == DB_COUNT witness [[], [], [], []]

  /** `ml_get_buf`: a line number out of range gives the first line or a placeholder. */
  function MlGetBuf(text: Buffers, i: int, l: int): Line
    requires 0 <= i < DB_COUNT
  {
    if l > |text[i]| then "???"
    else if l <= 0 then (if |text[i]| > 0 then text[i][0] else "???")
    else text[i][l - 1]
  }

  function KeyLines(opt: DiffOpt, lines: seq<Line>): (r: seq<Key>)
    ensures |r| == |lines| && forall k | 0 <= k < |r| :: r[k] == Normal(opt, lines[k])
  {
    seq(|lines|, k requires 0 <= k < |lines| => Normal(opt, lines[k]))
  }

  /** The text as the comparison sees it. */
  function KeysOf(opt: DiffOpt, text: Buffers): (d: Texts)
    ensures forall i | 0 <= i < DB_COUNT :: d.lines[i] == KeyLines(opt, text[i])
  {
    Docs(seq(DB_COUNT, i requires 0 <= i < DB_COUNT => KeyLines(opt, text[i])), Normal(opt, "???"))
  }

  lemma KeyOfLine(opt: DiffOpt, text: Buffers, i: int, l: int)
    requires 0 <= i < DB_COUNT
    ensures LineKey(KeysOf(opt, text), i, l) == Normal(opt, MlGetBuf(text, i, l))
    ensures Size(KeysOf(opt, text), i) == |text[i]|
  {
    hide Normal;
  }

  /** diffblock_S */
  class DiffNode {
    var lnum: Vec
    var count: Vec
    var next: DiffNode?

    constructor (next: DiffNode?)
      ensures this.next == next && lnum == [0, 0, 0, 0] && count == [0, 0, 0, 0]
    {
      lnum, count := [0, 0, 0, 0], [0, 0, 0, 0];
      this.next := next;
    }

    function Value(): Block
      reads this
    {
      Block(lnum, count)
    }
  }

  class TabPage {
    var first: DiffNode?
    ghost var nodes: seq<DiffNode>

    constructor ()
      ensures Valid() && nodes == []
    {
      first, nodes := null, [];
    }

    /** The node at position k of the list, null past its end. */
    ghost function NodeAt(k: nat): DiffNode?
      reads this
    {
      if k < |nodes| then nodes[k] else null
    }

    ghost function NodeSet(): set<DiffNode>
      reads this
    {
      set n | n in nodes
    }

    /** The list starts at `first`, is linked by `next`, ends, and has no node twice. */
    ghost predicate Valid()
      reads this, nodes
    {
      && first == NodeAt(0)
      && (forall i {:trigger nodes[i].next} | 0 <= i < |nodes| :: nodes[i].next == NodeAt(i + 1))
      && Distinct(nodes)
    }

    /** The list as a sequence of blocks. */
    ghost function Blocks(): (bs: seq<Block>)
      reads this, nodes
      ensures |bs| == |nodes| && forall i | 0 <= i < |bs| :: bs[i] == nodes[i].Value()
    {
      seq(|nodes|, i requires 0 <= i < |nodes| reads this, nodes => nodes[i].Value())
    }

    /** Makes `dp` the node after `dprev`, or the first one. */
    method Link(dprev: DiffNode?, dp: DiffNode?)
      modifies this`first, (if dprev == null then {} else {dprev})`next
      ensures if dprev == null then first == dp else first == old(first) && dprev.next == dp
    {
      if dprev == null {
        first := dp;
      } else {
        dprev.next := dp;
      }
    }

    /** `diff_alloc_new`: a new node between `dprev` and `dp`, which is at position k. */
    method DiffAllocNew(dprev: DiffNode?, dp: DiffNode?, ghost k: nat) returns (dnew: DiffNode)
      requires Valid() && k <= |nodes| && dp == NodeAt(k) && dprev == (if k == 0 then null else NodeAt(k - 1))
      modifies this, (if dprev == null then {} else {dprev})`next
      ensures Valid() && fresh(dnew) && nodes == old(nodes[..k]) + [dnew] + old(nodes[k..])
      ensures dnew.lnum == [0, 0, 0, 0] && dnew.count == [0, 0, 0, 0]
    {
      hide Distinct;
      if k > 0 {
        Others(nodes, k - 1);
      }
      dnew := new DiffNode(dp);
      Link(dprev, dnew);
      ghost var was := nodes;
      nodes := was[..k] + [dnew] + was[k..];
      Inserted(was, k, dnew);
    }

    /** Takes the nodes from position k up to `to` out of the list. */
    method Unlink(dprev: DiffNode?, dp: DiffNode?, ghost k: nat, ghost to: nat)
      requires Valid() && k <= to <= |nodes| && dp == NodeAt(to) && dprev == (if k == 0 then null else NodeAt(k - 1))
      modifies this, (if dprev == null then {} else {dprev})`next
      ensures Valid() && nodes == old(nodes[..k]) + old(nodes[to..])
    {
      hide Distinct;
      if k > 0 {
        Others(nodes, k - 1);
      }
      Link(dprev, dp);
      ghost var was := nodes;
      nodes := was[..k] + was[to..];
      Spliced(was, k, to);
    }
  }

  /** Either nothing was taken out of the list, or it is shorter. */
  ghost predicate SameFirst<T>(now: seq<T>, was: seq<T>, j: nat) {
    j <= |now| && j <= |was| && now[..j] == was[..j]
  }

  lemma Others<T>(s: seq<T>, k: nat)
    requires Distinct(s) && k < |s|
    ensures forall i {:trigger s[i]} | 0 <= i < |s| && i != k :: s[i] != s[k]
  {
  }

  lemma Spliced<T>(s: seq<T>, k: nat, to: nat)
    requires k <= to <= |s| && Distinct(s)
    ensures var r := s[..k] + s[to..];
            && |r| == |s| - (to - k) && Distinct(r)
            && (forall i {:trigger r[i]} | 0 <= i < k :: r[i] == s[i])
            && (forall i {:trigger r[i]} | k <= i < |r| :: r[i] == s[i + (to - k)])
  {
  }

  lemma Inserted<T>(s: seq<T>, k: nat, x: T)
    requires k <= |s| && Distinct(s) && x !in s
    ensures var r := s[..k] + [x] + s[k..];
            && |r| == |s| + 1 && Distinct(r) && r[k] == x
            && (forall i {:trigger r[i]} | 0 <= i < k :: r[i] == s[i])
            && (forall i {:trigger r[i]} | k < i < |r| :: r[i] == s[i - 1])
  {
  }

  // ----- shrinking a block in place -----

  /** `diff_check_sanity` */
  method DiffCheckSanity(dp: DiffNode, bufs: Bufs, opt: DiffOpt, text: Buffers) returns (ok: bool)
    ensures ok <==> Sane(bufs, dp.Value(), KeysOf(opt, text))
  {
    hide Normal;
    for i := 0 to DB_COUNT
      invariant forall j {:trigger j in bufs} | j in bufs && j < i :: dp.lnum[j] + dp.count[j] - 1 <= |text[j]|
    {
      if i in bufs && dp.lnum[i] + dp.count[i] - 1 > |text[i]| {
        KeyOfLine(opt, text, i, 1);
        return false;
      }
    }
    forall j | j in bufs ensures Size(KeysOf(opt, text), j) == |text[j]| {
      KeyOfLine(opt, text, j, 1);
    }
    return true;
  }

  /** Whether the line at the top, or at the bottom, of the block is there and is the same in all buffers. */
  method SameEverywhere(dp: DiffNode, bufs: Bufs, iOrg: int, backward: bool, opt: DiffOpt, text: Buffers)
      returns (same: bool)
    requires iOrg in bufs && (forall i {:trigger i in bufs} | i in bufs :: iOrg <= i) && dp.count[iOrg] > 0
             && Sensible(opt)
    ensures same <==> if backward then BottomSame(bufs, iOrg, dp.Value(), KeysOf(opt, text))
                      else TopSame(bufs, iOrg, dp.Value(), KeysOf(opt, text))
  {
    hide Normal, LineKey, KeysOf;
    var offOrg := if backward then dp.count[iOrg] - 1 else 0;
    var lineOrg := MlGetBuf(text, iOrg, dp.lnum[iOrg] + offOrg);
    KeyOfLine(opt, text, iOrg, dp.lnum[iOrg] + offOrg);
    ghost var d := KeysOf(opt, text);
    for i := iOrg + 1 to DB_COUNT
      invariant forall j {:trigger j in bufs} | j in bufs && iOrg < j < i ::
        dp.count[j] > 0
        && LineKey(d, j, if backward then dp.lnum[j] + dp.count[j] - 1 else dp.lnum[j])
            == LineKey(d, iOrg, dp.lnum[iOrg] + offOrg)
    {
      if i in bufs {
        var offNew := if backward then dp.count[i] - 1 else 0;
        if offNew < 0 || offNew >= dp.count[i] {
          return false;
        }
        var differ := DiffCmp(opt, lineOrg, MlGetBuf(text, i, dp.lnum[i] + offNew));
        KeyOfLine(opt, text, i, dp.lnum[i] + offNew);
        if differ {
          return false;
        }
      }
    }
    return true;
  }

  /** Takes one line off the block in every buffer. */
  method RemoveLine(dp: DiffNode, bufs: Bufs, iOrg: int, backward: bool)
    requires iOrg in bufs && forall i {:trigger i in bufs} | i in bufs :: iOrg <= i
    modifies dp`lnum, dp`count
    ensures dp.Value() == if backward then Without(bufs, old(dp.Value()), 0, 1)
            else Without(bufs, old(dp.Value()), 1, 0)
  {
    ghost var lnum, count := dp.lnum, dp.count;
    ghost var top := if backward then 0 else 1;
    for i := iOrg to DB_COUNT
      invariant forall j {:trigger dp.lnum[j]} | 0 <= j < DB_COUNT ::
                dp.lnum[j] == lnum[j] + (if j in bufs && j < i then top else 0)
      invariant forall j {:trigger dp.count[j]} | 0 <= j < DB_COUNT ::
                dp.count[j] == count[j] - (if j in bufs && j < i then 1 else 0)
    {
      if i in bufs {
        if !backward {
          dp.lnum := dp.lnum[i := dp.lnum[i] + 1];
        }
        dp.count := dp.count[i := dp.count[i] - 1];
      }
    }
    WithoutIs(bufs, Block(lnum, count), top, 1 - top, dp.Value());
  }

  lemma WithoutIs(bufs: Bufs, b: Block, top: int, bottom: int, t: Block)
    requires forall j {:trigger t.lnum[j]} | 0 <= j < DB_COUNT ::
             t.lnum[j] == b.lnum[j] + (if j in bufs then top else 0)
    requires forall j {:trigger t.count[j]} | 0 <= j < DB_COUNT ::
             t.count[j] == b.count[j] - (if j in bufs then top + bottom else 0)
    ensures t == Without(bufs, b, top, bottom)
  {
    assert t.lnum == Without(bufs, b, top, bottom).lnum;
    assert t.count == Without(bufs, b, top, bottom).count;
  }

  /** `diff_check_unchanged` */
  method DiffCheckUnchanged(dp: DiffNode, bufs: Bufs, opt: DiffOpt, text: Buffers)
    requires Sensible(opt)
    modifies dp`lnum, dp`count
    ensures dp.Value() == Trim(bufs, old(dp.Value()), KeysOf(opt, text))
  {
    hide KeysOf, Normal, TopSame, BottomSame, Without, Sane;
    var iOrg := 0;
    while iOrg < DB_COUNT && iOrg !in bufs
      invariant 0 <= iOrg <= DB_COUNT
      invariant forall i {:trigger i in bufs} | i in bufs :: iOrg <= i
    {
      iOrg := iOrg + 1;
    }
    if iOrg == DB_COUNT {
      return;
    }
    assert iOrg == FirstBuf(bufs);
    var ok := DiffCheckSanity(dp, bufs, opt, text);
    if !ok {
      return;
    }
    ghost var d, was := KeysOf(opt, text), dp.Value();
    TrimDirection(dp, bufs, iOrg, false, opt, text);
    TrimDirection(dp, bufs, iOrg, true, opt, text);
  }

  /** The loop of `diff_check_unchanged` in one direction. */
  method TrimDirection(dp: DiffNode, bufs: Bufs, iOrg: int, backward: bool, opt: DiffOpt, text: Buffers)
    requires Sensible(opt) && iOrg in bufs && forall i {:trigger i in bufs} | i in bufs :: iOrg <= i
    modifies dp`lnum, dp`count
    ensures dp.Value() == if backward then TrimBottom(bufs, iOrg, old(dp.Value()), KeysOf(opt, text))
                          else TrimTop(bufs, iOrg, old(dp.Value()), KeysOf(opt, text))
  {
    hide KeysOf, Normal, TopSame, BottomSame, Without;
    ghost var d, was := KeysOf(opt, text), dp.Value();
    var more := true;
    while dp.count[iOrg] > 0 && more
      invariant !backward ==> TrimTop(bufs, iOrg, dp.Value(), d) == TrimTop(bufs, iOrg, was, d)
      invariant backward ==> TrimBottom(bufs, iOrg, dp.Value(), d) == TrimBottom(bufs, iOrg, was, d)
      invariant !more ==> if backward then !BottomSame(bufs, iOrg, dp.Value(), d)
                else !TopSame(bufs, iOrg, dp.Value(), d)
      decreases dp.count[iOrg], more
    {
      more := SameEverywhere(dp, bufs, iOrg, backward, opt, text);
      if more {
        RemoveLine(dp, bufs, iOrg, backward);
      }
    }
  }

  // ----- the list after an edit -----

  /** The block after this one. */
  ghost function NextOf(dp: DiffNode): Option<Block>
    reads dp, dp.next
  {
    if dp.next == null then None else Some(dp.next.Value())
  }

  /** The lines of the other buffers that go with the block: `off` more above, `n` more in all. */
  method GrowOthersInPlace(dp: DiffNode, bufs: Bufs, idx: int, off: int, n: int)
    modifies dp`lnum, dp`count
    ensures dp.Value() == GrowOthers(old(dp.Value()), bufs, idx, off, n)
  {
    ghost var lnum, count := dp.lnum, dp.count;
    for i := 0 to DB_COUNT
      invariant forall j {:trigger dp.lnum[j]} | 0 <= j < DB_COUNT ::
                dp.lnum[j] == lnum[j] - (if j in bufs && j != idx && j < i then off else 0)
      invariant forall j {:trigger dp.count[j]} | 0 <= j < DB_COUNT ::
                dp.count[j] == count[j] + (if j in bufs && j != idx && j < i then n else 0)
    {
      if i in bufs && i != idx {
        dp.lnum := dp.lnum[i := dp.lnum[i] - off];
        dp.count := dp.count[i := dp.count[i] + n];
      }
    }
    GrowOthersIs(bufs, Block(lnum, count), idx, off, n, dp.Value());
  }

  lemma GrowOthersIs(bufs: Bufs, b: Block, idx: int, off: int, n: int, t: Block)
    requires forall j {:trigger t.lnum[j]} | 0 <= j < DB_COUNT ::
             t.lnum[j] == b.lnum[j] - (if j in bufs && j != idx then off else 0)
    requires forall j {:trigger t.count[j]} | 0 <= j < DB_COUNT ::
             t.count[j] == b.count[j] + (if j in bufs && j != idx then n else 0)
    ensures t == GrowOthers(b, bufs, idx, off, n)
  {
    assert t.lnum == GrowOthers(b, bufs, idx, off, n).lnum;
    assert t.count == GrowOthers(b, bufs, idx, off, n).count;
  }

  lemma GrowNothing(b: Block, bufs: Bufs, idx: int)
    ensures GrowOthers(b, bufs, idx, 0, 0) == b
  {
    assert GrowOthers(b, bufs, idx, 0, 0).lnum == b.lnum && GrowOthers(b, bufs, idx, 0, 0).count == b.count;
  }

  lemma SetBoth(b: Block, idx: int, lnum: int, n: int)
    requires 0 <= idx < DB_COUNT
    ensures SetIdx(b, idx, lnum, n) == Block(b.lnum[idx := lnum], b.count[idx := n])
  {
  }

  lemma CutTopIs(ed: Edit, bufs: Bufs, b: Block, from: int, c: Block)
    requires 0 <= ed.idx < DB_COUNT
    requires c.lnum == b.lnum[ed.idx := ed.line1]
             && c.count == b.count[ed.idx := b.count[ed.idx] - (ed.line2 - b.lnum[ed.idx] + 1)]
    ensures CutTop(ed, bufs, b, from) == GrowOthers(c, bufs, ed.idx, b.lnum[ed.idx] - from, b.lnum[ed.idx] - from)
  {
    hide GrowOthers;
  }

  /** The edit deletes the top of the block, and not all of it: case 5. */
  method CutTopNode(ed: Edit, bufs: Bufs, dp: DiffNode, from: int, opt: DiffOpt, text: Buffers)
    requires 0 <= ed.idx < DB_COUNT && dp.next != dp && Sensible(opt)
    modifies dp`lnum, dp`count
    ensures dp.Value() == Trim(bufs, CutTop(ed, bufs, old(dp.Value()), from), KeysOf(opt, text))
  {
    hide KeysOf, Normal, GrowOthers, Trim, CutTop;
    ghost var b := dp.Value();
    var idx, off := ed.idx, dp.lnum[ed.idx] - from;
    dp.count := dp.count[idx := dp.count[idx] - (ed.line2 - dp.lnum[idx] + 1)];
    dp.lnum := dp.lnum[idx := ed.line1];
    ghost var c := dp.Value();
    assert c.lnum == b.lnum[idx := ed.line1];
    CutTopIs(ed, bufs, b, from, c);
    GrowOthersInPlace(dp, bufs, idx, off, off);
    assert dp.Value() == CutTop(ed, bufs, b, from);
    DiffCheckUnchanged(dp, bufs, opt, text);
  }

  /** The edit deletes the top of the block: cases 4 and 5. */
  method RepairTopNode(ed: Edit, bufs: Bufs, dp: DiffNode, deleted0: int, from0: int, opt: DiffOpt, text: Buffers)
    returns (deleted: int, from: int)
    requires 0 <= ed.idx < DB_COUNT && dp.next != dp && Sensible(opt)
    modifies dp`lnum, dp`count
    ensures var r := RepairTop(ed, bufs, old(dp.Value()), old(NextOf(dp)), deleted0, from0, KeysOf(opt, text));
            dp.Value() == r.block && deleted == r.deleted && from == r.from
  {
    hide KeysOf, Normal, GrowOthers, Trim, CutTop, SetIdx;
    var idx, line1, line2 := ed.idx, ed.line1, ed.line2;
    deleted, from := deleted0, from0;
    ghost var b := dp.Value();
    var off := dp.lnum[idx] - from;
    if dp.lnum[idx] + dp.count[idx] - 1 <= line2 {
      var n;
      if dp.next != null && dp.next.lnum[idx] - 1 <= line2 {
        n := dp.next.lnum[idx] - from;
        deleted := deleted - n;
        n := n - dp.count[idx];
        from := dp.next.lnum[idx];
      } else {
        n := deleted - dp.count[idx];
      }
      dp.count := dp.count[idx := 0];
      dp.lnum := dp.lnum[idx := line1];
      SetBoth(b, idx, line1, 0);
      GrowOthersInPlace(dp, bufs, idx, off, n);
    } else {
      CutTopNode(ed, bufs, dp, from, opt, text);
    }
  }

  lemma SetCount(b: Block, idx: int, n: int)
    requires 0 <= idx < DB_COUNT
    ensures SetIdx(b, idx, b.lnum[idx], n) == Block(b.lnum, b.count[idx := n])
  {
    assert b.lnum[idx := b.lnum[idx]] == b.lnum;
  }

  lemma CutBottomIs(ed: Edit, bufs: Bufs, b: Block, from: int, n: int, c: Block)
    requires 0 <= ed.idx < DB_COUNT && c == Block(b.lnum, b.count[ed.idx := b.count[ed.idx] - (b.End(ed.idx) - from)])
    ensures CutBottom(ed, bufs, b, from, n) == GrowOthers(c, bufs, ed.idx, 0, n)
  {
    hide GrowOthers;
    SetCount(b, ed.idx, b.count[ed.idx] - (b.End(ed.idx) - from));
  }

  /** The deletion goes on below the block. */
  method CutBottomNode(ed: Edit, bufs: Bufs, dp: DiffNode, last: int, deleted0: int, from0: int, opt: DiffOpt,
                       text: Buffers)
    returns (deleted: int, from: int)
    requires 0 <= ed.idx < DB_COUNT && dp.next != dp && Sensible(opt) && last == dp.lnum[ed.idx] + dp.count[ed.idx] - 1
    modifies dp`lnum, dp`count
    ensures var b, next := old(dp.Value()), old(NextOf(dp));
            && dp.Value() == Trim(bufs, CutBottom(ed, bufs, b, from0, LinesBelow(ed, b, next)), KeysOf(opt, text))
            && deleted == (if GoesOn(ed, next) then deleted0 - (next.value.lnum[ed.idx] - from0) else deleted0)
            && from == (if GoesOn(ed, next) then next.value.lnum[ed.idx] else from0)
  {
    hide KeysOf, Normal, GrowOthers, Trim, CutBottom;
    var idx, line2 := ed.idx, ed.line2;
    deleted, from := deleted0, from0;
    ghost var b := dp.Value();
    var n;
    dp.count := dp.count[idx := dp.count[idx] - (last - from + 1)];
    if dp.next != null && dp.next.lnum[idx] - 1 <= line2 {
      n := dp.next.lnum[idx] - 1 - last;
      deleted := deleted - (dp.next.lnum[idx] - from);
      from := dp.next.lnum[idx];
    } else {
      n := line2 - last;
    }
    CutBottomIs(ed, bufs, b, from0, n, dp.Value());
    GrowOthersInPlace(dp, bufs, idx, 0, n);
    DiffCheckUnchanged(dp, bufs, opt, text);
  }

  /** All deleted lines are in the block. */
  method CutMiddleNode(dp: DiffNode, idx: int, bufs: Bufs, deleted: int)
    requires 0 <= idx < DB_COUNT
    modifies dp`lnum, dp`count
    ensures var b := old(dp.Value()); dp.Value() == SetIdx(b, idx, b.lnum[idx], b.count[idx] - deleted)
  {
    hide GrowOthers, SetIdx;
    ghost var b := dp.Value();
    dp.count := dp.count[idx := dp.count[idx] - deleted];
    SetCount(b, idx, b.count[idx] - deleted);
    GrowNothing(dp.Value(), bufs, idx);
    GrowOthersInPlace(dp, bufs, idx, 0, 0);
  }

  /** The block starts above the deleted lines: cases 2 and 3. */
  method RepairBottomNode(ed: Edit, bufs: Bufs, dp: DiffNode, deleted0: int, from0: int, opt: DiffOpt, text: Buffers)
    returns (deleted: int, from: int)
    requires 0 <= ed.idx < DB_COUNT && dp.next != dp && Sensible(opt)
    modifies dp`lnum, dp`count
    ensures var r := RepairBottom(ed, bufs, old(dp.Value()), old(NextOf(dp)), deleted0, from0, KeysOf(opt, text));
            dp.Value() == r.block && deleted == r.deleted && from == r.from
  {
    hide KeysOf, Normal, Trim, CutBottom, SetIdx, LinesBelow;
    var last := dp.lnum[ed.idx] + dp.count[ed.idx] - 1;
    if last < ed.line2 {
      deleted, from := CutBottomNode(ed, bufs, dp, last, deleted0, from0, opt, text);
    } else {
      deleted, from := deleted0, from0;
      CutMiddleNode(dp, ed.idx, bufs, deleted);
    }
  }

  /** The part of the loop of `diff_mark_adjust_tp` that changes the block itself. */
  method RepairNode(ed: Edit, bufs: Bufs, dp: DiffNode, deleted0: int, from0: int, opt: DiffOpt, text: Buffers)
    returns (deleted: int, from: int)
    requires 0 <= ed.idx < DB_COUNT && dp.next != dp && Sensible(opt)
    modifies dp`lnum, dp`count
    ensures Repaired(dp.Value(), deleted, from)
         == Repair(ed, bufs, old(dp.Value()), old(NextOf(dp)), deleted0, from0, KeysOf(opt, text))
  {
    hide KeysOf, Normal, RepairTop, RepairBottom, Trim;
    var idx, line1, line2 := ed.idx, ed.line1, ed.line2;
    deleted, from := deleted0, from0;
    var last := dp.lnum[idx] + dp.count[idx] - 1;
    ghost var lnum := dp.lnum;
    assert lnum == lnum[idx := lnum[idx]];
    if last >= line1 - 1 {
      if dp.lnum[idx] - (if deleted + ed.Inserted() != 0 then 1 else 0) > line2 {
        dp.lnum := dp.lnum[idx := dp.lnum[idx] + ed.after];
      } else if deleted > 0 {
        if dp.lnum[idx] >= line1 {
          deleted, from := RepairTopNode(ed, bufs, dp, deleted, from, opt, text);
        } else {
          deleted, from := RepairBottomNode(ed, bufs, dp, deleted, from, opt, text);
        }
      } else if dp.lnum[idx] <= line1 {
        dp.count := dp.count[idx := dp.count[idx] + ed.Inserted()];
        DiffCheckUnchanged(dp, bufs, opt, text);
      } else {
        dp.lnum := dp.lnum[idx := dp.lnum[idx] + ed.Inserted()];
      }
    }
  }

  /** The node above position k. */
  ghost function PrevNode(tp: TabPage, k: nat): DiffNode?
    requires k <= |tp.nodes|
    reads tp
  {
    if k == 0 then null else tp.nodes[k - 1]
  }

  ghost function PrevBlock(bs: seq<Block>, k: nat): Option<Block>
    requires k <= |bs|
  {
    if k == 0 then None else Some(bs[k - 1])
  }

  /** The blocks that are done when the loop stands between `prev` and position k. */
  ghost function DoneBlocks(bs: seq<Block>, k: nat): seq<Block>
    requires k <= |bs|
  {
    if k == 0 then [] else bs[..k - 1]
  }

  /** `dp` is at position k, and `dprev` above it. */
  ghost predicate At(tp: TabPage, k: nat, dprev: DiffNode?, dp: DiffNode?)
    reads tp, tp.nodes
  {
    tp.Valid() && k <= |tp.nodes| && dp == tp.NodeAt(k) && dprev == PrevNode(tp, k)
  }

  lemma AtFirst(tp: TabPage)
    requires tp.Valid()
    ensures At(tp, 0, null, tp.first)
  {
  }

  /** A new block for an edit that touches no block. */
  method NewBlockNode(tp: TabPage, dprev: DiffNode?, dp: DiffNode?, ed: Edit, bufs: Bufs, deleted: int, ghost k: nat)
    requires At(tp, k, dprev, dp) && 0 <= ed.idx < DB_COUNT
    modifies tp, (if dprev == null then {} else {dprev})`next
    ensures tp.Valid() && |tp.nodes| == |old(tp.nodes)| + 1 && fresh(tp.nodes[k])
    ensures tp.nodes == old(tp.nodes[..k]) + [tp.nodes[k]] + old(tp.nodes[k..])
    ensures tp.nodes[k].Value() == NewBlock(ed, bufs, if dprev == null then None else Some(old(dprev.Value())), deleted)
  {
    var dnext := tp.DiffAllocNew(dprev, dp, k);
    FillNewBlock(dnext, dprev, ed, bufs, deleted);
  }

  method FillNewBlock(dnext: DiffNode, dprev: DiffNode?, ed: Edit, bufs: Bufs, deleted: int)
    requires 0 <= ed.idx < DB_COUNT && dprev != dnext && dnext.lnum == [0, 0, 0, 0] && dnext.count == [0, 0, 0, 0]
    modifies dnext`lnum, dnext`count
    ensures dnext.Value() == NewBlock(ed, bufs, if dprev == null then None else Some(dprev.Value()), deleted)
  {
    var idx := ed.idx;
    ghost var b := NewBlock(ed, bufs, if dprev == null then None else Some(dprev.Value()), deleted);
    dnext.lnum := dnext.lnum[idx := ed.line1];
    dnext.count := dnext.count[idx := ed.Inserted()];
    for i := 0 to DB_COUNT
      invariant forall j {:trigger dnext.lnum[j]} | 0 <= j < DB_COUNT ::
                dnext.lnum[j] == (if j == idx || j < i then b.lnum[j] else 0)
      invariant forall j {:trigger dnext.count[j]} | 0 <= j < DB_COUNT ::
                dnext.count[j] == (if j == idx || j < i then b.count[j] else 0)
    {
      if i in bufs && i != idx {
        if dprev == null {
          dnext.lnum := dnext.lnum[i := ed.line1];
        } else {
          dnext.lnum := dnext.lnum[i :=
              ed.line1 + (dprev.lnum[i] + dprev.count[i]) - (dprev.lnum[idx] + dprev.count[idx])];
        }
        dnext.count := dnext.count[i := deleted];
      }
    }
    assert dnext.lnum == b.lnum && dnext.count == b.count;
  }

  /** Adds the lines of the block to the one above. */
  method MergeInto(dprev: DiffNode, dp: DiffNode, bufs: Bufs)
    requires dprev != dp
    modifies dprev`count
    ensures dprev.Value() == Merge(bufs, old(dprev.Value()), dp.Value())
  {
    ghost var count := dprev.count;
    for i := 0 to DB_COUNT
      invariant forall j {:trigger dprev.count[j]} | 0 <= j < DB_COUNT ::
                dprev.count[j] == count[j] + (if j in bufs && j < i then dp.count[j] else 0)
    {
      if i in bufs {
        dprev.count := dprev.count[i := dprev.count[i] + dp.count[i]];
      }
    }
    assert dprev.count == Merge(bufs, old(dprev.Value()), dp.Value()).count;
  }

  /** The list after one block, at position k + m, is repaired, where m new blocks stand between it and the block above.
      */
  ghost function Repaired1(bs: seq<Block>, k: nat, m: nat, ed: Edit, bufs: Bufs, r: Block): seq<Block>
    requires k + m < |bs| && 0 <= ed.idx < DB_COUNT
  {
    if k > 0 && bs[k - 1].End(ed.idx) == r.lnum[ed.idx] then bs[..k - 1] + [Merge(bufs, bs[k - 1], r)] + bs[k + m + 1..]
    else bs[k + m := r]
  }

  /** ... and the position of the loop. */
  ghost function Position1(bs: seq<Block>, k: nat, m: nat, ed: Edit, r: Block): nat
    requires k + m < |bs| && 0 <= ed.idx < DB_COUNT
  {
    if k > 0 && bs[k - 1].End(ed.idx) == r.lnum[ed.idx] then k else k + m + 1
  }

  /** The node at position k changed, and no other. */
  lemma BlocksWith(tp: TabPage, was: seq<Block>, k: nat)
    requires |was| == |tp.nodes| && k < |was| && Distinct(tp.nodes)
    requires forall i {:trigger tp.nodes[i]} | 0 <= i < |was| && i != k :: tp.nodes[i].Value() == was[i]
    ensures tp.Blocks() == was[k := tp.nodes[k].Value()]
  {
  }

  method RepairAt(tp: TabPage, dp: DiffNode, ed: Edit, bufs: Bufs, deleted0: int, from0: int, opt: DiffOpt,
                  text: Buffers, ghost k: nat, ghost bs: seq<Block>)
    returns (deleted: int, from: int)
    requires tp.Valid() && k < |tp.nodes| && dp == tp.nodes[k] && 0 <= ed.idx < DB_COUNT && Sensible(opt)
             && tp.Blocks() == bs
    modifies dp`lnum, dp`count
    ensures tp.Valid()
    ensures var r := Repair(ed, bufs, bs[k], Next(bs[k..]), deleted0, from0, KeysOf(opt, text));
            deleted == r.deleted && from == r.from && tp.Blocks() == bs[k := r.block]
  {
    hide KeysOf, Normal, Repair, Distinct;
    Others(tp.nodes, k);
    assert NextOf(dp) == Next(bs[k..]);
    deleted, from := RepairNode(ed, bufs, dp, deleted0, from0, opt, text);
    BlocksWith(tp, bs, k);
  }

  method MergeBlocks(tp: TabPage, dprev: DiffNode, dp: DiffNode, bufs: Bufs, ghost k: nat, ghost j: nat,
                     ghost bs: seq<Block>)
    requires tp.Valid() && k < j < |tp.nodes| && dp == tp.nodes[j] && dprev == tp.nodes[k] && tp.Blocks() == bs
    modifies dprev`count
    ensures tp.Valid() && tp.Blocks() == bs[k := Merge(bufs, bs[k], bs[j])]
  {
    hide Merge, Distinct;
    Others(tp.nodes, k);
    MergeInto(dprev, dp, bufs);
    BlocksWith(tp, bs, k);
  }

  method UnlinkBlocks(tp: TabPage, dprev: DiffNode?, dp: DiffNode?, ghost k: nat, ghost to: nat, ghost bs: seq<Block>)
    requires tp.Valid() && tp.Blocks() == bs && k <= to <= |tp.nodes| && dp == tp.NodeAt(to) && dprev == PrevNode(tp, k)
    modifies tp, (if dprev == null then {} else {dprev})`next
    ensures tp.Valid() && tp.nodes == old(tp.nodes[..k]) + old(tp.nodes[to..])
    ensures tp.Blocks() == bs[..k] + bs[to..]
    ensures dp == tp.NodeAt(k) && dprev == PrevNode(tp, k)
  {
    hide Distinct;
    ghost var ns := tp.nodes;
    tp.Unlink(dprev, dp, k, to);
    BlocksSpliced(tp, ns, bs, k, to);
  }

  /** Merges the block at position j into the one at k - 1 and takes it, and the new blocks in between, out of the list.
      */
  method MergeAt(tp: TabPage, dprev: DiffNode, dp: DiffNode, bufs: Bufs, ghost k: nat, ghost j: nat,
                 ghost bs: seq<Block>)
    returns (below: DiffNode?)
    requires tp.Valid() && 0 < k <= j < |tp.nodes| && dp == tp.nodes[j] && dprev == tp.nodes[k - 1] && tp.Blocks() == bs
    modifies tp, dprev
    ensures tp.Valid() && tp.nodes == old(tp.nodes[..k]) + old(tp.nodes[j + 1..]) && below == tp.NodeAt(k)
    ensures tp.Blocks() == bs[..k - 1] + [Merge(bufs, bs[k - 1], bs[j])] + bs[j + 1..]
  {
    hide Merge, Distinct;
    ghost var cs := bs[k - 1 := Merge(bufs, bs[k - 1], bs[j])];
    MergedSeq(bs, cs, k, j, Merge(bufs, bs[k - 1], bs[j]));
    MergeBlocks(tp, dprev, dp, bufs, k - 1, j, bs);
    below := dp.next;
    UnlinkBlocks(tp, dprev, below, k, j + 1, cs);
  }

  lemma MergedSeq(bs: seq<Block>, cs: seq<Block>, k: nat, j: nat, b: Block)
    requires 0 < k <= j < |bs| && cs == bs[k - 1 := b]
    ensures cs[..k] + cs[j + 1..] == bs[..k - 1] + [b] + bs[j + 1..]
  {
  }

  lemma BlocksSpliced(tp: TabPage, ns: seq<DiffNode>, cs: seq<Block>, k: nat, to: nat)
    requires |cs| == |ns| && k <= to <= |ns| && tp.nodes == ns[..k] + ns[to..]
    requires forall i {:trigger ns[i]} | 0 <= i < |ns| :: ns[i].Value() == cs[i]
    ensures tp.Blocks() == cs[..k] + cs[to..]
  {
  }

  /** One block of the loop of `diff_mark_adjust_tp`: repair it, and merge it with the one above if they touch. */
  method RepairAndMerge(tp: TabPage, dprev: DiffNode?, dp: DiffNode, ed: Edit, bufs: Bufs, deleted0: int, from0: int,
                        opt: DiffOpt, text: Buffers, ghost k: nat, ghost m: nat, ghost bs: seq<Block>)
    returns (above: DiffNode, below: DiffNode?, deleted: int, from: int)
    requires tp.Valid() && tp.Blocks() == bs && k + m < |tp.nodes| && dp == tp.nodes[k + m] && dprev == PrevNode(tp, k)
    requires 0 <= ed.idx < DB_COUNT && Sensible(opt)
    modifies tp, tp.NodeSet()
    ensures tp.Valid() && tp.NodeSet() <= old(tp.NodeSet())
    ensures var r := Repair(ed, bufs, bs[k + m], Next(bs[k + m..]), deleted0, from0, KeysOf(opt, text));
            && deleted == r.deleted && from == r.from
            && tp.Blocks() == Repaired1(bs, k, m, ed, bufs, r.block)
            && At(tp, Position1(bs, k, m, ed, r.block), above, below)
            && SameFirst(tp.nodes, old(tp.nodes), if Position1(bs, k, m, ed, r.block) == k then k else |bs|)
  {
    hide KeysOf, Normal, Repair, Merge, Distinct, At, Repaired1, Position1;
    ghost var b := Repair(ed, bufs, bs[k + m], Next(bs[k + m..]), deleted0, from0, KeysOf(opt, text)).block;
    ghost var cs := bs[k + m := b];
    deleted, from := RepairAt(tp, dp, ed, bufs, deleted0, from0, opt, text, k + m, bs);
    above, below := MergeOrPass(tp, dprev, dp, ed.idx, bufs, k, m, cs);
    RepairedIs(bs, k, m, ed, bufs, b);
  }

  lemma RepairedIs(bs: seq<Block>, k: nat, m: nat, ed: Edit, bufs: Bufs, b: Block)
    requires k + m < |bs| && 0 <= ed.idx < DB_COUNT
    ensures var cs := bs[k + m := b];
            var merges := k > 0 && cs[k - 1].End(ed.idx) == cs[k + m].lnum[ed.idx];
            && Repaired1(bs, k, m, ed, bufs, b)
                == (if merges then cs[..k - 1] + [Merge(bufs, cs[k - 1], cs[k + m])] + cs[k + m + 1..] else cs)
            && Position1(bs, k, m, ed, b) == if merges then k else k + m + 1
  {
    hide Merge;
    var cs := bs[k + m := b];
    if k > 0 {
      assert cs[..k - 1] == bs[..k - 1] && cs[k + m + 1..] == bs[k + m + 1..];
    }
  }

  /** Merges the block `dp` with the one above if they touch. */
  method MergeOrPass(tp: TabPage, dprev: DiffNode?, dp: DiffNode, idx: int, bufs: Bufs, ghost k: nat, ghost m: nat,
                     ghost cs: seq<Block>)
    returns (above: DiffNode, below: DiffNode?)
    requires tp.Valid() && tp.Blocks() == cs && k + m < |tp.nodes| && dp == tp.nodes[k + m] && dprev == PrevNode(tp, k)
             && 0 <= idx < DB_COUNT
    modifies tp, if dprev == null then {} else {dprev}
    ensures var merges := k > 0 && cs[k - 1].End(idx) == cs[k + m].lnum[idx];
            && tp.Blocks() == (if merges then cs[..k - 1] + [Merge(bufs, cs[k - 1], cs[k + m])] + cs[k + m + 1..]
                else cs)
            && At(tp, if merges then k else k + m + 1, above, below)
            && SameFirst(tp.nodes, old(tp.nodes), if merges then k else |cs|)
    ensures tp.Valid() && tp.NodeSet() <= old(tp.NodeSet())
  {
    hide Merge, Distinct;
    if dprev != null && dprev.lnum[idx] + dprev.count[idx] == dp.lnum[idx] {
      above := dprev;
      below := MergeAt(tp, dprev, dp, bufs, k, k + m, cs);
    } else {
      above := dp;
      below := dp.next;
    }
  }

  /** The new block, if any, between the block above and position k. */
  ghost function Made(ed: Edit, bufs: Bufs, busy: bool, bs: seq<Block>, k: nat, deleted: int): seq<Block>
    requires k <= |bs| && 0 <= ed.idx < DB_COUNT
  {
    if Fires(ed, PrevBlock(bs, k), bs[k..]) && !busy then [NewBlock(ed, bufs, PrevBlock(bs, k), deleted)] else []
  }

  /** What the whole list becomes when the loop stands at position k. */
  ghost function Outcome(ed: Edit, bufs: Bufs, busy: bool, bs: seq<Block>, k: nat, deleted: int, from: int,
                         d: Texts): seq<Block>
    requires k <= |bs| && 0 <= ed.idx < DB_COUNT
  {
    DoneBlocks(bs, k) + Walk(ed, bufs, busy, PrevBlock(bs, k), bs[k..], deleted, from, d)
  }

  lemma OutcomeEnds(ed: Edit, bufs: Bufs, busy: bool, bs: seq<Block>, k: nat, deleted: int, from: int, d: Texts)
    requires k <= |bs| && 0 <= ed.idx < DB_COUNT
    requires k == |bs| || Stops(ed, bs[k], deleted)
    ensures Outcome(ed, bufs, busy, bs, k, deleted, from, d) == bs[..k] + Made(ed, bufs, busy, bs, k, deleted) + bs[k..]
  {
    hide Repair, Fires, NewBlock;
    if k > 0 {
      assert bs[..k] == bs[..k - 1] + [bs[k - 1]];
    }
  }

  /** The list with the new blocks in it. */
  lemma WithMade(bs: seq<Block>, made: seq<Block>, cs: seq<Block>, k: nat)
    requires k < |bs| && cs == bs[..k] + made + bs[k..]
    ensures |cs| == |bs| + |made| && cs[k + |made|] == bs[k] && cs[..k] == bs[..k] && cs[..k + |made|] == bs[..k] + made
    ensures cs[k + |made|..] == bs[k..] && cs[k + |made| + 1..] == bs[k + 1..]
    ensures k > 0 ==> cs[k - 1] == bs[k - 1]
  {
  }

  lemma OutcomeMerged(ed: Edit, bufs: Bufs, busy: bool, bs: seq<Block>, k: nat, deleted: int, from: int, d: Texts,
                      r: Repaired)
    requires 0 < k < |bs| && 0 <= ed.idx < DB_COUNT && !Stops(ed, bs[k], deleted)
    requires r == Repair(ed, bufs, bs[k], Next(bs[k..]), deleted, from, d)
             && bs[k - 1].End(ed.idx) == r.block.lnum[ed.idx]
    ensures var out := bs[..k - 1] + [Merge(bufs, bs[k - 1], r.block)] + bs[k + 1..];
            Outcome(ed, bufs, busy, bs, k, deleted, from, d) == Outcome(ed, bufs, busy, out, k, r.deleted, r.from, d)
  {
    hide Repair, Fires, NewBlock, Merge, Stops;
    var out := bs[..k - 1] + [Merge(bufs, bs[k - 1], r.block)] + bs[k + 1..];
    assert bs[k..][1..] == bs[k + 1..] && out[k..] == bs[k + 1..] && out[..k - 1] == bs[..k - 1];
  }

  lemma OutcomePassed(ed: Edit, bufs: Bufs, busy: bool, bs: seq<Block>, k: nat, deleted: int, from: int, d: Texts,
                      r: Repaired)
    requires k < |bs| && 0 <= ed.idx < DB_COUNT && !Stops(ed, bs[k], deleted)
    requires r == Repair(ed, bufs, bs[k], Next(bs[k..]), deleted, from, d)
    requires k > 0 ==> bs[k - 1].End(ed.idx) != r.block.lnum[ed.idx]
    ensures Outcome(ed, bufs, busy, bs, k, deleted, from, d)
         == bs[..k] + Made(ed, bufs, busy, bs, k, deleted)
             + Walk(ed, bufs, busy, Some(r.block), bs[k + 1..], r.deleted, r.from, d)
  {
    hide Repair, Fires, NewBlock, Stops;
    assert bs[k..][1..] == bs[k + 1..];
    if k > 0 {
      assert bs[..k] == bs[..k - 1] + [bs[k - 1]];
    }
  }

  lemma OutcomeGoesOn(ed: Edit, bufs: Bufs, busy: bool, bs: seq<Block>, k: nat, deleted: int, from: int, d: Texts,
                      cs: seq<Block>, m: nat)
    requires k < |bs| && 0 <= ed.idx < DB_COUNT && !Stops(ed, bs[k], deleted)
    requires m == |Made(ed, bufs, busy, bs, k, deleted)|
             && cs == bs[..k] + Made(ed, bufs, busy, bs, k, deleted) + bs[k..]
    ensures |cs| == |bs| + m && cs[k + m] == bs[k] && Next(cs[k + m..]) == Next(bs[k..])
    ensures var r := Repair(ed, bufs, bs[k], Next(bs[k..]), deleted, from, d);
            var out, p := Repaired1(cs, k, m, ed, bufs, r.block), Position1(cs, k, m, ed, r.block);
            && p <= |out| && |out| - p == |bs| - k - 1
            && Outcome(ed, bufs, busy, bs, k, deleted, from, d) == Outcome(ed, bufs, busy, out, p, r.deleted, r.from, d)
  {
    hide Repair, Made, Merge, Stops, Walk;
    var made := Made(ed, bufs, busy, bs, k, deleted);
    WithMade(bs, made, cs, k);
    var r := Repair(ed, bufs, bs[k], Next(bs[k..]), deleted, from, d);
    var out, p := Repaired1(cs, k, m, ed, bufs, r.block), Position1(cs, k, m, ed, r.block);
    if p == k {
      OutcomeMerged(ed, bufs, busy, bs, k, deleted, from, d, r);
      assert cs[..k - 1] == bs[..k - 1];
    } else {
      OutcomePassed(ed, bufs, busy, bs, k, deleted, from, d, r);
      assert out[p..] == cs[p..] && out[..p - 1] == cs[..p - 1];
    }
  }

  /** The test of the loop for an edit outside all blocks. */
  method FiresHere(tp: TabPage, dprev: DiffNode?, dp: DiffNode?, ed: Edit, ghost k: nat) returns (fires: bool)
    requires At(tp, k, dprev, dp) && 0 <= ed.idx < DB_COUNT
    ensures fires == Fires(ed, PrevBlock(tp.Blocks(), k), tp.Blocks()[k..])
  {
    var idx := ed.idx;
    fires :=
      && (dp == null || dp.lnum[idx] - 1 > ed.line2 || (ed.line2 == MAXLNUM && dp.lnum[idx] > ed.line1))
      && (dprev == null || dprev.lnum[idx] + dprev.count[idx] < ed.line1);
  }

  /** Creates the new block, if there is to be one. */
  method MakeBlock(tp: TabPage, dprev: DiffNode?, dp: DiffNode?, ed: Edit, bufs: Bufs, busy: bool, deleted: int,
                   ghost k: nat, ghost bs: seq<Block>)
    returns (ghost m: nat)
    requires At(tp, k, dprev, dp) && tp.Blocks() == bs && 0 <= ed.idx < DB_COUNT
    modifies tp, (if dprev == null then {} else {dprev})`next
    ensures tp.Valid() && fresh(tp.NodeSet() - old(tp.NodeSet()))
    ensures var made := Made(ed, bufs, busy, bs, k, deleted);
            m == |made| && tp.Blocks() == bs[..k] + made + bs[k..]
    ensures busy ==> tp.nodes == old(tp.nodes)
    ensures |tp.nodes| == |old(tp.nodes)| + m && tp.NodeAt(k + m) == dp && dprev == PrevNode(tp, k) && (busy ==> m == 0)
  {
    hide NewBlock, Fires, Distinct, TabPage.Valid;
    assert bs == bs[..k] + [] + bs[k..];
    m := 0;
    var fires := FiresHere(tp, dprev, dp, ed, k);
    if fires && !busy {
      InsertNewBlock(tp, dprev, dp, ed, bufs, deleted, k, bs);
      m := 1;
    }
  }

  method InsertNewBlock(tp: TabPage, dprev: DiffNode?, dp: DiffNode?, ed: Edit, bufs: Bufs, deleted: int, ghost k: nat,
                        ghost bs: seq<Block>)
    requires At(tp, k, dprev, dp) && tp.Blocks() == bs && 0 <= ed.idx < DB_COUNT
    modifies tp, (if dprev == null then {} else {dprev})`next
    ensures tp.Valid() && fresh(tp.NodeSet() - old(tp.NodeSet()))
    ensures tp.Blocks() == bs[..k] + [NewBlock(ed, bufs, PrevBlock(bs, k), deleted)] + bs[k..]
    ensures |tp.nodes| == |old(tp.nodes)| + 1 && tp.NodeAt(k + 1) == dp && dprev == PrevNode(tp, k)
  {
    hide NewBlock, Distinct;
    ghost var ns := tp.nodes;
    NewBlockNode(tp, dprev, dp, ed, bufs, deleted, k);
    BlocksInserted(tp, ns, bs, k);
  }

  lemma BlocksInserted(tp: TabPage, ns: seq<DiffNode>, cs: seq<Block>, k: nat)
    requires |cs| == |ns| && k <= |ns| && |tp.nodes| == |ns| + 1 && tp.nodes == ns[..k] + [tp.nodes[k]] + ns[k..]
    requires forall i {:trigger ns[i]} | 0 <= i < |ns| :: ns[i].Value() == cs[i]
    ensures tp.Blocks() == cs[..k] + [tp.nodes[k].Value()] + cs[k..]
  {
  }

  /** The second half of a turn of the loop: the block `dp`, which was at position k before m new blocks were made above
      it. */
  method WalkOn(tp: TabPage, dprev: DiffNode?, dp: DiffNode, ed: Edit, bufs: Bufs, ghost busy: bool, deleted0: int,
                from0: int, opt: DiffOpt, text: Buffers, ghost k: nat, ghost m: nat, ghost bs: seq<Block>,
                ghost j: nat)
    returns (above: DiffNode, below: DiffNode?, deleted: int, from: int, ghost p: nat)
    requires tp.Valid() && k + m < |tp.nodes| && dp == tp.nodes[k + m] && dprev == PrevNode(tp, k)
    requires 0 <= ed.idx < DB_COUNT && Sensible(opt)
    requires k < |bs| && m == |Made(ed, bufs, busy, bs, k, deleted0)| && !Stops(ed, bs[k], deleted0)
    requires tp.Blocks() == bs[..k] + Made(ed, bufs, busy, bs, k, deleted0) + bs[k..]
    modifies tp, tp.NodeSet()
    ensures At(tp, p, above, below) && tp.NodeSet() <= old(tp.NodeSet()) && |tp.nodes| - p == |bs| - k - 1
    ensures Outcome(ed, bufs, busy, tp.Blocks(), p, deleted, from, KeysOf(opt, text))
         == Outcome(ed, bufs, busy, bs, k, deleted0, from0, KeysOf(opt, text))
    ensures m == 0 && j <= |bs| && UnmergedAt(ed, bufs, bs, k, deleted0, from0, KeysOf(opt, text), j) ==>
              SameFirst(tp.nodes, old(tp.nodes), j)
                  && UnmergedAt(ed, bufs, tp.Blocks(), p, deleted, from, KeysOf(opt, text), j)
  {
    hide KeysOf, Normal, Walk, Repair, Made, Stops, Distinct, Repaired1, Position1, Outcome, UnmergedAt, SameFirst,
        TabPage.Valid;
    ghost var d := KeysOf(opt, text);
    ghost var cs := tp.Blocks();
    OutcomeGoesOn(ed, bufs, busy, bs, k, deleted0, from0, d, cs, m);
    UnmergedGoesOn(ed, bufs, bs, k, deleted0, from0, d, cs, m, j);
    p := Position1(cs, k, m, ed, Repair(ed, bufs, bs[k], Next(bs[k..]), deleted0, from0, d).block);
    ghost var ns := tp.nodes;
    above, below, deleted, from := RepairAndMerge(tp, dprev, dp, ed, bufs, deleted0, from0, opt, text, k, m, cs);
    FirstOf(tp.nodes, ns, if p == k then k else |cs|, j);
  }

  /** When the loop stands at position k, it will not merge any of the blocks up to position j with the one above. */
  ghost predicate UnmergedAt(ed: Edit, bufs: Bufs, bs: seq<Block>, k: nat, deleted: int, from: int, d: Texts, j: nat)
    requires k <= |bs| && 0 <= ed.idx < DB_COUNT
  {
    j <= k || Unmerged(ed, bufs, PrevBlock(bs, k), bs[k..], deleted, from, d, j - k)
  }

  lemma FirstOf<T>(now: seq<T>, was: seq<T>, n: nat, j: nat)
    ensures SameFirst(now, was, n) && j <= n ==> SameFirst(now, was, j)
  {
    if SameFirst(now, was, n) && j <= n {
      assert now[..j] == now[..n][..j];
    }
  }

  lemma UnmergedGoesOn(ed: Edit, bufs: Bufs, bs: seq<Block>, k: nat, deleted: int, from: int, d: Texts, cs: seq<Block>,
                       m: nat, j: nat)
    requires k < |bs| && 0 <= ed.idx < DB_COUNT && !Stops(ed, bs[k], deleted)
    requires |cs| == |bs| + m && (m == 0 ==> cs == bs[..k] + [] + bs[k..])
    ensures m == 0 && UnmergedAt(ed, bufs, bs, k, deleted, from, d, j) ==>
              var r := Repair(ed, bufs, bs[k], Next(bs[k..]), deleted, from, d);
              var p := Position1(cs, k, m, ed, r.block);
              && (p == k ==> j <= k) && p <= |Repaired1(cs, k, m, ed, bufs, r.block)|
              && UnmergedAt(ed, bufs, Repaired1(cs, k, m, ed, bufs, r.block), p, r.deleted, r.from, d, j)
  {
    hide Repair, Merge, Stops;
    if m == 0 && UnmergedAt(ed, bufs, bs, k, deleted, from, d, j) {
      assert cs == bs;
      var r := Repair(ed, bufs, bs[k], Next(bs[k..]), deleted, from, d);
      if j > k {
        assert bs[k..][0] == bs[k] && bs[k..][1..] == bs[k + 1..];
        var out := bs[k := r.block];
        assert out[k + 1..] == bs[k + 1..];
      }
    }
  }

  /** One turn of the first loop of `diff_mark_adjust_tp`; `stop` at the end of the list, or when nothing below changes.
      */
  method WalkTurn(tp: TabPage, dprev: DiffNode?, dp: DiffNode?, ed: Edit, bufs: Bufs, busy: bool, deleted0: int,
                  from0: int, opt: DiffOpt, text: Buffers, ghost k: nat, ghost j: nat)
    returns (stop: bool, above: DiffNode?, below: DiffNode?, deleted: int, from: int, ghost p: nat)
    requires At(tp, k, dprev, dp) && 0 <= ed.idx < DB_COUNT && Sensible(opt)
    modifies tp, tp.NodeSet()
    ensures tp.Valid() && fresh(tp.NodeSet() - old(tp.NodeSet()))
    ensures var target := Outcome(ed, bufs, busy, old(tp.Blocks()), k, deleted0, from0, KeysOf(opt, text));
            if stop then tp.Blocks() == target
            else At(tp, p, above, below)
                 && Outcome(ed, bufs, busy, tp.Blocks(), p, deleted, from, KeysOf(opt, text)) == target
    ensures !stop ==> |tp.nodes| - p < |old(tp.nodes)| - k
    ensures busy && j <= |old(tp.nodes)|
            && UnmergedAt(ed, bufs, old(tp.Blocks()), k, deleted0, from0, KeysOf(opt, text), j) ==>
              && SameFirst(tp.nodes, old(tp.nodes), j)
              && (!stop ==> UnmergedAt(ed, bufs, tp.Blocks(), p, deleted, from, KeysOf(opt, text), j))
  {
    hide KeysOf, Normal, Walk, Repair, Made, Stops, Distinct, Outcome, TabPage.Valid, UnmergedAt;
    ghost var bs := tp.Blocks();
    above, below, deleted, from, p := dprev, dp, deleted0, from0, k;
    ghost var m := MakeBlock(tp, dprev, dp, ed, bufs, busy, deleted, k, bs);
    stop := dp == null;
    if dp != null {
      WithMade(bs, Made(ed, bufs, busy, bs, k, deleted), tp.Blocks(), k);
      stop := StopsHere(dp, ed, deleted);
    }
    if stop {
      OutcomeEnds(ed, bufs, busy, bs, k, deleted, from, KeysOf(opt, text));
    } else {
      above, below, deleted, from, p := WalkOn(tp, dprev, dp, ed, bufs, busy, deleted, from, opt, text, k, m, bs, j);
    }
  }

  /** The first loop of `diff_mark_adjust_tp`. */
  method WalkList(tp: TabPage, ed: Edit, bufs: Bufs, busy: bool, opt: DiffOpt, text: Buffers, ghost j: nat)
    requires tp.Valid() && 0 <= ed.idx < DB_COUNT && Sensible(opt)
    modifies tp, tp.NodeSet()
    ensures tp.Valid() && fresh(tp.NodeSet() - old(tp.NodeSet()))
    ensures tp.Blocks() == Walk(ed, bufs, busy, None, old(tp.Blocks()), ed.Deleted(), ed.line1, KeysOf(opt, text))
    ensures busy && j <= |old(tp.nodes)|
            && Unmerged(ed, bufs, None, old(tp.Blocks()), ed.Deleted(), ed.line1, KeysOf(opt, text), j) ==>
              SameFirst(tp.nodes, old(tp.nodes), j)
  {
    hide KeysOf, Normal, Walk, Outcome, Distinct, UnmergedAt;
    ghost var keeps := busy && j <= |tp.nodes|
        && UnmergedAt(ed, bufs, tp.Blocks(), 0, ed.Deleted(), ed.line1, KeysOf(opt, text), j);
    UnmergedStart(ed, bufs, tp.Blocks(), ed.Deleted(), ed.line1, KeysOf(opt, text), j);
    ghost var d := KeysOf(opt, text);
    var dprev: DiffNode?, dp := null, tp.first;
    var deleted, from := ed.Deleted(), ed.line1;
    ghost var k: nat := 0;
    ghost var target := Outcome(ed, bufs, busy, tp.Blocks(), 0, deleted, from, d);
    OutcomeStart(ed, bufs, busy, tp.Blocks(), deleted, from, d);
    var stop := false;
    while !stop
      invariant tp.Valid() && fresh(tp.NodeSet() - old(tp.NodeSet()))
      invariant !stop ==> At(tp, k, dprev, dp) && Outcome(ed, bufs, busy, tp.Blocks(), k, deleted, from, d) == target
      invariant stop ==> tp.Blocks() == target
      invariant keeps ==> SameFirst(tp.nodes, old(tp.nodes), j)
      invariant keeps && !stop ==> UnmergedAt(ed, bufs, tp.Blocks(), k, deleted, from, d, j)
      decreases !stop, |tp.nodes| - k
    {
      stop, dprev, dp, deleted, from, k := WalkTurn(tp, dprev, dp, ed, bufs, busy, deleted, from, opt, text, k, j);
    }
  }

  lemma UnmergedStart(ed: Edit, bufs: Bufs, bs: seq<Block>, deleted: int, from: int, d: Texts, j: nat)
    requires 0 <= ed.idx < DB_COUNT
    ensures UnmergedAt(ed, bufs, bs, 0, deleted, from, d, j) <==> Unmerged(ed, bufs, None, bs, deleted, from, d, j)
  {
    assert bs[0..] == bs;
  }

  lemma OutcomeStart(ed: Edit, bufs: Bufs, busy: bool, bs: seq<Block>, deleted: int, from: int, d: Texts)
    requires 0 <= ed.idx < DB_COUNT
    ensures Outcome(ed, bufs, busy, bs, 0, deleted, from, d) == Walk(ed, bufs, busy, None, bs, deleted, from, d)
  {
    assert bs[0..] == bs;
  }

  method StopsHere(dp: DiffNode, ed: Edit, deleted: int) returns (stops: bool)
    requires 0 <= ed.idx < DB_COUNT
    ensures stops == Stops(ed, dp.Value(), deleted)
  {
    var idx := ed.idx;
    stops :=
      && dp.lnum[idx] + dp.count[idx] - 1 >= ed.line1 - 1
      && dp.lnum[idx] - (if deleted + ed.Inserted() != 0 then 1 else 0) > ed.line2
      && ed.after == 0;
  }

  /** Whether the block has no lines in any buffer. */
  method IsEmptyNode(dp: DiffNode, bufs: Bufs) returns (empty: bool)
    ensures empty == Empty(bufs, dp.Value())
  {
    for i := 0 to DB_COUNT
      invariant forall j {:trigger j in bufs} | j in bufs && j < i :: dp.count[j] == 0
    {
      if i in bufs && dp.count[i] != 0 {
        return false;
      }
    }
    return true;
  }

  lemma DropNext(bufs: Bufs, bs: seq<Block>, k: nat)
    requires k < |bs|
    ensures Empty(bufs, bs[k]) ==>
            bs[..k] + DropEmpty(bufs, bs[k..]) == (bs[..k] + bs[k + 1..])[..k]
                + DropEmpty(bufs, (bs[..k] + bs[k + 1..])[k..])
    ensures !Empty(bufs, bs[k]) ==> bs[..k] + DropEmpty(bufs, bs[k..]) == bs[..k + 1] + DropEmpty(bufs, bs[k + 1..])
  {
    hide Empty;
    assert bs[k..][1..] == bs[k + 1..];
    assert (bs[..k] + bs[k + 1..])[k..] == bs[k + 1..];
    assert (bs[..k] + bs[k + 1..])[..k] == bs[..k];
    assert bs[..k + 1] == bs[..k] + [bs[k]];
  }

  /** One turn of the second loop of `diff_mark_adjust_tp`; the list was `was` before the loop. */
  method DropTurn(tp: TabPage, bufs: Bufs, dprev: DiffNode?, dp: DiffNode, ghost was: seq<DiffNode>, ghost k: nat,
                  ghost j: nat)
    returns (above: DiffNode?, below: DiffNode?, ghost p: nat)
    requires At(tp, k, dprev, dp)
    modifies tp, tp.NodeSet()
    ensures At(tp, p, above, below) && tp.NodeSet() <= old(tp.NodeSet()) && |tp.nodes| - p < |old(tp.nodes)| - k
    ensures tp.Blocks()[..p] + DropEmpty(bufs, tp.Blocks()[p..]) == old(tp.Blocks()[..k])
            + DropEmpty(bufs, old(tp.Blocks()[k..]))
    ensures SameFirst(old(tp.nodes), was, j) && NoneEmpty(bufs, old(tp.Blocks()), j) ==>
              SameFirst(tp.nodes, was, j) && NoneEmpty(bufs, tp.Blocks(), j)
  {
    hide Empty, DropEmpty, Distinct, NoneEmpty, SameFirst;
    ghost var bs, ns := tp.Blocks(), tp.nodes;
    DropNext(bufs, bs, k);
    above, below, p := dprev, dp.next, k;
    var empty := IsEmptyNode(dp, bufs);
    if empty {
      UnlinkBlocks(tp, dprev, below, k, k + 1, bs);
      FirstStay(bufs, bs, ns, tp.Blocks(), tp.nodes, was, k, j);
      assert |tp.Blocks()| == |bs| - 1;
    } else {
      above := dp;
      p := k + 1;
    }
  }

  /** The second loop of `diff_mark_adjust_tp`. */
  method DropEmptyNodes(tp: TabPage, bufs: Bufs, ghost j: nat)
    requires tp.Valid()
    modifies tp, tp.NodeSet()
    ensures tp.Valid() && tp.NodeSet() <= old(tp.NodeSet())
    ensures tp.Blocks() == DropEmpty(bufs, old(tp.Blocks()))
    ensures NoneEmpty(bufs, old(tp.Blocks()), j) ==> SameFirst(tp.nodes, old(tp.nodes), j)
  {
    hide Empty, DropEmpty, Distinct, NoneEmpty, SameFirst, TabPage.Valid, TabPage.Blocks;
    ghost var keeps := NoneEmpty(bufs, tp.Blocks(), j);
    FirstStay(bufs, tp.Blocks(), tp.nodes, tp.Blocks(), tp.nodes, tp.nodes, 0, j);
    var dprev: DiffNode?, dp := null, tp.first;
    ghost var k: nat := 0;
    ghost var target := DropEmpty(bufs, tp.Blocks());
    AllFrom(tp.Blocks());
    AtFirst(tp);
    while dp != null
      invariant At(tp, k, dprev, dp) && tp.NodeSet() <= old(tp.NodeSet())
      invariant keeps ==> SameFirst(tp.nodes, old(tp.nodes), j) && NoneEmpty(bufs, tp.Blocks(), j)
      invariant tp.Blocks()[..k] + DropEmpty(bufs, tp.Blocks()[k..]) == target
      decreases |tp.nodes| - k
    {
      dprev, dp, k := DropTurn(tp, bufs, dprev, dp, old(tp.nodes), k, j);
    }
    DropNone(bufs, tp.Blocks(), k);
  }

  /** The first j blocks have lines. */
  ghost predicate NoneEmpty(bufs: Bufs, bs: seq<Block>, j: nat) {
    j <= |bs| && forall i | 0 <= i < j :: !Empty(bufs, bs[i])
  }

  /** Taking out a block that has none does not change the first j entries. */
  lemma FirstStay(bufs: Bufs, bs: seq<Block>, ns: seq<DiffNode>, bs': seq<Block>, ns': seq<DiffNode>,
                  was: seq<DiffNode>, k: nat, j: nat)
    requires |bs| == |ns|
    requires (bs' == bs && ns' == ns == was)
             || (k < |bs| && Empty(bufs, bs[k]) && bs' == bs[..k] + bs[k + 1..] && ns' == ns[..k] + ns[k + 1..])
    ensures NoneEmpty(bufs, bs, j) && (ns == was || SameFirst(ns, was, j)) ==>
              NoneEmpty(bufs, bs', j) && SameFirst(ns', was, j)
  {
    hide Empty;
  }

  lemma AllFrom(bs: seq<Block>)
    ensures bs[0..] == bs && forall rest: seq<Block> :: bs[..0] + rest == rest
  {
  }

  lemma DropNone(bufs: Bufs, bs: seq<Block>, k: nat)
    requires k == |bs|
    ensures bs[..k] + DropEmpty(bufs, bs[k..]) == bs
  {
  }

  /** `diff_mark_adjust_tp`: the list of the tab page after buffer `ed.idx` was edited. */
  method DiffMarkAdjustTp(tp: TabPage, ed: Edit, bufs: Bufs, busy: bool, opt: DiffOpt, text: Buffers, ghost j: nat := 0)
    requires tp.Valid() && 0 <= ed.idx < DB_COUNT && Sensible(opt)
    modifies tp, tp.NodeSet()
    ensures tp.Valid() && fresh(tp.NodeSet() - old(tp.NodeSet()))
    ensures tp.Blocks() == Adjust(ed, bufs, busy, old(tp.Blocks()), KeysOf(opt, text))
    ensures busy && Steady(ed, bufs, old(tp.Blocks()), KeysOf(opt, text), j) ==> SameFirst(tp.nodes, old(tp.nodes), j)
  {
    hide KeysOf, Normal, Walk, DropEmpty, Distinct, Unmerged, Empty;
    WalkList(tp, ed, bufs, busy, opt, text, j);
    DropEmptyNodes(tp, bufs, j);
  }
}

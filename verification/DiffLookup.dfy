/** The lookups in the linked list of blocks: `diff_check`, `diff_set_topline`, `diff_get_corresponding_line` and
    `diff_lnum_win` of src/nvim/diff.c. */
module DiffLookup {
  import opened LineCompare
  import opened DiffBlocks
  import opened DiffTrim
  import opened DiffDisplay
  import opened DiffLines
  import opened DiffList
  import opened Sequences

  /** Searches for the first block that ends at or below line l. */
  method FindBlock(tp: TabPage, idx: int, l: int) returns (dp: DiffNode?)
    requires tp.Valid() && 0 <= idx < DB_COUNT
    ensures BlockAt(tp.Blocks(), idx, l) == if dp == null then None else Some(dp.Value())
  {
    hide Distinct;
    ghost var bs := tp.Blocks();
    ghost var k: nat := 0;
    dp := tp.first;
    assert bs[0..] == bs;
    while dp != null && l > dp.lnum[idx] + dp.count[idx]
      invariant k <= |tp.nodes| && dp == tp.NodeAt(k)
      invariant BlockAt(bs[k..], idx, l) == BlockAt(bs, idx, l)
      decreases |tp.nodes| - k
    {
      assert bs[k..][1..] == bs[k + 1..];
      dp := dp.next;
      k := k + 1;
    }
  }

  /** The first n lines of the block are the same in buffers i and j. */
  ghost predicate SameLines(b: Block, i: int, j: int, n: int, d: Texts)
    requires 0 <= i < DB_COUNT && 0 <= j < DB_COUNT
  {
    forall l | b.lnum[i] <= l < b.lnum[i] + n :: LineKey(d, i, l) == LineKey(d, j, l - b.lnum[i] + b.lnum[j])
  }

  lemma SameLinesNext(b: Block, i: int, j: int, n: int, d: Texts)
    requires 0 <= i < DB_COUNT && 0 <= j < DB_COUNT && n >= 0 && SameLines(b, i, j, n, d)
    ensures SameLines(b, i, j, n + 1, d) <==> LineKey(d, i, b.lnum[i] + n) == LineKey(d, j, b.lnum[j] + n)
  {
    hide LineKey;
  }

  /** Whether the block is the same in the two buffers, in terms of its lines. */
  lemma EqualBy(bufs: Bufs, b: Block, i: int, j: int, d: Texts, n: int, same: bool)
    requires 0 <= i < DB_COUNT && 0 <= j < DB_COUNT && b.count[i] == b.count[j] && Sane(bufs, b, d)
    requires if same then n >= b.count[i] && SameLines(b, i, j, n, d) else n <= b.count[i] && !SameLines(b, i, j, n, d)
    ensures EqualEntry(bufs, b, i, j, d) <==> same
  {
    hide LineKey, Sane;
  }

  /** `diff_equal_entry` */
  method DiffEqualEntry(dp: DiffNode, bufs: Bufs, i: int, j: int, opt: DiffOpt, text: Buffers) returns (equal: bool)
    requires 0 <= i < DB_COUNT && 0 <= j < DB_COUNT && Sensible(opt)
    ensures equal <==> EqualEntry(bufs, dp.Value(), i, j, KeysOf(opt, text))
  {
    hide Normal, KeysOf, LineKey, Sane, EqualEntry, SameLines;
    ghost var b, d := dp.Value(), KeysOf(opt, text);
    NotEqual(bufs, b, i, j, d);
    if dp.count[i] != dp.count[j] {
      return false;
    }
    var ok := DiffCheckSanity(dp, bufs, opt, text);
    if !ok {
      return false;
    }
    var n := 0;
    NoLines(b, i, j, d);
    while n < dp.count[i]
      invariant 0 <= n && SameLines(b, i, j, n, d)
      decreases dp.count[i] - n
    {
      var differ := DiffCmp(opt, MlGetBuf(text, i, dp.lnum[i] + n), MlGetBuf(text, j, dp.lnum[j] + n));
      KeyOfLine(opt, text, i, dp.lnum[i] + n);
      KeyOfLine(opt, text, j, dp.lnum[j] + n);
      SameLinesNext(b, i, j, n, d);
      if differ {
        EqualBy(bufs, b, i, j, d, n + 1, false);
        return false;
      }
      n := n + 1;
    }
    EqualBy(bufs, b, i, j, d, n, true);
    return true;
  }

  lemma NotEqual(bufs: Bufs, b: Block, i: int, j: int, d: Texts)
    requires 0 <= i < DB_COUNT && 0 <= j < DB_COUNT
    ensures b.count[i] != b.count[j] || !Sane(bufs, b, d) ==> !EqualEntry(bufs, b, i, j, d)
  {
  }

  lemma NoLines(b: Block, i: int, j: int, d: Texts)
    requires 0 <= i < DB_COUNT && 0 <= j < DB_COUNT
    ensures SameLines(b, i, j, 0, d)
  {
  }

  /** The status of a changed or inserted line. */
  method CheckChanged(dp: DiffNode, bufs: Bufs, idx: int, opt: DiffOpt, text: Buffers) returns (status: int)
    requires idx in bufs && Sensible(opt)
    ensures status == ChangedStatus(bufs, dp.Value(), idx, KeysOf(opt, text))
  {
    hide EqualEntry, KeysOf, Normal;
    ghost var b, d := dp.Value(), KeysOf(opt, text);
    var zero, cmp := false, false;
    for i := 0 to DB_COUNT
      invariant forall j {:trigger j in bufs} | j in bufs && j < i && j != idx ::
                b.count[j] == 0 || b.count[j] == b.count[idx]
      invariant zero <==> exists j {:trigger j in bufs} :: j in bufs && j < i && j != idx && b.count[j] == 0
      invariant cmp <==> exists j {:trigger j in bufs} :: j in bufs && j < i && j != idx && b.count[j] != 0
    {
      if i != idx && i in bufs {
        if dp.count[i] == 0 {
          zero := true;
        } else {
          if dp.count[i] != dp.count[idx] {
            return -1;
          }
          cmp := true;
        }
      }
    }
    if cmp {
      for i := 0 to DB_COUNT
        invariant forall j {:trigger j in bufs} | j in bufs && j < i && j != idx && b.count[j] != 0 ::
                  EqualEntry(bufs, b, idx, j, d)
      {
        if i != idx && i in bufs && dp.count[i] != 0 {
          var equal := DiffEqualEntry(dp, bufs, idx, i, opt, text);
          if !equal {
            return -1;
          }
        }
      }
    }
    if !zero {
      return 0;
    }
    return -2;
  }

  /** The largest number of lines in a buffer. */
  method LargestCount(dp: DiffNode, bufs: Bufs) returns (m: int)
    ensures m == MaxCount(bufs, dp.Value())
  {
    m := 0;
    for i := 0 to DB_COUNT
      invariant m >= 0 && forall j {:trigger j in bufs} | j in bufs && j < i :: dp.count[j] <= m
      invariant m > 0 ==> exists j :: j in bufs && dp.count[j] == m
    {
      if i in bufs && dp.count[i] > m {
        m := dp.count[i];
      }
    }
    hide MaxCount;
  }

  /** `diff_check` */
  method CheckLine(tp: TabPage, bufs: Bufs, filler: bool, idx: int, l: int, opt: DiffOpt, text: Buffers)
      returns (n: int)
    requires tp.Valid() && idx in bufs && Sensible(opt)
    ensures n == DiffCheck(bufs, filler, tp.Blocks(), idx, l, KeysOf(opt, text))
  {
    hide KeysOf, Normal, ChangedStatus, MaxCount, Distinct, BlockAt;
    KeyOfLine(opt, text, idx, l);
    if l < 1 || l > |text[idx]| + 1 {
      return 0;
    }
    var dp := FindBlock(tp, idx, l);
    if dp == null || l < dp.lnum[idx] {
      return 0;
    }
    if l < dp.lnum[idx] + dp.count[idx] {
      n := CheckChanged(dp, bufs, idx, opt, text);
      return n;
    }
    if !filler {
      return 0;
    }
    var maxcount := LargestCount(dp, bufs);
    return maxcount - dp.count[idx];
  }

  /** The part of a window that scroll binding sets. */
  class Window {
    var topline: int
    var topfill: int
    var botfill: bool

    function Top(): View
      reads this
    {
      View(topline, topfill, botfill)
    }
  }

  /** The part of `diff_set_topline` for a top line in or just below a block. */
  method FollowBlock(dp: DiffNode, bufs: Bufs, filler: bool, fromwin: Window, from: int, towin: Window, to: int)
    requires from in bufs && to in bufs && fromwin != towin
    requires towin.topline == fromwin.topline + (dp.lnum[to] - dp.lnum[from]) && towin.topfill == 0
    modifies towin`topline, towin`topfill
    ensures (towin.topline, towin.topfill)
            == FollowIn(bufs, filler, dp.Value(), from, to, fromwin.topline, fromwin.topfill)
  {
    hide MaxCount;
    var l := fromwin.topline;
    var max := LargestCount(dp, bufs);
    if dp.count[to] == dp.count[from] {
      towin.topfill := fromwin.topfill;
    } else if dp.count[to] > dp.count[from] {
      if l == dp.lnum[from] + dp.count[from] {
        if max - fromwin.topfill >= dp.count[to] {
          towin.topline := dp.lnum[to] + dp.count[to];
          towin.topfill := fromwin.topfill;
        } else {
          towin.topline := dp.lnum[to] + max - fromwin.topfill;
        }
      }
    } else if towin.topline >= dp.lnum[to] + dp.count[to] {
      towin.topline := dp.lnum[to] + dp.count[to];
      if filler {
        if l == dp.lnum[from] + dp.count[from] {
          towin.topfill := fromwin.topfill;
        } else {
          towin.topfill := dp.lnum[from] + max - l;
        }
      }
    }
  }

  /** `diff_set_topline` up to its safety checks. */
  method FollowWindow(tp: TabPage, bufs: Bufs, filler: bool, fromwin: Window, from: int, towin: Window, to: int,
                      opt: DiffOpt, text: Buffers)
    requires tp.Valid() && from in bufs && to in bufs && fromwin != towin
    modifies towin`topline, towin`topfill
    ensures (towin.topline, towin.topfill)
         == FollowTop(bufs, filler, tp.Blocks(), from, to, fromwin.topline, fromwin.topfill, KeysOf(opt, text))
  {
    hide KeysOf, Normal, MaxCount, Distinct, BlockAt, FollowIn;
    KeyOfLine(opt, text, from, 0);
    KeyOfLine(opt, text, to, 0);
    var l := fromwin.topline;
    towin.topfill := 0;
    var dp := FindBlock(tp, from, l);
    if dp == null {
      towin.topline := |text[to]| - (|text[from]| - l);
    } else {
      towin.topline := l + (dp.lnum[to] - dp.lnum[from]);
      if l >= dp.lnum[from] {
        FollowBlock(dp, bufs, filler, fromwin, from, towin, to);
      }
    }
  }

  /** `diff_set_topline` */
  method DiffSetTopline(tp: TabPage, bufs: Bufs, filler: bool, fromwin: Window, from: int, towin: Window, to: int,
                        opt: DiffOpt, text: Buffers)
    requires tp.Valid() && from in bufs && to in bufs && fromwin != towin
    modifies towin
    ensures towin.Top() == SetTopline(bufs, filler, tp.Blocks(), from, to, fromwin.topline, fromwin.topfill,
            KeysOf(opt, text))
  {
    hide KeysOf, Normal, Distinct, FollowTop;
    KeyOfLine(opt, text, to, 0);
    FollowWindow(tp, bufs, filler, fromwin, from, towin, to, opt, text);
    towin.botfill := false;
    if towin.topline > |text[to]| {
      towin.topline := |text[to]|;
      towin.botfill := true;
    }
    if towin.topline < 1 {
      towin.topline := 1;
      towin.topfill := 0;
    }
  }

  /** `diff_get_corresponding_line` */
  method DiffGetCorrespondingLine(tp: TabPage, i: int, l: int, j: int, other: int, size: int) returns (n: int)
    requires tp.Valid() && 0 <= i < DB_COUNT && 0 <= j < DB_COUNT
    ensures n == CorrespondingLine(tp.Blocks(), i, l, j, other, size)
  {
    hide Distinct;
    if tp.first == null {
      return l;
    }
    ghost var bs := tp.Blocks();
    ghost var k: nat := 0;
    var baseline := 0;
    var dp := tp.first;
    assert bs[0..] == bs;
    while dp != null
      invariant k <= |tp.nodes| && dp == tp.NodeAt(k)
      invariant LineFrom(bs[k..], baseline, i, l, j, other, size) == LineFrom(bs, 0, i, l, j, other, size)
      decreases |tp.nodes| - k
    {
      if dp.lnum[i] > l {
        n := l - baseline;
        if n > size {
          n := size;
        }
        return n;
      } else if dp.lnum[i] + dp.count[i] > l {
        baseline := l - dp.lnum[i];
        if baseline > dp.count[j] {
          baseline := dp.count[j];
        }
        return dp.lnum[j] + baseline;
      } else if dp.lnum[i] == l && dp.count[i] == 0 && dp.lnum[j] <= other && dp.lnum[j] + dp.count[j] > other {
        return other;
      }
      assert bs[k..][1..] == bs[k + 1..];
      baseline := (dp.lnum[i] + dp.count[i]) - (dp.lnum[j] + dp.count[j]);
      dp := dp.next;
      k := k + 1;
    }
    n := l - baseline;
    if n > size {
      n := size;
    }
  }

  /** `diff_lnum_win` */
  method DiffLnumWin(tp: TabPage, i: int, l: int, j: int, sizeI: int, sizeJ: int) returns (n: int)
    requires tp.Valid() && 0 <= i < DB_COUNT && 0 <= j < DB_COUNT
    ensures n == LnumWin(tp.Blocks(), i, l, j, sizeI, sizeJ)
  {
    hide Distinct, BlockAt;
    var dp := FindBlock(tp, i, l);
    if dp == null {
      return sizeJ - (sizeI - l);
    }
    n := l + (dp.lnum[j] - dp.lnum[i]);
    if n > dp.lnum[j] + dp.count[j] {
      n := dp.lnum[j] + dp.count[j];
    }
  }
}

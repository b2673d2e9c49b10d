/** `:diffget` and `:diffput`: the loop of `ex_diffgetput` in src/nvim/diff.c over the blocks of two buffers. */
module DiffGet {
  import opened LineCompare
  import opened TextLines
  import opened DiffBlocks
  import opened Sequences

  /** The current buffer, the buffers lines are taken from and copied to, and the range of the current buffer. Without a
      range, the lines above and at the cursor are meant, and blocks are taken whole. */
  datatype Command = Command(cur: int, from: int, to: int, ranged: bool, line1: int, line2: int) {
    ghost predicate Valid() {
      0 <= from < DB_COUNT && 0 <= to < DB_COUNT && from != to && (cur == from || cur == to) && line1 <= line2
    }
  }

  // ----- replacing the lines of one block -----

  /** Deletes `count` lines at line l; `last` tells whether the last of them was the only line of the buffer. */
  function DeleteLines(lines: seq<Line>, l: int, count: int, last: bool): (seq<Line>, bool)
    decreases if count > 0 then count else 0
  {
    if count <= 0 then (lines, last) else DeleteLines(Deleted(lines, l), l, count - 1, |lines| == 1)
  }

  /** Copies `n` lines of `source` from its line `first` on to line l, after i lines have been copied; if `dummy`, the
      empty line that stands for an empty buffer goes as soon as there is another line. */
  function CopyLines(lines: seq<Line>, l: int, i: int, n: int, source: seq<Line>, first: int, dummy: bool): (seq<Line>,
                     int)
    decreases n - i
  {
    if i >= n || first + i < 1 || first + i > |source| then (lines, i)
    else
      var more := Appended(lines, l + i - 1, source[first + i - 1]);
      if dummy && |more| == 2 then CopyLines(Deleted(more, 2), l, i + 1, n, source, first, false)
      else CopyLines(more, l, i + 1, n, source, first, dummy)
  }

  /** The text after the lines of one block are replaced, and how many lines it has more. */
  function ReplaceLines(lines: seq<Line>, l: int, count: int, source: seq<Line>, first: int, n: int): (seq<Line>, int) {
    var (less, last) := DeleteLines(lines, l, count, IsEmpty(lines));
    var (more, copied) := CopyLines(less, l, 0, n, source, first, last);
    (more, copied - (if count > 0 then count else 0))
  }

  lemma {:induction false} DeleteLinesIs(lines: seq<Line>, l: int, count: nat, last: bool)
    requires 1 <= l && l + count <= |lines| + 1 && |lines| >= 1
    ensures var r := DeleteLines(lines, l, count, last);
            && r.1 == (if count == 0 then last else count == |lines|)
            && r.0 == (if count == |lines| then [""] else lines[..l - 1] + lines[l - 1 + count..])
    decreases count
  {
    hide Deleted;
    if count == 0 {
      assert lines == lines[..l - 1] + lines[l - 1..];
    } else {
      DeletedParts(lines, l, count);
      var less := Deleted(lines, l);
      DeleteLinesNext(lines, l, count, last, less);
      if |lines| > 1 {
        DeleteLinesIs(less, l, count - 1, false);
      }
    }
  }

  lemma DeleteLinesNext(lines: seq<Line>, l: int, count: nat, last: bool, less: seq<Line>)
    requires count > 0 && less == Deleted(lines, l)
    ensures DeleteLines(lines, l, count, last) == DeleteLines(less, l, count - 1, |lines| == 1)
    ensures count == 1 ==> DeleteLines(lines, l, count, last) == (less, |lines| == 1)
  {
    hide Deleted;
  }

  lemma DeletedParts(lines: seq<Line>, l: int, count: nat)
    requires 1 <= l && count > 0 && l + count <= |lines| + 1
    ensures var less := Deleted(lines, l);
            if |lines| == 1 then less == [""]
            else |less| == |lines| - 1 && less[..l - 1] == lines[..l - 1]
                 && less[l - 1 + (count - 1)..] == lines[l - 1 + count..]
  {
  }

  lemma {:induction false} CopyLinesIs(lines: seq<Line>, l: int, i: nat, n: nat, source: seq<Line>, first: int)
    requires 1 <= l && l + i <= |lines| + 1 && 1 <= first && first + n <= |source| + 1 && i <= n
    ensures var r := CopyLines(lines, l, i, n, source, first, false);
            r.1 == n && r.0 == lines[..l + i - 1] + source[first + i - 1..first + n - 1] + lines[l + i - 1..]
    decreases n - i
  {
    if i == n {
      assert lines == lines[..l + i - 1] + [] + lines[l + i - 1..];
    } else {
      var s := source[first + i - 1];
      var more := Appended(lines, l + i - 1, s);
      CopyLinesIs(more, l, i + 1, n, source, first);
      assert more[..l + i] == lines[..l + i - 1] + [s];
      assert more[l + i..] == lines[l + i - 1..];
      assert source[first + i - 1..first + n - 1] == [s] + source[first + i..first + n - 1];
    }
  }

  /** The empty line that stands for an empty buffer is replaced by the lines copied. */
  lemma DummyGoes(n: nat, source: seq<Line>, first: int)
    requires 1 <= first && first + n <= |source| + 1 && n > 0
    ensures var r := CopyLines([""], 1, 0, n, source, first, true);
            r.1 == n && r.0 == source[first - 1..first + n - 1]
  {
    var s := source[first - 1];
    var more := Appended([""], 0, s);
    assert more == [s, ""];
    var one := Deleted(more, 2);
    assert one == [s];
    CopyLinesIs(one, 1, 1, n, source, first);
    assert one[..1] == [s] && one[1..] == [];
    assert source[first - 1..first + n - 1] == [s] + source[first..first + n - 1];
  }

  /** Lines l up to l + count are replaced by lines of the source, except when the only line is empty and is not among
      them: then that line goes with the first line copied. */
  lemma ReplaceLinesIs(lines: seq<Line>, l: int, count: nat, source: seq<Line>, first: int, n: nat)
    requires 1 <= l && l + count <= |lines| + 1 && |lines| >= 1 && 1 <= first && first + n <= |source| + 1
    requires IsEmpty(lines) && count == 0 ==> n == 0
    requires count == |lines| ==> n > 0
    ensures var r := ReplaceLines(lines, l, count, source, first, n);
            r.1 == n - count && r.0 == lines[..l - 1] + source[first - 1..first + n - 1] + lines[l - 1 + count..]
  {
    hide DeleteLines, CopyLines;
    DeleteLinesIs(lines, l, count, IsEmpty(lines));
    if count == |lines| {
      DummyGoes(n, source, first);
      assert lines[..l - 1] == [] && lines[l - 1 + count..] == [];
    } else if count == 0 && IsEmpty(lines) {
      CopyNothing(lines, l, source, first, true);
      assert lines == lines[..l - 1] + [] + lines[l - 1..];
    } else {
      CopyAmong(lines[..l - 1], lines[l - 1 + count..], l, n, source, first);
    }
  }

  /** Lines are copied between x and y. */
  lemma CopyAmong(x: seq<Line>, y: seq<Line>, l: int, n: nat, source: seq<Line>, first: int)
    requires l == |x| + 1 && 1 <= first && first + n <= |source| + 1
    ensures var r := CopyLines(x + y, l, 0, n, source, first, false);
            r.1 == n && r.0 == x + source[first - 1..first + n - 1] + y
  {
    hide CopyLines;
    var less := x + y;
    CopyLinesIs(less, l, 0, n, source, first);
    assert less[..l - 1] == x && less[l - 1..] == y;
  }

  lemma CopyNothing(lines: seq<Line>, l: int, source: seq<Line>, first: int, dummy: bool)
    ensures var r := CopyLines(lines, l, 0, 0, source, first, dummy); r.0 == lines && r.1 == 0
  {
  }

  // ----- the loop over the blocks -----

  /** The test for a block in the range, which has moved by `off` lines. */
  predicate InRange(c: Command, b: Block, off: int)
    requires 0 <= c.cur < DB_COUNT
  {
    b.lnum[c.cur] <= c.line2 + off && b.End(c.cur) > c.line1 + off
  }

  /** Line l of buffer i is in the block. */
  predicate LineOf(b: Block, i: int, l: int)
    requires 0 <= i < DB_COUNT
  {
    b.lnum[i] <= l < b.End(i)
  }

  /** The block has a line in the range or, if it has none, is just below a line of the range other than the last. */
  ghost predicate Takes(c: Command, b: Block, off: int)
    requires 0 <= c.cur < DB_COUNT
  {
    if b.count[c.cur] > 0 then
      exists l :: LineOf(b, c.cur, l) && c.line1 + off <= l <= c.line2 + off
    else c.line1 + off < b.lnum[c.cur] <= c.line2 + off
  }

  /** The test finds just these blocks. */
  lemma TakesIs(c: Command, b: Block, off: int)
    requires c.Valid() && b.count[c.cur] >= 0
    ensures Takes(c, b, off) <==> InRange(c, b, off)
  {
    if InRange(c, b, off) && b.count[c.cur] > 0 {
      var l := if b.lnum[c.cur] > c.line1 + off then b.lnum[c.cur] else c.line1 + off;
      assert LineOf(b, c.cur, l) && c.line1 + off <= l <= c.line2 + off;
    }
  }

  /** The command without a range at line l of a buffer of `last` lines, where `here` and `above` are the diff status of
      line l and of the line above: `:diffget` reaches one line below the last one if these two have no difference. */
  function AtCursor(cur: int, from: int, to: int, l: int, last: int, here: int, above: int): Command {
    if cur == to && l == last && here == 0 && (l == 1 || above == 0) then Command(cur, from, to, false, l, l + 1)
    else if l > 0 then Command(cur, from, to, false, l - 1, l)
    else Command(cur, from, to, false, l, l)
  }

  /** It takes the block with the cursor line or the line above it, and one without lines just above the cursor line.
      `:diffget` on the last line takes what is just below if there is no difference at the cursor and above it. */
  lemma AtCursorTakes(cur: int, from: int, to: int, l: int, last: int, here: int, above: int, b: Block)
    requires AtCursor(cur, from, to, l, last, here, above).Valid() && 1 <= l <= last
    requires b.count[cur] >= 0 && b.End(cur) <= last + 1
    ensures var c := AtCursor(cur, from, to, l, last, here, above);
            if cur == to && l == last && here == 0 && (l > 1 ==> above == 0) then
              Takes(c, b, 0) <==> LineOf(b, cur, l) || (b.count[cur] == 0 && b.lnum[cur] == last + 1)
            else Takes(c, b, 0) <==>
              LineOf(b, cur, l) || LineOf(b, cur, l - 1) || (b.count[cur] == 0 && b.lnum[cur] == l)
  {
    TakesIs(AtCursor(cur, from, to, l, last, here, above), b, 0);
  }

  /** The range, moved by `off` lines, does not cut the block. */
  predicate Whole(c: Command, b: Block, off: int)
    requires 0 <= c.cur < DB_COUNT
  {
    c.ranged ==> c.line1 + off <= b.lnum[c.cur] && b.End(c.cur) - 1 <= c.line2 + off
  }

  /** The range cuts no block that it takes. */
  ghost predicate NoneCut(c: Command, bs: seq<Block>)
    requires 0 <= c.cur < DB_COUNT
  {
    forall i | 0 <= i < |bs| :: Takes(c, bs[i], 0) ==> Whole(c, bs[i], 0)
  }

  /** The block, moved in the target buffer by the lines added so far. */
  function Shifted(c: Command, b: Block, s: int): Block
    requires 0 <= c.to < DB_COUNT
  {
    Block(b.lnum[c.to := b.lnum[c.to] + s], b.count)
  }

  function ShiftAll(c: Command, bs: seq<Block>, s: int): (r: seq<Block>)
    requires 0 <= c.to < DB_COUNT
    ensures |r| == |bs|
  {
    if bs == [] then [] else [Shifted(c, bs[0], s)] + ShiftAll(c, bs[1..], s)
  }

  /** The blocks that are left and the text of the target buffer, when the blocks `bs` have been moved by s lines, for a
      range that cuts no block and two buffers in the diff. */
  function Get(c: Command, bs: seq<Block>, s: int, lines: seq<Line>, source: seq<Line>): (seq<Block>, seq<Line>)
    requires 0 <= c.cur < DB_COUNT && 0 <= c.from < DB_COUNT && 0 <= c.to < DB_COUNT
    decreases |bs|
  {
    if bs == [] then ([], lines)
    else
      var b := bs[0];
      if b.lnum[c.cur] > c.line2 then (ShiftAll(c, bs, s), lines)
      else if b.End(c.cur) <= c.line1 then
        var (kept, text) := Get(c, bs[1..], s, lines, source);
        ([Shifted(c, b, s)] + kept, text)
      else
        var (text, added) := ReplaceLines(lines, b.lnum[c.to] + s, b.count[c.to], source, b.lnum[c.from],
            b.count[c.from]);
        Get(c, bs[1..], s + added, text, source)
  }

  /** The blocks that are not taken, moved by the lines the taken ones add. */
  ghost function Kept(c: Command, bs: seq<Block>, s: int): seq<Block>
    requires 0 <= c.cur < DB_COUNT && 0 <= c.from < DB_COUNT && 0 <= c.to < DB_COUNT
    decreases |bs|
  {
    if bs == [] then []
    else if Takes(c, bs[0], 0) then Kept(c, bs[1..], s + bs[0].count[c.from] - bs[0].count[c.to])
    else [Shifted(c, bs[0], s)] + Kept(c, bs[1..], s)
  }

  /** The target text from line e on, with the lines of the taken blocks replaced by those of the source. */
  ghost function Patched(c: Command, e: int, bs: seq<Block>, target: seq<Line>, source: seq<Line>): seq<Line>
    requires 0 <= c.cur < DB_COUNT && 0 <= c.from < DB_COUNT && 0 <= c.to < DB_COUNT
    decreases |bs|
  {
    if bs == [] then Lines(target, e, |target| + 1)
    else
      var b := bs[0];
      Lines(target, e, b.lnum[c.to])
      + (if Takes(c, b, 0) then Lines(source, b.lnum[c.from], b.End(c.from))
          else Lines(target, b.lnum[c.to], b.End(c.to)))
      + Patched(c, b.End(c.to), bs[1..], target, source)
  }

  /** Lines a up to b. */
  function Lines(lines: seq<Line>, a: int, b: int): seq<Line> {
    if 1 <= a <= b <= |lines| + 1 then lines[a - 1..b - 1] else []
  }

  /** A buffer has at least one line. */
  function OrDummy(lines: seq<Line>): seq<Line> {
    if lines == [] then [""] else lines
  }

  /** A taken block without lines in the target is met while the text is a single empty line, which is then taken for
      the line that stands for an empty buffer. */
  predicate Misled(c: Command, bs: seq<Block>, s: int, lines: seq<Line>, source: seq<Line>)
    requires 0 <= c.cur < DB_COUNT && 0 <= c.from < DB_COUNT && 0 <= c.to < DB_COUNT
    decreases |bs|
  {
    bs != [] && bs[0].lnum[c.cur] <= c.line2 &&
    var b := bs[0];
    if b.End(c.cur) <= c.line1 then Misled(c, bs[1..], s, lines, source)
    else
      var (text, added) := ReplaceLines(lines, b.lnum[c.to] + s, b.count[c.to], source, b.lnum[c.from],
          b.count[c.from]);
      (IsEmpty(lines) && b.count[c.to] == 0 && b.count[c.from] > 0) || Misled(c, bs[1..], s + added, text, source)
  }

  /** The blocks fit the target and the source below line `e`. */
  ghost predicate Fit(c: Command, e: Vec, m: nat, bs: seq<Block>, target: seq<Line>, source: seq<Line>, d: Texts) {
    && c.Valid() && Sync(false, {c.from, c.to}, e, m, bs, d)
    && Size(d, c.to) == |target| && Size(d, c.from) == |source|
  }

  lemma FitNext(c: Command, e: Vec, m: nat, bs: seq<Block>, target: seq<Line>, source: seq<Line>, d: Texts)
    requires c.Valid() && Fit(c, e, m, bs, target, source, d) && bs != []
    ensures var b := bs[0];
            && Fit(c, b.Ends(), 1, bs[1..], target, source, d)
            && 1 <= e[c.to] && e[c.to] + m <= b.lnum[c.to] && b.End(c.to) <= |target| + 1 && b.count[c.to] >= 0
            && 1 <= e[c.from] && e[c.from] + m <= b.lnum[c.from] && b.End(c.from) <= |source| + 1
                && b.count[c.from] >= 0
            && b.lnum[c.to] - e[c.to] == b.lnum[c.from] - e[c.from]
            && (|bs| > 1 ==> b.End(c.cur) < bs[1].lnum[c.cur] && b.End(c.to) < |target| + 1)
  {
    hide SameText;
    var both: Bufs := {c.from, c.to};
    assert c.from in both && c.to in both && c.cur in both;
    EndsInRange(false, both, bs[0].Ends(), 1, bs[1..], d);
  }

  /** Past the range nothing is taken. */
  lemma {:induction false} KeptBeyond(c: Command, e: Vec, m: nat, bs: seq<Block>, s: int, target: seq<Line>,
                                      source: seq<Line>, d: Texts)
    requires c.Valid() && Fit(c, e, m, bs, target, source, d)
    requires bs != [] ==> bs[0].lnum[c.cur] > c.line2
    ensures Kept(c, bs, s) == ShiftAll(c, bs, s)
    decreases |bs|
  {
    hide Fit, Shifted;
    if bs != [] {
      FitNext(c, e, m, bs, target, source, d);
      KeptBeyond(c, bs[0].Ends(), 1, bs[1..], s, target, source, d);
    }
  }

  lemma {:induction false} PatchedBeyond(c: Command, e: Vec, m: nat, bs: seq<Block>, target: seq<Line>,
                                         source: seq<Line>, d: Texts)
    requires c.Valid() && Fit(c, e, m, bs, target, source, d) && 1 <= e[c.to] <= |target| + 1
    requires bs != [] ==> bs[0].lnum[c.cur] > c.line2
    ensures Patched(c, e[c.to], bs, target, source) == Lines(target, e[c.to], |target| + 1)
    decreases |bs|
  {
    hide Fit, Lines;
    if bs != [] {
      FitNext(c, e, m, bs, target, source, d);
      var b := bs[0];
      PatchedBeyond(c, b.Ends(), 1, bs[1..], target, source, d);
      LinesJoin(target, b.lnum[c.to], b.End(c.to), |target| + 1);
      LinesJoin(target, e[c.to], b.lnum[c.to], |target| + 1);
      Associate(Lines(target, e[c.to], b.lnum[c.to]), Lines(target, b.lnum[c.to], b.End(c.to)),
          Lines(target, b.End(c.to), |target| + 1));
    }
  }

  lemma LinesJoin(lines: seq<Line>, a: int, b: int, c: int)
    requires 1 <= a <= b <= c <= |lines| + 1
    ensures Lines(lines, a, c) == Lines(lines, a, b) + Lines(lines, b, c)
  {
  }

  // ----- the blocks that are left -----

  lemma {:induction false} CopiesAll(lines: seq<Line>, l: int, i: nat, n: nat, source: seq<Line>, first: int,
                                     dummy: bool)
    requires 1 <= first && first + n <= |source| + 1 && i <= n
    ensures CopyLines(lines, l, i, n, source, first, dummy).1 == n
    decreases n - i
  {
    if i < n {
      var more := Appended(lines, l + i - 1, source[first + i - 1]);
      CopiesAll(Deleted(more, 2), l, i + 1, n, source, first, false);
      CopiesAll(more, l, i + 1, n, source, first, dummy);
    }
  }

  /** The blocks left are those not taken, moved by the lines that were added above. */
  lemma {:induction false} GetBlocks(c: Command, e: Vec, m: nat, bs: seq<Block>, s: int,
                                     lines: seq<Line>, target: seq<Line>, source: seq<Line>, d: Texts)
    requires c.Valid() && Fit(c, e, m, bs, target, source, d) && NoneCut(c, bs)
    ensures Get(c, bs, s, lines, source).0 == Kept(c, bs, s)
    decreases |bs|
  {
    hide Fit, CopyLines, DeleteLines, Shifted, ShiftAll;
    if bs != [] {
      var b := bs[0];
      if b.lnum[c.cur] > c.line2 {
        KeptBeyond(c, e, m, bs, s, target, source, d);
        NotTaken(c, bs[0]);
      } else {
        FitNext(c, e, m, bs, target, source, d);
        TakesIs(c, b, 0);
        if Takes(c, b, 0) {
          var l := b.lnum[c.to] + s;
          var (less, last) := DeleteLines(lines, l, b.count[c.to], IsEmpty(lines));
          CopiesAll(less, l, 0, b.count[c.from], source, b.lnum[c.from], last);
          var (text, added) := ReplaceLines(lines, l, b.count[c.to], source, b.lnum[c.from], b.count[c.from]);
          GetBlocks(c, b.Ends(), 1, bs[1..], s + added, text, target, source, d);
        } else {
          GetBlocks(c, b.Ends(), 1, bs[1..], s, lines, target, source, d);
        }
      }
    }
  }

  lemma NotTaken(c: Command, b: Block)
    requires c.Valid() && b.lnum[c.cur] > c.line2
    ensures !Takes(c, b, 0)
  {
  }

  // ----- the text -----

  /** What is copied below the last line is lost. */
  lemma {:induction false} CopyBeyond(lines: seq<Line>, l: int, i: nat, n: nat, source: seq<Line>, first: int,
                                      dummy: bool)
    requires l + i - 1 > |lines| && (dummy ==> |lines| == 1)
    ensures CopyLines(lines, l, i, n, source, first, dummy).0 == lines
    decreases n - i
  {
    if i < n && !(first + i < 1 || first + i > |source|) {
      CopyBeyond(lines, l, i + 1, n, source, first, dummy);
    }
  }

  /** The text is longer by the lines of the taken blocks. */
  lemma {:induction false} PatchedSize(c: Command, e: Vec, m: nat, bs: seq<Block>, target: seq<Line>, source: seq<Line>,
                                       d: Texts)
    requires c.Valid() && Fit(c, e, m, bs, target, source, d) && 1 <= e[c.to] <= |target| + 1
    requires forall k | 0 <= k < |bs| :: bs[k].count[c.to] == 0
    ensures |Patched(c, e[c.to], bs, target, source)| >= |target| + 1 - e[c.to]
    decreases |bs|
  {
    hide Fit;
    if bs != [] {
      FitNext(c, e, m, bs, target, source, d);
      PatchedSize(c, bs[0].Ends(), 1, bs[1..], target, source, d);
    }
  }

  /** Once a line is missing, with at most one line of the target left, what follows stays missing. */
  lemma StaysShort(c: Command, e: Vec, bs: seq<Block>, s: int, lines: seq<Line>, target: seq<Line>, source: seq<Line>,
                   d: Texts)
    requires c.Valid() && Fit(c, e, 1, bs, target, source, d)
    requires 1 <= e[c.to] && |target| <= e[c.to] <= |target| + 1 && |lines| < |target| + s
    ensures Get(c, bs, s, lines, source).1 == lines
    ensures |Patched(c, e[c.to], bs, target, source)| >= |target| + 1 - e[c.to]
  {
    hide Fit, Patched, Lines;
    if bs != [] {
      FitNext(c, e, 1, bs, target, source, d);
      var b := bs[0];
      assert b.count[c.to] == 0 && bs[1..] == [];
      CopyBeyond(lines, b.lnum[c.to] + s, 0, b.count[c.from], source, b.lnum[c.from], IsEmpty(lines));
    }
    PatchedSize(c, e, 1, bs, target, source, d);
  }

  /** When the empty line is not the one that stands for an empty buffer, the copy loses it or all that is copied. */
  lemma DummyLoses(l: int, n: nat, source: seq<Line>, first: int)
    requires 1 <= l <= 2 && 1 <= first && first + n <= |source| + 1 && n > 0
    ensures |ReplaceLines([""], l, 0, source, first, n).0| == (if l == 1 then n else 1)
  {
    if l == 1 {
      DummyGoes(n, source, first);
    } else {
      var more := Appended([""], 1, source[first - 1]);
      assert Deleted(more, 2) == [""];
      CopyBeyond([""], 2, 1, n, source, first, false);
    }
  }

  /** The text of the target so far: `top` is done, the lines from line `e` of the original text on are not. */
  ghost predicate Partial(c: Command, e: Vec, s: int, top: seq<Line>, lines: seq<Line>, target: seq<Line>)
    requires 0 <= c.to < DB_COUNT
  {
    && 1 <= e[c.to] <= |target| + 1 && |top| == e[c.to] - 1 + s && |lines| >= 1
    && lines == top + Lines(target, e[c.to], |target| + 1)
  }

  lemma PartialSkip(c: Command, b: Block, e: Vec, s: int, top: seq<Line>, lines: seq<Line>, target: seq<Line>)
    requires c.Valid() && Partial(c, e, s, top, lines, target) && e[c.to] <= b.End(c.to) <= |target| + 1
    ensures Partial(c, b.Ends(), s, top + Lines(target, e[c.to], b.End(c.to)), lines, target)
  {
    LinesJoin(target, e[c.to], b.End(c.to), |target| + 1);
    Associate(top, Lines(target, e[c.to], b.End(c.to)), Lines(target, b.End(c.to), |target| + 1));
  }

  /** Around the lines of a block. */
  lemma PartialAround(c: Command, b: Block, e: Vec, s: int, top: seq<Line>, lines: seq<Line>, target: seq<Line>)
    requires c.Valid() && Partial(c, e, s, top, lines, target)
    requires e[c.to] <= b.lnum[c.to] && b.count[c.to] >= 0 && b.End(c.to) <= |target| + 1
    ensures var l := b.lnum[c.to] + s;
            && 1 <= l && l + b.count[c.to] <= |lines| + 1 && |lines| == |target| + s
            && lines[..l - 1] == top + Lines(target, e[c.to], b.lnum[c.to])
            && lines[l - 1 + b.count[c.to]..] == Lines(target, b.End(c.to), |target| + 1)
  {
    hide Partial, Lines;
    PartialIs(c, e, s, top, lines, target);
    var (x, y, z) := (Lines(target, e[c.to], b.lnum[c.to]), Lines(target, b.lnum[c.to], b.End(c.to)),
        Lines(target, b.End(c.to), |target| + 1));
    LinesJoin(target, e[c.to], b.lnum[c.to], |target| + 1);
    LinesJoin(target, b.lnum[c.to], b.End(c.to), |target| + 1);
    LinesSize(target, e[c.to], b.lnum[c.to]);
    LinesSize(target, b.lnum[c.to], b.End(c.to));
    LinesSize(target, b.End(c.to), |target| + 1);
    Associate(top, x, y + z);
    TakeDrop(top + x, y, z);
  }

  lemma TakeDrop<T>(a: seq<T>, b: seq<T>, c: seq<T>)
    ensures (a + (b + c))[..|a|] == a && (a + (b + c))[|a| + |b|..] == c
  {
  }

  /** The step that takes a block. */
  lemma PartialTake(c: Command, b: Block, e: Vec, s: int, top: seq<Line>, lines: seq<Line>, target: seq<Line>,
                    source: seq<Line>)
    requires c.Valid() && Partial(c, e, s, top, lines, target)
    requires e[c.to] <= b.lnum[c.to] && b.count[c.to] >= 0 && b.End(c.to) <= |target| + 1
    requires 1 <= b.lnum[c.from] && b.count[c.from] >= 0 && b.End(c.from) <= |source| + 1
    requires !(IsEmpty(lines) && b.count[c.to] == 0 && b.count[c.from] > 0)
    requires !(b.count[c.to] == |lines| && b.count[c.from] == 0)
    ensures var (text, added) :=
            ReplaceLines(lines, b.lnum[c.to] + s, b.count[c.to], source, b.lnum[c.from], b.count[c.from]);
            && added == b.count[c.from] - b.count[c.to]
            && Partial(c, b.Ends(), s + added,
                       top + Lines(target, e[c.to], b.lnum[c.to]) + Lines(source, b.lnum[c.from], b.End(c.from)), text,
                           target)
  {
    hide ReplaceLines, Partial, Lines;
    PartialIs(c, e, s, top, lines, target);
    PartialAround(c, b, e, s, top, lines, target);
    var (l, n, first) := (b.lnum[c.to] + s, b.count[c.from], b.lnum[c.from]);
    ReplaceLinesIs(lines, l, b.count[c.to], source, first, n);
    LinesSize(target, e[c.to], b.lnum[c.to]);
    LinesAre(source, first, n);
    var (text, added) := ReplaceLines(lines, l, b.count[c.to], source, first, n);
    PartialMade(c, b, s + added, top + Lines(target, e[c.to], b.lnum[c.to]) + Lines(source, first, first + n), text,
        target);
  }

  lemma LinesAre(lines: seq<Line>, a: int, n: nat)
    requires 1 <= a && a + n <= |lines| + 1
    ensures Lines(lines, a, a + n) == lines[a - 1..a + n - 1] && |Lines(lines, a, a + n)| == n
  {
  }

  lemma PartialMade(c: Command, b: Block, s: int, top: seq<Line>, lines: seq<Line>, target: seq<Line>)
    requires c.Valid() && 1 <= b.End(c.to) <= |target| + 1 && |top| == b.End(c.to) - 1 + s
    requires lines == top + Lines(target, b.End(c.to), |target| + 1) && |lines| >= 1
    ensures Partial(c, b.Ends(), s, top, lines, target)
  {
  }

  /** The step that is misled. */
  lemma MisledLoses(c: Command, e: Vec, m: nat, bs: seq<Block>, s: int, top: seq<Line>, lines: seq<Line>,
                    target: seq<Line>, source: seq<Line>, d: Texts)
    requires c.Valid() && Fit(c, e, m, bs, target, source, d) && Partial(c, e, s, top, lines, target)
    requires bs != [] && Takes(c, bs[0], 0) && IsEmpty(lines) && bs[0].count[c.to] == 0 && bs[0].count[c.from] > 0
    ensures |Get(c, bs, s, lines, source).1| < |top + Patched(c, e[c.to], bs, target, source)|
  {
    hide Fit, Lines, Partial, ReplaceLines, Patched;
    var b := bs[0];
    FitNext(c, e, m, bs, target, source, d);
    PartialIs(c, e, s, top, lines, target);
    LinesSize(target, e[c.to], |target| + 1);
    assert |lines| == 1 && lines == [""] && |target| + s == 1;
    var (l, n) := (b.lnum[c.to] + s, b.count[c.from]);
    DummyLoses(l, n, source, b.lnum[c.from]);
    ReplaceAdds(l, source, b.lnum[c.from], n);
    var (text, added) := ReplaceLines(lines, l, 0, source, b.lnum[c.from], n);
    StaysShort(c, b.Ends(), bs[1..], s + added, text, target, source, d);
    PatchedTaken(c, e[c.to], bs, target, source);
    GetTaken(c, bs, s, lines, source);
  }

  lemma PatchedTaken(c: Command, e: int, bs: seq<Block>, target: seq<Line>, source: seq<Line>)
    requires c.Valid() && bs != [] && Takes(c, bs[0], 0) && bs[0].count[c.to] == 0 && bs[0].count[c.from] >= 0
    requires 1 <= e <= bs[0].lnum[c.to] <= |target| + 1 && 1 <= bs[0].lnum[c.from] && bs[0].End(c.from) <= |source| + 1
    ensures |Patched(c, e, bs, target, source)|
            == bs[0].lnum[c.to] - e + bs[0].count[c.from] + |Patched(c, bs[0].End(c.to), bs[1..], target, source)|
  {
  }

  lemma GetTaken(c: Command, bs: seq<Block>, s: int, lines: seq<Line>, source: seq<Line>)
    requires c.Valid() && bs != [] && Takes(c, bs[0], 0) && bs[0].count[c.to] == 0 && bs[0].count[c.cur] >= 0
    ensures var (text, added) :=
            ReplaceLines(lines, bs[0].lnum[c.to] + s, 0, source, bs[0].lnum[c.from], bs[0].count[c.from]);
            Get(c, bs, s, lines, source).1 == Get(c, bs[1..], s + added, text, source).1
  {
    hide ReplaceLines, ShiftAll;
    TakesIs(c, bs[0], 0);
  }

  lemma ReplaceAdds(l: int, source: seq<Line>, first: int, n: nat)
    requires 1 <= first && first + n <= |source| + 1
    ensures ReplaceLines([""], l, 0, source, first, n).1 == n
  {
    CopiesAll([""], l, 0, n, source, first, true);
  }

  lemma LinesSize(lines: seq<Line>, a: int, b: int)
    requires 1 <= a <= b <= |lines| + 1
    ensures |Lines(lines, a, b)| == b - a
  {
  }

  lemma PartialIs(c: Command, e: Vec, s: int, top: seq<Line>, lines: seq<Line>, target: seq<Line>)
    requires c.Valid() && Partial(c, e, s, top, lines, target)
    ensures lines == top + Lines(target, e[c.to], |target| + 1) && |lines| >= 1 && 1 <= e[c.to] <= |target| + 1
            && |top| == e[c.to] - 1 + s
  {
  }

  /** The lines of the taken blocks have been replaced, exactly when the loop was not misled. */
  lemma {:induction false} GetText(c: Command, e: Vec, m: nat, bs: seq<Block>, s: int, top: seq<Line>, lines: seq<Line>,
                                   target: seq<Line>, source: seq<Line>, d: Texts)
    requires c.Valid() && Fit(c, e, m, bs, target, source, d) && Partial(c, e, s, top, lines, target) && NoneCut(c, bs)
    ensures Get(c, bs, s, lines, source).1 == OrDummy(top + Patched(c, e[c.to], bs, target, source))
            <==> !Misled(c, bs, s, lines, source)
    decreases |bs|
  {
    hide Fit, Lines, ReplaceLines, Partial;
    PartialIs(c, e, s, top, lines, target);
    if bs == [] {
    } else if bs[0].lnum[c.cur] > c.line2 {
      PatchedBeyond(c, e, m, bs, target, source, d);
    } else if !Takes(c, bs[0], 0) {
      TextSkip(c, e, m, bs, s, top, lines, target, source, d);
      TakesIs(c, bs[0], 0);
      GetText(c, bs[0].Ends(), 1, bs[1..], s, top + Lines(target, e[c.to], bs[0].End(c.to)), lines, target, source, d);
    } else if IsEmpty(lines) && bs[0].count[c.to] == 0 && bs[0].count[c.from] > 0 {
      MisledLoses(c, e, m, bs, s, top, lines, target, source, d);
    } else if bs[0].count[c.to] == |lines| && bs[0].count[c.from] == 0 {
      TextGone(c, e, m, bs, s, top, lines, target, source, d);
    } else {
      TextTake(c, e, m, bs, s, top, lines, target, source, d);
      TakesIs(c, bs[0], 0);
      var b := bs[0];
      var (text, added) := ReplaceLines(lines, b.lnum[c.to] + s, b.count[c.to], source, b.lnum[c.from],
          b.count[c.from]);
      GetText(c, b.Ends(), 1, bs[1..], s + added,
          top + Lines(target, e[c.to], b.lnum[c.to]) + Lines(source, b.lnum[c.from], b.End(c.from)),
              text, target, source, d);
    }
  }

  lemma TextSkip(c: Command, e: Vec, m: nat, bs: seq<Block>, s: int, top: seq<Line>, lines: seq<Line>,
                 target: seq<Line>, source: seq<Line>, d: Texts)
    requires c.Valid() && Fit(c, e, m, bs, target, source, d) && Partial(c, e, s, top, lines, target)
    requires bs != [] && !Takes(c, bs[0], 0)
    ensures var b := bs[0];
            var more := top + Lines(target, e[c.to], b.End(c.to));
            && b.count[c.cur] >= 0 && Fit(c, b.Ends(), 1, bs[1..], target, source, d)
            && Partial(c, b.Ends(), s, more, lines, target)
            && top + Patched(c, e[c.to], bs, target, source) == more + Patched(c, b.End(c.to), bs[1..], target, source)
  {
    hide Fit, Partial, Lines;
    var b := bs[0];
    FitNext(c, e, m, bs, target, source, d);
    PartialIs(c, e, s, top, lines, target);
    PartialSkip(c, b, e, s, top, lines, target);
    var (x, y) := (Lines(target, e[c.to], b.lnum[c.to]), Lines(target, b.lnum[c.to], b.End(c.to)));
    LinesJoin(target, e[c.to], b.lnum[c.to], b.End(c.to));
    Associate(top, x + y, Patched(c, b.End(c.to), bs[1..], target, source));
  }

  lemma TextTake(c: Command, e: Vec, m: nat, bs: seq<Block>, s: int, top: seq<Line>, lines: seq<Line>,
                 target: seq<Line>, source: seq<Line>, d: Texts)
    requires c.Valid() && Fit(c, e, m, bs, target, source, d) && Partial(c, e, s, top, lines, target)
    requires bs != [] && Takes(c, bs[0], 0)
    requires !(IsEmpty(lines) && bs[0].count[c.to] == 0 && bs[0].count[c.from] > 0)
    requires !(bs[0].count[c.to] == |lines| && bs[0].count[c.from] == 0)
    ensures var b := bs[0];
            var more := top + Lines(target, e[c.to], b.lnum[c.to]) + Lines(source, b.lnum[c.from], b.End(c.from));
            var (text, added) := ReplaceLines(lines, b.lnum[c.to] + s, b.count[c.to], source, b.lnum[c.from],
                b.count[c.from]);
            && b.count[c.cur] >= 0 && Fit(c, b.Ends(), 1, bs[1..], target, source, d)
            && Partial(c, b.Ends(), s + added, more, text, target)
            && top + Patched(c, e[c.to], bs, target, source) == more + Patched(c, b.End(c.to), bs[1..], target, source)
  {
    hide Fit, Partial, Lines, ReplaceLines;
    var b := bs[0];
    FitNext(c, e, m, bs, target, source, d);
    PartialIs(c, e, s, top, lines, target);
    PartialTake(c, b, e, s, top, lines, target, source);
    Associate4(top, Lines(target, e[c.to], b.lnum[c.to]), Lines(source, b.lnum[c.from], b.End(c.from)),
               Patched(c, b.End(c.to), bs[1..], target, source));
  }

  lemma Associate4<T>(a: seq<T>, b: seq<T>, c: seq<T>, d: seq<T>)
    ensures a + (b + c + d) == (a + b + c) + d
  {
  }

  /** All lines of the target go and none are copied: one empty line stays. */
  lemma TextGone(c: Command, e: Vec, m: nat, bs: seq<Block>, s: int, top: seq<Line>, lines: seq<Line>,
                 target: seq<Line>, source: seq<Line>, d: Texts)
    requires c.Valid() && Fit(c, e, m, bs, target, source, d) && Partial(c, e, s, top, lines, target)
    requires bs != [] && Takes(c, bs[0], 0) && bs[0].count[c.to] == |lines| && bs[0].count[c.from] == 0
    ensures Get(c, bs, s, lines, source).1 == [""] && !Misled(c, bs, s, lines, source)
    ensures top + Patched(c, e[c.to], bs, target, source) == []
  {
    hide Fit, Partial, ReplaceLines, Lines, Get, Misled, Patched;
    var b := bs[0];
    FitNext(c, e, m, bs, target, source, d);
    PartialIs(c, e, s, top, lines, target);
    LinesSize(target, e[c.to], |target| + 1);
    assert b.lnum[c.to] + s == 1 && e[c.to] == b.lnum[c.to] && b.End(c.to) == |target| + 1 && bs[1..] == [];
    ReplaceByNone(lines, source, b.lnum[c.from]);
    GetGone(c, bs, s, lines, source);
    PatchedGone(c, e[c.to], bs, target, source);
  }

  lemma GetGone(c: Command, bs: seq<Block>, s: int, lines: seq<Line>, source: seq<Line>)
    requires c.Valid() && bs != [] && bs[1..] == [] && Takes(c, bs[0], 0) && bs[0].count[c.to] > 0
             && bs[0].count[c.cur] >= 0
    ensures var text := ReplaceLines(lines, bs[0].lnum[c.to] + s, bs[0].count[c.to], source, bs[0].lnum[c.from],
            bs[0].count[c.from]).0;
            Get(c, bs, s, lines, source).1 == text && !Misled(c, bs, s, lines, source)
  {
    hide ReplaceLines, ShiftAll;
    TakesIs(c, bs[0], 0);
    var r := ReplaceLines(lines, bs[0].lnum[c.to] + s, bs[0].count[c.to], source, bs[0].lnum[c.from],
        bs[0].count[c.from]);
    assert Get(c, [], s + r.1, r.0, source).1 == r.0 && !Misled(c, [], s + r.1, r.0, source);
  }

  lemma PatchedGone(c: Command, e: int, bs: seq<Block>, target: seq<Line>, source: seq<Line>)
    requires c.Valid() && bs != [] && bs[1..] == [] && Takes(c, bs[0], 0) && bs[0].count[c.from] == 0
    requires 1 <= e == bs[0].lnum[c.to] && bs[0].End(c.to) == |target| + 1 && bs[0].count[c.to] >= 0
    ensures Patched(c, e, bs, target, source) == []
  {
  }

  lemma ReplaceByNone(lines: seq<Line>, source: seq<Line>, first: int)
    requires |lines| >= 1
    ensures ReplaceLines(lines, 1, |lines|, source, first, 0).0 == [""]
  {
    hide DeleteLines;
    DeleteLinesIs(lines, 1, |lines|, IsEmpty(lines));
  }
}

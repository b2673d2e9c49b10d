/** `:move` and `:copy`: `do_move` and `ex_copy` of src/nvim/ex_cmds.c. */
module MoveCopy {
  import opened LineCompare
  import opened TextLines
  import opened Highlights
  import opened Marks
  import opened Sequences

  // ----- what :move is for -----

  /** Lines line1 to line2 go below line dest, which is not among them. */
  datatype Move = Move(line1: int, line2: int, dest: int) {
    ghost predicate Legal(size: int) {
      1 <= line1 <= line2 <= size && 0 <= dest <= size && !Within()
    }

    /** The lines would move into themselves. */
    predicate Within() { line1 <= dest < line2 }

    function Count(): int { line2 - line1 + 1 }
  }

  /** The text after the move. */
  function MovedText(m: Move, lines: seq<Line>): seq<Line>
    requires m.Legal(|lines|)
  {
    if m.dest >= m.line2 then
      lines[..m.line1 - 1] + lines[m.line2..m.dest] + lines[m.line1 - 1..m.line2] + lines[m.dest..]
    else
      lines[..m.dest] + lines[m.line1 - 1..m.line2] + lines[m.dest..m.line1 - 1] + lines[m.line2..]
  }

  /** Where line l goes. */
  function MovedLine(m: Move, l: int): int {
    if m.line1 <= l <= m.line2 then
      (if m.dest >= m.line2 then l + m.dest - m.line2 else l + m.dest + 1 - m.line1)
    else if m.line2 < l <= m.dest then l - m.Count()
    else if m.dest < l < m.line1 then l + m.Count()
    else l
  }

  /** The move permutes the lines, and takes each line to where MovedLine says. */
  lemma MovePermutes(m: Move, lines: seq<Line>, l: int)
    requires m.Legal(|lines|) && 1 <= l <= |lines|
    ensures |MovedText(m, lines)| == |lines| && 1 <= MovedLine(m, l) <= |lines|
    ensures MovedText(m, lines)[MovedLine(m, l) - 1] == lines[l - 1]
    ensures forall k | k != l :: MovedLine(m, k) != MovedLine(m, l)
  {
  }

  /** The moved lines stay together, just below line dest, and the others keep their order. */
  lemma MovedWhere(m: Move, size: int, k: int, l: int)
    requires m.Legal(size) && 1 <= k < l <= size
    ensures m.line1 <= k && l <= m.line2 ==> MovedLine(m, l) - MovedLine(m, k) == l - k
    ensures if m.dest == m.line2 then MovedLine(m, l) == l
            else if m.dest == 0 then MovedLine(m, m.line1) == 1
            else MovedLine(m, m.line1) == MovedLine(m, m.dest) + 1
    ensures (k < m.line1 || k > m.line2) && (l < m.line1 || l > m.line2) ==> MovedLine(m, k) < MovedLine(m, l)
  {
  }

  // ----- the three adjustments of the marks -----

  /** The marks of the moved lines go below the last line of the text, which now has the lines twice. */
  function Away(m: Move, size: int): Shift {
    Shift(m.line1, m.line2, size + m.Count() - m.line2, 0)
  }

  /** The marks of the lines between the old and the new place go over. */
  function Over(m: Move): Shift {
    if m.dest >= m.line2 then Shift(m.line2 + 1, m.dest, -m.Count(), 0)
        else Shift(m.dest + 1, m.line1 - 1, m.Count(), 0)
  }

  /** The marks of the moved lines come back. */
  function Back(m: Move, size: int): Shift {
    var last := size + m.Count();
    Shift(last - m.Count() + 1, last, -(last - m.dest - (if m.dest < m.line1 then m.Count() else 0)), 0)
  }

  /** The three adjustments together. */
  function AdjustedThrice(m: Move, size: int, l: int): int {
    Adjusted(Back(m, size), Adjusted(Over(m), Adjusted(Away(m, size), l)))
  }

  /** Where line l is after each of them. */
  lemma AwayIs(m: Move, size: int, l: int)
    requires m.Legal(size) && size + m.Count() < MAXLNUM
    ensures Adjusted(Away(m, size), l) == if m.line1 <= l <= m.line2 then l + size + m.Count() - m.line2 else l
  {
  }

  lemma OverIs(m: Move, l: int)
    requires m.Count() < MAXLNUM && m.Count() > 0
    ensures Adjusted(Over(m), l) == if m.dest >= m.line2 then (if m.line2 < l <= m.dest then l - m.Count() else l)
                                    else if m.dest < l < m.line1 then l + m.Count() else l
  {
  }

  lemma BackIs(m: Move, size: int, l: int)
    requires m.Legal(size) && size + m.Count() < MAXLNUM
    ensures Adjusted(Back(m, size), l) ==
              if size < l <= size + m.Count() then l - size + (if m.dest >= m.line2 then m.dest - m.Count() else m.dest)
                  else l
  {
  }

  /** For marks on existing lines, the three adjustments are the permutation of the lines, and no two marks meet in
      between. */
  lemma AdjustmentsMove(m: Move, size: int, l: int)
    requires m.Legal(size) && 1 <= l <= size && size + m.Count() < MAXLNUM
    ensures AdjustedThrice(m, size, l) == MovedLine(m, l)
    ensures forall k | 1 <= k <= size && k != l ::
              && Adjusted(Away(m, size), k) != Adjusted(Away(m, size), l)
              && Adjusted(Over(m), Adjusted(Away(m, size), k)) != Adjusted(Over(m), Adjusted(Away(m, size), l))
              && AdjustedThrice(m, size, k) != AdjustedThrice(m, size, l)
  {
    hide Adjusted, Away, Over, Back;
    StepsOf(m, size, l);
    forall k | 1 <= k <= size && k != l
      ensures Adjusted(Away(m, size), k) != Adjusted(Away(m, size), l)
              && Adjusted(Over(m), Adjusted(Away(m, size), k)) != Adjusted(Over(m), Adjusted(Away(m, size), l))
              && AdjustedThrice(m, size, k) != AdjustedThrice(m, size, l)
    {
      StepsOf(m, size, k);
    }
  }

  /** Lines of the text, after each adjustment. */
  lemma StepsOf(m: Move, size: int, l: int)
    requires m.Legal(size) && 1 <= l <= size && size + m.Count() < MAXLNUM
    ensures Adjusted(Away(m, size), l) == if m.line1 <= l <= m.line2 then l + size + m.Count() - m.line2 else l
    ensures Adjusted(Over(m), Adjusted(Away(m, size), l)) == if m.line1 <= l <= m.line2
            then l + size + m.Count() - m.line2 else MovedLine(m, l)
    ensures AdjustedThrice(m, size, l) == MovedLine(m, l)
  {
    hide Adjusted, Away, Over, Back;
    AwayIs(m, size, l);
    OverIs(m, Adjusted(Away(m, size), l));
    BackIs(m, size, Adjusted(Over(m), Adjusted(Away(m, size), l)));
  }

  /** Lines below the end of the text can have highlights too. Those of two lines are taken for one when one of them is
      moved and the other is where its marks are kept meanwhile. */
  ghost predicate Meets(m: Move, size: int, keys: set<int>) {
    exists k {:trigger k in keys} :: k in keys && m.line1 <= k <= m.line2 && k + size + m.Count() - m.line2 in keys
  }

  /** Line k is one of them. */
  predicate Crowded(m: Move, size: int, keys: set<int>, k: int) {
    var n := size + m.Count() - m.line2;
    (m.line1 <= k <= m.line2 && k + n in keys) || (m.line1 <= k - n <= m.line2 && k - n in keys)
  }

  /** A line of the text is one of them only if it is moved. */
  lemma CrowdedIs(m: Move, size: int, keys: set<int>, k: int)
    requires m.Legal(size)
    ensures !Meets(m, size, keys) && k in keys ==> !Crowded(m, size, keys, k)
    ensures Crowded(m, size, keys, k) && k <= size ==> m.line1 <= k <= m.line2 && k + size + m.Count() - m.line2 in keys
  {
  }

  lemma NotCrowded(m: Move, size: int, keys: set<int>, k: int)
    requires m.Legal(size) && size + m.Count() < MAXLNUM && !Crowded(m, size, keys, k)
    ensures Alone(Away(m, size), keys, k)
  {
    hide Adjusted, Away;
    AwayIs(m, size, k);
    forall l | l in keys && l != k ensures Adjusted(Away(m, size), l) != Adjusted(Away(m, size), k) {
      AwayIs(m, size, l);
    }
  }

  lemma AwayMeets(m: Move, size: int, keys: set<int>)
    requires m.Legal(size) && size + m.Count() < MAXLNUM
    ensures OneToOne(Away(m, size), keys) <==> !Meets(m, size, keys)
  {
    hide Adjusted, Away;
    var s := Away(m, size);
    NoneDeleted(m, size);
    forall l ensures Adjusted(s, l) == if m.line1 <= l <= m.line2 then l + size + m.Count() - m.line2 else l {
      AwayIs(m, size, l);
    }
    if k :| k in keys && m.line1 <= k <= m.line2 && k + size + m.Count() - m.line2 in keys {
      assert Adjusted(s, k) == Adjusted(s, k + size + m.Count() - m.line2);
    }
  }

  /** After the first adjustment no mark is on the moved lines, and after the second none where they go: no marks meet.
      */
  lemma OverBackApart(m: Move, size: int, keys: set<int>)
    requires m.Legal(size) && size + m.Count() < MAXLNUM
    ensures OneToOne(Over(m), Image(Away(m, size), keys))
    ensures OneToOne(Back(m, size), Image(Over(m), Image(Away(m, size), keys)))
  {
    hide Adjusted, Away, Over, Back;
    var away := Image(Away(m, size), keys);
    forall k | k in away ensures !(m.line1 <= k <= m.line2) {
      var l :| l in keys && k == Adjusted(Away(m, size), l);
      AwayIs(m, size, l);
    }
    forall k ensures Adjusted(Over(m), k) == if m.dest >= m.line2
        then (if m.line2 < k <= m.dest then k - m.Count() else k)
                                             else if m.dest < k < m.line1 then k + m.Count() else k
    {
      OverIs(m, k);
    }
    var over := Image(Over(m), away);
    forall k | k in over ensures !(if m.dest >= m.line2 then m.dest - m.Count() < k <= m.dest
        else m.dest < k <= m.dest + m.Count()) {
      var l :| l in away && k == Adjusted(Over(m), l);
    }
    forall k ensures Adjusted(Back(m, size), k) ==
                       if size < k <= size + m.Count()
                           then k - size + (if m.dest >= m.line2 then m.dest - m.Count() else m.dest) else k
    {
      BackIs(m, size, k);
    }
  }

  /** The lines with highlights after the three adjustments. */
  ghost function MovedKeys(m: Move, size: int, keys: set<int>): set<int> {
    Image(Back(m, size), Image(Over(m), Image(Away(m, size), keys)))
  }

  /** Fewer lines have highlights exactly when two are taken for one. */
  lemma MovedKeysSize(m: Move, size: int, keys: set<int>)
    requires m.Legal(size) && size + m.Count() < MAXLNUM
    ensures |MovedKeys(m, size, keys)| < |keys| <==> Meets(m, size, keys)
    ensures |MovedKeys(m, size, keys)| <= |keys|
  {
    hide Adjusted, Away, Over, Back, Image, OneToOne, Meets;
    NoneDeleted(m, size);
    var away := Image(Away(m, size), keys);
    var over := Image(Over(m), away);
    AwayMeets(m, size, keys);
    OverBackApart(m, size, keys);
    ImageSize(Away(m, size), keys);
    ImageSize(Over(m), away);
    ImageSize(Back(m, size), over);
  }

  /** Of three lines, the first is moved below the last. Highlights of line 1 and of line 4, which does not exist,
      become those of one line. */
  lemma SampleMeets()
    ensures var m := Move(1, 1, 3); m.Legal(3) && Meets(m, 3, {1, 4}) && |MovedKeys(m, 3, {1, 4})| < |{1, 4}|
  {
    var m := Move(1, 1, 3);
    assert 1 in {1, 4} && 1 + 3 + m.Count() - m.line2 in {1, 4};
    MovedKeysSize(m, 3, {1, 4});
  }

  // ----- :move -----

  lemma Carried(m: Move, size: int, h0: map<int, HlVector>, h1: map<int, HlVector>, h2: map<int, HlVector>, h3: map<int,
                HlVector>)
    requires m.Legal(size) && size + m.Count() < MAXLNUM
    requires Carries(Away(m, size), h0, h1) && Carries(Over(m), h1, h2) && Carries(Back(m, size), h2, h3)
    requires OneToOne(Over(m), h1.Keys) && OneToOne(Back(m, size), h2.Keys)
    ensures forall k {:trigger k in h0} | k in h0 && !Crowded(m, size, h0.Keys, k) ::
              AdjustedThrice(m, size, k) in h3 && h3[AdjustedThrice(m, size, k)] == h0[k]
  {
    hide Adjusted, Image, Away, Over, Back, Crowded;
    NoneDeleted(m, size);
    forall k | k in h0 && !Crowded(m, size, h0.Keys, k) ensures Alone(Away(m, size), h0.Keys, k) {
      NotCrowded(m, size, h0.Keys, k);
    }
  }

  lemma NothingMoves(s: Shift, keys: set<int>)
    requires s.line2 < s.line1 && s.after == 0
    ensures Image(s, keys) == keys
    ensures forall l :: Adjusted(s, l) == l && !s.Deletes(l)
  {
    forall l ensures Adjusted(s, l) == l && !s.Deletes(l) {
    }
    forall k | k in keys ensures k in Image(s, keys) {
      assert Adjusted(s, k) == k && !s.Deletes(k);
    }
    forall k | k in Image(s, keys) ensures k in keys {
      var l :| l in keys && !s.Deletes(l) && Adjusted(s, l) == k;
      assert l == k;
    }
  }

  /** The text with j lines, from line `first` on, copied below line n. */
  function Copied(lines: seq<Line>, n: int, first: int, j: int): seq<Line>
    requires 0 <= n <= |lines| && 1 <= first && 0 <= j && first - 1 + j <= |lines|
  {
    lines[..n] + lines[first - 1..first - 1 + j] + lines[n..]
  }

  lemma CopiedNone(lines: seq<Line>, n: int, first: int)
    requires 0 <= n <= |lines| && 1 <= first <= |lines| + 1
    ensures Copied(lines, n, first, 0) == lines
  {
  }

  /** One more line is copied; where it stands depends on whether it is above or below line n. */
  lemma CopyOne(lines: seq<Line>, n: int, first: int, j: int)
    requires 0 <= n <= |lines| && 1 <= first && 0 <= j && first + j <= |lines|
    ensures var now := Copied(lines, n, first, j);
            var at := if first + j <= n then first + j else first + j + j;
            && |now| == |lines| + j && 1 <= at <= |now| && now[at - 1] == lines[first + j - 1]
            && Appended(now, n + j, now[at - 1]) == Copied(lines, n, first, j + 1)
  {
    var (a, b, c) := (lines[..n], lines[first - 1..first - 1 + j], lines[n..]);
    var s := lines[first + j - 1];
    assert lines[first - 1..first + j] == b + [s];
    StandsAt(lines, n, first, j);
    AppendedBetween(a, b, s, c);
  }

  lemma AppendedBetween(a: seq<Line>, b: seq<Line>, s: Line, c: seq<Line>)
    ensures Appended(a + b + c, |a| + |b|, s) == a + (b + [s]) + c
  {
    assert (a + b + c)[..|a| + |b|] == a + b && (a + b + c)[|a| + |b|..] == c;
  }

  lemma StandsAt(lines: seq<Line>, n: int, first: int, j: int)
    requires 0 <= n <= |lines| && 1 <= first && 0 <= j && first + j <= |lines|
    ensures var now := Copied(lines, n, first, j);
            var at := if first + j <= n then first + j else first + j + j;
            |now| == |lines| + j && 1 <= at <= |now| && now[at - 1] == lines[first + j - 1]
  {
  }

  /** A buffer with its marks, and the cursor of the window it is in. */
  class Document {
    const text: Buffer
    const signs: SignList
    const highlights: BufferHighlights
    var cursor: int
    var opStart: int
    var opEnd: int

    constructor (text: Buffer, signs: SignList, highlights: BufferHighlights, cursor: int)
      ensures this.text == text && this.signs == signs && this.highlights == highlights && this.cursor == cursor
    {
      this.text, this.signs, this.highlights, this.cursor, opStart, opEnd := text, signs, highlights, cursor, 0, 0;
    }

    /** `mark_adjust`, as far as signs and highlights are concerned. */
    method MarkAdjust(s: Shift)
      requires signs.Valid()
      modifies signs.nodes, highlights
      ensures signs.Valid() && |signs.Lines()| == |old(signs.Lines())|
      ensures forall i | 0 <= i < |signs.Lines()| :: signs.Lines()[i] == Adjusted(s, old(signs.Lines())[i])
      ensures highlights.info.Keys == Image(s, old(highlights.info.Keys))
      ensures Carries(s, old(highlights.info), highlights.info)
    {
      if s.line2 < s.line1 && s.after == 0 {
        NothingMoves(s, highlights.info.Keys);
        return;
      }
      signs.SignMarkAdjust(s);
      BufhlMarkAdjust(highlights, s);
    }

    /** The lines are copied to their new place; `extra` lines were added above line1. */
    method CopyAway(m: Move) returns (extra: int)
      requires m.Legal(|text.lines|)
      modifies text
      ensures text.lines == Copied(old(text.lines), m.dest, m.line1, m.Count())
      ensures extra == if m.dest < m.line1 then m.Count() else 0
    {
      hide Copied, Appended;
      ghost var was := text.lines;
      extra := 0;
      var l := m.line1;
      CopiedNone(was, m.dest, m.line1);
      while l <= m.line2
        invariant m.line1 <= l <= m.line2 + 1
        invariant extra == if m.dest < m.line1 then l - m.line1 else 0
        invariant text.lines == Copied(was, m.dest, m.line1, l - m.line1)
      {
        CopyOne(was, m.dest, m.line1, l - m.line1);
        var str := text.MlGet(l + extra);
        text.MlAppend(m.dest + l - m.line1, str);
        if m.dest < m.line1 {
          extra := extra + 1;
        }
        l := l + 1;
      }
    }

    /** The old lines are deleted. */
    method DeleteOld(l: int, count: int)
      requires 1 <= l && 0 <= count < |text.lines| && l - 1 + count <= |text.lines|
      modifies text
      ensures text.lines == old(text.lines)[..l - 1] + old(text.lines)[l - 1 + count..]
    {
      ghost var was := text.lines;
      assert was == was[..l - 1] + was[l - 1..];
      for i := 0 to count
        invariant text.lines == was[..l - 1] + was[l - 1 + i..]
      {
        text.MlDelete(l);
      }
    }

    /** The marks follow the moved lines, which are the text operated on. */
    method MoveMarks(m: Move, size: int)
      requires signs.Valid() && m.Legal(size) && size + m.Count() < MAXLNUM
      modifies signs.nodes, highlights, this`opStart, this`opEnd
      ensures opStart == MovedLine(m, m.line1) && opEnd == MovedLine(m, m.line2)
      ensures signs.Valid() && |signs.Lines()| == |old(signs.Lines())|
      ensures forall i | 0 <= i < |signs.Lines()| :: signs.Lines()[i] == AdjustedThrice(m, size, old(signs.Lines())[i])
      ensures forall k {:trigger k in old(highlights.info)} | k in old(highlights.info)
              && !Crowded(m, size, old(highlights.info.Keys), k) ::
                  AdjustedThrice(m, size, k) in highlights.info
                      && highlights.info[AdjustedThrice(m, size, k)] == old(highlights.info[k])
      ensures |highlights.info| < |old(highlights.info)| <==> Meets(m, size, old(highlights.info.Keys))
    {
      hide Adjusted, OneToOne, Image, Meets, Away, Over, Back, Carries, Crowded;
      ghost var h0 := highlights.info;
      MovedKeysSize(m, size, h0.Keys);
      AwayMeets(m, size, h0.Keys);
      OverBackApart(m, size, h0.Keys);
      MarkAdjust(Away(m, size));
      ghost var h1 := highlights.info;
      MarkAdjust(Over(m));
      ghost var h2 := highlights.info;
      if m.dest >= m.line2 {
        opStart, opEnd := m.dest - m.Count() + 1, m.dest;
      } else {
        opStart, opEnd := m.dest + 1, m.dest + m.Count();
      }
      MarkAdjust(Back(m, size));
      Carried(m, size, h0, h1, h2, highlights.info);
    }

    /** `do_move` */
    method DoMove(m: Move) returns (ok: bool)
      requires signs.Valid() && 1 <= m.line1 <= m.line2 <= |text.lines| && 0 <= m.dest <= |text.lines|
      requires |text.lines| + m.Count() < MAXLNUM
      modifies this, text, signs.nodes, highlights
      ensures ok <==> !m.Within()
      ensures signs.Valid() && |signs.Lines()| == |old(signs.Lines())|
      ensures !ok ==> cursor == old(cursor) && text.lines == old(text.lines) && signs.Lines() == old(signs.Lines())
                      && highlights.info == old(highlights.info) && opStart == old(opStart) && opEnd == old(opEnd)
      ensures ok ==> text.lines == MovedText(m, old(text.lines)) && cursor == MovedLine(m, m.line2)
      ensures ok ==> opStart == MovedLine(m, m.line1) && opEnd == MovedLine(m, m.line2)
      ensures ok ==> forall i | 0 <= i < |signs.Lines()| && 1 <= old(signs.Lines())[i] <= |text.lines| ::
                       signs.Lines()[i] == MovedLine(m, old(signs.Lines())[i])
      ensures ok ==>
                forall k {:trigger k in old(highlights.info)}
                  | k in old(highlights.info) && 1 <= k <= |text.lines|
                    && !Crowded(m, |text.lines|, old(highlights.info.Keys), k) ::
                  MovedLine(m, k) in highlights.info && highlights.info[MovedLine(m, k)] == old(highlights.info[k])
      ensures ok ==> (|highlights.info| < |old(highlights.info)|
              <==> Meets(m, |old(text.lines)|, old(highlights.info.Keys)))
    {
      hide MovedText, MovedLine, AdjustedThrice, Copied, Meets, Crowded, SignList.Valid, SignList.NodeAt, Distinct;
      if m.dest >= m.line1 && m.dest < m.line2 {
        return false;
      }
      ghost var was, h0 := text.lines, highlights.info;
      MoveText(m, was);
      var extra := CopyAway(m);
      var size := |text.lines| - m.Count();
      MoveMarks(m, size);
      DeleteOld(m.line1 + extra, m.Count());
      cursor := if m.dest >= m.line1 then m.dest else m.dest + (m.line2 - m.line1) + 1;
      LastMoved(m, size);
      Thrice(m, size);
      ThriceMap(m, size, h0, highlights.info);
      return true;
    }
  }

  lemma MoveText(m: Move, lines: seq<Line>)
    requires m.Legal(|lines|)
    ensures var now := Copied(lines, m.dest, m.line1, m.Count());
            var l := m.line1 + (if m.dest < m.line1 then m.Count() else 0);
            && |now| == |lines| + m.Count() && l - 1 + m.Count() <= |now|
            && now[..l - 1] + now[l - 1 + m.Count()..] == MovedText(m, lines)
  {
  }

  lemma NoneDeleted(m: Move, size: int)
    requires m.Legal(size) && size + m.Count() < MAXLNUM
    ensures forall l :: !Away(m, size).Deletes(l) && !Over(m).Deletes(l) && !Back(m, size).Deletes(l)
  {
    forall l ensures !Away(m, size).Deletes(l) && !Over(m).Deletes(l) && !Back(m, size).Deletes(l) {
    }
  }

  lemma LastMoved(m: Move, size: int)
    requires m.Legal(size)
    ensures MovedLine(m, m.line2) == if m.dest >= m.line1 then m.dest else m.dest + (m.line2 - m.line1) + 1
  {
  }

  lemma ThriceMap(m: Move, size: int, was: map<int, HlVector>, now: map<int, HlVector>)
    requires m.Legal(size) && size + m.Count() < MAXLNUM
    requires forall k {:trigger k in was} | k in was && !Crowded(m, size, was.Keys, k) ::
               AdjustedThrice(m, size, k) in now && now[AdjustedThrice(m, size, k)] == was[k]
    ensures forall k {:trigger k in was} | k in was && 1 <= k <= size && !Crowded(m, size, was.Keys, k) ::
              MovedLine(m, k) in now && now[MovedLine(m, k)] == was[k]
  {
    hide AdjustedThrice, MovedLine, Crowded;
    Thrice(m, size);
  }

  lemma Thrice(m: Move, size: int)
    requires m.Legal(size) && size + m.Count() < MAXLNUM
    ensures forall l | 1 <= l <= size :: AdjustedThrice(m, size, l) == MovedLine(m, l)
  {
    hide AdjustedThrice;
    forall l | 1 <= l <= size ensures AdjustedThrice(m, size, l) == MovedLine(m, l) {
      AdjustmentsMove(m, size, l);
    }
  }

  // ----- :copy -----

  /** The loop of `ex_copy`: the lines are read while they shift. */
  method CopyLoop(d: Document, first: int, last: int, n: int)
    requires 1 <= first <= last <= |d.text.lines| && 0 <= n <= |d.text.lines|
    modifies d`cursor, d.text
    ensures d.text.lines == Copied(old(d.text.lines), n, first, last - first + 1)
    ensures d.cursor == n + last - first + 1
  {
    hide Copied, Appended;
    var line1, line2 := first, last;
    ghost var was := d.text.lines;
    d.cursor := n;
    ghost var j := 0;
    CopiedNone(was, n, first);
    while line1 <= line2
      invariant 0 <= j <= last - first + 1
      invariant line1 == if first + j <= n then first + j else first + j + j
      invariant line2 == if n < last then last + j else last
      invariant d.cursor == n + j && d.text.lines == Copied(was, n, first, j)
      decreases last - first + 1 - j
    {
      CopyOne(was, n, first, j);
      var p := d.text.MlGet(line1);
      d.text.MlAppend(d.cursor, p);
      if line1 == n {
        line1 := d.cursor;
      }
      line1 := line1 + 1;
      if d.cursor < line1 {
        line1 := line1 + 1;
      }
      if d.cursor < line2 {
        line2 := line2 + 1;
      }
      d.cursor := d.cursor + 1;
      j := j + 1;
    }
  }

  /** `ex_copy`: lines first to last are copied below line n, which may be among them. */
  method ExCopy(d: Document, first: int, last: int, n: int)
    requires 1 <= first <= last <= |d.text.lines| < MAXLNUM && 0 <= n <= |d.text.lines|
    requires d.signs.Valid()
    modifies d, d.text, d.signs.nodes, d.highlights
    ensures d.text.lines == old(d.text.lines)[..n] + old(d.text.lines)[first - 1..last] + old(d.text.lines)[n..]
    ensures d.cursor == n + last - first + 1 && d.opStart == n + 1 && d.opEnd == n + last - first + 1
    ensures d.signs.Valid() && |d.signs.Lines()| == |old(d.signs.Lines())|
    ensures forall i | 0 <= i < |d.signs.Lines()| && old(d.signs.Lines())[i] < MAXLNUM ::
              d.signs.Lines()[i] == CopiedLine(n, last - first + 1, old(d.signs.Lines())[i])
    ensures (forall k | k in old(d.highlights.info) :: k < MAXLNUM) ==>
              forall k {:trigger k in old(d.highlights.info)} | k in old(d.highlights.info) ::
                var l := CopiedLine(n, last - first + 1, k);
                l in d.highlights.info && d.highlights.info[l] == old(d.highlights.info[k])
  {
    hide Copied, Adjusted, OneToOne, Image, CopiedLine, Distinct, Carries;
    ghost var was := d.highlights.info;
    CopiedIs(d.text.lines, n, first, last);
    d.opStart, d.opEnd := n + 1, n + (last - first + 1);
    CopyLoop(d, first, last, n);
    var s := Shift(n + 1, MAXLNUM, last - first + 1, 0);
    ShiftDown(s, n, last - first + 1, d.highlights.info.Keys);
    d.MarkAdjust(s);
    if forall k | k in was :: k < MAXLNUM {
      CarriesAll(s, was, d.highlights.info);
    }
  }

  lemma ShiftDown(s: Shift, n: int, count: int, keys: set<int>)
    requires s == Shift(n + 1, MAXLNUM, count, 0) && 0 < count < MAXLNUM
    ensures forall l | l < MAXLNUM :: Adjusted(s, l) == CopiedLine(n, count, l) && !s.Deletes(l)
    ensures (forall k | k in keys :: k < MAXLNUM) ==> OneToOne(s, keys)
  {
    forall l | l < MAXLNUM ensures Adjusted(s, l) == CopiedLine(n, count, l) && !s.Deletes(l) {
    }
  }

  /** Where line l of the text is after `count` lines are added below line n. */
  function CopiedLine(n: int, count: int, l: int): int {
    if l > n then l + count else l
  }

  lemma CopiedIs(lines: seq<Line>, n: int, first: int, last: int)
    requires 0 <= n <= |lines| && 1 <= first <= last <= |lines|
    ensures Copied(lines, n, first, last - first + 1) == lines[..n] + lines[first - 1..last] + lines[n..]
  {
  }

  /** The lines of the text stay with their marks, and the new lines are those copied. */
  lemma CopyKeeps(lines: seq<Line>, first: int, last: int, n: int, l: int)
    requires 1 <= first <= last <= |lines| && 0 <= n <= |lines|
    ensures var now := lines[..n] + lines[first - 1..last] + lines[n..];
            && (1 <= l <= |lines| ==> now[CopiedLine(n, last - first + 1, l) - 1] == lines[l - 1])
            && (first <= l <= last ==> now[n + l - first] == lines[l - 1])
  {
  }
}

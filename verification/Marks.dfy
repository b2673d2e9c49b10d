/** What marks on lines do when lines are inserted, deleted or moved: `sign_mark_adjust` and `bufhl_mark_adjust` of
    src/nvim/buffer.c. */
module Marks {
  import DiffBlocks
  import opened Highlights
  import opened Sequences

  const MAXLNUM: int := DiffBlocks.MAXLNUM

  /** The arguments of `mark_adjust`: lines line1 to line2 move by `amount` lines, or are deleted if that is MAXLNUM,
      and the lines below move by `after`. */
  datatype Shift = Shift(line1: int, line2: int, amount: int, after: int) {
    predicate Covers(l: int) { line1 <= l <= line2 }

    predicate Deletes(l: int) { Covers(l) && amount == MAXLNUM }
  }

  /** Where line l is after the shift; a deleted line's sign goes to the first line of the range. */
  function Adjusted(s: Shift, l: int): int {
    if s.Deletes(l) then s.line1
    else if s.Covers(l) then l + s.amount
    else if l > s.line2 then l + s.after
    else l
  }

  /** The adjustment for lines line1 to line2 being deleted takes every other line to where it is then. */
  lemma DeletionFollows<T>(text: seq<T>, line1: int, line2: int, l: int)
    requires 1 <= line1 <= line2 <= |text| && 1 <= l <= |text|
    ensures var s := Shift(line1, line2, MAXLNUM, -(line2 - line1 + 1));
            var now := text[..line1 - 1] + text[line2..];
            && (s.Deletes(l) <==> line1 <= l <= line2) && (s.Deletes(l) ==> Adjusted(s, l) == line1)
            && (!s.Deletes(l) ==>
                  && 1 <= Adjusted(s, l) <= |now| && now[Adjusted(s, l) - 1] == text[l - 1]
                  && (Adjusted(s, l) < line1 <==> l < line1))
  {
  }

  /** The adjustment for `more` lines being inserted below line n takes every line to where it is then. */
  lemma InsertionFollows<T>(text: seq<T>, n: int, more: seq<T>, l: int)
    requires 0 <= n <= |text| < MAXLNUM && |more| < MAXLNUM && 1 <= l <= |text|
    ensures var s := Shift(n + 1, MAXLNUM, |more|, 0);
            var now := text[..n] + more + text[n..];
            && !s.Deletes(l) && 1 <= Adjusted(s, l) <= |now| && now[Adjusted(s, l) - 1] == text[l - 1]
            && (Adjusted(s, l) <= n <==> l <= n) && Adjusted(s, l) == Adjusted(Shift(n + 1, n, MAXLNUM, |more|), l)
  {
  }

  /** signlist_T */
  class Sign {
    const id: int
    var lnum: int
    var next: Sign?

    constructor (id: int, lnum: int, next: Sign?)
      ensures this.id == id && this.lnum == lnum && this.next == next
    {
      this.id, this.lnum, this.next := id, lnum, next;
    }
  }

  /** The signs placed in a buffer. */
  class SignList {
    var first: Sign?
    ghost var nodes: seq<Sign>

    ghost function NodeAt(k: nat): Sign?
      reads this
    {
      if k < |nodes| then nodes[k] else null
    }

    ghost function NodeSet(): set<Sign>
      reads this
    {
      set n | n in nodes
    }

    ghost predicate Valid()
      reads this, nodes
    {
      && first == NodeAt(0)
      && (forall i {:trigger nodes[i].next} | 0 <= i < |nodes| :: nodes[i].next == NodeAt(i + 1))
      && Distinct(nodes)
    }

    /** The line numbers of the signs. */
    ghost function Lines(): (ls: seq<int>)
      reads this, nodes
      ensures |ls| == |nodes| && forall i | 0 <= i < |ls| :: ls[i] == nodes[i].lnum
    {
      seq(|nodes|, i requires 0 <= i < |nodes| reads this, nodes => nodes[i].lnum)
    }

    /** `sign_mark_adjust` */
    method SignMarkAdjust(s: Shift)
      requires Valid()
      modifies nodes
      ensures Valid() && |Lines()| == |old(Lines())|
      ensures forall i | 0 <= i < |Lines()| :: Lines()[i] == Adjusted(s, old(Lines())[i])
    {
      var sign := first;
      ghost var k: nat := 0;
      while sign != null
        invariant Valid() && k <= |nodes| && sign == NodeAt(k)
        invariant forall i | 0 <= i < k :: nodes[i].lnum == Adjusted(s, old(nodes[i].lnum))
        invariant forall i {:trigger nodes[i].lnum} | k <= i < |nodes| :: nodes[i].lnum == old(nodes[i].lnum)
        decreases |nodes| - k
      {
        if sign.lnum >= s.line1 && sign.lnum <= s.line2 {
          if s.amount == MAXLNUM {
            sign.lnum := s.line1;
          } else {
            sign.lnum := sign.lnum + s.amount;
          }
        } else if sign.lnum > s.line2 {
          sign.lnum := sign.lnum + s.after;
        }
        sign := sign.next;
        k := k + 1;
      }
    }
  }

  /** No two of the lines that are kept come to the same line. */
  ghost predicate OneToOne(s: Shift, keys: set<int>) {
    forall k, l | k in keys && l in keys && k != l && !s.Deletes(k) && !s.Deletes(l) :: Adjusted(s, k) != Adjusted(s, l)
  }

  ghost function Image(s: Shift, keys: set<int>): set<int> {
    set k | k in keys && !s.Deletes(k) :: Adjusted(s, k)
  }

  /** No other line that is kept comes to the same line as k. */
  ghost predicate Alone(s: Shift, keys: set<int>, k: int) {
    forall l {:trigger l in keys} | l in keys && l != k && !s.Deletes(l) :: Adjusted(s, l) != Adjusted(s, k)
  }

  /** The map after the shift has what was in the map before, for all lines that are alone. */
  ghost predicate Carries(s: Shift, was: map<int, HlVector>, now: map<int, HlVector>) {
    && now.Keys == Image(s, was.Keys)
    && forall k {:trigger k in was} | k in was && !s.Deletes(k) && Alone(s, was.Keys, k) ::
         Adjusted(s, k) in now && now[Adjusted(s, k)] == was[k]
  }

  lemma CarriesAll(s: Shift, was: map<int, HlVector>, now: map<int, HlVector>)
    requires Carries(s, was, now) && OneToOne(s, was.Keys)
    ensures forall k {:trigger k in was} | k in was && !s.Deletes(k) ::
            Adjusted(s, k) in now && now[Adjusted(s, k)] == was[k]
  {
    hide Adjusted;
  }

  lemma ImageMore(s: Shift, done: set<int>, line: int)
    ensures Image(s, done + {line}) == Image(s, done) + (if s.Deletes(line) then {} else {Adjusted(s, line)})
  {
    hide Adjusted;
  }

  /** A shift that deletes nothing makes lines fewer exactly when it takes two for one. */
  lemma {:induction false} ImageSize(s: Shift, keys: set<int>)
    requires forall k :: !s.Deletes(k)
    ensures |Image(s, keys)| <= |keys|
    ensures |Image(s, keys)| == |keys| <==> OneToOne(s, keys)
    decreases keys
  {
    hide Adjusted;
    if keys != {} {
      NotEmpty(keys);
      var k :| k in keys;
      var rest := keys - {k};
      assert rest + {k} == keys;
      ImageMore(s, rest, k);
      ImageSize(s, rest);
      if l :| l in rest && Adjusted(s, l) == Adjusted(s, k) {
        assert Adjusted(s, k) in Image(s, rest);
        assert Image(s, rest) + {Adjusted(s, k)} == Image(s, rest);
      } else {
        assert Adjusted(s, k) !in Image(s, rest);
      }
    }
  }

  /** The new map holds the lines that are done. */
  ghost predicate Holds(s: Shift, was: map<int, HlVector>, done: set<int>, newmap: map<int, HlVector>) {
    && newmap.Keys == Image(s, done)
    && forall k {:trigger k in done} | k in done && k in was && !s.Deletes(k) && Alone(s, was.Keys, k) ::
        newmap[Adjusted(s, k)] == was[k]
  }

  lemma HoldsMore(s: Shift, was: map<int, HlVector>, done: set<int>, line: int, newmap: map<int, HlVector>)
    requires Holds(s, was, done, newmap) && line in was && line !in done && done <= was.Keys
    ensures Holds(s, was, done + {line}, if s.Deletes(line) then newmap else newmap[Adjusted(s, line) := was[line]])
  {
    hide Adjusted;
    ImageMore(s, done, line);
    var more := if s.Deletes(line) then newmap else newmap[Adjusted(s, line) := was[line]];
    forall k | k in done + {line} && k in was && !s.Deletes(k) && Alone(s, was.Keys, k) ensures Adjusted(s, k) in more
        && more[Adjusted(s, k)] == was[k] {
      if k != line {
        assert k in done && Adjusted(s, k) in Image(s, done);
      }
    }
  }

  lemma NotEmpty(s: set<int>)
    requires s != {}
    ensures exists k :: k in s
  {
    assert (forall k :: k !in s) ==> s == {};
  }

  /** `bufhl_mark_adjust`: the lines are visited in the order of a hash table. The vectors of deleted lines, which the
      original frees, are just not kept. */
  method BufhlMarkAdjust(hl: BufferHighlights, s: Shift)
    modifies hl
    ensures hl.info.Keys == Image(s, old(hl.info.Keys))
    ensures Carries(s, old(hl.info), hl.info)
  {
    ghost var was := hl.info;
    var newmap: map<int, HlVector> := map[];
    var todo := hl.info.Keys;
    while todo != {}
      invariant hl.info == was && todo <= was.Keys && Holds(s, was, was.Keys - todo, newmap)
      decreases todo
    {
      NotEmpty(todo);
      var line :| line in todo;
      HoldsMore(s, was, was.Keys - todo, line, newmap);
      if !(s.line1 <= line <= s.line2 && s.amount == MAXLNUM) {
        var to := if s.line1 <= line <= s.line2 then line + s.amount else if line > s.line2 then line + s.after
            else line;
        newmap := newmap[to := hl.info[line]];
      }
      assert was.Keys - todo + {line} == was.Keys - (todo - {line});
      todo := todo - {line};
    }
    assert todo == {} && was.Keys - todo == was.Keys;
    hl.info := newmap;
  }
}

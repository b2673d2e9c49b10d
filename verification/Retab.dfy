/** `:retab`: `ex_retab` of src/nvim/ex_cmds.c. */
module Retab {
  import opened LineCompare
  import opened TextLines

  const TAB: char := '\t'

  /** What characters other than white space look like: some number of cells each. */
  type Display = char -> seq<char>

  function Blanks(n: nat): (s: seq<char>)
    ensures |s| == n
  {
    seq(n, i requires 0 <= i < n => ' ')
  }

  /** The width of a tab at virtual column v. */
  function TabSize(ts: nat, v: nat): (n: nat)
    requires ts > 0
    ensures 1 <= n <= ts
  {
    ts - v % ts
  }

  /** A TAB ends at the first tab stop past the column at which it starts. */
  lemma TabStops(ts: nat, v: nat, i: nat)
    requires ts > 0 && 0 < i <= TabSize(ts, v)
    ensures (v + i) % ts == 0 <==> i == TabSize(ts, v)
  {
    var q := v / ts;
    assert v == ts * q + v % ts;
    if i == TabSize(ts, v) {
      assert v + i == ts * (q + 1);
      RemainderIs(v + i, ts, q + 1, 0);
    } else {
      RemainderIs(v + i, ts, q, v % ts + i);
    }
  }

  /** The cells of one character at virtual column v. */
  function Cells(show: Display, ts: nat, v: nat, c: char): seq<char>
    requires ts > 0
  {
    if c == TAB then Blanks(TabSize(ts, v)) else if c == ' ' then [' '] else show(c)
  }

  /** The cells of a line whose first character is at virtual column v. */
  function Expand(show: Display, ts: nat, v: nat, s: Line): seq<char>
    requires ts > 0
    decreases |s|
  {
    if s == [] then []
    else
      var cells := Cells(show, ts, v, s[0]);
      cells + Expand(show, ts, v + |cells|, s[1..])
  }

  /** The line without its white space. */
  function Words(s: Line): Line {
    if s == [] then [] else (if White(s[0]) then [] else [s[0]]) + Words(s[1..])
  }

  // ----- lines in parts -----

  lemma {:induction false} ExpandConcat(show: Display, ts: nat, v: nat, a: Line, b: Line)
    requires ts > 0
    ensures var left := Expand(show, ts, v, a); Expand(show, ts, v, a + b) == left + Expand(show, ts, v + |left|, b)
    decreases |a|
  {
    hide Cells;
    if a == [] {
      assert a + b == b;
    } else {
      var cells := Cells(show, ts, v, a[0]);
      ExpandConcat(show, ts, v + |cells|, a[1..], b);
      assert (a + b)[1..] == a[1..] + b;
    }
  }

  lemma {:induction false} WordsConcat(a: Line, b: Line)
    ensures Words(a + b) == Words(a) + Words(b)
  {
    hide White;
    if a == [] {
      assert a + b == b && Words(a) == [];
    } else {
      WordsConcat(a[1..], b);
      assert (a + b)[1..] == a[1..] + b && (a + b)[0] == a[0];
      WordsOne(a[0], a[1..], b);
    }
  }

  lemma WordsOne(c: char, a: Line, b: Line)
    requires Words(a + b) == Words(a) + Words(b)
    ensures (if White(c) then [] else [c]) + Words(a + b) == ((if White(c) then [] else [c]) + Words(a)) + Words(b)
  {
  }

  predicate AllBlank(s: Line) { forall i | 0 <= i < |s| :: White(s[i]) }

  lemma {:induction false} BlankExpands(show: Display, ts: nat, v: nat, s: Line)
    requires ts > 0 && AllBlank(s)
    ensures var n := |Expand(show, ts, v, s)|; Expand(show, ts, v, s) == Blanks(n)
    ensures Words(s) == []
    ensures TAB !in s ==> |Expand(show, ts, v, s)| == |s|
    decreases |s|
  {
    hide Cells;
    if s != [] {
      var cells := Cells(show, ts, v, s[0]);
      BlankCells(show, ts, v, s[0]);
      BlankExpands(show, ts, v + |cells|, s[1..]);
      assert Expand(show, ts, v, s) == cells + Expand(show, ts, v + |cells|, s[1..]);
    }
  }

  lemma BlankCells(show: Display, ts: nat, v: nat, c: char)
    requires ts > 0 && White(c)
    ensures var cells := Cells(show, ts, v, c); cells == Blanks(|cells|) && (c != TAB ==> |cells| == 1)
  {
  }

  /** n characters c. */
  function Run(c: char, n: nat): (s: Line)
    ensures |s| == n && forall i | 0 <= i < n :: s[i] == c
  {
    seq(n, i requires 0 <= i < n => c)
  }

  lemma {:induction false} SpacesExpand(show: Display, ts: nat, v: nat, n: nat)
    requires ts > 0
    ensures |Expand(show, ts, v, Run(' ', n))| == n
  {
    BlankExpands(show, ts, v, Run(' ', n));
  }

  lemma Distribute(n: nat, ts: nat)
    ensures (n + 1) * ts == n * ts + ts
  {
  }

  lemma AtLeast(ts: int, k: int)
    requires ts > 0 && k >= 1
    ensures ts * k >= ts
  {
  }

  lemma RemainderIs(x: int, ts: int, q: int, r: int)
    requires ts > 0 && 0 <= r < ts && x == ts * q + r
    ensures x % ts == r && x / ts == q
  {
    var p := x / ts;
    assert x == ts * p + x % ts;
    Distributes(ts, q, p);
    if q > p {
      AtLeast(ts, q - p);
    } else if p > q {
      AtLeast(ts, p - q);
    }
  }

  lemma Distributes(ts: int, q: int, p: int)
    ensures ts * (q - p) == ts * q - ts * p && ts * (p - q) == ts * p - ts * q
  {
  }

  /** A tab ends at a tab stop. */
  lemma NextStop(v: nat, n: nat, ts: nat)
    requires ts > 0 && n == ts - v % ts
    ensures (v + n) % ts == 0
  {
    var q := v / ts;
    assert v == ts * q + v % ts;
    Distribute(q, ts);
    RemainderIs(v + n, ts, q + 1, 0);
  }

  /** Tabs from a tab stop on. */
  lemma {:induction false} TabsExpand(show: Display, ts: nat, v: nat, n: nat)
    requires ts > 0 && v % ts == 0
    ensures |Expand(show, ts, v, Run(TAB, n))| == n * ts
    decreases n
  {
    if n > 0 {
      assert Run(TAB, n)[1..] == Run(TAB, n - 1);
      NextStop(v, ts, ts);
      TabsExpand(show, ts, v + ts, n - 1);
      Distribute(n - 1, ts);
    }
  }

  // ----- one run of white space -----

  lemma TabsAndSpaces(show: Display, ts: nat, v: nat, tabs: nat, spaces: nat)
    requires ts > 0
    ensures |Expand(show, ts, v, Run(TAB, tabs) + Run(' ', spaces))|
            == (if tabs == 0 then 0 else TabSize(ts, v) + (tabs - 1) * ts) + spaces
  {
    hide TabSize;
    ExpandConcat(show, ts, v, Run(TAB, tabs), Run(' ', spaces));
    SpacesExpand(show, ts, v + |Expand(show, ts, v, Run(TAB, tabs))|, spaces);
    FirstTab(show, ts, v, tabs);
  }

  lemma FirstTab(show: Display, ts: nat, v: nat, tabs: nat)
    requires ts > 0
    ensures |Expand(show, ts, v, Run(TAB, tabs))| == (if tabs == 0 then 0 else TabSize(ts, v) + (tabs - 1) * ts)
  {
    if tabs > 0 {
      assert Run(TAB, tabs)[1..] == Run(TAB, tabs - 1);
      NextStop(v, TabSize(ts, v), ts);
      TabsExpand(show, ts, v + TabSize(ts, v), tabs - 1);
    }
  }

  // ----- what the command makes of a line -----

  /** The tab stops in force before and after the command, 'expandtab', and whether the command has a `!`. */
  datatype Options = Options(oldTs: nat, newTs: nat, expandtab: bool, force: bool) {
    predicate Valid() { oldTs > 0 && newTs > 0 }
  }

  /** A tab for every tab stop in the columns from v up to v + len, and spaces after the last one. */
  function TabsFor(o: Options, v: nat, len: nat): nat
    requires o.Valid()
  {
    if o.expandtab || (v + len) / o.newTs <= v / o.newTs then 0 else (v + len) / o.newTs - v / o.newTs
  }

  function SpacesFor(o: Options, v: nat, len: nat): nat
    requires o.Valid()
  {
    if TabsFor(o, v, len) == 0 then len else (v + len) % o.newTs
  }

  /** What becomes of white space that goes from column v up to v + len: it is made anew if it has a TAB, or if the
      command has a `!` and it is more than one space, when that makes it shorter or there are to be no TABs. */
  function Remade(o: Options, v: nat, len: nat, run: Line): Line
    requires o.Valid()
  {
    if TAB in run || (o.force && |run| > 1 && (o.expandtab || TabsFor(o, v, len) + SpacesFor(o, v, len) < len)) then
      Run(TAB, TabsFor(o, v, len)) + Run(' ', SpacesFor(o, v, len))
    else run
  }

  /** The line with all its white space remade; its first character is at virtual column v. */
  function Retabbed(o: Options, show: Display, v: nat, s: Line): Line
    requires o.Valid()
    decreases |s|
  {
    if s == [] then []
    else if White(s[0]) then
      var run := s[..SkipFrom(s)];
      var len := |Expand(show, o.oldTs, v, run)|;
      Remade(o, v, len, run) + Retabbed(o, show, v + len, s[SkipFrom(s)..])
    else
      [s[0]] + Retabbed(o, show, v + |Cells(show, o.oldTs, v, s[0])|, s[1..])
  }

  // ----- it looks like the line before -----

  /** `t` looks with the new tab stop like `s` with the old one, has the same words, and no tabs if 'expandtab' is set.
      */
  ghost predicate Looks(o: Options, show: Display, v: nat, s: Line, t: Line)
    requires o.Valid()
  {
    && Expand(show, o.newTs, v, t) == Expand(show, o.oldTs, v, s)
    && Words(t) == Words(s)
    && (o.expandtab ==> TAB !in t)
  }

  lemma LooksConcat(o: Options, show: Display, v: nat, s: Line, t: Line, s': Line, t': Line)
    requires o.Valid() && Looks(o, show, v, s, t) && Looks(o, show, v + |Expand(show, o.oldTs, v, s)|, s', t')
    ensures Looks(o, show, v, s + s', t + t')
  {
    hide Expand, Words;
    ExpandConcat(show, o.oldTs, v, s, s');
    ExpandConcat(show, o.newTs, v, t, t');
    WordsConcat(s, s');
    WordsConcat(t, t');
  }

  /** The columns up to a tab stop, and from there on. */
  lemma StopsBetween(ts: nat, v: nat, len: nat)
    requires ts > 0
    ensures len < ts - v % ts ==> (v + len) / ts == v / ts
    ensures len >= ts - v % ts ==>
              var rest := len - (ts - v % ts);
              (v + len) / ts == v / ts + 1 + rest / ts && (v + len) % ts == rest % ts
  {
    var (q, r) := (v / ts, v % ts);
    assert v == ts * q + r;
    if len < ts - r {
      RemainderIs(v + len, ts, q, r + len);
    } else {
      var rest := len - (ts - r);
      assert rest == ts * (rest / ts) + rest % ts;
      Distribute(q, ts);
      Sum(ts, q + 1, rest / ts);
      RemainderIs(v + len, ts, q + 1 + rest / ts, rest % ts);
    }
  }

  lemma Sum(ts: nat, a: int, b: int)
    ensures ts * a + ts * b == ts * (a + b)
  {
  }

  /** They fill the columns. */
  lemma Filled(o: Options, show: Display, v: nat, len: nat)
    requires o.Valid()
    ensures |Expand(show, o.newTs, v, Run(TAB, TabsFor(o, v, len)) + Run(' ', SpacesFor(o, v, len)))| == len
  {
    hide Expand, Run, TabSize;
    TabsAndSpaces(show, o.newTs, v, TabsFor(o, v, len), SpacesFor(o, v, len));
    TabSizeIs(o.newTs, v);
    StopsBetween(o.newTs, v, len);
    if len >= o.newTs - v % o.newTs {
      var rest := len - (o.newTs - v % o.newTs);
      Divides(rest, o.newTs);
    }
  }

  lemma TabSizeIs(ts: nat, v: nat)
    requires ts > 0
    ensures TabSize(ts, v) == ts - v % ts
  {
  }

  lemma Divides(n: nat, ts: nat)
    requires ts > 0
    ensures 0 <= (n / ts) * ts <= n < (n / ts) * ts + ts && (n < ts ==> n / ts == 0) && n - (n / ts) * ts == n % ts
            && n / ts >= 0
  {
    assert n == ts * (n / ts) + n % ts;
    assert (n / ts) * ts == ts * (n / ts);
  }

  /** Remade white space looks like the white space before. */
  lemma RemadeLooks(o: Options, show: Display, v: nat, run: Line)
    requires o.Valid() && AllBlank(run)
    ensures Looks(o, show, v, run, Remade(o, v, |Expand(show, o.oldTs, v, run)|, run))
  {
    hide Expand, TabsFor, SpacesFor;
    var len := |Expand(show, o.oldTs, v, run)|;
    var made := Remade(o, v, len, run);
    Filled(o, show, v, len);
    BlankExpands(show, o.oldTs, v, run);
    BlankExpands(show, o.newTs, v, made);
    NoTabs(o, v, len);
  }

  lemma NoTabs(o: Options, v: nat, len: nat)
    requires o.Valid()
    ensures o.expandtab ==> TabsFor(o, v, len) == 0
  {
  }

  lemma CharLooks(o: Options, show: Display, v: nat, c: char)
    requires o.Valid() && !White(c)
    ensures Looks(o, show, v, [c], [c])
  {
    ExpandOne(show, o.oldTs, v, c);
    ExpandOne(show, o.newTs, v, c);
  }

  lemma ExpandOne(show: Display, ts: nat, v: nat, c: char)
    requires ts > 0
    ensures Expand(show, ts, v, [c]) == Cells(show, ts, v, c)
  {
    hide Cells;
    var cells := Cells(show, ts, v, c);
    assert Expand(show, ts, v + |cells|, []) == [];
  }

  lemma ExpandNone(show: Display, ts: nat, v: nat)
    requires ts > 0
    ensures Expand(show, ts, v, []) == []
  {
  }

  /** For every line and all tab stops: with the new tab stop, the new line looks as the old one did with the old. */
  lemma {:induction false} RetabbedLooks(o: Options, show: Display, v: nat, s: Line)
    requires o.Valid()
    ensures Looks(o, show, v, s, Retabbed(o, show, v, s))
    decreases |s|
  {
    hide Expand, Words, Looks, Remade, Cells;
    if s == [] {
      NothingLooks(o, show, v);
    } else if White(s[0]) {
      var n := SkipFrom(s);
      var len := |Expand(show, o.oldTs, v, s[..n])|;
      RemadeLooks(o, show, v, s[..n]);
      RetabbedLooks(o, show, v + len, s[n..]);
      LooksConcat(o, show, v, s[..n], Remade(o, v, len, s[..n]), s[n..], Retabbed(o, show, v + len, s[n..]));
      assert s == s[..n] + s[n..];
    } else {
      var cells := Cells(show, o.oldTs, v, s[0]);
      CharLooks(o, show, v, s[0]);
      ExpandOne(show, o.oldTs, v, s[0]);
      RetabbedLooks(o, show, v + |cells|, s[1..]);
      LooksConcat(o, show, v, [s[0]], [s[0]], s[1..], Retabbed(o, show, v + |cells|, s[1..]));
      assert s == [s[0]] + s[1..];
    }
  }

  lemma NothingLooks(o: Options, show: Display, v: nat)
    requires o.Valid()
    ensures Looks(o, show, v, [], [])
  {
  }

  /** The line, one piece further. */
  lemma RetabbedNone(o: Options, show: Display, v: nat)
    requires o.Valid()
    ensures Retabbed(o, show, v, []) == []
  {
  }

  lemma RetabbedWhite(o: Options, show: Display, v: nat, s: Line)
    requires o.Valid() && s != [] && White(s[0])
    ensures var run := s[..SkipFrom(s)];
            var len := |Expand(show, o.oldTs, v, run)|;
            Retabbed(o, show, v, s) == Remade(o, v, len, run) + Retabbed(o, show, v + len, s[SkipFrom(s)..])
  {
    hide Expand, Remade;
  }

  lemma RetabbedChar(o: Options, show: Display, v: nat, s: Line)
    requires o.Valid() && s != [] && !White(s[0])
    ensures Retabbed(o, show, v, s) == [s[0]] + Retabbed(o, show, v + |Cells(show, o.oldTs, v, s[0])|, s[1..])
  {
    hide Expand, Remade, Cells;
  }

  /** Without TABs and without `!`, nothing changes. */
  lemma {:induction false} NothingToDo(o: Options, show: Display, v: nat, s: Line)
    requires o.Valid() && TAB !in s && !o.force
    ensures Retabbed(o, show, v, s) == s
    decreases |s|
  {
    hide Expand, Cells, Remade, Retabbed;
    if s == [] {
      RetabbedNone(o, show, v);
    } else {
      if White(s[0]) {
        RetabbedWhite(o, show, v, s);
        var n := SkipFrom(s);
        KeptRun(o, v, |Expand(show, o.oldTs, v, s[..n])|, s[..n]);
        NothingToDo(o, show, v + |Expand(show, o.oldTs, v, s[..n])|, s[n..]);
        assert s == s[..n] + s[n..];
      } else {
        RetabbedChar(o, show, v, s);
        NothingToDo(o, show, v + |Cells(show, o.oldTs, v, s[0])|, s[1..]);
      }
    }
  }

  lemma KeptRun(o: Options, v: nat, len: nat, run: Line)
    requires o.Valid() && TAB !in run && !o.force
    ensures Remade(o, v, len, run) == run
  {
  }

  // ----- the shortest white space -----

  function MadeFor(o: Options, v: nat, len: nat): nat
    requires o.Valid()
  {
    TabsFor(o, v, len) + SpacesFor(o, v, len)
  }

  /** One space less. */
  lemma SpaceStep(o: Options, v: nat, len: nat)
    requires o.Valid() && !o.expandtab && len > 0
    ensures MadeFor(o, v, len) <= 1 + MadeFor(o, v + 1, len - 1)
  {
    var (ts, e) := (o.newTs, v + len);
    assert (v + 1) + (len - 1) == e;
    NextColumn(v, ts);
    StopsOrder(v + 1, e, ts);
  }

  /** The column after v is at the same tab stop, or at the next one. */
  lemma NextColumn(v: nat, ts: nat)
    requires ts > 0
    ensures (v + 1) / ts == v / ts || ((v + 1) / ts == v / ts + 1 && (v + 1) % ts == 0)
  {
    StopsBetween(ts, v, 1);
    if 1 >= ts - v % ts {
      Divides(1 - (ts - v % ts), ts);
    }
  }

  /** Columns between the same two tab stops differ by their distances from the first. */
  lemma StopsOrder(v: nat, e: nat, ts: nat)
    requires ts > 0 && v <= e
    ensures v / ts <= e / ts
    ensures v / ts == e / ts ==> e - v == e % ts - v % ts
  {
    assert v == ts * (v / ts) + v % ts && e == ts * (e / ts) + e % ts;
    var (p, q) := (v / ts, e / ts);
    Distributes(ts, p, q);
    if p > q {
      AtLeast(ts, p - q);
    }
  }

  /** One TAB less. */
  lemma TabStep(o: Options, v: nat, len: nat)
    requires o.Valid() && !o.expandtab && len >= TabSize(o.newTs, v)
    ensures MadeFor(o, v, len) <= 1 + MadeFor(o, v + TabSize(o.newTs, v), len - TabSize(o.newTs, v))
  {
    hide TabSize;
    var (ts, t) := (o.newTs, TabSize(o.newTs, v));
    TabSizeIs(ts, v);
    NextStop(v, t, ts);
    StopsBetween(ts, v, t);
    Divides(0, ts);
    StopsOrder(v + t, v + len, ts);
    assert (v + t) + (len - t) == v + len;
  }

  /** The tabs and spaces made are the fewest white characters that fill the columns. */
  lemma {:induction false} Fewest(o: Options, show: Display, v: nat, r: Line)
    requires o.Valid() && !o.expandtab && AllBlank(r)
    ensures MadeFor(o, v, |Expand(show, o.newTs, v, r)|) <= |r|
    decreases |r|
  {
    hide TabSize, MadeFor;
    if r == [] {
      MadeNone(o, v);
    } else {
      var cells := Cells(show, o.newTs, v, r[0]);
      Fewest(o, show, v + |cells|, r[1..]);
      var len := |Expand(show, o.newTs, v, r)|;
      assert len == |cells| + |Expand(show, o.newTs, v + |cells|, r[1..])|;
      if r[0] == TAB {
        TabStep(o, v, len);
      } else {
        SpaceStep(o, v, len);
      }
    }
  }

  lemma MadeNone(o: Options, v: nat)
    requires o.Valid()
    ensures MadeFor(o, v, 0) == 0
  {
  }

  /** The command makes white space anew if it has a TAB or, with `!`, more than one character. */
  predicate Due(o: Options, run: Line) { TAB in run || (o.force && |run| > 1) }

  /** As many TABs as there is room for, and then spaces. */
  ghost predicate TabsFirst(show: Display, ts: nat, v: nat, s: Line)
    requires ts > 0
  {
    exists t: nat :: t <= |s| && s == Run(TAB, t) + Run(' ', |s| - t)
                     && |Expand(show, ts, v, s)| < |Expand(show, ts, v, Run(TAB, t + 1))|
  }

  /** What is made of white space that starts at column v: if it is due it is as short as r, or has no TAB with
      'expandtab', and otherwise it stays; the TABs come first in it if it is new. */
  ghost predicate MadeWell(o: Options, show: Display, v: nat, run: Line, r: Line, made: Line)
    requires o.Valid()
  {
    && (if !Due(o, run) then made == run else if o.expandtab then TAB !in made else |made| <= |r|)
    && (!o.expandtab && (TAB in run || made != run) ==> TabsFirst(show, o.newTs, v, made))
  }

  lemma MadeTabsFirst(o: Options, show: Display, v: nat, len: nat)
    requires o.Valid() && !o.expandtab
    ensures TabsFirst(show, o.newTs, v, Run(TAB, TabsFor(o, v, len)) + Run(' ', SpacesFor(o, v, len)))
  {
    hide Expand, Run, TabSize;
    var (ts, t) := (o.newTs, TabsFor(o, v, len));
    var made := Run(TAB, t) + Run(' ', SpacesFor(o, v, len));
    Filled(o, show, v, len);
    FirstTab(show, ts, v, t + 1);
    TabSizeIs(ts, v);
    StopsBetween(ts, v, len);
    if len >= ts - v % ts {
      Divides(len - (ts - v % ts), ts);
    }
    assert t <= |made| && |made| - t == SpacesFor(o, v, len);
  }

  /** Whichever white space r fills the columns, what is made is not longer. */
  lemma RemadeFewest(o: Options, show: Display, v: nat, run: Line, r: Line)
    requires o.Valid() && AllBlank(run) && AllBlank(r)
    requires |Expand(show, o.newTs, v, r)| == |Expand(show, o.oldTs, v, run)|
    ensures MadeWell(o, show, v, run, r, Remade(o, v, |Expand(show, o.oldTs, v, run)|, run))
  {
    hide Expand, TabsFor, SpacesFor, TabsFirst;
    var len := |Expand(show, o.oldTs, v, run)|;
    BlankExpands(show, o.oldTs, v, run);
    NoTabs(o, v, len);
    if !o.expandtab {
      Fewest(o, show, v, r);
      MadeTabsFirst(o, show, v, len);
    }
  }

  /** A line in two parts, not both of which have white space where they meet. */
  lemma {:induction false} RetabbedConcat(o: Options, show: Display, v: nat, a: Line, b: Line)
    requires o.Valid() && (a == [] || b == [] || !White(a[|a| - 1]) || !White(b[0]))
    ensures Retabbed(o, show, v, a + b)
         == Retabbed(o, show, v, a) + Retabbed(o, show, v + |Expand(show, o.oldTs, v, a)|, b)
    decreases |a|
  {
    hide Expand, Cells, Remade, Retabbed;
    var s := a + b;
    if a == [] || b == [] {
      assert s == if a == [] then b else a;
      ExpandNone(show, o.oldTs, v);
      RetabbedNone(o, show, v);
      RetabbedNone(o, show, v + |Expand(show, o.oldTs, v, a)|);
    } else if White(a[0]) {
      SkipsToB(a, b);
      var rest := a[SkipFrom(a)..];
      assert rest != [] ==> rest[|rest| - 1] == a[|a| - 1];
      RetabbedConcat(o, show, v + |Expand(show, o.oldTs, v, a[..SkipFrom(a)])|, rest, b);
      ConcatWhite(o, show, v, a, b);
    } else {
      RetabbedConcat(o, show, v + |Cells(show, o.oldTs, v, a[0])|, a[1..], b);
      ConcatChar(o, show, v, a, b);
    }
  }

  lemma ConcatWhite(o: Options, show: Display, v: nat, a: Line, b: Line)
    requires o.Valid() && a != [] && White(a[0]) && SkipFrom(a + b) == SkipFrom(a)
    requires var (n, u) := (SkipFrom(a), v + |Expand(show, o.oldTs, v, a[..SkipFrom(a)])|);
             Retabbed(o, show, u, a[n..] + b)
             == Retabbed(o, show, u, a[n..]) + Retabbed(o, show, u + |Expand(show, o.oldTs, u, a[n..])|, b)
    ensures Retabbed(o, show, v, a + b)
         == Retabbed(o, show, v, a) + Retabbed(o, show, v + |Expand(show, o.oldTs, v, a)|, b)
  {
    hide Expand, Remade, Retabbed, SkipFrom;
    var (s, n) := (a + b, SkipFrom(a));
    var (run, rest) := (a[..n], a[n..]);
    var len := |Expand(show, o.oldTs, v, run)|;
    assert a == run + rest && s[..n] == run && s[n..] == rest + b;
    ExpandConcat(show, o.oldTs, v, run, rest);
    RetabbedWhite(o, show, v, s);
    RetabbedWhite(o, show, v, a);
    Joined(Remade(o, v, len, run), Retabbed(o, show, v + len, rest),
           Retabbed(o, show, v + |Expand(show, o.oldTs, v, a)|, b));
  }

  lemma ConcatChar(o: Options, show: Display, v: nat, a: Line, b: Line)
    requires o.Valid() && a != [] && !White(a[0])
    requires var u := v + |Cells(show, o.oldTs, v, a[0])|;
             Retabbed(o, show, u, a[1..] + b)
             == Retabbed(o, show, u, a[1..]) + Retabbed(o, show, u + |Expand(show, o.oldTs, u, a[1..])|, b)
    ensures Retabbed(o, show, v, a + b)
         == Retabbed(o, show, v, a) + Retabbed(o, show, v + |Expand(show, o.oldTs, v, a)|, b)
  {
    hide Expand, Cells, Retabbed;
    var (s, rest) := (a + b, a[1..]);
    var u := v + |Cells(show, o.oldTs, v, a[0])|;
    assert s[1..] == rest + b && a == [a[0]] + rest;
    ExpandConcat(show, o.oldTs, v, [a[0]], rest);
    ExpandOne(show, o.oldTs, v, a[0]);
    RetabbedChar(o, show, v, s);
    RetabbedChar(o, show, v, a);
    Joined([a[0]], Retabbed(o, show, u, rest), Retabbed(o, show, v + |Expand(show, o.oldTs, v, a)|, b));
  }

  /** The white space at the start of a is that of both, as not all of a is white or b does not start with white space.
      */
  lemma SkipsToB(a: Line, b: Line)
    requires a != [] && b != [] && White(a[0]) && (!White(a[|a| - 1]) || !White(b[0]))
    ensures 0 < SkipFrom(a) <= |a| && SkipFrom(a + b) == SkipFrom(a)
  {
    SkipConcat(a, b);
    if !White(a[|a| - 1]) {
      NotAllWhite(a);
    }
  }

  /** In every line, each run of white space that is due becomes as short as can be for the columns that it fills, or
      has no TAB with 'expandtab', and its TABs come first; the others stay, and so does the rest of the line. */
  lemma RetabbedFewest(o: Options, show: Display, a: Line, run: Line, b: Line, r: Line)
    requires o.Valid() && run != [] && AllBlank(run) && AllBlank(r)
    requires (a == [] || !White(a[|a| - 1])) && (b == [] || !White(b[0]))
    requires var v := |Expand(show, o.oldTs, 0, a)|;
             |Expand(show, o.newTs, v, r)| == |Expand(show, o.oldTs, v, run)|
    ensures exists made ::
              && Retabbed(o, show, 0, a + (run + b))
                 == Retabbed(o, show, 0, a)
                    + (made + Retabbed(o, show, |Expand(show, o.oldTs, 0, a + run)|, b))
              && AllBlank(made)
              && MadeWell(o, show, |Expand(show, o.oldTs, 0, a)|, run, r, made)
  {
    hide Expand, Remade, Retabbed, AllBlank, MadeWell;
    var v := |Expand(show, o.oldTs, 0, a)|;
    var len := |Expand(show, o.oldTs, v, run)|;
    var made := Remade(o, v, len, run);
    RunFirst(run, b);
    RetabbedConcat(o, show, 0, a, run + b);
    RetabbedConcat(o, show, v, run, b);
    ExpandConcat(show, o.oldTs, 0, a, run);
    RetabbedRun(o, show, v, run);
    RemadeFewest(o, show, v, run, r);
    RemadeBlank(o, v, len, run);
  }

  lemma RunFirst(run: Line, b: Line)
    requires run != []
    ensures (run + b)[0] == run[0]
  {
  }

  lemma RetabbedRun(o: Options, show: Display, v: nat, run: Line)
    requires o.Valid() && run != [] && AllBlank(run)
    ensures Retabbed(o, show, v, run) == Remade(o, v, |Expand(show, o.oldTs, v, run)|, run)
  {
    hide Expand, Remade;
    BlankIsWhite(run);
    assert run[..|run|] == run && run[|run|..] == [];
  }

  lemma RemadeBlank(o: Options, v: nat, len: nat, run: Line)
    requires o.Valid() && AllBlank(run)
    ensures AllBlank(Remade(o, v, len, run))
  {
    hide TabsFor, SpacesFor;
  }

  // ----- the loop over one line -----

  /** How many tabs and spaces fill the columns from v up to v + len. */
  method Fill(o: Options, v: nat, len: nat) returns (tabs: nat, spaces: nat)
    requires o.Valid()
    ensures tabs == TabsFor(o, v, len) && spaces == SpacesFor(o, v, len)
  {
    var ts := o.newTs;
    spaces, tabs := len, 0;
    StopsBetween(ts, v, len);
    if !o.expandtab {
      var temp := ts - v % ts;
      if spaces >= temp {
        spaces := spaces - temp;
        tabs := tabs + 1;
      }
      Divides(spaces, ts);
      tabs := tabs + spaces / ts;
      spaces := spaces - (spaces / ts) * ts;
    }
  }

  lemma BlankIsWhite(s: Line)
    requires AllBlank(s)
    ensures AllWhite(s)
  {
  }

  /** The line so far, when the characters before `start` are done: `start` is at virtual column sv, and only white
      space follows up to `col`, which is at virtual column vcol. */
  ghost predicate OnTrack(o: Options, show: Display, line: Line, ptr: Line, start: nat, sv: nat, col: nat, vcol: nat)
    requires o.Valid()
  {
    && start <= col <= |ptr| && AllBlank(ptr[start..col])
    && vcol == sv + |Expand(show, o.oldTs, sv, ptr[start..col])|
    && ptr[..start] + Retabbed(o, show, sv, ptr[start..]) == Retabbed(o, show, 0, line)
  }

  lemma TrackStarts(o: Options, show: Display, line: Line)
    requires o.Valid()
    ensures OnTrack(o, show, line, line, 0, 0, 0, 0)
  {
    hide Retabbed;
    assert line[0..] == line && line[0..0] == [] && line[..0] == [];
    ExpandNone(show, o.oldTs, 0);
  }

  lemma TrackEnds(o: Options, show: Display, line: Line, ptr: Line, vcol: nat)
    requires o.Valid() && OnTrack(o, show, line, ptr, |ptr|, vcol, |ptr|, vcol)
    ensures ptr == Retabbed(o, show, 0, line)
  {
    assert ptr[|ptr|..] == [] && ptr[..|ptr|] == ptr;
  }

  /** Another white character of the run. */
  lemma TrackBlank(o: Options, show: Display, line: Line, ptr: Line, start: nat, sv: nat, col: nat, vcol: nat)
    requires o.Valid() && OnTrack(o, show, line, ptr, start, sv, col, vcol) && col < |ptr| && White(ptr[col])
    ensures OnTrack(o, show, line, ptr, start, sv, col + 1, vcol + |Cells(show, o.oldTs, vcol, ptr[col])|)
    ensures TAB in ptr[start..col + 1] <==> TAB in ptr[start..col] || ptr[col] == TAB
  {
    hide Expand, Cells, Retabbed;
    var run := ptr[start..col];
    assert ptr[start..col + 1] == run + [ptr[col]];
    ExpandConcat(show, o.oldTs, sv, run, [ptr[col]]);
    ExpandOne(show, o.oldTs, vcol, ptr[col]);
  }

  /** Another character that is not white. */
  lemma TrackChar(o: Options, show: Display, line: Line, ptr: Line, col: nat, vcol: nat)
    requires o.Valid() && OnTrack(o, show, line, ptr, col, vcol, col, vcol) && col < |ptr| && !White(ptr[col])
    ensures var v := vcol + |Cells(show, o.oldTs, vcol, ptr[col])|; OnTrack(o, show, line, ptr, col + 1, v, col + 1, v)
  {
    hide Expand, Cells;
    var v := vcol + |Cells(show, o.oldTs, vcol, ptr[col])|;
    var rest := Retabbed(o, show, v, ptr[col + 1..]);
    assert ptr[col..][1..] == ptr[col + 1..];
    assert Retabbed(o, show, vcol, ptr[col..]) == [ptr[col]] + rest;
    hide Retabbed;
    assert ptr[..col + 1] == ptr[..col] + [ptr[col]];
    Joined(ptr[..col], [ptr[col]], rest);
    assert ptr[col + 1..col + 1] == [];
    ExpandNone(show, o.oldTs, v);
  }

  lemma Joined(a: Line, b: Line, c: Line)
    ensures a + (b + c) == (a + b) + c
  {
  }

  lemma SkipsRun(a: Line, b: Line)
    requires AllBlank(a) && (b != [] ==> !White(b[0]))
    ensures SkipFrom(a + b) == |a|
  {
    BlankIsWhite(a);
    SkipConcat(a, b);
  }

  /** The run ends, and is remade. */
  lemma TrackRun(o: Options, show: Display, line: Line, ptr: Line, start: nat, sv: nat, col: nat, vcol: nat, made: Line)
    requires o.Valid() && OnTrack(o, show, line, ptr, start, sv, col, vcol) && start < col
             && (col < |ptr| ==> !White(ptr[col]))
    requires made == Remade(o, sv, vcol - sv, ptr[start..col])
    ensures var end := start + |made|; OnTrack(o, show, line, ptr[..start] + made + ptr[col..], end, vcol, end, vcol)
  {
    hide Expand, Cells, Remade;
    var run, rest := ptr[start..col], ptr[col..];
    assert ptr[start..] == run + rest;
    SkipsRun(run, rest);
    assert (run + rest)[..|run|] == run && (run + rest)[|run|..] == rest;
    assert Retabbed(o, show, sv, run + rest) == made + Retabbed(o, show, vcol, rest);
    hide Retabbed;
    Joined(ptr[..start], made, Retabbed(o, show, vcol, rest));
    var more, end := ptr[..start] + made + rest, start + |made|;
    assert more[..end] == ptr[..start] + made && more[end..] == rest && more[end..end] == [];
    ExpandNone(show, o.oldTs, vcol);
  }

  /** The white space that ends here is replaced, if need be. */
  method EndRun(o: Options, show: Display, ptr: Line, gotTab: bool, numSpaces: int, start: nat, startVcol: nat,
                col: nat, vcol: nat, ghost line: Line) returns (more: Line, col': nat)
    requires o.Valid() && OnTrack(o, show, line, ptr, start, startVcol, col, vcol) && start < col
             && (col < |ptr| ==> !White(ptr[col]))
    requires (gotTab <==> TAB in ptr[start..col]) && (!gotTab ==> numSpaces == col - start)
    ensures OnTrack(o, show, line, more, col', vcol, col', vcol) && |more| - col' == |ptr| - col
    ensures col < |ptr| ==> more[col'] == ptr[col]
  {
    hide Expand, AllBlank, Retabbed, TabsFor, SpacesFor, Cells;
    more, col' := ptr, col;
    var len := vcol - startVcol;
    ghost var made := Remade(o, startVcol, len, ptr[start..col]);
    TrackRun(o, show, line, ptr, start, startVcol, col, vcol, made);
    if gotTab || (o.force && numSpaces > 1) {
      var tabs, spaces := Fill(o, startVcol, len);
      if o.expandtab || gotTab || spaces + tabs < len {
        more := ptr[..start] + (Run(TAB, tabs) + Run(' ', spaces)) + ptr[col..];
        col' := start + tabs + spaces;
      }
    }
    assert more == ptr[..start] + made + ptr[col..];
  }

  /** The loop of `ex_retab` over one line. */
  method RetabLine(o: Options, show: Display, line: Line) returns (ptr: Line)
    requires o.Valid()
    ensures ptr == Retabbed(o, show, 0, line)
  {
    hide Expand, AllBlank, Run, Cells, Retabbed, OnTrack;
    ptr := line;
    var gotTab, numSpaces := false, 0;
    var startCol: nat, startVcol: nat := 0, 0;
    var col: nat, vcol: nat := 0, 0;
    TrackStarts(o, show, line);
    while true
      invariant col <= |ptr| && numSpaces >= 0
      invariant var running := gotTab || numSpaces > 0;
                var start, sv := if running then startCol else col, if running then startVcol else vcol;
                && OnTrack(o, show, line, ptr, start, sv, col, vcol)
                && start <= col && (running ==> start < col)
                && (gotTab <==> TAB in ptr[start..col]) && (!gotTab ==> numSpaces == col - start)
      decreases |ptr| - col
    {
      var end := col == |ptr|;
      if !end && White(ptr[col]) {
        if !gotTab && numSpaces == 0 {
          startVcol := vcol;
          startCol := col;
        }
        TrackBlank(o, show, line, ptr, startCol, startVcol, col, vcol);
        if ptr[col] == ' ' {
          numSpaces := numSpaces + 1;
        } else {
          gotTab := true;
        }
      } else {
        if gotTab || numSpaces > 0 {
          ptr, col := EndRun(o, show, ptr, gotTab, numSpaces, startCol, startVcol, col, vcol, line);
        }
        gotTab := false;
        numSpaces := 0;
        if end {
          TrackEnds(o, show, line, ptr, vcol);
          break;
        }
        TrackChar(o, show, line, ptr, col, vcol);
      }
      vcol := vcol + |Cells(show, o.oldTs, vcol, ptr[col])|;
      col := col + 1;
    }
  }

  // ----- the command -----

  /** `ex_retab` for the lines of a range; a new tab stop of 0 means the old one. Gives the tab stop from then on. */
  method ExRetab(b: Buffer, line1: int, line2: int, tabstop: nat, newTs0: int, expandtab: bool, force: bool,
                 show: Display)
    returns (ok: bool, ts: nat)
    requires 1 <= line1 && line2 <= |b.lines| && tabstop > 0
    modifies b
    ensures ok <==> newTs0 >= 0
    ensures !ok ==> b.lines == old(b.lines) && ts == tabstop
    ensures ok ==> ts == (if newTs0 == 0 then tabstop else newTs0) && |b.lines| == |old(b.lines)|
    ensures ok ==> forall i | 0 <= i < |b.lines| ::
                     b.lines[i] == if line1 <= i + 1 <= line2
                         then Retabbed(Options(tabstop, ts, expandtab, force), show, 0, old(b.lines)[i])
                                   else old(b.lines)[i]
  {
    hide Retabbed;
    if newTs0 < 0 {
      return false, tabstop;
    }
    var newTs := newTs0;
    if newTs == 0 {
      newTs := tabstop;
    }
    var o := Options(tabstop, newTs, expandtab, force);
    var l := line1;
    while l <= line2
      invariant line1 <= l && |b.lines| == |old(b.lines)|
      invariant forall i | 0 <= i < |b.lines| ::
                  b.lines[i] == if line1 <= i + 1 <= line2
                      && i + 1 < l then Retabbed(o, show, 0, old(b.lines)[i]) else old(b.lines)[i]
      decreases line2 + 1 - l
    {
      var line := RetabLine(o, show, b.MlGet(l));
      b.MlReplace(l, line);
      l := l + 1;
    }
    return true, newTs;
  }
}

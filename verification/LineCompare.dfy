/** How the diff engine compares two lines: `diff_cmp` of src/nvim/diff.c and `skipwhite` of src/nvim/charset.c. */
module LineCompare {

  type Line = string

  /** A line as the comparison sees it: for every character its byte length, where that matters, and its folded form. */
  type Key = seq<(nat, char)>

  /** The relevant flags of 'diffopt', with the encoding's case folding and byte lengths as parameters. */
  datatype DiffOpt = DiffOpt(icase: bool, iwhite: bool, fold: char -> char, bytes: char -> nat)

  predicate White(c: char) { c == ' ' || c == '\t' }

  /** What every encoding guarantees: characters have bytes, and white space is of one byte and folds only with white
      space. */
  ghost predicate Sensible(opt: DiffOpt) {
    && (forall c :: opt.bytes(c) >= 1)
    && (forall c, w {:trigger White(w), opt.fold(c)} | White(w) && opt.fold(c) == opt.fold(w)
        && opt.bytes(c) == opt.bytes(w) :: White(c))
  }

  /** What counts of one character. */
  function CharKey(opt: DiffOpt, c: char): (nat, char) {
    if !opt.icase then (0, c)
    else if opt.iwhite then (opt.bytes(c), opt.fold(c))
    else (0, opt.fold(c))
  }

  /** Stands for a run of white space. */
  const WHITE: (nat, char) := (0, ' ')

  function SkipFrom(s: Line): (k: nat)
    ensures k <= |s| && (forall i | 0 <= i < k :: White(s[i])) && (k < |s| ==> !White(s[k]))
  {
    if s != [] && White(s[0]) then 1 + SkipFrom(s[1..]) else 0
  }

  /** The normal form of a line: white space runs collapsed and trailing white space dropped if 'iwhite' is set, and the
      case folded if 'icase' is set. */
  function Normal(opt: DiffOpt, s: Line): Key {
    if !opt.iwhite then seq(|s|, i requires 0 <= i < |s| => CharKey(opt, s[i]))
    else Squeezed(opt, s)
  }

  function Squeezed(opt: DiffOpt, s: Line): Key
    decreases |s|
  {
    if s == [] then []
    else if White(s[0]) then
      var rest := s[SkipFrom(s)..];
      if rest == [] then [] else [WHITE] + Squeezed(opt, rest)
    else [CharKey(opt, s[0])] + Squeezed(opt, s[1..])
  }

  /** `skipwhite` */
  method SkipWhite(s: Line, p: nat) returns (q: nat)
    requires p <= |s|
    ensures p <= q <= |s| && q == p + SkipFrom(s[p..])
  {
    q := p;
    while q < |s| && White(s[q])
      invariant p <= q <= |s|
      invariant q + SkipFrom(s[q..]) == p + SkipFrom(s[p..])
    {
      assert s[q..][1..] == s[q + 1..];
      q := q + 1;
    }
  }

  /** One character of each line, as compared when white space is ignored. */
  predicate SameChar(opt: DiffOpt, c: char, e: char) {
    opt.bytes(c) == opt.bytes(e) && (c == e || (opt.icase && opt.fold(c) == opt.fold(e)))
  }

  /** Skipping white space on both sides keeps the answer. */
  lemma SkipBoth(opt: DiffOpt, s: Line, u: Line)
    requires opt.iwhite && Sensible(opt) && s != [] && u != [] && White(s[0]) && White(u[0])
    ensures Squeezed(opt, s) == Squeezed(opt, u) <==> Squeezed(opt, s[SkipFrom(s)..]) == Squeezed(opt, u[SkipFrom(u)..])
  {
    var a, b := s[SkipFrom(s)..], u[SkipFrom(u)..];
    NotEmpty(opt, a);
    NotEmpty(opt, b);
    if a != [] && b != [] {
      assert Squeezed(opt, s)[1..] == Squeezed(opt, a) && Squeezed(opt, u)[1..] == Squeezed(opt, b);
    }
  }

  lemma NotEmpty(opt: DiffOpt, s: Line)
    requires s != [] ==> !White(s[0])
    ensures Squeezed(opt, s) == [] <==> s == []
  {
  }

  lemma EmptyIs(opt: DiffOpt, s: Line)
    ensures Squeezed(opt, s) == [] <==> s[SkipFrom(s)..] == []
  {
  }

  /** Not both sides have white space next. */
  lemma StepBoth(opt: DiffOpt, s: Line, u: Line)
    requires opt.iwhite && Sensible(opt) && s != [] && u != [] && !(White(s[0]) && White(u[0]))
    ensures SameChar(opt, s[0], u[0]) ==>
            (Squeezed(opt, s) == Squeezed(opt, u) <==> Squeezed(opt, s[1..]) == Squeezed(opt, u[1..]))
    ensures !SameChar(opt, s[0], u[0]) ==> Squeezed(opt, s) != Squeezed(opt, u)
  {
    if !White(s[0]) && !White(u[0]) {
      assert Squeezed(opt, s)[1..] == Squeezed(opt, s[1..]) && Squeezed(opt, u)[1..] == Squeezed(opt, u[1..]);
      assert Squeezed(opt, s)[0] == CharKey(opt, s[0]) && Squeezed(opt, u)[0] == CharKey(opt, u[0]);
    } else {
      var c, v := if White(s[0]) then u[0] else s[0], if White(s[0]) then s else u;
      assert CharKey(opt, c) != WHITE;
      assert Squeezed(opt, v) == [] || Squeezed(opt, v)[0] == WHITE;
      assert White(v[0]) && !White(c);
    }
  }

  /** The comparison that ignores changes in white space. */
  method CompareWhite(opt: DiffOpt, s: Line, u: Line) returns (differ: bool)
    requires opt.iwhite && Sensible(opt)
    ensures differ <==> Normal(opt, s) != Normal(opt, u)
  {
    hide Squeezed, SameChar, Sensible;
    var p, q := 0, 0;
    var stop := false;
    while p < |s| && q < |u| && !stop
      invariant p <= |s| && q <= |u|
      invariant Squeezed(opt, s) == Squeezed(opt, u) <==> Squeezed(opt, s[p..]) == Squeezed(opt, u[q..])
      invariant stop ==> p < |s| && q < |u| && !(White(s[p]) && White(u[q])) && !SameChar(opt, s[p], u[q])
      decreases |s| - p, !stop
    {
      if White(s[p]) && White(u[q]) {
        SkipBoth(opt, s[p..], u[q..]);
        var k := SkipWhite(s, p);
        var m := SkipWhite(u, q);
        assert s[p..][SkipFrom(s[p..])..] == s[k..] && u[q..][SkipFrom(u[q..])..] == u[m..];
        p, q := k, m;
      } else {
        StepBoth(opt, s[p..], u[q..]);
        assert s[p..][1..] == s[p + 1..] && u[q..][1..] == u[q + 1..];
        if SameChar(opt, s[p], u[q]) {
          p, q := p + 1, q + 1;
        } else {
          stop := true;
        }
      }
    }
    if stop {
      StepBoth(opt, s[p..], u[q..]);
    }
    ghost var a, b := s[p..], u[q..];
    p := SkipWhite(s, p);
    q := SkipWhite(u, q);
    EmptyIs(opt, a);
    EmptyIs(opt, b);
    assert a[SkipFrom(a)..] == s[p..] && b[SkipFrom(b)..] == u[q..];
    differ := p != |s| || q != |u|;
  }

  /** `diff_cmp`: whether the lines differ. Without 'iwhite' it is left to a library function. */
  method DiffCmp(opt: DiffOpt, s: Line, u: Line) returns (differ: bool)
    requires Sensible(opt)
    ensures differ <==> Normal(opt, s) != Normal(opt, u)
  {
    if !opt.icase && !opt.iwhite {
      differ := s != u;
      SameExact(opt, s, u);
    } else if !opt.iwhite {
      differ := Normal(opt, s) != Normal(opt, u);
    } else {
      differ := CompareWhite(opt, s, u);
    }
  }

  lemma SameExact(opt: DiffOpt, s: Line, u: Line)
    requires !opt.icase && !opt.iwhite
    ensures Normal(opt, s) == Normal(opt, u) <==> s == u
  {
    if Normal(opt, s) == Normal(opt, u) {
      assert |s| == |u|;
      forall i | 0 <= i < |s| ensures s[i] == u[i] {
        assert Normal(opt, s)[i] == (0, s[i]) && Normal(opt, u)[i] == (0, u[i]);
      }
    }
  }

  // ----- what the normal form ignores -----

  predicate AllWhite(s: Line) { SkipFrom(s) == |s| }

  lemma {:induction false} SkipConcat(a: Line, s: Line)
    ensures SkipFrom(a + s) == if AllWhite(a) then |a| + SkipFrom(s) else SkipFrom(a)
  {
    if a == [] {
      assert a + s == s;
    } else {
      SkipConcat(a[1..], s);
      assert (a + s)[1..] == a[1..] + s;
    }
  }

  /** What follows the white space at the start of a line is all that counts, besides that there is some. */
  lemma AfterWhite(opt: DiffOpt, s: Line, u: Line)
    requires s != [] && u != [] && White(s[0]) && White(u[0])
    requires Squeezed(opt, s[SkipFrom(s)..]) == Squeezed(opt, u[SkipFrom(u)..])
    requires s[SkipFrom(s)..] == [] <==> u[SkipFrom(u)..] == []
    ensures Squeezed(opt, s) == Squeezed(opt, u)
  {
  }

  lemma RunsStart(opt: DiffOpt, a: Line, v: Line, w: Line, b: Line)
    requires v != [] && w != [] && AllWhite(v) && AllWhite(w) && AllWhite(a)
    ensures Squeezed(opt, a + (v + b)) == Squeezed(opt, a + (w + b))
  {
    var s, u := a + (v + b), a + (w + b);
    SkipConcat(a, v + b);
    SkipConcat(a, w + b);
    SkipConcat(v, b);
    SkipConcat(w, b);
    hide Squeezed, SkipFrom;
    assert s[SkipFrom(s)..] == b[SkipFrom(b)..];
    assert u[SkipFrom(u)..] == b[SkipFrom(b)..];
    AfterWhite(opt, s, u);
  }

  /** With 'iwhite' one run of white space is as good as another. */
  lemma {:induction false} RunsAlike(opt: DiffOpt, a: Line, v: Line, w: Line, b: Line)
    requires opt.iwhite && v != [] && w != [] && AllWhite(v) && AllWhite(w)
    ensures Normal(opt, a + (v + b)) == Normal(opt, a + (w + b))
    decreases |a|
  {
    var s, u := a + (v + b), a + (w + b);
    if AllWhite(a) {
      RunsStart(opt, a, v, w, b);
    } else if White(a[0]) {
      SkipConcat(a, v + b);
      SkipConcat(a, w + b);
      hide Squeezed;
      var k := SkipFrom(a);
      assert s[k..] == a[k..] + (v + b) && u[k..] == a[k..] + (w + b);
      RunsAlike(opt, a[k..], v, w, b);
      AfterWhite(opt, s, u);
    } else {
      hide SkipFrom;
      assert s[1..] == a[1..] + (v + b) && u[1..] == a[1..] + (w + b);
      RunsAlike(opt, a[1..], v, w, b);
    }
  }

  /** ... and trailing white space does not count. */
  lemma {:induction false} TrailingIgnored(opt: DiffOpt, a: Line, w: Line)
    requires opt.iwhite && AllWhite(w)
    ensures Normal(opt, a + w) == Normal(opt, a)
    decreases |a|
  {
    var s := a + w;
    SkipConcat(a, w);
    if a == [] {
      assert s == w;
    } else if White(a[0]) {
      if AllWhite(a) {
        assert s[SkipFrom(s)..] == a[SkipFrom(a)..] == [];
      } else {
        var k := SkipFrom(a);
        assert s[k..] == a[k..] + w;
        TrailingIgnored(opt, a[k..], w);
        AfterWhite(opt, s, a);
      }
    } else {
      assert s[1..] == a[1..] + w;
      TrailingIgnored(opt, a[1..], w);
    }
  }

  // ----- what it does not ignore -----

  /** With 'icase' alone, lines are equal if they are as long and the folded characters are. */
  lemma FoldSame(opt: DiffOpt, s: Line, u: Line)
    requires opt.icase && !opt.iwhite
    ensures Normal(opt, s) == Normal(opt, u) <==> |s| == |u| && forall i | 0 <= i < |s| ::
            opt.fold(s[i]) == opt.fold(u[i])
  {
    var (x, y) := (Normal(opt, s), Normal(opt, u));
    if x == y {
      forall i | 0 <= i < |s| ensures opt.fold(s[i]) == opt.fold(u[i]) {
        assert x[i] == (0, opt.fold(s[i])) && y[i] == (0, opt.fold(u[i]));
      }
    }
  }

  /** No character is white space. */
  predicate Solid(s: Line) { forall i | 0 <= i < |s| :: !White(s[i]) }

  lemma {:induction false} SolidKeys(opt: DiffOpt, s: Line)
    requires Solid(s)
    ensures |Squeezed(opt, s)| == |s| && forall i | 0 <= i < |s| :: Squeezed(opt, s)[i] == CharKey(opt, s[i])
    decreases |s|
  {
    if s != [] {
      SolidKeys(opt, s[1..]);
    }
  }

  /** With 'iwhite', lines without white space are equal if they are identical; with 'icase' too, if the folded
      characters are and take as many bytes. */
  lemma SolidSame(opt: DiffOpt, s: Line, u: Line)
    requires opt.iwhite && Solid(s) && Solid(u)
    ensures Normal(opt, s) == Normal(opt, u)
            <==> |s| == |u| && forall i | 0 <= i < |s| ::
                   if opt.icase then opt.fold(s[i]) == opt.fold(u[i]) && opt.bytes(s[i]) == opt.bytes(u[i])
                   else s[i] == u[i]
  {
    SolidKeys(opt, s);
    SolidKeys(opt, u);
    var (x, y) := (Squeezed(opt, s), Squeezed(opt, u));
    assert x == y ==> forall i | 0 <= i < |s| :: x[i] == y[i];
  }

  /** A line starts the comparison again after a character that is not white. */
  lemma {:induction false} SqueezedConcat(opt: DiffOpt, a: Line, b: Line)
    requires a == [] || !White(a[|a| - 1])
    ensures Squeezed(opt, a + b) == Squeezed(opt, a) + Squeezed(opt, b)
    decreases |a|
  {
    hide Squeezed, SkipFrom;
    var s := a + b;
    if a == [] {
      assert s == b && Squeezed(opt, a) == [] by { SqueezedNone(opt); }
    } else if White(a[0]) {
      SkipConcat(a, b);
      NotAllWhite(a);
      var k := SkipFrom(a);
      SomeWhite(a);
      assert s[k..] == a[k..] + b && a[k..] != [] && a[k..][|a[k..]| - 1] == a[|a| - 1];
      SqueezedConcat(opt, a[k..], b);
      SqueezedWhite(opt, s);
      SqueezedWhite(opt, a);
    } else {
      assert s[1..] == a[1..] + b;
      SqueezedConcat(opt, a[1..], b);
      SqueezedChar(opt, s);
      SqueezedChar(opt, a);
    }
  }

  lemma SqueezedNone(opt: DiffOpt)
    ensures Squeezed(opt, []) == []
  {
  }

  lemma SomeWhite(s: Line)
    requires s != [] && White(s[0])
    ensures SkipFrom(s) > 0
  {
  }

  lemma SqueezedWhite(opt: DiffOpt, s: Line)
    requires s != [] && White(s[0]) && SkipFrom(s) < |s|
    ensures Squeezed(opt, s) == [WHITE] + Squeezed(opt, s[SkipFrom(s)..])
  {
  }

  lemma SqueezedChar(opt: DiffOpt, s: Line)
    requires s != [] && !White(s[0])
    ensures Squeezed(opt, s) == [CharKey(opt, s[0])] + Squeezed(opt, s[1..])
  {
  }

  lemma NotAllWhite(a: Line)
    requires a != [] && !White(a[|a| - 1])
    ensures SkipFrom(a) < |a|
  {
  }

  /** White space in front of a character counts. */
  lemma WhiteCounts(opt: DiffOpt, a: Line, w: Line, b: Line)
    requires opt.iwhite && w != [] && AllWhite(w) && b != [] && !White(b[0]) && (a == [] || !White(a[|a| - 1]))
    ensures |Normal(opt, a + (w + b))| == |Normal(opt, a + b)| + 1
  {
    SqueezedConcat(opt, a, w + b);
    SqueezedConcat(opt, a, b);
    SkipConcat(w, b);
    assert (w + b)[SkipFrom(w + b)..] == b;
  }

  /** With 'iwhite' and 'icase', a character can stand for another one of the same folded form and size. */
  lemma CaseIgnored(opt: DiffOpt, a: Line, c: char, e: char, b: Line)
    requires opt.iwhite && opt.icase && !White(c) && !White(e) && opt.fold(c) == opt.fold(e)
             && opt.bytes(c) == opt.bytes(e)
    ensures Normal(opt, a + [c] + b) == Normal(opt, a + [e] + b)
  {
    SqueezedConcat(opt, a + [c], b);
    SqueezedConcat(opt, a + [e], b);
    CaseAtEnd(opt, a, c, e);
  }

  lemma {:induction false} CaseAtEnd(opt: DiffOpt, a: Line, c: char, e: char)
    requires opt.icase && opt.iwhite && !White(c) && !White(e) && opt.fold(c) == opt.fold(e)
             && opt.bytes(c) == opt.bytes(e)
    ensures Squeezed(opt, a + [c]) == Squeezed(opt, a + [e])
    decreases |a|
  {
    var s, u := a + [c], a + [e];
    if a == [] {
      assert s == [c] && u == [e] && s[1..] == u[1..] == [];
    } else if White(a[0]) {
      SkipConcat(a, [c]);
      SkipConcat(a, [e]);
      assert SkipFrom([c]) == 0 && SkipFrom([e]) == 0;
      var k := SkipFrom(a);
      assert s[k..] == a[k..] + [c] && u[k..] == a[k..] + [e];
      CaseAtEnd(opt, a[k..], c, e);
    } else {
      assert s[1..] == a[1..] + [c] && u[1..] == a[1..] + [e];
      CaseAtEnd(opt, a[1..], c, e);
    }
  }
}

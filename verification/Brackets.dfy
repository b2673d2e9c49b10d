/** How the linter finds the other end of a bracketed expression: `CloseExpression` and `ReverseCloseExpression` of
    src/clint.py. */
module Brackets {

  /** The lines as one text. */
  function Flat(lines: seq<string>): string {
    if lines == [] then "" else Flat(lines[..|lines| - 1]) + lines[|lines| - 1]
  }

  /** Where line l starts in it. */
  function Offset(lines: seq<string>, l: nat): nat
    requires l <= |lines|
  {
    |Flat(lines[..l])|
  }

  function Value(open: char, close: char, c: char): int { if c == open then 1 else if c == close then -1 else 0 }

  /** How many brackets more are opened than closed from i up to j. */
  function Depth(t: string, open: char, close: char, i: nat, j: nat): int
    requires j <= |t|
    decreases j
  {
    if j <= i then 0 else Depth(t, open, close, i, j - 1) + Value(open, close, t[j - 1])
  }

  /** The text from i to j is a bracketed expression: balanced, and no proper prefix of it is. */
  ghost predicate Bracketed(t: string, open: char, close: char, i: nat, j: nat) {
    && i < j < |t| && Depth(t, open, close, i, j + 1) == 0
    && forall k {:trigger Depth(t, open, close, i, k)} | i < k <= j :: Depth(t, open, close, i, k) > 0
  }

  // ----- depths -----

  lemma {:induction false} DepthSplit(t: string, open: char, close: char, i: nat, j: nat, k: nat)
    requires i <= j <= k <= |t|
    ensures Depth(t, open, close, i, k) == Depth(t, open, close, i, j) + Depth(t, open, close, j, k)
    decreases k
  {
    if j < k {
      DepthSplit(t, open, close, i, j, k - 1);
    }
  }

  lemma {:induction false} FlatSplit(lines: seq<string>, l: nat)
    requires l < |lines|
    ensures Offset(lines, l + 1) == Offset(lines, l) + |lines[l]| <= |Flat(lines)|
    ensures Flat(lines)[Offset(lines, l)..Offset(lines, l + 1)] == lines[l]
    decreases |lines|
  {
    var n := |lines| - 1;
    var front := lines[..n];
    assert lines[..l + 1][..l] == lines[..l];
    if l < n {
      FlatSplit(front, l);
      assert front[..l] == lines[..l] && front[..l + 1] == lines[..l + 1];
      assert Flat(lines)[..|Flat(front)|] == Flat(front);
      assert Flat(lines)[Offset(lines, l)..Offset(lines, l + 1)] == Flat(front)[Offset(lines, l)..Offset(lines, l + 1)];
    } else {
      assert lines[..l + 1] == lines;
    }
  }

  /** Depths within a line are depths in the text. */
  lemma {:induction false} LineDepth(lines: seq<string>, l: nat, open: char, close: char, a: nat, b: nat)
    requires l < |lines| && a <= b <= |lines[l]|
    ensures Offset(lines, l) + b <= |Flat(lines)|
    ensures Depth(Flat(lines), open, close, Offset(lines, l) + a, Offset(lines, l) + b)
            == Depth(lines[l], open, close, a, b)
    decreases b
  {
    FlatSplit(lines, l);
    if a < b {
      LineDepth(lines, l, open, close, a, b - 1);
      assert lines[l][b - 1] == Flat(lines)[Offset(lines, l)..Offset(lines, l + 1)][b - 1];
    }
  }

  // ----- one expression, from both ends -----

  /** From the end, too, no proper part of the expression is balanced. */
  lemma BracketedSuffix(t: string, open: char, close: char, i: nat, j: nat)
    requires i < j < |t|
    ensures Bracketed(t, open, close, i, j) <==>
              Depth(t, open, close, i, j + 1) == 0
              && forall k {:trigger Depth(t, open, close, k, j + 1)} | i < k <= j :: Depth(t, open, close, k, j + 1) < 0
  {
    if Bracketed(t, open, close, i, j) {
      forall k {:trigger Depth(t, open, close, k, j + 1)} | i < k <= j ensures Depth(t, open, close, k, j + 1) < 0 {
        DepthSplit(t, open, close, i, k, j + 1);
      }
    } else if Depth(t, open, close, i, j + 1) == 0 {
      var k :| i < k <= j && Depth(t, open, close, i, k) <= 0;
      DepthSplit(t, open, close, i, k, j + 1);
    }
  }

  /** An expression has one end, and one start: looking for the start from the end leads back. */
  lemma OneExpression(t: string, open: char, close: char, i: nat, j: nat, i': nat, j': nat)
    requires Bracketed(t, open, close, i, j) && Bracketed(t, open, close, i', j')
    ensures i == i' <==> j == j'
  {
    BracketedSuffix(t, open, close, i, j);
    BracketedSuffix(t, open, close, i', j');
    assert Depth(t, open, close, i, j + 1) == 0 == Depth(t, open, close, i', j' + 1);
  }

  // ----- the closing bracket -----

  /** `FindEndOfExpressionInLine`, where an expression is open at the start or starts there. */
  method FindEndOfExpressionInLine(line: string, startpos: nat, depth0: int, startchar: char, endchar: char)
      returns (pos: int, depth: int)
    requires startpos <= |line| && startchar != endchar
    requires depth0 > 0 || (depth0 == 0 && startpos < |line| && line[startpos] == startchar)
    ensures pos == -1 || startpos < pos <= |line|
    ensures depth == depth0 + Depth(line, startchar, endchar, startpos, if pos == -1 then |line| else pos)
    ensures pos != -1 ==> depth == 0 && line[pos - 1] == endchar
    ensures forall k {:trigger Depth(line, startchar, endchar, startpos, k)} |
              startpos < k <= |line| && (pos == -1 || k < pos) ::
                  depth0 + Depth(line, startchar, endchar, startpos, k) > 0
  {
    depth := depth0;
    for i := startpos to |line|
      invariant depth == depth0 + Depth(line, startchar, endchar, startpos, i)
      invariant i > startpos || depth0 > 0 ==> depth > 0
      invariant forall k {:trigger Depth(line, startchar, endchar, startpos, k)} |
                  startpos < k <= i :: depth0 + Depth(line, startchar, endchar, startpos, k) > 0
    {
      if line[i] == startchar {
        depth := depth + 1;
      } else if line[i] == endchar {
        depth := depth - 1;
        if depth == 0 {
          return i + 1, 0;
        }
      }
    }
    return -1, depth;
  }

  /** BRACES */
  function EndOf(c: char): char { if c == '(' then ')' else if c == '{' then '}' else ']' }

  predicate IsOpening(c: char) { c == '(' || c == '{' || c == '[' }

  /** Nothing closed the expression that starts at `i` before position j. */
  ghost predicate OpenUntil(t: string, open: char, close: char, i: nat, j: nat) {
    j <= |t| && forall k {:trigger Depth(t, open, close, i, k)} | i < k <= j :: Depth(t, open, close, i, k) > 0
  }

  /** One more line without the end, or with it. */
  lemma LineGoesOn(lines: seq<string>, l: nat, open: char, close: char, i: nat, a: nat, b: nat)
    requires l < |lines| && a <= b <= |lines[l]| && i <= Offset(lines, l) + a
    requires OpenUntil(Flat(lines), open, close, i, Offset(lines, l) + a)
    requires var d := Depth(Flat(lines), open, close, i, Offset(lines, l) + a);
             forall k {:trigger Depth(lines[l], open, close, a, k)} | a < k <= b ::
                 d + Depth(lines[l], open, close, a, k) > 0
    ensures OpenUntil(Flat(lines), open, close, i, Offset(lines, l) + b)
  {
    var (t, off) := (Flat(lines), Offset(lines, l));
    LineDepth(lines, l, open, close, a, b);
    forall k | i < k <= off + b ensures Depth(t, open, close, i, k) > 0 {
      if k > off + a {
        LineDepth(lines, l, open, close, a, k - off);
        DepthSplit(t, open, close, i, off + a, k);
      }
    }
  }

  lemma DepthThrough(lines: seq<string>, l: nat, open: char, close: char, i: nat, a: nat, b: nat)
    requires l < |lines| && a <= b <= |lines[l]| && i <= Offset(lines, l) + a
    ensures Offset(lines, l) + b <= |Flat(lines)|
    ensures Depth(Flat(lines), open, close, i, Offset(lines, l) + b)
         == Depth(Flat(lines), open, close, i, Offset(lines, l) + a) + Depth(lines[l], open, close, a, b)
  {
    LineDepth(lines, l, open, close, a, b);
    DepthSplit(Flat(lines), open, close, i, Offset(lines, l) + a, Offset(lines, l) + b);
  }

  /** What looking for the end of the expression that starts at position i gives: the position past it, or none. */
  ghost predicate Closes(lines: seq<string>, open: char, close: char, i: nat, l: int, p: int) {
    if l == |lines| then p == -1 && OpenUntil(Flat(lines), open, close, i, |Flat(lines)|)
    else 0 <= l < |lines| && 0 < p <= |lines[l]| && lines[l][p - 1] == close
         && Bracketed(Flat(lines), open, close, i, Offset(lines, l) + p - 1)
  }

  /** `CloseExpression` */
  method CloseExpression(lines: seq<string>, linenum0: nat, pos: nat) returns (linenum: int, endPos: int)
    requires linenum0 < |lines| && pos < |lines[linenum0]|
    ensures !IsOpening(lines[linenum0][pos]) ==> linenum == |lines| && endPos == -1
    ensures IsOpening(lines[linenum0][pos]) ==>
              Closes(lines, lines[linenum0][pos], EndOf(lines[linenum0][pos]), Offset(lines, linenum0) + pos, linenum,
                  endPos)
  {
    linenum := linenum0;
    var line := lines[linenum];
    var startchar := line[pos];
    if !IsOpening(startchar) {
      return |lines|, -1;
    }
    var endchar := EndOf(startchar);
    var numOpen;
    endPos, numOpen := FindEndOfExpressionInLine(line, pos, 0, startchar, endchar);
    ghost var i := Offset(lines, linenum) + pos;
    FlatSplit(lines, linenum);
    FoundOrNot(lines, linenum, startchar, endchar, i, pos, endPos, numOpen);
    if endPos > -1 {
      return linenum, endPos;
    }
    while linenum < |lines| - 1
      invariant 0 <= linenum < |lines| && i <= Offset(lines, linenum + 1) <= |Flat(lines)|
      invariant OpenUntil(Flat(lines), startchar, endchar, i, Offset(lines, linenum + 1))
      invariant numOpen == Depth(Flat(lines), startchar, endchar, i, Offset(lines, linenum + 1)) > 0
    {
      linenum := linenum + 1;
      line := lines[linenum];
      FlatSplit(lines, linenum);
      endPos, numOpen := FindEndOfExpressionInLine(line, 0, numOpen, startchar, endchar);
      FoundOrNot(lines, linenum, startchar, endchar, i, 0, endPos, numOpen);
      if endPos > -1 {
        return linenum, endPos;
      }
    }
    assert lines[..linenum + 1] == lines;
    return |lines|, -1;
  }

  /** After one line. */
  lemma FoundOrNot(lines: seq<string>, l: nat, open: char, close: char, i: nat, a: nat, p: int, depth: int)
    requires l < |lines| && a <= |lines[l]| && i <= Offset(lines, l) + a && open != close
    requires OpenUntil(Flat(lines), open, close, i, Offset(lines, l) + a)
    requires var d := Depth(Flat(lines), open, close, i, Offset(lines, l) + a);
             && (p == -1 || a < p <= |lines[l]|)
             && depth == d + Depth(lines[l], open, close, a, if p == -1 then |lines[l]| else p)
             && (p != -1 ==> depth == 0 && lines[l][p - 1] == close)
             && (forall k {:trigger Depth(lines[l], open, close, a, k)} |
                   a < k <= |lines[l]| && (p == -1 || k < p) :: d + Depth(lines[l], open, close, a, k) > 0)
             && (d > 0 || a < |lines[l]|)
    requires i == Offset(lines, l) + a ==> a < |lines[l]| && lines[l][a] == open
    ensures p != -1 ==> Closes(lines, open, close, i, l, p)
    ensures p == -1 ==> OpenUntil(Flat(lines), open, close, i, Offset(lines, l + 1)) && i <= Offset(lines, l + 1)
                        && depth == Depth(Flat(lines), open, close, i, Offset(lines, l + 1)) > 0
  {
    FlatSplit(lines, l);
    if p == -1 {
      LineGoesOn(lines, l, open, close, i, a, |lines[l]|);
      DepthThrough(lines, l, open, close, i, a, |lines[l]|);
    } else {
      LineGoesOn(lines, l, open, close, i, a, p - 1);
      DepthThrough(lines, l, open, close, i, a, p);
    }
  }

  // ----- the opening bracket -----

  /** `FindStartOfExpressionInLine`, where an expression is open at the end or ends there. */
  method FindStartOfExpressionInLine(line: string, endpos: int, depth0: int, startchar: char, endchar: char)
      returns (pos: int, depth: int)
    requires -1 <= endpos < |line| && startchar != endchar
    requires depth0 > 0 || (depth0 == 0 && endpos >= 0 && line[endpos] == endchar)
    ensures -1 <= pos <= endpos
    ensures depth == depth0 - Depth(line, startchar, endchar, if pos == -1 then 0 else pos, endpos + 1)
    ensures pos != -1 ==> depth == 0 && line[pos] == startchar
    ensures forall k {:trigger Depth(line, startchar, endchar, k, endpos + 1)} |
              0 <= k && pos < k <= endpos :: depth0 - Depth(line, startchar, endchar, k, endpos + 1) > 0
  {
    depth := depth0;
    for i := endpos + 1 downto 0
      invariant depth == depth0 - Depth(line, startchar, endchar, i, endpos + 1)
      invariant i <= endpos || depth0 > 0 ==> depth > 0
      invariant forall k {:trigger Depth(line, startchar, endchar, k, endpos + 1)} |
                  i <= k <= endpos :: depth0 - Depth(line, startchar, endchar, k, endpos + 1) > 0
    {
      DepthSplit(line, startchar, endchar, i, i + 1, endpos + 1);
      if line[i] == endchar {
        depth := depth + 1;
      } else if line[i] == startchar {
        depth := depth - 1;
        if depth == 0 {
          return i, 0;
        }
      }
    }
    return -1, depth;
  }

  predicate IsClosing(c: char) { c == ')' || c == '}' || c == ']' || c == '>' }

  function StartOf(c: char): char { if c == ')' then '(' else if c == ']' then '[' else if c == '}' then '{' else '<' }

  /** Nothing opened the expression that ends above position n, from position j on. */
  ghost predicate OpenFrom(t: string, open: char, close: char, j: nat, n: nat) {
    n <= |t| && forall k {:trigger Depth(t, open, close, k, n)} | j <= k < n :: Depth(t, open, close, k, n) < 0
  }

  /** What looking for the start of the expression that ends at position j gives: its place, or none. */
  ghost predicate Opens(lines: seq<string>, open: char, close: char, j: nat, l: int, p: int) {
    if p == -1 then l == 0 && OpenFrom(Flat(lines), open, close, 0, j + 1)
    else 0 <= l < |lines| && 0 <= p < |lines[l]| && lines[l][p] == open
         && Bracketed(Flat(lines), open, close, Offset(lines, l) + p, j)
  }

  /** `ReverseCloseExpression` */
  method ReverseCloseExpression(lines: seq<string>, linenum0: nat, pos: nat) returns (linenum: int, startPos: int)
    requires linenum0 < |lines| && pos < |lines[linenum0]|
    ensures !IsClosing(lines[linenum0][pos]) ==> linenum == 0 && startPos == -1
    ensures IsClosing(lines[linenum0][pos]) ==>
              Opens(lines, StartOf(lines[linenum0][pos]), lines[linenum0][pos], Offset(lines, linenum0) + pos, linenum,
                  startPos)
  {
    linenum := linenum0;
    var line := lines[linenum];
    var endchar := line[pos];
    if !IsClosing(endchar) {
      return 0, -1;
    }
    var startchar := StartOf(endchar);
    var numOpen;
    startPos, numOpen := FindStartOfExpressionInLine(line, pos, 0, startchar, endchar);
    ghost var n := Offset(lines, linenum) + pos + 1;
    FlatSplit(lines, linenum);
    StartFoundOrNot(lines, linenum, startchar, endchar, pos + 1, n, startPos, numOpen);
    if startPos > -1 {
      return linenum, startPos;
    }
    while linenum > 0
      invariant 0 <= linenum < |lines| && Offset(lines, linenum) < n <= |Flat(lines)|
      invariant OpenFrom(Flat(lines), startchar, endchar, Offset(lines, linenum), n)
      invariant numOpen == -Depth(Flat(lines), startchar, endchar, Offset(lines, linenum), n) > 0
    {
      linenum := linenum - 1;
      line := lines[linenum];
      FlatSplit(lines, linenum);
      startPos, numOpen := FindStartOfExpressionInLine(line, |line| - 1, numOpen, startchar, endchar);
      StartFoundOrNot(lines, linenum, startchar, endchar, |line|, n, startPos, numOpen);
      if startPos > -1 {
        return linenum, startPos;
      }
    }
    return 0, -1;
  }

  /** A part of line l, up to position b, above the part that is done. */
  lemma DepthBelow(lines: seq<string>, l: nat, open: char, close: char, a: nat, b: nat, n: nat)
    requires l < |lines| && a <= b <= |lines[l]| && Offset(lines, l) + b <= n <= |Flat(lines)|
    ensures Depth(Flat(lines), open, close, Offset(lines, l) + a, n)
         == Depth(lines[l], open, close, a, b) + Depth(Flat(lines), open, close, Offset(lines, l) + b, n)
  {
    LineDepth(lines, l, open, close, a, b);
    DepthSplit(Flat(lines), open, close, Offset(lines, l) + a, Offset(lines, l) + b, n);
  }

  lemma StartFoundOrNot(lines: seq<string>, l: nat, open: char, close: char, b: nat, n: nat, p: int, depth: int)
    requires l < |lines| && b <= |lines[l]| && Offset(lines, l) + b <= n <= |Flat(lines)| && open != close && n > 0
    requires OpenFrom(Flat(lines), open, close, Offset(lines, l) + b, n)
    requires var d := -Depth(Flat(lines), open, close, Offset(lines, l) + b, n);
             && -1 <= p < b
             && depth == d - Depth(lines[l], open, close, if p == -1 then 0 else p, b)
             && (p != -1 ==> depth == 0 && lines[l][p] == open)
             && (forall k {:trigger Depth(lines[l], open, close, k, b)} | 0 <= k && p < k < b ::
                 d - Depth(lines[l], open, close, k, b) > 0)
    requires n == Offset(lines, l) + b ==> b > 0 && lines[l][b - 1] == close
    ensures p != -1 ==> Opens(lines, open, close, n - 1, l, p)
    ensures p == -1 ==> OpenFrom(Flat(lines), open, close, Offset(lines, l), n) && Offset(lines, l) < n
                        && depth == -Depth(Flat(lines), open, close, Offset(lines, l), n) > 0
  {
    var (t, off) := (Flat(lines), Offset(lines, l));
    FlatSplit(lines, l);
    var low := if p == -1 then 0 else p;
    DepthBelow(lines, l, open, close, low, b, n);
    forall k {:trigger Depth(t, open, close, k, n)} | off + p < k
        && off <= k < n ensures Depth(t, open, close, k, n) < 0 {
      if k < off + b {
        DepthBelow(lines, l, open, close, k - off, b, n);
      }
    }
    if p != -1 {
      BracketedSuffix(t, open, close, off + p, n - 1);
    }
  }

  // ----- the two are inverse -----

  lemma {:induction false} OffsetsGrow(lines: seq<string>, k: nat, l: nat)
    requires k < l <= |lines|
    ensures Offset(lines, k) + |lines[k]| <= Offset(lines, l)
    decreases l
  {
    FlatSplit(lines, l - 1);
    if k < l - 1 {
      OffsetsGrow(lines, k, l - 1);
    }
  }

  lemma OnePlace(lines: seq<string>, k: nat, p: nat, l: nat, q: nat)
    requires k < |lines| && p < |lines[k]| && l < |lines| && q < |lines[l]|
             && Offset(lines, k) + p == Offset(lines, l) + q
    ensures k == l && p == q
  {
    if k < l {
      OffsetsGrow(lines, k, l);
    } else if l < k {
      OffsetsGrow(lines, l, k);
    }
  }

  /** Not finding the end means that there is none. */
  lemma NoEnd(lines: seq<string>, open: char, close: char, i: nat, j: nat)
    requires Closes(lines, open, close, i, |lines|, -1)
    ensures !Bracketed(Flat(lines), open, close, i, j)
  {
    var t := Flat(lines);
    if i < j < |t| {
      assert Depth(t, open, close, i, j + 1) > 0;
    }
  }

  /** ... and likewise for the start. */
  lemma NoStart(lines: seq<string>, open: char, close: char, i: nat, j: nat)
    requires Opens(lines, open, close, j, 0, -1)
    ensures !Bracketed(Flat(lines), open, close, i, j)
  {
    var t := Flat(lines);
    if i < j < |t| {
      assert Depth(t, open, close, i, j + 1) < 0;
    }
  }

  /** Looking for the start from the end that was found leads back to where the search began. */
  lemma ThereAndBack(lines: seq<string>, open: char, close: char, l: nat, p: nat, endLine: int, past: int,
                     startLine: int, startPos: int)
    requires l < |lines| && p < |lines[l]|
    requires Closes(lines, open, close, Offset(lines, l) + p, endLine, past) && endLine < |lines|
    requires Opens(lines, open, close, Offset(lines, endLine) + past - 1, startLine, startPos)
    ensures startLine == l && startPos == p
  {
    var (i, j) := (Offset(lines, l) + p, Offset(lines, endLine) + past - 1);
    if startPos == -1 {
      NoStart(lines, open, close, i, j);
      assert false;
    } else {
      OneExpression(Flat(lines), open, close, i, j, Offset(lines, startLine) + startPos, j);
      OnePlace(lines, l, p, startLine, startPos);
    }
  }

  /** ... and looking for the end from the start that was found leads to just past the closing bracket. */
  lemma BackAndThere(lines: seq<string>, open: char, close: char, l: nat, p: nat, startLine: int, startPos: int,
                     endLine: int, past: int)
    requires l < |lines| && p < |lines[l]|
    requires Opens(lines, open, close, Offset(lines, l) + p, startLine, startPos) && startPos != -1
    requires Closes(lines, open, close, Offset(lines, startLine) + startPos, endLine, past)
    ensures endLine == l && past == p + 1
  {
    var (i, j) := (Offset(lines, startLine) + startPos, Offset(lines, l) + p);
    if endLine == |lines| {
      NoEnd(lines, open, close, i, j);
      assert false;
    } else {
      OneExpression(Flat(lines), open, close, i, j, i, Offset(lines, endLine) + past - 1);
      OnePlace(lines, l, p, endLine, past - 1);
    }
  }
}

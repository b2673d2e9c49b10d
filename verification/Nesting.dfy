/** How the linter follows nested blocks across conditional compilation: `_NestingState` of src/clint.py, without its
    tracking of inline assembly. */
module Nesting {
  import opened Sequences

  // ----- lines -----

  predicate IsSpace(c: char) { c == ' ' || '\t' <= c <= '\r' }

  predicate IsWordChar(c: char) { 'a' <= c <= 'z' || 'A' <= c <= 'Z' || '0' <= c <= '9' || c == '_' }

  function SkipSpace(s: string): string {
    if s != [] && IsSpace(s[0]) then SkipSpace(s[1..]) else s
  }

  function Word(s: string): string {
    if s != [] && IsWordChar(s[0]) then [s[0]] + Word(s[1..]) else []
  }

  datatype Kind = If | Else | Endif | Other

  /** What the directive on the line, if any, does. */
  function KindOf(line: string): Kind {
    var s := SkipSpace(line);
    if s == [] || s[0] != '#' then Other
    else
      var word := Word(SkipSpace(s[1..]));
      if word == "if" || word == "ifdef" || word == "ifndef" then If
      else if word == "else" || word == "elif" then Else
      else if word == "endif" then Endif
      else Other
  }

  function Count(c: char, s: string): nat {
    if s == [] then 0 else (if s[0] == c then 1 else 0) + Count(c, s[1..])
  }

  /** A line that opens and closes as many parentheses, and has no braces. */
  predicate Neutral(line: string) { Count('(', line) == Count(')', line) && '{' !in line && '}' !in line }

  // ----- what one line does -----

  /** An open block: whether its opening brace was seen, and how many parentheses are open in it. */
  datatype Block = Block(seen: bool, parens: int)

  /** What is kept for an `#if`: the blocks before it and before its first `#else`, and whether that was seen. */
  datatype Checkpoint = Checkpoint(beforeIf: seq<Block>, beforeElse: seq<Block>, seenElse: bool)

  datatype State = State(stack: seq<Block>, pps: seq<Checkpoint>)

  function Last<T>(s: seq<T>): T
    requires s != []
  {
    s[|s| - 1]
  }

  function Front<T>(s: seq<T>): seq<T>
    requires s != []
  {
    s[..|s| - 1]
  }

  /** `SeenOpenBrace` */
  predicate Seen(stack: seq<Block>) { stack == [] || Last(stack).seen }

  /** `UpdatePreprocessor` */
  function Preprocess(st: State, kind: Kind): State {
    match kind
    case Other => st
    case If => State(st.stack, st.pps + [Checkpoint(st.stack, [], false)])
    case Else =>
      if st.pps == [] then st
      else
        var top := Last(st.pps);
        State(top.beforeIf, Front(st.pps) + [if top.seenElse then top else Checkpoint(top.beforeIf, st.stack, true)])
    case Endif =>
      if st.pps == [] then st
      else State(if Last(st.pps).seenElse then Last(st.pps).beforeElse else st.stack, Front(st.pps))
  }

  function Parens(stack: seq<Block>, line: string): seq<Block> {
    if stack == [] then stack
    else Front(stack) + [Block(Last(stack).seen, Last(stack).parens + Count('(', line) - Count(')', line))]
  }

  /** One brace, semicolon or closing parenthesis. */
  function Token(stack: seq<Block>, c: char): seq<Block> {
    if c == '{' then
      if Seen(stack) then stack + [Block(true, 0)] else Front(stack) + [Block(true, Last(stack).parens)]
    else if c == ';' || c == ')' then
      if Seen(stack) then stack else Front(stack)
    else if c == '}' then
      if stack == [] then stack else Front(stack)
    else stack
  }

  function Tokens(stack: seq<Block>, line: string): seq<Block>
    decreases |line|
  {
    if line == [] then stack else Tokens(Token(stack, line[0]), line[1..])
  }

  /** What the brackets of a line do to the open blocks. */
  function Brackets(stack: seq<Block>, line: string): seq<Block> {
    Tokens(Parens(stack, line), line)
  }

  /** `Update` */
  function Step(st: State, line: string): State {
    var p := Preprocess(st, KindOf(line));
    State(Brackets(p.stack, line), p.pps)
  }

  function Run(st: State, lines: seq<string>): State {
    if lines == [] then st else Step(Run(st, Front(lines)), Last(lines))
  }

  // ----- the lines of the first branches -----

  /** For every open `#if`, whether its first branch is over. */
  function Branches(flags: seq<bool>, kind: Kind): seq<bool> {
    match kind
    case Other => flags
    case If => flags + [false]
    case Else => if flags == [] then flags else Front(flags) + [true]
    case Endif => if flags == [] then flags else Front(flags)
  }

  function BranchesAfter(lines: seq<string>): seq<bool> {
    if lines == [] then [] else Branches(BranchesAfter(Front(lines)), KindOf(Last(lines)))
  }

  /** The lines that are not directives of conditionals and only in first branches. */
  function FirstBranches(lines: seq<string>): seq<string> {
    if lines == [] then []
    else
      FirstBranches(Front(lines))
      + (if KindOf(Last(lines)) == Other && true !in BranchesAfter(Front(lines)) then [Last(lines)] else [])
  }

  /** The blocks when only the brackets count. */
  function Plain(lines: seq<string>): seq<Block> {
    if lines == [] then [] else Brackets(Plain(Front(lines)), Last(lines))
  }

  // ----- the stack after the conditionals -----

  /** All blocks have had their opening brace. */
  predicate AllSeen(stack: seq<Block>) { forall b | b in stack :: b.seen }

  lemma {:induction false} TokensSeen(stack: seq<Block>, line: string)
    requires AllSeen(stack)
    ensures AllSeen(Tokens(stack, line))
    ensures '{' !in line && '}' !in line ==> Tokens(stack, line) == stack
    decreases |line|
  {
    if line != [] {
      TokensSeen(Token(stack, line[0]), line[1..]);
    }
  }

  lemma BracketsSeen(stack: seq<Block>, line: string)
    requires AllSeen(stack)
    ensures AllSeen(Brackets(stack, line)) && (Neutral(line) ==> Brackets(stack, line) == stack)
  {
    TokensSeen(Parens(stack, line), line);
    if stack != [] {
      assert stack == Front(stack) + [Last(stack)];
    }
  }

  /** The blocks as they will be once the conditionals are over whose first branch is over. */
  function Main(st: State): seq<Block> {
    MainFrom(st.stack, st.pps)
  }

  function MainFrom(stack: seq<Block>, pps: seq<Checkpoint>): seq<Block> {
    if pps == [] then stack else if pps[0].seenElse then pps[0].beforeElse else MainFrom(stack, pps[1..])
  }

  function Flags(pps: seq<Checkpoint>): (flags: seq<bool>)
    ensures |flags| == |pps| && forall i | 0 <= i < |pps| :: flags[i] == pps[i].seenElse
  {
    seq(|pps|, i requires 0 <= i < |pps| => pps[i].seenElse)
  }

  predicate AllSeenIn(st: State) {
    AllSeen(st.stack) && forall i | 0 <= i < |st.pps| :: AllSeen(st.pps[i].beforeIf) && AllSeen(st.pps[i].beforeElse)
  }

  lemma {:induction false} MainIs(stack: seq<Block>, pps: seq<Checkpoint>)
    ensures true !in Flags(pps) ==> MainFrom(stack, pps) == stack
    ensures true in Flags(pps) ==> forall other :: MainFrom(other, pps) == MainFrom(stack, pps)
    decreases |pps|
  {
    if pps != [] {
      MainIs(stack, pps[1..]);
      assert Flags(pps) == [pps[0].seenElse] + Flags(pps[1..]);
    }
  }

  lemma {:induction false} MainSnoc(stack: seq<Block>, pps: seq<Checkpoint>, pp: Checkpoint)
    ensures MainFrom(stack, pps + [pp]) ==
              if true in Flags(pps) then MainFrom(stack, pps) else if pp.seenElse then pp.beforeElse else stack
    decreases |pps|
  {
    if pps == [] {
      assert pps + [pp] == [pp] && [pp][1..] == [];
    } else {
      MainSnoc(stack, pps[1..], pp);
      assert (pps + [pp])[1..] == pps[1..] + [pp];
      assert Flags(pps) == [pps[0].seenElse] + Flags(pps[1..]);
    }
  }

  /** A directive does not change the blocks as they will be. */
  lemma PreprocessKeeps(st: State, kind: Kind)
    requires AllSeenIn(st)
    ensures var p := Preprocess(st, kind);
            Main(p) == Main(st) && Flags(p.pps) == Branches(Flags(st.pps), kind) && AllSeenIn(p)
  {
    hide MainFrom;
    match kind
    case Other =>
    case If =>
      MainIs(st.stack, st.pps);
      MainSnoc(st.stack, st.pps, Checkpoint(st.stack, [], false));
    case Else =>
      if st.pps != [] { ElseKeeps(st); }
    case Endif =>
      if st.pps != [] { EndifKeeps(st); }
  }

  lemma ElseKeeps(st: State)
    requires AllSeenIn(st) && st.pps != []
    ensures var p := Preprocess(st, Else);
            Main(p) == Main(st) && Flags(p.pps) == Branches(Flags(st.pps), Else) && AllSeenIn(p)
  {
    hide MainFrom;
    var (p, below) := (Preprocess(st, Else), Front(st.pps));
    assert st.pps == below + [Last(st.pps)] && p.pps == below + [Last(p.pps)];
    MainSnoc(st.stack, below, Last(st.pps));
    MainSnoc(p.stack, below, Last(p.pps));
    MainIs(st.stack, below);
    assert Main(p) == Main(st);
  }

  lemma EndifKeeps(st: State)
    requires AllSeenIn(st) && st.pps != []
    ensures var p := Preprocess(st, Endif);
            Main(p) == Main(st) && Flags(p.pps) == Branches(Flags(st.pps), Endif) && AllSeenIn(p)
  {
    hide MainFrom;
    var (p, below) := (Preprocess(st, Endif), Front(st.pps));
    assert st.pps == below + [Last(st.pps)];
    MainSnoc(st.stack, below, Last(st.pps));
    MainIs(p.stack, below);
    MainIs(st.stack, below);
    assert Main(p) == Main(st);
  }

  lemma StepKeeps(st: State, line: string)
    requires AllSeenIn(st) && (KindOf(line) != Other ==> Neutral(line))
    ensures var q := Step(st, line);
            && AllSeenIn(q) && Flags(q.pps) == Branches(Flags(st.pps), KindOf(line))
            && Main(q) == if KindOf(line) == Other && true !in Flags(st.pps) then Brackets(Main(st), line) else Main(st)
  {
    hide Neutral, Brackets, KindOf, Preprocess, AllSeen, MainFrom;
    var p := Preprocess(st, KindOf(line));
    PreprocessKeeps(st, KindOf(line));
    BracketsSeen(p.stack, line);
    MainIs(p.stack, p.pps);
    if KindOf(line) == Other {
      OtherKeeps(st);
      MainIs(Brackets(p.stack, line), p.pps);
    }
  }

  lemma OtherKeeps(st: State)
    ensures Preprocess(st, Other) == st
  {
  }

  lemma PlainSnoc(lines: seq<string>, line: string)
    ensures Plain(lines + [line]) == Brackets(Plain(lines), line)
  {
    assert Front(lines + [line]) == lines;
  }

  /** Whatever the lines are: if the directives are neutral, the blocks as they will be are those of the first branches
      alone. */
  lemma {:induction false} FirstBranchesOnly(lines: seq<string>)
    requires forall line | line in lines && KindOf(line) != Other :: Neutral(line)
    ensures var st := Run(State([], []), lines);
            Main(st) == Plain(FirstBranches(lines)) && Flags(st.pps) == BranchesAfter(lines) && AllSeenIn(st)
    decreases |lines|
  {
    hide Neutral, Brackets, KindOf, AllSeenIn, Main, Step, Branches, Plain;
    if lines == [] {
      NoLines();
    } else {
      var (front, line) := (Front(lines), Last(lines));
      FirstBranchesOnly(front);
      StepKeeps(Run(State([], []), front), line);
      PlainSnoc(FirstBranches(front), line);
      assert FirstBranches(front) + [] == FirstBranches(front);
    }
  }

  lemma NoLines()
    ensures Main(State([], [])) == [] == Plain([]) && AllSeenIn(State([], []))
  {
  }

  /** The conditionals are properly nested: no branch or end without an `#if`, and every `#if` has its end. */
  predicate Nested(lines: seq<string>) {
    BranchesAfter(lines) == [] && forall k | 0 <= k < |lines| && KindOf(lines[k]) in {Else, Endif} ::
        BranchesAfter(lines[..k]) != []
  }

  /** After properly nested conditionals, the blocks are those of the first branches alone, and no conditional is open.
      */
  lemma NestedConditionals(lines: seq<string>)
    requires Nested(lines) && forall line | line in lines && KindOf(line) != Other :: Neutral(line)
    ensures Run(State([], []), lines) == State(Plain(FirstBranches(lines)), [])
  {
    hide KindOf, Plain, FirstBranches, Neutral;
    FirstBranchesOnly(lines);
    var st := Run(State([], []), lines);
    assert |Flags(st.pps)| == 0;
  }

  // ----- what directives and tokens mean -----

  predicate AllSpace(s: string) {
    forall i | 0 <= i < |s| :: s[i] in {' ', '\t', '\n', '\U{0B}', '\U{0C}', '\r'}
  }

  predicate AllWord(s: string) { forall i | 0 <= i < |s| :: IsWordChar(s[i]) }

  lemma {:induction false} SpaceSkipped(a: string, s: string)
    requires AllSpace(a) && (s == [] || !IsSpace(s[0]))
    ensures SkipSpace(a + s) == s
    decreases |a|
  {
    if a == [] {
      assert a + s == s;
    } else {
      assert (a + s)[1..] == a[1..] + s;
      SpaceSkipped(a[1..], s);
    }
  }

  lemma {:induction false} WordFound(w: string, rest: string)
    requires AllWord(w) && (rest == [] || !IsWordChar(rest[0]))
    ensures Word(w + rest) == w
    decreases |w|
  {
    if w == [] {
      assert w + rest == rest;
    } else {
      assert (w + rest)[1..] == w[1..] + rest;
      WordFound(w[1..], rest);
    }
  }

  /** A line is a directive if it starts with `#`, apart from white space, and a word, which says what it does. */
  lemma KindMeans(a: string, b: string, w: string, rest: string)
    requires AllSpace(a) && AllSpace(b) && w != [] && AllWord(w) && (rest == [] || !IsWordChar(rest[0]))
    ensures var kind := KindOf(a + ("#" + (b + (w + rest))));
            && (kind == If <==> w in {"if", "ifdef", "ifndef"})
            && (kind == Else <==> w in {"else", "elif"})
            && (kind == Endif <==> w == "endif")
  {
    var (s, t) := ("#" + (b + (w + rest)), w + rest);
    assert s[0] == '#' && s[1..] == b + t && t[0] == w[0];
    SpaceSkipped(a, s);
    SpaceSkipped(b, t);
    WordFound(w, rest);
  }

  /** Any other line is not. */
  lemma NoDirective(a: string, s: string)
    requires AllSpace(a) && (s == [] || (!IsSpace(s[0]) && s[0] != '#'))
    ensures KindOf(a + s) == Other
  {
    SpaceSkipped(a, s);
  }

  /** The line never closes more than n blocks beyond those that it opens itself. */
  predicate Within(line: string, n: int)
    decreases |line|
  {
    n >= 0 && (line == [] || Within(line[1..], if line[0] == '{' then n + 1 else if line[0] == '}' then n - 1 else n))
  }

  /** That is, no beginning of it does. */
  lemma {:induction false} WithinMeans(line: string, n: int)
    ensures Within(line, n) <==> forall k | 0 <= k <= |line| :: Count('}', line[..k]) <= n + Count('{', line[..k])
    decreases |line|
  {
    if line == [] {
      assert line[..0] == [];
    } else {
      var m := if line[0] == '{' then n + 1 else if line[0] == '}' then n - 1 else n;
      var rest := line[1..];
      WithinMeans(rest, m);
      forall k | 0 <= k <= |rest|
        ensures Count('}', rest[..k]) <= m + Count('{', rest[..k])
                <==> Count('}', line[..k + 1]) <= n + Count('{', line[..k + 1])
      {
        assert line[..k + 1] == [line[0]] + rest[..k];
      }
      assert line[..0] == [] && (forall k | 0 < k <= |line| :: line[..k] == line[..(k - 1) + 1]);
      PrefixesShift(line, n, m);
    }
  }

  lemma PrefixesShift(line: string, n: int, m: int)
    requires line != []
    requires forall k | 0 <= k <= |line| - 1 ::
               Count('}', line[1..][..k]) <= m + Count('{', line[1..][..k])
               <==> Count('}', line[..k + 1]) <= n + Count('{', line[..k + 1])
    ensures (forall k | 0 <= k <= |line| :: Count('}', line[..k]) <= n + Count('{', line[..k]))
            <==> n >= 0 && forall k | 0 <= k <= |line| - 1 ::
                Count('}', line[1..][..k]) <= m + Count('{', line[1..][..k])
  {
    assert line[..0] == [];
    if n >= 0 && forall k | 0 <= k <= |line| - 1 :: Count('}', line[1..][..k]) <= m + Count('{', line[1..][..k]) {
      forall k | 0 <= k <= |line| ensures Count('}', line[..k]) <= n + Count('{', line[..k]) {
        if k > 0 {
          assert Count('}', line[1..][..k - 1]) <= m + Count('{', line[1..][..k - 1]);
        }
      }
    }
    if forall k | 0 <= k <= |line| :: Count('}', line[..k]) <= n + Count('{', line[..k]) {
      assert Count('}', line[..0]) <= n + Count('{', line[..0]);
    }
  }

  /** Then the blocks below these n stay as they are, and the number of blocks grows by the braces opened and not
      closed. */
  lemma {:induction false} TokensAbove(below: seq<Block>, stack: seq<Block>, line: string)
    requires AllSeen(below) && AllSeen(stack) && Within(line, |stack|)
    ensures Tokens(below + stack, line) == below + Tokens(stack, line)
    ensures |Tokens(stack, line)| == |stack| + Count('{', line) - Count('}', line)
    decreases |line|
  {
    if line != [] {
      var all := below + stack;
      assert all != [] ==> Last(all) in all;
      assert stack != [] ==> Last(stack) in stack;
      assert Token(all, line[0]) == below + Token(stack, line[0]);
      TokensAbove(below, Token(stack, line[0]), line[1..]);
    }
  }

  /** A line opens as many blocks as it has opening braces, and closes as many as it has closing ones. */
  lemma TokensCount(stack: seq<Block>, line: string)
    requires AllSeen(stack)
    requires forall k | 0 <= k <= |line| :: Count('}', line[..k]) <= |stack| + Count('{', line[..k])
    ensures |Tokens(stack, line)| == |stack| + Count('{', line) - Count('}', line)
  {
    WithinMeans(line, |stack|);
    TokensAbove([], stack, line);
  }

  /** A line with balanced braces leaves the blocks as they are. */
  lemma TokensBalanced(stack: seq<Block>, line: string)
    requires AllSeen(stack) && Count('{', line) == Count('}', line)
    requires forall k | 0 <= k <= |line| :: Count('}', line[..k]) <= Count('{', line[..k])
    ensures Tokens(stack, line) == stack
  {
    WithinMeans(line, 0);
    TokensAbove(stack, [], line);
    assert stack + [] == stack;
  }

  /** More closing braces than there are open blocks close all of them. */
  lemma {:induction false} TokensBelow(stack: seq<Block>, line: string)
    requires AllSeen(stack) && '{' !in line && Count('}', line) >= |stack|
    ensures Tokens(stack, line) == []
    decreases |line|
  {
    if line != [] {
      TokensBelow(Token(stack, line[0]), line[1..]);
    }
  }

  /** An opening brace opens a block in which no parenthesis is open. */
  lemma TokenOpens(stack: seq<Block>)
    requires AllSeen(stack)
    ensures Tokens(stack, "{") == stack + [Block(true, 0)]
  {
    assert stack != [] ==> Last(stack) in stack;
    assert "{"[1..] == [];
  }

  /** The parentheses of a line count for the block that is the innermost one when it starts, if it is still open after
      it. */
  lemma ParensCounted(below: seq<Block>, b: Block, line: string)
    requires AllSeen(below) && b.seen && Count('{', line) == Count('}', line)
    requires forall k | 0 <= k <= |line| :: Count('}', line[..k]) <= Count('{', line[..k])
    ensures Brackets(below + [b], line) == below + [Block(true, b.parens + Count('(', line) - Count(')', line))]
  {
    hide Tokens, Count;
    var (stack, n) := (below + [b], b.parens + Count('(', line) - Count(')', line));
    assert Front(stack) == below && Last(stack) == b;
    assert Parens(stack, line) == below + [Block(true, n)];
    TokensBalanced(below + [Block(true, n)], line);
  }

  // ----- the state as it is kept: blocks are objects, and are copied -----

  /** _BlockInfo */
  class BlockInfo {
    var seenOpenBrace: bool
    var openParentheses: int

    constructor (seenOpenBrace: bool)
      ensures this.seenOpenBrace == seenOpenBrace && openParentheses == 0
    {
      this.seenOpenBrace, openParentheses := seenOpenBrace, 0;
    }

    function Value(): Block
      reads this
    {
      Block(seenOpenBrace, openParentheses)
    }
  }

  function Values(stack: seq<BlockInfo>): (r: seq<Block>)
    reads stack
    ensures |r| == |stack| && forall i | 0 <= i < |r| :: r[i] == stack[i].Value()
  {
    seq(|stack|, i requires 0 <= i < |stack| reads stack => stack[i].Value())
  }

  function Objects(stack: seq<BlockInfo>): set<BlockInfo> { set b | b in stack }

  /** `copy.deepcopy` of a stack. */
  method DeepCopy(stack: seq<BlockInfo>) returns (r: seq<BlockInfo>)
    ensures (forall b | b in r :: fresh(b)) && Distinct(r) && Values(r) == Values(stack)
  {
    r := [];
    for i := 0 to |stack|
      invariant |r| == i && (forall b | b in r :: fresh(b)) && Distinct(r)
      invariant forall j | 0 <= j < i :: r[j].Value() == stack[j].Value()
    {
      var b := new BlockInfo(stack[i].seenOpenBrace);
      b.openParentheses := stack[i].openParentheses;
      r := r + [b];
    }
  }

  /** _PreprocessorInfo */
  datatype PreprocessorInfo = PreprocessorInfo(stackBeforeIf: seq<BlockInfo>, stackBeforeElse: seq<BlockInfo>,
      seenElse: bool) {
    function Value(): Checkpoint
      reads stackBeforeIf, stackBeforeElse
    {
      Checkpoint(Values(stackBeforeIf), Values(stackBeforeElse), seenElse)
    }

    function Saved(): set<BlockInfo> { Objects(stackBeforeIf) + Objects(stackBeforeElse) }
  }

  /** All blocks in the checkpoints. */
  function SavedIn(pps: seq<PreprocessorInfo>): set<BlockInfo> {
    if pps == [] then {} else SavedIn(Front(pps)) + Last(pps).Saved()
  }

  function PpValues(pps: seq<PreprocessorInfo>): seq<Checkpoint>
    reads SavedIn(pps)
  {
    if pps == [] then [] else PpValues(Front(pps)) + [Last(pps).Value()]
  }

  /** No block is in two places from which it can become part of the stack. */
  ghost predicate Separate(pps: seq<PreprocessorInfo>) {
    pps == [] ||
    (Separate(Front(pps)) && Distinct(Last(pps).stackBeforeElse)
        && SavedIn(Front(pps)) !! Objects(Last(pps).stackBeforeElse))
  }

  lemma Pushed(pps: seq<PreprocessorInfo>, pp: PreprocessorInfo)
    ensures SavedIn(pps + [pp]) == SavedIn(pps) + pp.Saved()
    ensures PpValues(pps + [pp]) == PpValues(pps) + [pp.Value()]
    ensures Separate(pps + [pp]) <==>
              Separate(pps) && Distinct(pp.stackBeforeElse)
                  && SavedIn(pps) !! Objects(pp.stackBeforeElse)
  {
    assert Front(pps + [pp]) == pps && Last(pps + [pp]) == pp;
  }

  lemma Replaced(pps: seq<PreprocessorInfo>, pp: PreprocessorInfo)
    requires pps != []
    ensures var (below, after) := (Front(pps), pps[|pps| - 1 := pp]);
            && Front(after) == below && Last(after) == pp && after == below + [pp]
            && SavedIn(after) == SavedIn(below) + pp.Saved()
            && PpValues(after) == PpValues(below) + [pp.Value()]
            && (Separate(after) <==>
                      Separate(below) && Distinct(pp.stackBeforeElse)
                          && SavedIn(below) !! Objects(pp.stackBeforeElse))
  {
    var after := pps[|pps| - 1 := pp];
    assert after == Front(pps) + [pp] && Front(after) == Front(pps);
    Pushed(Front(pps), pp);
  }

  lemma {:induction false} SavedAllocated(pps: seq<PreprocessorInfo>)
    ensures forall b | b in SavedIn(pps) :: allocated(b)
  {
    if pps != [] {
      SavedAllocated(Front(pps));
    }
  }

  class NestingState {
    var stack: seq<BlockInfo>
    var ppStack: seq<PreprocessorInfo>

    constructor ()
      ensures Valid() && Abs() == State([], [])
    {
      stack, ppStack := [], [];
    }

    function All(): set<BlockInfo>
      reads this
    {
      Objects(stack) + SavedIn(ppStack)
    }

    /** The blocks of the stack are all different, and none is in a checkpoint. */
    ghost predicate Valid()
      reads this
    {
      Distinct(stack) && Separate(ppStack) && SavedIn(ppStack) !! Objects(stack)
    }

    /** The state without the identity of its objects. */
    function Abs(): State
      reads this, All()
    {
      State(Values(stack), PpValues(ppStack))
    }

    /** `SeenOpenBrace` */
    method SeenOpenBrace() returns (seen: bool)
      ensures seen == Seen(Values(stack))
    {
      seen := stack == [] || stack[|stack| - 1].seenOpenBrace;
    }

    /** The beginning of a conditional: the stack is saved. */
    method SeeIf()
      requires Valid()
      modifies this`ppStack
      ensures Valid() && fresh(All() - old(All()))
      ensures Values(stack) == old(Values(stack))
              && PpValues(ppStack) == old(PpValues(ppStack)) + [Checkpoint(old(Values(stack)), [], false)]
    {
      hide Separate;
      SavedAllocated(ppStack);
      var copied := DeepCopy(stack);
      ghost var was := ppStack;
      assert PpValues(was) == old(PpValues(was)) && Values(PreprocessorInfo(copied, [], false).stackBeforeElse) == [];
      ppStack := ppStack + [PreprocessorInfo(copied, [], false)];
      Pushed(was, PreprocessorInfo(copied, [], false));
    }

    /** The stack is saved at the end of the first branch. */
    method SaveElse()
      requires Valid() && ppStack != [] && !Last(ppStack).seenElse
      modifies this`ppStack
      ensures Valid() && fresh(All() - old(All())) && ppStack != [] && Values(stack) == old(Values(stack))
      ensures Last(ppStack).stackBeforeIf == Last(old(ppStack)).stackBeforeIf
      ensures PpValues(ppStack) == PpValues(Front(ppStack))
              + [Checkpoint(Values(Last(ppStack).stackBeforeIf), Values(stack), true)]
      ensures Front(ppStack) == Front(old(ppStack)) && PpValues(Front(ppStack)) == old(PpValues(Front(ppStack)))
      ensures Values(Last(ppStack).stackBeforeIf) == old(Values(Last(ppStack).stackBeforeIf))
    {
      hide Separate, SavedIn, PpValues, Values;
      SavedAllocated(ppStack);
      var n := |ppStack| - 1;
      ghost var top, was := Last(ppStack), Front(ppStack);
      assert ppStack[n := top] == ppStack;
      Replaced(ppStack, top);
      var copied := DeepCopy(stack);
      assert PpValues(was) == old(PpValues(was)) && Values(top.stackBeforeIf) == old(Values(top.stackBeforeIf));
      assert Values(stack) == old(Values(stack)) == Values(copied);
      var now := PreprocessorInfo(ppStack[n].stackBeforeIf, copied, true);
      Replaced(ppStack, now);
      ppStack := ppStack[n := now];
    }

    /** At the end of the first branch, the stack is saved. */
    method RememberElse()
      requires Valid() && ppStack != []
      modifies this`ppStack
      ensures Valid() && fresh(All() - old(All())) && ppStack != []
      ensures Values(stack) == old(Values(stack))
      ensures Last(ppStack).stackBeforeIf == Last(old(ppStack)).stackBeforeIf
      ensures PpValues(ppStack) == var was := old(PpValues(ppStack));
                                   var top := Last(was);
                                   Front(was) + [if top.seenElse then top
                                       else Checkpoint(top.beforeIf, old(Values(stack)), true)]
    {
      hide Separate, Values;
      ghost var was := PpValues(ppStack);
      assert was == PpValues(Front(ppStack)) + [Last(ppStack).Value()];
      assert Front(was) == PpValues(Front(ppStack)) && Last(was) == Last(ppStack).Value();
      if !ppStack[|ppStack| - 1].seenElse {
        SaveElse();
      }
    }

    /** The end of a branch, if there is one: the stack is as before the conditional. */
    method SeeElse()
      requires Valid()
      modifies this
      ensures Valid() && Abs() == Preprocess(old(Abs()), Else) && fresh(All() - old(All()))
    {
      hide Separate;
      if ppStack != [] {
        RememberElse();
        ghost var values := PpValues(ppStack);
        SavedAllocated(ppStack);
        stack := DeepCopy(ppStack[|ppStack| - 1].stackBeforeIf);
        assert PpValues(ppStack) == values;
      }
    }

    /** The end of a conditional, if there is one. */
    method SeeEndif()
      requires Valid()
      modifies this
      ensures Valid() && Abs() == Preprocess(old(Abs()), Endif) && fresh(All() - old(All()))
    {
      hide Separate;
      if ppStack != [] {
        var n := |ppStack| - 1;
        ghost var top, was := Last(ppStack), Front(ppStack);
        assert ppStack == was + [top];
        Pushed(was, top);
        if ppStack[n].seenElse {
          stack := ppStack[n].stackBeforeElse;
        }
        ppStack := ppStack[..n];
      }
    }

    /** `UpdatePreprocessor` */
    method UpdatePreprocessor(line: string)
      requires Valid()
      modifies this
      ensures Valid() && Abs() == Preprocess(old(Abs()), KindOf(line)) && fresh(All() - old(All()))
    {
      hide KindOf, Separate;
      match KindOf(line)
      case If => SeeIf();
      case Else => SeeElse();
      case Endif => SeeEndif();
      case Other => OtherKeeps(Abs());
    }

    /** The parentheses of the line count for the innermost block. */
    method CountParentheses(line: string)
      requires Valid()
      modifies Objects(stack)
      ensures Values(stack) == Parens(old(Values(stack)), line) && PpValues(ppStack) == old(PpValues(ppStack))
    {
      if stack != [] {
        var innerBlock := stack[|stack| - 1];
        var depthChange := Count('(', line) - Count(')', line);
        innerBlock.openParentheses := innerBlock.openParentheses + depthChange;
      }
    }

    /** An opening brace. */
    method OpenBlock(seen: bool)
      requires Valid() && seen == Seen(Values(stack))
      modifies this`stack, Objects(stack)
      ensures Valid() && fresh(Objects(stack) - old(Objects(stack)))
      ensures Values(stack) == Token(old(Values(stack)), '{') && PpValues(ppStack) == old(PpValues(ppStack))
    {
      hide Separate, Objects, Values, Valid;
      if !seen {
        SeeBrace();
      } else {
        PushBlock();
      }
    }

    /** It is that of the innermost block. */
    method SeeBrace()
      requires Valid() && stack != []
      modifies Objects(stack)
      ensures Valid() && PpValues(ppStack) == old(PpValues(ppStack))
      ensures Values(stack) == var was := old(Values(stack)); Front(was) + [Block(true, Last(was).parens)]
    {
      hide Separate;
      SavedAllocated(ppStack);
      stack[|stack| - 1].seenOpenBrace := true;
    }

    /** It is that of a new one. */
    method PushBlock()
      requires Valid()
      modifies this`stack
      ensures Valid() && fresh(Objects(stack) - old(Objects(stack))) && PpValues(ppStack) == old(PpValues(ppStack))
      ensures Values(stack) == old(Values(stack)) + [Block(true, 0)]
    {
      hide Separate;
      SavedAllocated(ppStack);
      var b := new BlockInfo(true);
      stack := stack + [b];
    }

    method PopBlock()
      requires Valid() && stack != []
      modifies this`stack
      ensures Valid() && Objects(stack) <= old(Objects(stack))
      ensures Values(stack) == Front(old(Values(stack))) && PpValues(ppStack) == old(PpValues(ppStack))
    {
      hide Separate;
      stack := stack[..|stack| - 1];
    }

    /** One brace, semicolon or closing parenthesis. */
    method ConsumeToken(c: char)
      requires Valid()
      modifies this`stack, Objects(stack)
      ensures Valid() && fresh(Objects(stack) - old(Objects(stack)))
      ensures Values(stack) == Token(old(Values(stack)), c) && PpValues(ppStack) == old(PpValues(ppStack))
    {
      hide Separate, Distinct;
      SavedAllocated(ppStack);
      var seen := SeenOpenBrace();
      if c == '{' {
        OpenBlock(seen);
      } else if c == ';' || c == ')' {
        if !seen {
          PopBlock();
        }
      } else if c == '}' {
        if stack != [] {
          PopBlock();
        }
      }
    }

    /** The braces, semicolons and closing parentheses of the line, in their order. */
    method ConsumeTokens(line: string)
      requires Valid()
      modifies this`stack, Objects(stack)
      ensures Valid() && fresh(Objects(stack) - old(Objects(stack)))
      ensures Values(stack) == Tokens(old(Values(stack)), line) && PpValues(ppStack) == old(PpValues(ppStack))
    {
      hide Separate, Token;
      var rest := line;
      SavedAllocated(ppStack);
      while rest != []
        invariant Valid() && fresh(Objects(stack) - old(Objects(stack)))
        invariant Tokens(Values(stack), rest) == Tokens(old(Values(stack)), line)
                  && PpValues(ppStack) == old(PpValues(ppStack))
        decreases |rest|
      {
        ConsumeToken(rest[0]);
        rest := rest[1..];
      }
    }

    /** `Update`, without inline assembly: the state becomes what the specification says, whatever objects it shares. */
    method Update(line: string)
      requires Valid()
      modifies this, All()
      ensures Valid() && fresh(All() - old(All()))
      ensures Abs() == Step(old(Abs()), line)
    {
      hide KindOf, Preprocess, Separate, Parens, Tokens;
      UpdatePreprocessor(line);
      CountParentheses(line);
      ConsumeTokens(line);
    }
  }
}

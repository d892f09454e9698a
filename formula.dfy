/** `process_formula` (src/main.rs:121-158): read a first operand, then
    update the tree token by token until the end of the group. */
module Formula {
  import opened Values
  import opened Lexer
  import opened Trees

  /** Why the loop stops short of the end of the group. */
  datatype Halt =
    | NestedGroup     // `(`: the recursive call at src/main.rs:132
    | RightSlotTaken  // the root's right slot is taken: src/main.rs:144-151

  /** How a run of `process_formula` ends. `NoOperand` is the `panic!` at
      src/main.rs:122; `Finished` is the `break` at src/main.rs:128, with the
      tree `root` holds there and the characters left after the closing
      token; `Halted` is a stop at a branch this model does not follow, with
      the tree built so far and the characters left after the token that
      led there. */
  datatype Outcome =
    | NoOperand
    | Finished(tree: Tree, rest: seq<char>)
    | Halted(tree: Tree, at: Halt, rest: seq<char>)

  /** The node values read from `s` before the first token that is not a
      node value. */
  function Scan(s: seq<char>): seq<NodeValue>
    decreases |s|
  {
    var (tok, rest) := NextToken(s);
    if tok.Value? then [tok.v] + Scan(rest) else []
  }

  /** The loop of `process_formula` from the tree `root`, reading `s`. It
      never loses anything: the values of `root` and all of its proper
      subtrees are still in the tree it ends with, and it reads forward
      only. */
  function Run(root: Tree, s: seq<char>): (r: Outcome)
    ensures !r.NoOperand?
    ensures |r.rest| <= |s|
    ensures Nodes(root) <= Nodes(r.tree)
    ensures ProperSubtrees(root) <= ProperSubtrees(r.tree)
    decreases |s|
  {
    var (tok, rest) := NextToken(s);
    match tok
    case End => Finished(root, rest)
    case BracketOpen => Halted(root, NestedGroup, rest)
    case Value(v) =>
      match Step(root, v)
      case None => Halted(root, RightSlotTaken, rest)
      case Some(next) => Run(next, rest)
  }

  /** `t` is what is left of `s` after reading some of it from the front. */
  predicate IsSuffix(t: seq<char>, s: seq<char>) {
    |t| <= |s| && t == s[|s| - |t|..]
  }

  lemma SuffixOfSuffix(a: seq<char>, b: seq<char>, c: seq<char>)
    requires IsSuffix(a, b) && IsSuffix(b, c)
    ensures IsSuffix(a, c)
  {
    assert c[|c| - |b|..][|b| - |a|..] == c[|c| - |a|..];
  }

  /** The loop reads forward only: the characters it leaves are a suffix
      of the characters it was given. */
  lemma {:induction false} RunLeavesSuffix(root: Tree, s: seq<char>)
    ensures IsSuffix(Run(root, s).rest, s)
    decreases |s|
  {
    var t := NextToken(s);
    if t.0.Value? && Step(root, t.0.v).Some? {
      var next := Step(root, t.0.v).value;
      RunLeavesSuffix(next, t.1);
      SuffixOfSuffix(Run(next, t.1).rest, t.1, s);
    }
  }

  /** When the loop reaches the end of the group, every node value it read
      became exactly one new node of the tree. */
  lemma {:induction false} RunAddsOneNodePerValue(root: Tree, s: seq<char>)
    requires Run(root, s).Finished?
    ensures Nodes(Run(root, s).tree) == Nodes(root) + multiset(Scan(s))
    decreases |s|
  {
    var (tok, rest) := NextToken(s);
    if tok.Value? {
      var next := Step(root, tok.v).value;
      RunAddsOneNodePerValue(next, rest);
      assert multiset(Scan(s)) == multiset{tok.v} + multiset(Scan(rest));
    }
  }

  /** Whatever the loop stops at, the tree holds no value that is not in
      `root` or among the node values at the head of `s`, up to its first
      token that is not a node value. */
  lemma {:induction false} RunAddsOnlyValuesRead(root: Tree, s: seq<char>)
    ensures Nodes(Run(root, s).tree) <= Nodes(root) + multiset(Scan(s))
    decreases |s|
  {
    var (tok, rest) := NextToken(s);
    if tok.Value? {
      match Step(root, tok.v)
      case None =>
      case Some(next) =>
        RunAddsOnlyValuesRead(next, rest);
        assert multiset(Scan(s)) == multiset{tok.v} + multiset(Scan(rest));
    }
  }

  /** `process_formula`. The first token must be a node value (otherwise
      the source panics); it becomes the root. Each further node value
      either demotes the root, when it compares `Less` than the root's value
      (src/main.rs:136-139), or fills the root's empty right slot
      (src/main.rs:141-142). The loop ends at the end of the group, or stops
      at a bracket or a taken right slot. The outcome is `Run` from the
      first node, so that when the group is finished the tree holds exactly
      the values read. */
  method ProcessFormula(chars: seq<char>) returns (r: Outcome)
    ensures !NextToken(chars).0.Value? <==> r == NoOperand
    ensures NextToken(chars).0.Value? ==>
              r == Run(New(NextToken(chars).0.v), NextToken(chars).1)
    ensures r.Finished? ==>
              Nodes(r.tree) == multiset{NextToken(chars).0.v} + multiset(Scan(NextToken(chars).1))
  {
    var (first, rest) := NextToken(chars);
    if !first.Value? {
      return NoOperand;
    }
    ghost var start := rest;
    var root := New(first.v);
    var stopped := false;
    r := Finished(root, rest);
    while !stopped
      invariant !stopped ==> Run(root, rest) == Run(New(first.v), start)
      invariant stopped ==> r == Run(New(first.v), start)
      decreases if stopped then 0 else |rest| + 1
    {
      var (tok, after) := NextToken(rest);
      match tok {
        case End =>
          r, stopped := Finished(root, after), true;
        case BracketOpen =>
          r, stopped := Halted(root, NestedGroup, after), true;
        case Value(value) =>
          if Below(value, root.value) {
            root := NewWithLeft(value, root);
            rest := after;
          } else if root.right == None {
            root := root.(right := Some(New(value)));
            rest := after;
          } else {
            r, stopped := Halted(root, RightSlotTaken, after), true;
          }
      }
    }
    if r.Finished? {
      RunAddsOneNodePerValue(New(first.v), start);
    }
  }

  /** The formula `!p` finishes, but with the variable as the root and the
      negation as its left child. */
  lemma NotPFinishesUpsideDown()
    ensures NextToken("!p") == (Value(Not), "p")
    ensures Run(New(Not), "p") == Finished(Tree(Some(New(Not)), None, Var('p')), [])
  {
    assert "!p"[0] == '!' && "!p"[1..] == "p";
    assert ReadLexeme("!p") == (Value(Not), "p");
    assert "p"[0] == 'p' && "p"[1..] == [];
    assert NextToken("p") == (Value(Var('p')), []);
    var upsideDown := Tree(Some(New(Not)), None, Var('p'));
    assert Step(New(Not), Var('p')) == Some(upsideDown);
    assert Run(upsideDown, []) == Finished(upsideDown, []);
  }

  /** The tokens of `p & q`, one after the other. */
  lemma PAndQTokens()
    ensures NextToken("p & q") == (Value(Var('p')), " & q")
    ensures NextToken(" & q") == (Value(And), " q")
    ensures NextToken(" q") == (Value(Var('q')), [])
  {
    assert "p & q"[0] == 'p' && "p & q"[1..] == " & q";
    assert ReadLexeme("p & q") == (Value(Var('p')), " & q");
    assert " & q"[0] == ' ' && " & q"[1..] == "& q";
    assert "& q"[0] == '&' && "& q"[1..] == " q";
    assert ReadLexeme("& q") == (Value(And), " q");
    assert " q"[0] == ' ' && " q"[1..] == "q";
    assert "q"[0] == 'q' && "q"[1..] == [];
    assert ReadLexeme("q") == (Value(Var('q')), []);
  }

  /** The formula `p & q` puts `&` into the right slot of the variable `p`
      and then reaches `q` with that slot taken. */
  lemma PAndQNeedsTheUnfinishedBranch()
    ensures Run(New(Var('p')), " & q") == Halted(Tree(None, Some(New(And)), Var('p')), RightSlotTaken, [])
  {
    PAndQTokens();
    var withAnd := Tree(None, Some(New(And)), Var('p'));
    assert Step(New(Var('p')), And) == Some(withAnd);
    assert Step(withAnd, Var('q')) == None;
  }

  /** An empty formula, a lone `(` and a formula that starts with `)` all
      have no first operand. */
  lemma NoFirstOperand(s: seq<char>)
    ensures !NextToken([]).0.Value?
    ensures !NextToken("(" + s).0.Value?
    ensures !NextToken(")" + s).0.Value?
  {
    assert ("(" + s)[0] == '(';
    assert (")" + s)[0] == ')';
  }
}

/** The formula tree `Tree` (src/main.rs:13-28) and the per-token update of
    its root in `process_formula` (src/main.rs:136-142). Every node owns its
    children through `Option<Box<Tree>>`, so no node is shared and a tree is
    a plain value: moving the old root under a new node and writing the
    root's right slot become the construction of a new value. */
module Trees {
  import opened Values

  datatype Option<T> = None | Some(value: T)

  datatype Tree = Tree(left: Option<Tree>, right: Option<Tree>, value: NodeValue)

  /** The values held by the nodes of `t`, with their multiplicities. */
  function Nodes(t: Tree): multiset<NodeValue> {
    multiset{t.value}
    + (match t.left case None => multiset{} case Some(l) => Nodes(l))
    + (match t.right case None => multiset{} case Some(r) => Nodes(r))
  }

  /** `t` and every tree hanging below it. */
  function Subtrees(t: Tree): set<Tree> {
    {t}
    + (match t.left case None => {} case Some(l) => Subtrees(l))
    + (match t.right case None => {} case Some(r) => Subtrees(r))
  }

  /** Every tree hanging below `t`, not counting `t` itself. */
  function ProperSubtrees(t: Tree): set<Tree> {
    (match t.left case None => {} case Some(l) => Subtrees(l))
    + (match t.right case None => {} case Some(r) => Subtrees(r))
  }

  /** `Tree::new`: a single node holding `value`, with no children. */
  function New(value: NodeValue): (t: Tree)
    ensures Nodes(t) == multiset{value}
    ensures Subtrees(t) == {t}
  {
    Tree(None, None, value)
  }

  /** `Tree::new_with_left`: a node holding `value` that owns `left` as its
      only child; `left` is kept whole and one node is added above it. */
  function NewWithLeft(value: NodeValue, left: Tree): (t: Tree)
    ensures t.value == value && t.right == None
    ensures ProperSubtrees(t) == Subtrees(left)
    ensures Nodes(t) == Nodes(left) + multiset{value}
  {
    Tree(Some(left), None, value)
  }

  /** One update of the root by an incoming `value`: when `demote` holds the
      root is demoted (a new root holding `value` owns the old root as its
      left child); otherwise an empty right slot of the root receives a
      fresh node holding `value`. `None` stands for the case where that slot
      is taken (the branch at src/main.rs:144-151, which is not modelled).
      Nothing is lost either way: the new tree holds the old tree's values
      and exactly one more, every proper subtree of the old root survives,
      and a demoted root survives whole. */
  function Update(root: Tree, value: NodeValue, demote: bool): (r: Option<Tree>)
    ensures r.Some? <==> demote || root.right == None
    ensures r.Some? ==> Nodes(r.value) == Nodes(root) + multiset{value}
    ensures r.Some? ==> ProperSubtrees(root) <= ProperSubtrees(r.value)
    ensures demote ==> r.Some? && root in ProperSubtrees(r.value)
    ensures demote ==> r.Some? && r.value.value == value && r.value.left == Some(root) && r.value.right == None
    ensures !demote && root.right == None ==>
              r.Some? && r.value.value == root.value && r.value.left == root.left && r.value.right == Some(New(value))
  {
    if demote then Some(NewWithLeft(value, root))
    else if root.right == None then Some(root.(right := Some(New(value))))
    else None
  }

  /** The update as written at src/main.rs:136: the root is demoted when the
      incoming value compares `Less` than the root's value. */
  function Step(root: Tree, value: NodeValue): (r: Option<Tree>)
    ensures Below(value, root.value) ==> r == Some(NewWithLeft(value, root))
    ensures !Below(value, root.value) ==> r == Update(root, value, false)
  {
    Update(root, value, Below(value, root.value))
  }

  /** The update the comment at src/main.rs:137 describes: the root is
      demoted when the incoming value has a lower priority, that is, when it
      stands in a later row of the table at src/main.rs:4-8. The rows are
      compared by `Tier` and not by `Cmp`, whose `Not` row contradicts the
      table (`!` would compare `Greater` than `&` and take it as its left
      child). */
  function IntendedStep(root: Tree, value: NodeValue): (r: Option<Tree>)
    ensures Tier(value) > Tier(root.value) ==> r == Some(NewWithLeft(value, root))
    ensures Tier(value) <= Tier(root.value) ==> r == Update(root, value, false)
    ensures value != Not && root.value != Not ==>
              (Tier(value) > Tier(root.value) <==> Cmp(value, root.value) == Greater)
  {
    Update(root, value, Tier(value) > Tier(root.value))
  }

  /** The shape that the two modelled branches of the corrected update
      keep: variables are leaves, `!` has no left child, every left child
      stands in an earlier row of the table than its parent, and no right
      child stands in a later row than its parent. A left-associated chain
      of one tier, such as `&` whose left child is again `&`, is outside it:
      such chains need the branch for a taken right slot, which is not
      modelled. */
  predicate WellShaped(t: Tree) {
    && (t.value.Var? ==> t.left == None && t.right == None)
    && (t.value == Not ==> t.left == None)
    && (match t.left
        case None => true
        case Some(l) => Tier(l.value) < Tier(t.value) && WellShaped(l))
    && (match t.right
        case None => true
        case Some(r) => Tier(r.value) <= Tier(t.value) && WellShaped(r))
  }

  /** The intended update keeps a tree well shaped, as long as an operand is
      followed by a binary operator (the grammar of a formula). */
  lemma IntendedStepKeepsShape(root: Tree, value: NodeValue)
    requires WellShaped(root)
    requires root.value.Var? ==> IsBinary(value)
    ensures IntendedStep(root, value).Some? ==> WellShaped(IntendedStep(root, value).value)
  {
    if Tier(value) > Tier(root.value) {
      assert !value.Var? && value != Not;
      assert IntendedStep(root, value) == Some(Tree(Some(root), None, value));
    } else if root.right == None {
      assert !root.value.Var?;
      assert WellShaped(New(value));
      assert IntendedStep(root, value) == Some(Tree(root.left, Some(New(value)), root.value));
    }
  }

  /** The update as written breaks that shape on the formula `!p`: the root
      `!` is demoted under the variable `p`, which ends up owning the
      negation as its left child. */
  lemma StepBuriesNotUnderVariable()
    ensures WellShaped(New(Not))
    ensures Step(New(Not), Var('p')) == Some(Tree(Some(New(Not)), None, Var('p')))
    ensures !WellShaped(Step(New(Not), Var('p')).value)
    ensures IntendedStep(New(Not), Var('p')) == Some(Tree(None, Some(New(Var('p'))), Not))
  {
  }

  /** The intended update builds `p & q` as the conjunction of `p` and `q`,
      and on `p & !` it hangs the negation in the right slot of `&` instead
      of demoting `&` under it. */
  lemma IntendedStepBuildsPAndQ()
    ensures IntendedStep(New(Var('p')), And) == Some(Tree(Some(New(Var('p'))), None, And))
    ensures IntendedStep(Tree(Some(New(Var('p'))), None, And), Var('q'))
            == Some(Tree(Some(New(Var('p'))), Some(New(Var('q'))), And))
    ensures IntendedStep(Tree(Some(New(Var('p'))), None, And), Not)
            == Some(Tree(Some(New(Var('p'))), Some(New(Not)), And))
  {
  }
}

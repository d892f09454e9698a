# Propositional formula parser: a verified model of its core

The program reads a propositional-logic formula such as
`!((!q ^ (p -> r)) ^ (r -> q))` and builds an expression tree from it in one
pass. Each token either demotes the current root under a new node or is hung
in the root's right slot. The program is an unfinished prototype. This
project models the parts of `src/main.rs` that are finished:

- the node values and their hand-written ordering `NodeValue::cmp`
  (module `Values`, file `values.dfy`), with `has_left`;
- the tokenizer `NodeValueFromChars::from` (module `Lexer`, `lexer.dfy`),
  a pure function from the characters not yet read to a token and the
  characters left;
- the tree `Tree`, its constructors `new` and `new_with_left`, and the
  per-token update of the root (module `Trees`, `trees.dfy`);
- the loop of `process_formula` (module `Formula`, `formula.dfy`). It is a
  method with a `while` loop that reassigns the local `root`, proved equal
  to a recursive specification `Run`.

A `Tree` owns its children through `Option<Box<Tree>>`, so no node is ever
shared. The model therefore treats a tree as a datatype value. Moving the
old root under a new node becomes building a new value, and so does writing
`root.right`. The method reassigns its local `root` where the source
reassigns its own.

The ordering is compared against the precedence table in the comment at the
top of `src/main.rs`. Variables form tier 0, then `!`, then `&`/`V`/`^`, then
`->`/`<->`. Away from `Not`, `cmp` is exactly the order of these tiers. The
`Not` row disagrees with the other rows: `Not` against a variable is `Less`
in both directions, and `Not` against a binary operator is `Greater` in both
directions. So `cmp` is neither antisymmetric nor transitive, which the Rust
`Ord` trait requires (lemmas `NotBreaksAntisymmetry` and `CmpIsNotAnOrder`).
It also answers `Equal` for distinct values of one tier, such as two
different variables, while `PartialEq` is derived (`CmpEqualOnDistinctValues`).

`has_left` returns true for `Not` and for variables. These are exactly the
values that take fewer than two operands, which a finished tree would never
give a left child. The name suggests the opposite; the model states what
the code returns. Nothing in the file calls it.

The tokenizer is stated through the lexeme of each token (`Render`). After
the leading spaces it reads the token whose lexeme starts with the first
character. It then consumes as many characters as that lexeme is long. The
second character of `->` and the last two of `<->` are never checked.

## Model

| member | source | states |
|---|---|---|
| `Values.Cmp` | src/main.rs:56-88 | `Equal` exactly for two values of the same tier of the precedence table; away from `Not` the result is the comparison of the tiers |
| `Values.CmpAntisymmetricWithoutNot` | src/main.rs:60-86 | away from `Not`, swapping the arguments reverses the answer |
| `Values.CmpTransitiveWithoutNot` | src/main.rs:73-86 | away from `Not`, `Less`, `Equal` and `Greater` are each transitive |
| `Values.NotBreaksAntisymmetry` | src/main.rs:63-82 | `Not` vs a variable is `Less` both ways; `Not` vs a binary operator is `Greater` both ways |
| `Values.CmpIsNotAnOrder` | src/main.rs:56-88 | `cmp` is neither antisymmetric nor transitive over all values |
| `Values.CmpEqualOnDistinctValues` | src/main.rs:60-84 | `cmp` answers `Equal` for distinct variables and for distinct operators of one tier |
| `Values.Below` | src/main.rs:50-54 | `a < b` through `partial_cmp`: away from `Not`, a strictly lower tier; between `Not` and another value, exactly when that value is a variable (in either order); never within one tier |
| `Values.HasLeft` | src/main.rs:42-47 | true exactly for the values with fewer than two operands, i.e. `Not` and variables |
| `Lexer.RenderFirstCharDeterminesToken` | src/main.rs:101-116 | no two tokens the tokenizer produces share the first character of their lexeme |
| `Lexer.SkipSpaces` | src/main.rs:100 | the result is a suffix of the input, everything dropped is a space, and it does not start with a space |
| `Lexer.ReadLexeme` | src/main.rs:101-116 | for a non-space first character: a token whose lexeme starts with that character, and the input minus that lexeme's width |
| `Lexer.NextToken` | src/main.rs:97-119 | the characters left are a suffix of the input, strictly shorter for a non-empty input; empty input gives `End`; only valid tokens are produced |
| `Lexer.NextTokenReadsLexeme` | src/main.rs:99-117 | after the leading spaces: nothing left gives `End` and no rest; otherwise the token matches the first character and its lexeme's width is consumed |
| `Lexer.OneSpaceIsSkipped` | src/main.rs:100 | tokenizing `' ' + s` gives the same token and rest as tokenizing `s` |
| `Lexer.SpacesAreSkipped` | src/main.rs:100 | any run of leading spaces is invisible to the tokenizer |
| `Lexer.RenderRoundTrip` | src/main.rs:101-116 | reading the lexeme of any token followed by `rest` gives that token and exactly `rest` |
| `Lexer.ContinuationIsNotChecked` | src/main.rs:107-115 | `-` then any character gives `Impl`; `<` then any two characters gives `Eq`; at the end of input they still give their operator |
| `Trees.New` | src/main.rs:21-23 | a single childless node holding the value |
| `Trees.NewWithLeft` | src/main.rs:25-27 | a node holding the value whose only child-subtrees are those of `left`; exactly one node added |
| `Trees.Update` | src/main.rs:136-142 | demotion puts the old root whole as the new root's left child; otherwise an empty right slot gets a fresh node; no subtree is lost and exactly one node is added |
| `Trees.Step` | src/main.rs:136-142 | the update with the root demoted exactly when `value` compares `Less` than the root's value; otherwise the right-slot rule of `Update` |
| `Trees.IntendedStep` | src/main.rs:136-142 | the corrected update: the root is demoted exactly when `value` stands in a later row of the precedence table, otherwise the right-slot rule of `Update`; away from `Not` that is exactly `cmp` answering `Greater` |
| `Trees.IntendedStepKeepsShape` | src/main.rs:136-142 | the corrected update keeps variables as leaves, `!` without a left child, every left child in an earlier row of the table than its parent and no right child in a later row |
| `Trees.StepBuriesNotUnderVariable` | src/main.rs:136-139 | the update as written puts the variable of `!p` above the negation, breaking that shape |
| `Trees.IntendedStepBuildsPAndQ` | src/main.rs:136-142 | the corrected update builds `p & q` as `&` with children `p` and `q`, and hangs `!` after `p &` in the right slot of `&` |
| `Formula.Run` | src/main.rs:125-156 | the loop never loses a value or a proper subtree of the tree it starts from and only reads forward |
| `Formula.RunLeavesSuffix` | src/main.rs:125-156 | the characters the loop leaves are a suffix of those it was given |
| `Formula.RunAddsOneNodePerValue` | src/main.rs:125-156 | when the loop reaches the end of the group, the tree holds the starting values plus exactly the values read |
| `Formula.RunAddsOnlyValuesRead` | src/main.rs:125-156 | whatever the loop stops at, the tree holds nothing but the starting values and the node values at the head of the input, up to its first token that is not a node value |
| `Formula.ProcessFormula` | src/main.rs:121-156 | no first operand gives `NoOperand`; otherwise the outcome is `Run` from the first node, and a finished tree holds exactly the values read |
| `Formula.NotPFinishesUpsideDown` | src/main.rs:121-142 | `!p` finishes with `p` as root and `!` as its left child |
| `Formula.PAndQTokens` | src/main.rs:97-119 | `p & q` reads as `p`, `&`, `q` |
| `Formula.PAndQNeedsTheUnfinishedBranch` | src/main.rs:136-151 | `p & q` puts `&` in `p`'s right slot and then meets a taken slot |
| `Formula.NoFirstOperand` | src/main.rs:122 | an empty formula, or one starting with `(` or `)`, has no first operand |

## Findings

| source | as written | input that shows it | evidently intended | confidence | as-written member | corrected member |
|---|---|---|---|---|---|---|
| src/main.rs:136-138 | the root is demoted when `value` compares `Less` than `root.value` (`Values.Below`): away from `!`, when the value stands in an earlier row of the precedence table (binds tighter); `!` demotes a variable root and never a binary one | the formula `!p`: `p` compares `Less` than `!`, so `p` becomes the root with `!` as its left child | the comment at line 137 says to demote when the operator has a lower priority, i.e. stands in a later row of the table at lines 4-8; comparing rows directly, since `cmp` puts `!` after `&` | medium, not executed | `Trees.StepBuriesNotUnderVariable` | `Trees.IntendedStepKeepsShape` |

`Formula.ProcessFormula` and `Formula.Run` keep the comparison as written
(`Trees.Step`), so that they model the source. The corrected rule is
`Trees.IntendedStep`, which shares everything else with it through
`Trees.Update`. It compares the rows of the precedence table (`Values.Tier`)
rather than calling `cmp`: with `cmp`'s `Not` row, `!` would compare
`Greater` than `&` and demote it, so `p & !q` would put `p &` under the
negation.

## Left out

- As written, `src/main.rs` does not compile. Lines 143, 147 and 150 assign an `Option<Box<Tree>>` to the `&Tree` variable `current`, and line 146 passes that reference where a `Tree` is expected. Line 143 lies inside the right-attach branch the model does cover. So throughout, "as written" means the evident meaning of lines 121-142 with `current` dropped; nothing depends on `current`'s value there.
- The `(` branch of the loop (src/main.rs:131-133) is modelled only as a stop (`Halted(_, NestedGroup, _)`). The recursive call builds a sub-tree and throws it away. As written that call can never return normally, because `process_formula` ends in `todo!()`.
- The branch for a taken right slot (src/main.rs:144-151) is modelled only as a stop (`Halted(_, RightSlotTaken, _)`). As written it does not type-check: it assigns an `Option<Box<Tree>>` to a `&Tree` and passes a `&Tree` where a `Tree` is expected. Once `current` has moved below `root.right` (line 150), it would also drop the nodes between the two. There is no coherent behaviour to state.
- The `todo!()` at src/main.rs:157 is not modelled. `Finished` carries the tree `root` holds when the loop breaks. The variable `current` only serves the unmodelled branch and is not modelled either.
- The `panic!()` at src/main.rs:122 becomes the outcome `NoOperand`, not process termination.
- `main` (src/main.rs:160-162) only feeds a fixed string to `process_formula`.
- The `Chars` iterator is modelled as the sequence of characters not yet read.
- `partial_cmp` (src/main.rs:50-54) is `Some(cmp)`, so `value < other` is `Values.Below`, defined from `Cmp` directly.
- Evaluation, variable collection and truth-table enumeration do not exist in this version of the program.
- Formula.Run: its own contract bounds only the length of the characters left; that they are a suffix of the input is the separate lemma `Formula.RunLeavesSuffix`.

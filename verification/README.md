# logic-util truth tables, modelled in Dafny

logic-util is a command-line tool for propositional logic. It reads a
statement written in any of several notations and normalizes the operators
(`standardize_notations`). The normalized text is parsed and compiled into an
expression tree of `Variable`, `Negation`, `Implication`, `Biconditional`,
`Conjunction`, `Disjunction` and `XDisjunction` nodes. The tool then builds
a truth table. It has one column per variable (every assignment of 0/1, in
the order `itertools.product` gives) and one column per compound
sub-expression (an "atomic sentence"). Each sentence cell is computed by
evaluating the node's generated Python bitwise text (`source`) under the
row's assignment. A `Proposition` answers whether a column is a tautology.
An `Argument` merges the variables of several premises and an optional
conclusion into one table. It answers whether the argument is valid and
whether its statements are all equivalent, and it offers the two row
predicates used to mark rows in the printed table.

The project has five files:

- `wrappers.dfy`: the `Option` and `Result` types.
- `helpers.dfy`: the helpers.
  - `unique`, as first-occurrence de-duplication.
  - `good_name`.
  - `display`.
  - `standardize_notations`. Each `re.sub` is modelled as a leftmost, non-overlapping scan over one pattern.
- `fol.dfy`: the expression tree as a datatype.
  - Its `__eq__` is modelled, with operand permutations for n-ary nodes.
  - So are `variables`, `sentences`, `display_text` and `source`.
  - `evaluate` is modelled as a structural evaluator of the bitwise text. It is proved to agree with the classical truth value.
- `truth_table.dfy`: the parts of the table that both classes share.
  - The assignment rows and the evaluation environment.
  - The two column-filling loops, as methods over a `map` from tree to column.
- `objects.dfy`: the `Proposition` and `Argument` classes.
  - Their constructors build the table.
  - Their queries are proved against a reference semantics, entailment or agreement under every assignment.

## Model

| member | source | states |
|---|---|---|
| Helpers.Unique | helpers.py:98-99 | The result has no duplicates and holds exactly the input's elements. |
| Helpers.UniqueIdentity | helpers.py:98-99 | A list without duplicates is returned unchanged. |
| Helpers.UniqueSnoc | helpers.py:98-99 | Elements keep the position of their first occurrence: appending `x` adds `x` at the end exactly when it is new. |
| Helpers.UniqueOfUniques | helpers.py:98-99 | De-duplicating each part first and then the concatenation equals de-duplicating the concatenation. This is what lets nested `variables` calls agree with one flat pass. |
| Helpers.GoodName | helpers.py:105-110 | Corrected: accepts exactly the non-empty names whose first character is an ASCII letter or `_` and whose other characters are ASCII letters, digits or `_`. |
| Helpers.GoodNameAsWritten | helpers.py:105-110 | As written (`$` with `match`): accepts exactly those identifiers, and also an identifier followed by one trailing newline. |
| Helpers.GoodNameAcceptsTrailingNewline | helpers.py:105-110 | `"p\n"` is accepted as written and rejected by the corrected check. |
| Helpers.Display | helpers.py:92-94 | A text wrapped in `(`…`)` comes back without the outer pair. A text ending in `)\n` loses the pair and keeps the newline. Any other text is unchanged. |
| Helpers.DisplayUnwraps | helpers.py:92-94 | `display` inverts wrapping in one pair of parentheses. |
| Helpers.StandardizeNotations | helpers.py:53-71 | The result has no two adjacent blanks. It contains none of the ASCII operator glyphs `& * \| + ^ ~ !`. It has no `(` followed by blanks and `not`. |
| Helpers.GlyphsRemoved | helpers.py:54-64 | After the six operator substitutions in code order, no ASCII operator glyph is left. |
| Helpers.BlankRunsCollapsed | helpers.py:66 | Replacing every blank run by one space leaves no two adjacent blanks. |
| Helpers.ParenBlankNotRemoved | helpers.py:69 | On a text without adjacent blanks, the substitution of `(\s+not` leaves no further match. |
| Helpers.KeepsBlanksApart | helpers.py:54-69 | A substitution whose replacement is non-empty and blank-free never creates adjacent blanks. |
| Helpers.SubAvoids | helpers.py:54-64 | A substitution whose replacement avoids a character class, applied to a text where every character of the class starts a match, yields a text free of the class. |
| Helpers.IffArrowsRemoved | helpers.py:61 | After the IFF substitution no `<-…->` arrow is left. |
| Helpers.IffBeforeImplies | helpers.py:59-62 | Because IFF runs first, the IMPLIES pattern can never match the tail of a `<-->` arrow. |
| Helpers.OrKeywordNeedsBoundary | helpers.py:55-58 | A word-internal `or` (as in `xor`) cannot match the OR pattern, because of the `\b` anchors. |
| Helpers.XorKeywordSurvivesOr | helpers.py:55-58 | For any text before and after it, an ` xor ` keyword passes the OR step unchanged. The step rewrites the text on each side as if the keyword were absent, which is why XOR can be normalized before OR. |
| Helpers.CaretBecomesXor | constants.py:60 | `p^q` is rewritten to `p xor q`. |
| Helpers.ArrowBecomesIff | constants.py:66 | `p<->q` is rewritten to `p iff q`. |
| Fol.VariableEqual | fol.py:48-51 | A variable equals exactly the variable of the same name. |
| Fol.ImplicationEqual | fol.py:109-112 | Implications are equal iff their left sides and their right sides are equal. |
| Fol.BiconditionalMirror | fol.py:125-129 | `l <-> r` equals `r <-> l`. |
| Fol.NaryEqual | fol.py:138-150 | Corrected n-ary equality: same kind, same operand count, and some permutation matches every operand to an equal one. |
| Fol.DifferentKindsNeverEqual | fol.py:48-150 | Nodes of different classes are never equal. |
| Fol.EqualReflexive | fol.py:48-150 | Every tree equals itself. |
| Fol.EqualSymmetric | fol.py:48-150 | Corrected equality: equality is symmetric, including the mirrored biconditional and the permuted n-ary cases. |
| Fol.EqualTransitive | fol.py:48-150 | Corrected equality: equality is transitive. Permutations compose. |
| Fol.EqualOperandCounts | fol.py:138-150 | Equal n-ary nodes have the same number of operands. |
| Fol.NaryEqualIgnoresExtraOperands | fol.py:138-150 | As written, `Conjunction(a, b)` compares equal to `Conjunction(a, b, c)`. The corrected equality says they differ. |
| Fol.Variables | fol.py:44-167 | The names have no duplicates, and a name is listed iff it occurs in the tree. |
| Fol.VariablesFirstOccurrence | fol.py:44-167 | `variables` lists the tree's names in order of first occurrence, left to right. |
| Fol.Sentences | fol.py:21-174 | A variable has no sentences. Otherwise the last sentence is the node itself, and no sentence is a variable. |
| Fol.SentencesAreCompoundSubterms | fol.py:21-174 | The sentences are exactly the non-variable sub-trees. |
| Fol.SentencesCount | fol.py:21-174 | There is one sentence per non-variable node. |
| Fol.DisplayTextBalanced | fol.py:36-155 | When the names have no parentheses, the display text has as many `(` as `)`. |
| Fol.DisplayStripsNodeParentheses | fol.py:86-155 | `display` of a binary or n-ary node's text removes exactly the pair the node added. |
| Fol.SentenceSourceIsNotAName | fol.py:62-160 | A sentence's source text starts with `(`, so it is never a good variable name and its column cannot collide with a variable's. |
| Fol.EvalMeansTruth | fol.py:28-160 | Evaluating the generated bitwise text gives 1 iff the classical truth value is true. An XOR chain is true iff an odd number of operands are. |
| Fol.EvalByNode | fol.py:62-160 | Node by node, negation is `1 - x`, and implication is `not l or r`. A biconditional is 1 iff the sides agree. `&` is 1 iff all operands are, `\|` iff some is, and `^` is the parity of the true operands. |
| Fol.FoldXor | fol.py:157-160 | A left `^`-chain of bits is the parity of the ones. |
| Fol.EvalLocal | fol.py:28-29 | The value depends only on the tree's own variables. |
| Fol.EvaluableBindsOccurrences | fol.py:28-29 | Evaluation needs every variable of the tree bound. |
| Fol.OwnVariablesSuffice | fol.py:28-174 | A tree and all its sentences evaluate in a namespace holding only its own `variables`. |
| TruthTable.CasesAscending | objects.py:70-75 | Row `r` of `product([0, 1], repeat=n)` is `r` written in binary, most significant bit first. |
| TruthTable.CasesComplete | objects.py:70-75 | Every assignment of `n` bits appears as a row, at the position of its binary value. |
| TruthTable.CasesDistinct | objects.py:70-75 | No assignment appears twice. |
| TruthTable.EnvLookup | objects.py:87-88 | The row's namespace binds the `j`-th variable to the `j`-th bit. |
| TruthTable.FillVariableColumns | objects.py:76-80 | The table has a key per variable, and the column of the `j`-th variable is the `j`-th bit of each row. |
| TruthTable.AppendEvalColumn | objects.py:84-92 | One sentence's evaluated column is appended to its key, and every other key is unchanged. |
| TruthTable.FillSentenceColumns | objects.py:81-92 | Every sentence gets a key, and other keys are unchanged. A sentence listed `c` times holds its evaluated column `c` times over, as the source appends once per listing. |
| TruthTable.SentenceColumn | objects.py:81-92 | Each sentence column starts with its evaluated column, and is exactly that column when sentences are distinct. |
| TruthTable.ColumnAllOnes | objects.py:99-105 | Over rows covering every assignment, a column of all ones means the tree holds under every assignment. |
| TruthTable.HoldsEverywhereTransfer | objects.py:303-309 | Holding everywhere does not depend on which variable list is used, as long as the tree evaluates under it. |
| TruthTable.BiconditionalHoldsIffColumnsAgree | objects.py:303-309 | `a iff b` over its own variables is a tautology iff the columns of `a` and `b` agree on every row. |
| Objects.CheckLabels | objects.py:34-41 | Empty labels are accepted as none. Otherwise exactly two different characters are accepted. A length other than 2 and two identical characters are the two failures. |
| Objects.Proposition.constructor | objects.py:29-92 | Builds the table over the ascending or reversed rows: a column per variable and per sentence, each holding its key's value on each row. |
| Objects.Proposition.Create | objects.py:29-41 | Fails exactly when the labels are refused, with the same error. Otherwise it yields a valid proposition. |
| Objects.Proposition.Values | objects.py:22-23 | The statement's column: on each row, 1 iff the statement is true under that row's assignment. |
| Objects.Proposition.ColumnHolds | objects.py:99-105 | A column is all ones iff its key holds under every assignment. |
| Objects.Proposition.IsTautology | objects.py:99-105 | A falsy column (none, or index 0) asks about the statement. A key asks about its column and fails when the key is absent. A non-zero index (negative counted from the end) asks about that sentence and fails when out of range. Each answer is whether that tree holds under every assignment. |
| Objects.CollectVariables | objects.py:187-195 | The argument's variables are the first premise's list, then every new name of every proposition, in first-occurrence order. |
| Objects.FirstListRepeated | objects.py:188-191 | Starting from a copy of the first list and scanning all lists again gives the same list as de-duplicating all lists. |
| Objects.PropositionsEvaluable | objects.py:187-222 | Every premise and the conclusion evaluate over the merged variables. |
| Objects.FillArgumentTable | objects.py:187-222 | The variables are the merged lists. The keys are the variables and the statements. Every column starts with its key's value on each ascending row. |
| Objects.Argument.AllPremises | objects.py:155-156 | The premises' trees, in order. |
| Objects.Argument.AllPropositions | objects.py:159-160 | The premises, then the conclusion when there is one. |
| Objects.Argument.AllSentences | objects.py:163-169 | Optionally the variables, then the premises, then the conclusion if asked for and present, at these positions and with nothing else. |
| Objects.Argument.constructor | objects.py:171-222 | Builds the merged table. The displayed rows are reversed when asked, while the columns are filled over the ascending rows. |
| Objects.Argument.Create | objects.py:171-185 | Fails exactly when the labels are refused, with the same error. Otherwise it yields a valid argument. |
| Objects.Argument.ColumnIsEval | objects.py:209-222 | Each cell is the truth of its key under the row's assignment. |
| Objects.Argument.IsValid | objects.py:258-279 | Returns true iff no row makes every premise true and the conclusion false. |
| Objects.ScanRows | objects.py:258-279 | The row scan returns false iff some row has all premises true and the conclusion 0. |
| Objects.Argument.ValidityMeansEntailment | objects.py:258-279 | The table check is equivalent to semantic entailment: every assignment making all premises true makes the conclusion true. |
| Objects.TableEntails | objects.py:258-279 | Over the complete ascending rows, the absence of a counterexample row is equivalent to entailment. |
| Objects.NoCounterexampleEntails | objects.py:258-279 | Rows covering every assignment with no counterexample imply entailment. |
| Objects.EntailsNoCounterexample | objects.py:258-279 | Entailment implies that no row is a counterexample. |
| Objects.Argument.AllEquivalent | objects.py:283-312 | Returns true iff, on every row, every statement has the same value as the first. |
| Objects.TestEquivalences | objects.py:289-312 | Testing `first iff s` for every later statement returns true iff all statements agree on every row. |
| Objects.TestPair | objects.py:296-310 | The test proposition for `a iff b` is a tautology iff `a` and `b` have the same value under every assignment. |
| Objects.BiconditionalCompiled | objects.py:296-303 | `a iff b` is a well-formed statement over its own variables and sentences. |
| Objects.Argument.Headers | objects.py:319 | The table's keys, each listed once. |
| Objects.Argument.RowValues | objects.py:244-246 | The values of one row, in header order. |
| Objects.Argument.CheckEquivalent | objects.py:316-328 | On a row's values, true iff all statements have the same value on that row. |
| Objects.EqualityOnRows | objects.py:316-328 | The header-indexed check agrees with comparing the statements' columns on that row. |
| Objects.Argument.XCounterexample | objects.py:332-351 | On a row's values, true iff the row is not a counterexample: some premise is 0 or the conclusion is 1. |
| Objects.CounterexampleOnRows | objects.py:332-351 | The header-indexed check agrees with reading the premise and conclusion columns on that row. |

## Left out

- `parse` and `compile` (logic.py) are not part of this model. A proposition is built from the compiled tree, its variables and its distinct sentences, taken as inputs that satisfy `Compiled`.
- The parser's error exits: assertion, unmatched parentheses and null statement.
- The label errors' `print` and `exit()` become a `Failure` result of `Create`.
- `print`, `output`, `row`, ANSI colouring, `output_table` and CSV files are left out. They are terminal and file output.
- `evaluate` runs Python's `eval` on the source text. The model replaces this with a structural evaluator of the same bitwise text: Python's `&`, `|`, `^` and `~` on 0/1. `Source` is the generated text itself.
- A node with no operands renders `()`, an empty tuple and not a number. `Evaluable` excludes it.
- Columns are keyed by trees, not by source strings. A variable's column is keyed `Variable(name)`. `SentenceSourceIsNotAName` shows that a sentence key never collides with a variable key.
- Helpers.StandardizeNotations: `\w`, `\s` and `\b` are taken over ASCII (letters, digits, `_`; space, tab, newline, carriage return, vertical tab, form feed). Python's Unicode classes are wider.
- Helpers.GoodNameAsWritten / Helpers.GoodName: `\w` is taken over ASCII. Python's `\w` on `str` also accepts Unicode word characters such as `é`, so a name like `"pé"` that the source accepts is rejected by the model.
- Helpers.StandardizeNotations: the contract states the three normal-form properties, not the full rewritten text. Concrete rewrites are proved per substitution step only.
- `Proposition.negated` builds a new statement by string concatenation and re-parses it. It depends on the parser, so it is left out.
- Objects.TestPair: `all_equivalent` joins two source texts with `' iff '` and re-parses them. The model builds the test proposition from `Biconditional(a, b)`, with that tree's own variables and distinct sentences. The verbose output is left out.
- Objects.Argument.constructor: premises and the conclusion are taken as already built propositions, not as statement texts.
- Objects.Argument.constructor / Objects.Argument.Create: `requires |premises| > 0` leaves out the IndexError that an empty premise list raises at objects.py:188. The command line (logic.py:37, logic.py:56, `nargs='+'`) always passes at least one premise.
- Objects.Argument.constructor: `Argument.Valid` does not restate each premise's own table invariant. Only the merged table is constrained.
- Objects.Proposition.IsTautology: a string `column` is a tree key here. The empty string, which Python treats as falsy, has no tree key, so that case is not representable.
- `standardize_notations(…, display=True)` and the `MARK_COLUMN` strings, used only for display, are left out.
- `is_valid` on an argument without a conclusion raises `AttributeError` in the source. The model requires a conclusion there, and for `X_COUNTEREXAMPLE` too.
- Fol.NaryEqualAsWritten: `requires |xs| <= |ys|`. With more left operands than right ones, the source never returns True. An arrangement that is not refuted before it reaches a missing right operand raises IndexError, and the source returns False only when every arrangement is refuted first. The model does not represent that exception.
- Integer cells: the source stores Python ints. The model's cells are `Bit` (0 or 1), and the evaluator is proved to stay in that range.

## Findings

| source | as written | input that shows it | evidently intended | confidence | as-written member | corrected member |
|---|---|---|---|---|---|---|
| fol.py:138-150 | n-ary `__eq__` tries permutations of the left operands' positions against the right operands, never comparing the operand counts | `Conjunction(a, b) == Conjunction(a, b, c)` is True, and `Conjunction(a, b, c) == Conjunction(a, b)` raises IndexError, so `==` is not symmetric | n-ary nodes are equal only with the same number of operands, matched up to order | not executed | Fol.NaryEqualIgnoresExtraOperands | Fol.NaryEqual |
| helpers.py:105-110 | the anchored identifier pattern is tried with `match`, and its `$` anchor also matches just before a final newline | `good_name("p\n")` is True | only whole-string identifiers are good names | not executed | Helpers.GoodNameAcceptsTrailingNewline | Helpers.GoodName |

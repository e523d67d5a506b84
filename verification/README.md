# newLISP Neo core algorithms

A Dafny model of the algorithmic core of newLISP Neo, a Lisp interpreter written in C, with
proofs of what each part is for. It covers the red-black symbol table, big integers in base
10^9, unification, the copying collector, dynamic scope by shallow binding, the merge sort with
the set operations built on it, wildcard matching of lists, linear equations by LU
decomposition, the printer and the reader, lists with a cached last cell, and UTF-8.

Code that updates state in place is a class or a method on arrays; each such method is tied
to a specification function or states its result outright, and lemmas say what that is worth.
`dafny verify dfyconfig.toml` checks everything.

| files | part | source |
|---|---|---|
| Names, SymbolTree, RedBlack, Rotation, Repair, Removal, NameMaps, SymbolTable | the symbol table of one context | nl-symbol.c |
| Signs, BigNum, Bigint, BigintMul, BigintDiv, BigintText | big integers | nl-math.c |
| Terms, Unification | unify | nl-math.c |
| Heaps, Evacuation, EvacuatedHeaps, Collection | collecting the nursery | newlisp.c |
| DeepBinding, ShallowBinding, BindingLaws, EvaluationLaws | evaluating lambda, let, set, catch and throw | newlisp.c |
| MergeSort, SetOperations | sort, intersect, difference, unique | nl-list.c |
| PatternMatch | match | nl-list.c |
| Matrices, BackSubstitution, LuDecomposition, Singularity, Determinants, LuDeterminant, LinearSolver | LU decomposition, determinant and inversion | nl-matrix.c |
| Syntax, Tokenizer, Reader, Printer | printing and reading expressions | newlisp.c |
| Chains, Lists, ListRuns | push, pop, extend, append, last | nl-liststr.c, newlisp.c |
| Utf8 | the UTF-8 codec | nl-utf8.c |

How the parts are modelled:

- Symbol table: nodes live in an arena and links are ids, with 0 for the shared sentinel and
  -1 for NULL. The proofs look at a tree from the position being worked on (a context with a
  hole), so each rotation, recoloring and relinking is a local fact.
- Big integers: arrays with the sign at 0, as in the source. Digits, carries and borrows are
  functions of the operands; the loops compute them and lemmas give their value.
- Unification: `ws` and `mgu` are stacks that persist between calls. The running invariant is
  that both together have the solutions of the initial equations and that `mgu` is in solved
  form.
- Collector: the heap is a map from addresses to cells of four words; ghost maps record which
  copy belongs to which cell. What a pointer denotes is a finite s-expression read off the heap.
- Evaluator: the reference semantics keeps a list of bindings and looks the newest one up; the
  interpreter keeps one value per symbol and the saved ones on a stack. `calls` is what is left
  of the call stack, whose exhaustion ends the interpreter. `EvaluationLaws` says what the
  reference semantics gives for each form, in terms of the values symbols have.
- Printer and reader: a text is a row of tokens with blanks between them. The reader works on
  any text; its contracts say what it returns where the tokens of an expression stand.

Where the code and its documentation or intent differ, the model follows the code:

- `wstr_utf8` keeps its limit exactly when the limit does not fall inside a character
  (`Utf8.LimitKept`). The primitive `utf8` calls it with a limit that can fall inside one
  (`Utf8.LimitNotKept`); six bytes for each character are always enough
  (`Utf8.SixBytesSuffice`).
- `unify` called with a faulty environment list leaves equations behind that are solved together
  with the next call. They are harmless exactly when each entry before the faulty one has two
  equal sides (`Unification.FailedCallHarmless`); `Unification.LeftoversSpoilTheNextCall` is a
  witness for the other case.
- `push` and `pop` at an index recognise the first cell of a list by comparing the cell at the
  index with the contents of the cell before it. The test misfires exactly when that cell holds
  the same word: nil at the end of a list, or an integer that equals the address. The predicates
  `Misplaced` and `Misread` are that condition; `Lists.Cells.PushAt` and `Lists.Cells.PopAt` say
  what happens with and without it, and `Lists.MisplacedIsWrong` and `Lists.MisreadIsWrong` that
  the list is then wrong. Lists of words that are neither NIL nor addresses are safe
  (`ListRuns.Machine.RunPlain`).
- The sort is stable exactly for comparisons that are total preorders
  (`MergeSort.StableExactly`). With a strict comparison such as `<` every class of elements that
  compare equal comes out reversed (`MergeSort.StrictSortReverses`).

## Model

| member | source | states |
|---|---|---|
| `Names.PreCompareAgrees` | nl-symbol.c:29-31 | On non-empty names the comparison of every lookup, two bytes first and the rest only on a tie, has the sign of `strcmp`. |
| `Names.StrCmpEqual` | nl-symbol.c:694-694 | `strcmp` is zero exactly for equal names. |
| `Names.StrCmpFlip` | nl-symbol.c:694-694 | Exchanging the names changes the sign and nothing else. |
| `Names.LessTransitive` | nl-symbol.c:694-698 | The key order is transitive. |
| `Names.CompareIsOrder` | nl-symbol.c:692-699 | Equal, left and right at a node are exactly equal, smaller and larger in the key order. |
| `Names.LessIsAlphabetical` | nl-symbol.c:692-699 | The key order is the alphabetical order of bytes: at the first difference the smaller byte comes first, and a name before every longer one that starts with it. |
| `SymbolTree.InOrderPlug` | nl-symbol.c:68-88 | A tree seen from an inner position lists what is before the position, what is in it and what is after it. |
| `SymbolTree.DistinctPlug` | nl-symbol.c:683-733 | No symbol sits twice in a tree exactly when none does inside, around and across an inner position. |
| `SymbolTree.Focus` | nl-symbol.c:742-820 | The arena with its parent, left and right links holds a tree exactly when it does seen from any position inside: this is what makes every relinking local. |
| `SymbolTree.TreeMoved` | nl-symbol.c:779-780 | A subtree is moved under a new parent by writing only the parent field of its root. |
| `SymbolTree.CtxRelinked` | nl-symbol.c:781-789 | Writing the one child link of the parent, or the root, replaces what hangs at a position. |
| `RedBlack.RedBlackPlug` | nl-symbol.c:891-955 | Black root, no red-red edge and equal black heights hold of a tree exactly when they hold inside and around any position. |
| `RedBlack.BlackHeightBounds` | nl-symbol.c:891-955 | Height is at most twice the black height, and a tree of black height b has at least 2^b - 1 symbols. |
| `RedBlack.LogarithmicHeight` | nl-symbol.c:683-733 | For n symbols, 2^height <= (n + 1)^2: height is at most 2 * log2(n + 1). |
| `Rotation.RotationsKeepOrder` | nl-symbol.c:826-888 | Both rotations keep the in-order listing and the set of symbols. |
| `Rotation.RotateLeftRep` | nl-symbol.c:826-856 | The fields `rotateLeft` writes turn the tree in the arena into the left-rotated tree at the same place. |
| `Rotation.RotateRightRep` | nl-symbol.c:859-888 | The fields `rotateRight` writes turn the tree in the arena into the right-rotated tree at the same place. |
| `Rotation.Recolored` | nl-symbol.c:905-907 | Writing one color field recolors one node of the tree and nothing else. |
| `Repair.UncleRedLeft` | nl-symbol.c:902-909 | Red uncle: parent and uncle turn black, the grandparent red, and the only possible violation moves up two levels; balance and key order are kept. |
| `Repair.StraightenLeft` | nl-symbol.c:913-918 | An inner grandchild is rotated outside without losing the invariant; balance and key order are kept. |
| `Repair.UncleBlackLeft` | nl-symbol.c:920-923 | Black uncle: one recoloring and rotation leave no violation at this place; balance and key order are kept. |
| `Repair.UncleRedRight` | nl-symbol.c:931-938 | The mirror image: parent and uncle turn black and the violation moves up; balance and key order are kept. |
| `Repair.StraightenRight` | nl-symbol.c:942-946 | The mirror image: an inner grandchild is rotated outside; balance and key order are kept. |
| `Repair.UncleBlackRight` | nl-symbol.c:947-949 | The mirror image: one recoloring and rotation end the repair; balance and key order are kept. |
| `Repair.RedAtEnd` | nl-symbol.c:952-954 | When the loop of `insertFixup` ends, blackening the root gives a red-black tree. |
| `Repair.SiblingRedLeft` | nl-symbol.c:967-973 | Red sibling: after recoloring and rotation the position is still one black node short, now below a red parent; the in-order listing is kept. |
| `Repair.SiblingLendsLeft` | nl-symbol.c:974-978 | Black nephews: the sibling turns red and the parent becomes the position that is short; the in-order listing is kept. |
| `Repair.NephewInLeft` | nl-symbol.c:981-987 | Inner red nephew: it becomes the sibling, with a red outer child; the in-order listing is kept. |
| `Repair.NephewOutLeft` | nl-symbol.c:988-992 | Outer red nephew: the rotation supplies the missing black node; the in-order listing is kept. |
| `Repair.SiblingRedRight` | nl-symbol.c:998-1004 | The mirror image for a red sibling; the in-order listing is kept. |
| `Repair.SiblingLendsRight` | nl-symbol.c:1005-1009 | The mirror image for black nephews; the in-order listing is kept. |
| `Repair.NephewInRight` | nl-symbol.c:1012-1018 | The mirror image for an inner red nephew; the in-order listing is kept. |
| `Repair.NephewOutRight` | nl-symbol.c:1019-1023 | The mirror image for an outer red nephew; the in-order listing is kept. |
| `Repair.LightAtEnd` | nl-symbol.c:1026-1028 | When the loop of `deleteFixup` ends, at the root or at a red node, blackening that node gives a red-black tree with the same listing. |
| `Removal.SpliceRep` | nl-symbol.c:773-789 | Taking out a symbol with at most one child and linking that child, possibly the sentinel, leaves the tree without it. |
| `Removal.ReplaceRep` | nl-symbol.c:793-813 | The successor that takes over links and color of a symbol stands in its place in the tree. |
| `Removal.SuccessorOrder` | nl-symbol.c:766-771 | The successor is what the tree lists right after the symbol, so replacing the one by the other removes just that symbol from the listing. |
| `Removal.Attached` | nl-symbol.c:704-725 | A new red symbol between two sentinel links, hung at the position found, is in the tree at that position. |
| `NameMaps.NotFound` | nl-symbol.c:692-702 | A walk that ends at the sentinel has missed nothing: the name is not in the table. |
| `NameMaps.FoundAt` | nl-symbol.c:694-695 | The symbol the walk stops at is the one the map gives. |
| `NameMaps.MapInsert` | nl-symbol.c:683-733 | Entering a symbol at its place adds exactly one entry to the map and keeps the strict key order. |
| `NameMaps.MapDelete` | nl-symbol.c:742-820 | Taking a symbol out of the listing removes exactly its entry from the map. |
| `NameMaps.MapSize` | nl-symbol.c:731-731 | The map has as many entries as the tree lists symbols. |
| `SymbolTable.Table.Descend` | nl-symbol.c:689-699 | The walk ends at the symbol with the name, or at a hole where the name fits the key order, with `parent` right above it. |
| `SymbolTable.Table.RotateLeft` | nl-symbol.c:826-856 | Exactly the four symbols around the edge change, field by field; the sentinel parent field is not used. |
| `SymbolTable.Table.RotateRight` | nl-symbol.c:859-888 | The mirror image. |
| `SymbolTable.Table.RotateLeftAt` | nl-symbol.c:826-856 | At any position with a right child the arena then holds the rotated tree. |
| `SymbolTable.Table.RotateRightAt` | nl-symbol.c:859-888 | At any position with a left child the arena then holds the rotated tree. |
| `SymbolTable.Table.InsertFixLeft` | nl-symbol.c:899-925 | One round keeps links, balance, listing and names, and climbs: the depth of the position decreases. |
| `SymbolTable.Table.InsertFixRight` | nl-symbol.c:926-951 | The same for the mirror image. |
| `SymbolTable.Table.InsertFixup` | nl-symbol.c:891-955 | From a red violation anywhere, the loop ends with a red-black tree with the same listing and names. |
| `SymbolTable.Table.DeleteFixLeft` | nl-symbol.c:964-994 | One round keeps links, balance and listing, and moves closer to the end; a sentinel position stays addressable by its parent field. |
| `SymbolTable.Table.DeleteFixRight` | nl-symbol.c:995-1025 | The same for the mirror image. |
| `SymbolTable.Table.DeleteFixup` | nl-symbol.c:958-1029 | From a position one black node short, possibly the shared sentinel, the loop ends with a red-black tree with the same listing. |
| `SymbolTable.Table.FindInsert` | nl-symbol.c:683-733 | A known name gives its symbol and changes nothing; an unknown one gives NULL, or with creation forced a new symbol, and the map gains just that entry. |
| `SymbolTable.Table.Attach` | nl-symbol.c:704-725 | The new symbol is linked below the parent on the side the key order asks for, all names kept. |
| `SymbolTable.Table.Unlink` | nl-symbol.c:773-789 | Field by field: the only child takes the place of its parent below the grandparent, and the sentinel gets a parent field when it is that child. |
| `SymbolTable.Table.Swap` | nl-symbol.c:795-812 | Field by field: the successor takes over links and color. |
| `SymbolTable.Table.Successor` | nl-symbol.c:768-770 | The leftmost symbol of the right subtree, which has no left child. |
| `SymbolTable.Table.DeleteLeafward` | nl-symbol.c:761-765 | Deleting a symbol with a sentinel child leaves a valid table without just that symbol. |
| `SymbolTable.Table.DeleteInner` | nl-symbol.c:766-816 | Deleting a symbol with two children leaves a valid table without just that symbol. |
| `SymbolTable.Table.DeleteSymbol` | nl-symbol.c:742-820 | Found exactly when the name is in the map; then the table is valid again (red-black, strictly ordered, links consistent) and holds exactly the other symbols; else nothing changes. |
| `SymbolTable.Table.CollectSymbols` | nl-symbol.c:68-88 | Appends the in-order listing of any subtree. |
| `SymbolTable.Table.Symbols` | nl-symbol.c:68-88 | Lists every symbol of the table once, in alphabetical order: of two names the earlier has the smaller byte at the first difference, or is the beginning of the later one. |
| `SymbolTable.Table.Run` | nl-symbol.c:683-820 | Every run of insertions, lookups and deletions answers like a finite map, keeps the table valid, and ends with height at most 2 * log2(n + 1). |
| `BigNum.NormalUnique` | nl-math.c:4345-4361 | A normalised digit sequence is determined by its value. |
| `BigNum.FirstDifference` | nl-math.c:4352-4356 | The first difference decides the order of digit sequences of equal length. |
| `BigNum.LongerIsLarger` | nl-math.c:4349-4360 | Without leading zeros the longer number is larger. |
| `Bigint.CmpAbsBigint` | nl-math.c:4345-4361 | The sign of the difference of the magnitudes, also when the leading digit of a product exceeds the base. |
| `Bigint.CmpBigint` | nl-math.c:4363-4378 | The sign of the difference of the values, with 0 equal to -0. |
| `Bigint.SumValue` | nl-math.c:4049-4062 | The digits and carries of the two loops have the sum as their value. |
| `Bigint.AddColumns` | nl-math.c:4045-4062 | The loops compute those digits; every intermediate fits an int. |
| `Bigint.AddBigint` | nl-math.c:4024-4076 | The exact sum in normal form; both operands end unchanged in spite of the temporary sign flip; the mutual recursion with subtraction ends. |
| `Bigint.DifferenceValue` | nl-math.c:4104-4119 | When the first magnitude is not smaller, no borrow is left and the digits have the difference as value. |
| `Bigint.SubColumns` | nl-math.c:4104-4119 | The loop computes those digits, also in place; every intermediate fits 64 bits. |
| `Bigint.TrimZeros` | nl-math.c:4121-4132 | Leading zeros go, the value stays, and one digit is kept for zero. |
| `Bigint.SubBigint` | nl-math.c:4079-4135 | The exact difference in normal form; both operands end unchanged. |
| `BigintMul.AddRow` | nl-math.c:4146-4154 | One row adds digit times multiplicand at its place; products fit 64 bits and carries an int. |
| `BigintMul.MulRows` | nl-math.c:4143-4155 | All rows together are the product of the magnitudes. |
| `BigintMul.DropLeading` | nl-math.c:4157-4164 | Leading zeros go one at a time, the value stays. |
| `BigintMul.MulBigint` | nl-math.c:4138-4170 | The exact product in normal form. |
| `BigintDiv.DivisionLaw` | nl-math.c:4173-4342 | Quotient and remainder satisfy x = q * y + r with |r| < |y| and r zero or of the sign of x. |
| `BigintDiv.BigintToAbsFloat` | nl-math.c:4446-4456 | The value of the first n digits; a count below 2 still reads one digit. |
| `BigintDiv.EstimateEnough` | nl-math.c:4254-4254 | Cutting the last digits off both numbers never makes the quotient estimate too small. |
| `BigintDiv.EstimateClose` | nl-math.c:4254-4254 | When the divisor keeps two digits the cut quotient is at most one too large. |
| `BigintDiv.CeilLike` | nl-math.c:4254-4254 | Truncating the real quotient plus one is the integer quotient plus one. |
| `BigintDiv.LeadingCuts` | nl-math.c:4215-4232 | The leading digits the code takes are both numbers cut at the same place, or else the remainder is smaller than the divisor. |
| `BigintDiv.Estimate` | nl-math.c:4231-4254 | The first value tried is the true digit, one or two more; 0 is taken only when the digit is 0, and equal leading digits mean a digit of at most 1. |
| `BigintDiv.Product` | nl-math.c:4259-4276 | Divisor times estimate, with the carry shifted in as one more digit. |
| `BigintDiv.Attempt` | nl-math.c:4259-4280 | The product is comparable with the remainder and the comparison is exact. |
| `BigintDiv.Correct` | nl-math.c:4259-4287 | The loop stops at the true quotient digit after at most two corrections. |
| `BigintDiv.DivideStep` | nl-math.c:4231-4318 | One digit: the quotient and, in place, the normalised remainder. |
| `BigintDiv.NextDigit` | nl-math.c:4219-4324 | The running law x[..i] = q * y + r is kept when a digit comes down and a quotient digit is found. |
| `BigintDiv.StillSmaller` | nl-math.c:4228-4229 | Before the first quotient digit the remainder is the dividend so far. |
| `BigintDiv.LongDivide` | nl-math.c:4209-4324 | Quotient and remainder of the magnitudes, both normalised, within scratch arrays of nx - ny + 2 and ny + 2. |
| `BigintDiv.DivModBigint` | nl-math.c:4175-4342 | An error exactly for divisor zero (of either sign); otherwise quotient or remainder of the signed values in normal form. |
| `BigintText.ReadChunk` | nl-math.c:3944-3951 | One digit in base 10^9 from at most nine characters, below the base. |
| `BigintText.DecDigits` | nl-math.c:3944-3951 | A further decimal digit multiplies the value by ten and adds the digit. |
| `BigintText.StrToBigint` | nl-math.c:3910-3954 | For an optional sign, digits with any leading zeros and an optional L: a normalised number of that value and sign. |
| `BigintText.EmitDigits` | nl-math.c:4004-4011 | The decimal digits of one digit in base 10^9, with zeros in front when they are due. |
| `BigintText.CountDigits` | nl-math.c:3982-3991 | How many decimal digits the leading digit has. |
| `BigintText.BigintToDigits` | nl-math.c:3962-4018 | The decimal text of the value: no leading zeros, and a minus sign only before a number that is not zero. |
| `BigintText.RoundTrip` | nl-math.c:3910-4018 | Reading what was written, with or without L, gives digit for digit the same number; only zero loses its sign. |
| `Terms.ApplySubst` | nl-math.c:3382-3409 | A solution of x = e does not notice that x is replaced by e. |
| `Terms.SubstVars` | nl-math.c:3382-3409 | Replacing x by e leaves no variables but those of e and the others. |
| `Terms.Factor` | nl-math.c:3411-3458 | A substitution that solves the bindings can be preceded by them. |
| `Terms.OccurrenceSize` | nl-math.c:3312-3329 | A list that contains x is larger than what x stands for. |
| `Terms.NoSolution` | nl-math.c:3181-3277 | What two sides that some substitution makes equal cannot look like. |
| `Unification.OccurCheckExact` | nl-math.c:3312-3329 | The check, which compares contents cell by cell, is true exactly when the variable occurs in the expression. |
| `Unification.EliminatedSolutions` | nl-math.c:3331-3379 | For solutions of x = e, replacing x by e throughout a set changes nothing. |
| `Unification.Dropped` | nl-math.c:3181-3189 | Dropping an equation between equal sides keeps solutions and solved form, and shrinks the set. |
| `Unification.TakenApart` | nl-math.c:3243-3273 | Replacing two lists of one length by the equations of their elements keeps solutions and shrinks the set. |
| `Unification.Elimination` | nl-math.c:3198-3241 | Binding a variable keeps solutions and solved form because both `mgu` and `ws` are rewritten, and takes that variable out of `ws`. |
| `Unification.NeverUnifies` | nl-math.c:3190-3277 | In each case where the code gives up the equations have no unifier. |
| `Unification.SolutionFactors` | nl-math.c:3425-3457 | Every solution of bindings in solved form factors through them. |
| `Unification.Finished` | nl-math.c:3280-3280 | When `ws` is empty the bindings are a most general unifier of the initial equations. |
| `Unification.Idempotent` | nl-math.c:3425-3457 | Applying the bindings twice is applying them once: no bound variable occurs in a right-hand side. |
| `Unification.LeftoversHarmless` | nl-math.c:3154-3158 | Equations left on `ws` change the unifiers of no later call exactly when each of them has two equal sides. |
| `Unification.FailedCallHarmless` | nl-math.c:3094-3103 | A call that fails on its environment list leaves the unifiers of every later call as they are exactly when each entry before the first one that is not a list has two equal sides. |
| `Unification.LeftoversSpoilTheNextCall` | nl-math.c:3100-3103 | A witness for the other case: after `((1 2) 3)` not even 5 unifies with 5. |
| `Unification.TermSet.Push` | nl-math.c:3123-3133 | The equation comes in front of the stack. |
| `Unification.TermSet.Pop` | nl-math.c:3135-3146 | Takes off what was pushed last. |
| `Unification.TermSet.Substitute` | nl-math.c:3331-3379 | In place, both sides of every equation have the variable replaced by the expression. |
| `Unification.Unifier.Solve` | nl-math.c:3198-3241 | One elimination in both sets and one new binding. |
| `Unification.Unifier.PushPairs` | nl-math.c:3262-3269 | Pushes the equations of the elements. |
| `Unification.Unifier.Reduce` | nl-math.c:3158-3277 | One popped equation: either no unifier exists, or solutions are kept and the measure (variables left, then size) decreases. |
| `Unification.Unifier.Unify` | nl-math.c:3149-3281 | Ends for all inputs; nil only when there is no unifier; otherwise solved-form bindings that are a most general unifier; both stacks end empty. |
| `Unification.Unifier.PUnify` | nl-math.c:3087-3116 | The environment equations are solved together with the two sides; a call fails exactly when an entry is not a list, and then the entries before it stay on `ws`. |
| `Unification.Unifier.FinishUnify` | nl-math.c:3411-3458 | The association list of all bindings, or nil; both stacks are emptied. |
| `Evacuation.Collector.AllocGen1Cell` | newlisp.c:2272-2287 | A cell that is not in use, all other cells untouched. |
| `Evacuation.Collector.CopyOut` | newlisp.c:2329-2342 | The copy has all four words and the original becomes a forwarding mark that points to it. |
| `Evacuation.Collector.Evict` | newlisp.c:2329-2342 | Moving one cell keeps the invariant: originals and copies match one to one, tenured cells untouched, every copy but this one complete. |
| `Evacuation.Collector.EvacuateBlock` | newlisp.c:2346-2356 | Every array element becomes the relocated pointer, also when two arrays share the block. |
| `Evacuation.Collector.FindLast` | newlisp.c:2367-2369 | The walk along the copied chain ends at the copy of the last cell of the original chain. |
| `Evacuation.Collector.LastHint` | newlisp.c:2360-2381 | The recomputed last-element pointer, or the bytecode of a lambda; an empty list keeps what it has. |
| `Evacuation.Collector.EvacuateContents` | newlisp.c:2357-2382 | Contents relocated and last-element pointer recomputed. |
| `Evacuation.Collector.EvacuateBody` | newlisp.c:2344-2383 | All a copy holds besides its link is complete. |
| `Evacuation.Collector.CopyCell` | newlisp.c:2329-2385 | One step along a chain: fewer cells are left to evacuate and the cell before is linked and complete. |
| `Evacuation.Collector.EvacuateChain` | newlisp.c:2320-2391 | A chain that ends, leaves the nursery or meets a forwarded cell is copied and linked; ends because the number of unforwarded cells decreases. |
| `Evacuation.Collector.Evacuate` | newlisp.c:2306-2392 | For every pointer: the relocated pointer, with the invariant kept, forwarded cells staying forwarded to the same copy and tenured cells untouched. |
| `Evacuation.Collector.EvacuateSlots` | newlisp.c:2463-2491 | Exactly the words of a stack range that point into the nursery are relocated; other words stay. |
| `Evacuation.Collector.ResetGen0` | newlisp.c:2518-2519 | The nursery is empty; all other cells stay. |
| `EvacuatedHeaps.DepthSuffices` | newlisp.c:2306-2392 | In an acyclic heap following a pointer to a depth above its rank already gives the whole expression. |
| `EvacuatedHeaps.CellAt` | newlisp.c:2320-2391 | After a collection a relocated pointer leads to a cell outside the nursery with the data of the original and relocated pointers. |
| `EvacuatedHeaps.DenotationPreserved` | newlisp.c:2306-2392 | Every pointer that was evacuated denotes the same s-expression as before, to every depth, with the nursery gone. |
| `EvacuatedHeaps.SharingPreserved` | newlisp.c:2317-2318 | Two pointers lead to one cell afterwards exactly when they did before: no cell is copied twice. |
| `EvacuatedHeaps.SurvivorsWellFormed` | newlisp.c:2306-2392 | The collected heap is acyclic and complete again: no link, list or array element points at anything left behind, so the next collection may assume the same. |
| `EvacuatedHeaps.LastRelocated` | newlisp.c:2375-2380 | The last cell of a relocated chain is the relocated last cell. |
| `EvacuatedHeaps.AuxIsLast` | newlisp.c:2360-2381 | Every non-empty list copied has its true last cell in `aux`, unless `aux` holds bytecode. |
| `EvacuatedHeaps.EmptyAuxKept` | newlisp.c:2329-2381 | The copy of an empty list has the `aux` of the original; that of an empty lambda without bytecode is nil. |
| `EvacuatedHeaps.AuxPreserved` | newlisp.c:2357-2382 | Where the `aux` of every list is its last cell or nil, for empty ones nil, this is so after the collection. |
| `Collection.SlotsMean` | newlisp.c:2463-2513 | Every root word that is a pointer denotes what it denoted. |
| `Collection.CollectGen0` | newlisp.c:2463-2520 | A collection from the three stacks and the registers keeps the meaning of every root, leaves tenured cells as they are and hands a well-formed heap to the next collection, with every cached last cell right or nil if they were. |
| `ShallowBinding.AssignAgrees` | newlisp.c:5803-5805 | Writing the contents of a symbol is assigning to its newest binding. |
| `ShallowBinding.PushAgrees` | newlisp.c:2108-2114 | Saving the old contents and storing the new value is adding a binding. |
| `ShallowBinding.PopAgrees` | newlisp.c:2155-2157 | Putting the saved contents back is dropping the newest binding. |
| `ShallowBinding.UnwindAgrees` | newlisp.c:1396-1405 | Popping any number of entries is dropping that many bindings. |
| `ShallowBinding.UnwindTwice` | newlisp.c:1391-1406 | Unwinding in two stages is unwinding once. |
| `ShallowBinding.RestoresDown` | newlisp.c:5093-5094 | What unwinds to one level unwinds on to any lower one. |
| `ShallowBinding.Interpreter.PushBinding` | newlisp.c:2108-2114 | Stack and contents represent the world with one more binding. |
| `ShallowBinding.Interpreter.PopBindings` | newlisp.c:2152-2158 | Restoring the locals represents the world without them. |
| `ShallowBinding.Interpreter.RecoverEnvironment` | newlisp.c:1391-1406 | After a throw or an error the stack is back at the saved index and every symbol has the contents that world gives it. |
| `ShallowBinding.Interpreter.EvaluateExpression` | newlisp.c:1726-1925 | For every expression of the fragment: the outcome of the deep-binding semantics, and its world after unwinding to the stack at the call. |
| `ShallowBinding.Interpreter.SetDefine` | newlisp.c:5786-5811 | Protected symbols give an error before anything is evaluated; else the newest binding is assigned. |
| `ShallowBinding.Interpreter.PThrow` | newlisp.c:5140-5149 | Without an active catch an error; else the value leaves as an exception. |
| `ShallowBinding.Interpreter.PCatch` | newlisp.c:5057-5137 | With or without a symbol, for a result, a throw or an error: the deep semantics with the environment restored. |
| `ShallowBinding.Interpreter.BindParameters` | newlisp.c:2087-2124 | Arguments, else default expressions that see the parameters before them, else nil. |
| `ShallowBinding.Interpreter.EvaluateLambda` | newlisp.c:2045-2166 | Parameters and `$args` bound, the body evaluated and the bindings undone, as the deep semantics applies a lambda. |
| `ShallowBinding.Interpreter.EvaluateCall` | newlisp.c:2045-2079 | The arguments are evaluated from left to right in the environment of the call. |
| `ShallowBinding.Interpreter.LetStd` | newlisp.c:5880-5978 | All values are computed before any symbol is bound. |
| `ShallowBinding.Interpreter.LetNest` | newlisp.c:5907-5978 | Each value is computed with the symbols before it bound. |
| `ShallowBinding.Interpreter.RunBody` | newlisp.c:5961-5976 | A body under bindings that are undone afterwards. |
| `ShallowBinding.Interpreter.TopLevel` | newlisp.c:1366-1388 | Whatever ends an expression early, the environment is reset to what the deep semantics gives at the top level; after a fatal error there is no next expression. |
| `ShallowBinding.Interpreter.Session` | newlisp.c:1366-1406 | For every program: the outcomes are those of the deep-binding semantics, up to a fatal one, which ends the process; without one the contents of every symbol agree in the end and the stack is empty. |
| `BindingLaws.EvalKept` | newlisp.c:2045-2166 | No evaluation, however it ends, adds or removes a visible binding or touches a shadowed one. |
| `BindingLaws.CatchKept` | newlisp.c:5057-5137 | After a catch, caught throw or not, the bindings are those before it. |
| `BindingLaws.LetRestores` | newlisp.c:5842-5979 | However the body of a let ends, the symbols it binds have the values they had when it bound them. |
| `BindingLaws.LetNestedRestores` | newlisp.c:5907-5978 | The same for letn, whose bindings lie above what the world was when it began. |
| `BindingLaws.CallRestores` | newlisp.c:2045-2166 | However the body of a lambda ends, its parameters have the values they had below its bindings. |
| `BindingLaws.CatchRestores` | newlisp.c:5057-5137 | A symbol bound by a let inside a catch has its earlier value after a throw, an error or a normal end. |
| `BindingLaws.MoreCalls` | newlisp.c:1726-1925 | A result obtained without exhausting the call stack does not depend on its size. |
| `EvaluationLaws.ReadParameter` | newlisp.c:2087-2117 | Parameter k of a lambda reads as argument k if there is one; else as its default expression, evaluated with the parameters before it bound; else as nil. |
| `EvaluationLaws.ReadArgs` | newlisp.c:2126-2129 | `$args` reads as the list of the arguments no parameter has taken. |
| `EvaluationLaws.CallMeaning` | newlisp.c:2087-2166 | Parameters are bound one after the other, each seeing those before it; then the body runs with them and `$args` bound, and all of these bindings are taken back. A protected parameter or a default that does not end normally ends the call. |
| `EvaluationLaws.BoundExists` | newlisp.c:2087-2124 | Every call binds all parameters or stops at one of these. |
| `EvaluationLaws.CallEvaluates` | newlisp.c:2045-2079 | Arguments are evaluated from left to right in the environment of the call before anything is bound; the first that does not end normally ends the call. |
| `EvaluationLaws.OrderExists` | newlisp.c:2045-2079 | Every list of expressions is evaluated to its end or stops at one that does not end normally. |
| `EvaluationLaws.CallHead` | newlisp.c:1726-1925 | What is not a lambda cannot be called. |
| `EvaluationLaws.BodyLast` | newlisp.c:2140-2149 | A body is evaluated in order, ends at the first expression that does not end normally and returns the value of its last one. |
| `EvaluationLaws.EmptyBody` | newlisp.c:2140-2149 | An empty body returns nil and changes nothing. |
| `EvaluationLaws.LetMeaning` | newlisp.c:5880-5978 | let computes all values in order, then binds each symbol to its own value for the body, and takes the bindings back. |
| `EvaluationLaws.LetProtected` | newlisp.c:5880-5978 | The first protected symbol of a let is an error once the values are known, with nothing left bound. |
| `EvaluationLaws.LetNestedMeaning` | newlisp.c:5907-5978 | letn binds its first symbol and is, in that world, the letn of the others. |
| `EvaluationLaws.LetNestedEmpty` | newlisp.c:5907-5978 | letn without symbols is its body. |
| `EvaluationLaws.SetMeaning` | newlisp.c:5786-5811 | set gives the symbol the value, changes no other symbol and returns the value; a protected symbol is an error before anything is evaluated. |
| `EvaluationLaws.ThrowOutside` | newlisp.c:5140-5143 | throw without a catch is an error. |
| `EvaluationLaws.CatchThrow` | newlisp.c:5096-5105 | A thrown value is what the catch around it returns; with a symbol the catch stores it there and returns true. |
| `EvaluationLaws.CatchMeaning` | newlisp.c:5057-5137 | catch by the ending of its expression: a value is returned, or stored with true returned; an error passes through, or its message is stored and nil returned. |
| `EvaluationLaws.TopLevelMeaning` | newlisp.c:1366-1388 | At the top level an expression that does not end normally leaves `$it` as nil. |
| `MergeSort.SortPermutes` | nl-list.c:796-897 | Whatever the comparison does, the result is a permutation. |
| `MergeSort.MergeSorted` | nl-list.c:827-890 | Merging sorted runs gives a sorted run. |
| `MergeSort.MergeStable` | nl-list.c:840-847 | Ties go to the left run, so merging stable sorts of two stretches is a stable sort of both. |
| `MergeSort.PassRuns` | nl-list.c:811-890 | One pass doubles the length of the sorted runs, for every length of the vector. |
| `MergeSort.SortIsStable` | nl-list.c:796-897 | For every length and every total preorder the result is sorted, and elements that compare equal keep their order. |
| `MergeSort.OrderKept` | nl-list.c:840-847 | Two elements that compare equal stand in the order of the input. |
| `MergeSort.SortedUnique` | nl-list.c:848-855 | Without ties between different elements there is only one sorted permutation, so sorting by index restores the order. |
| `MergeSort.StableExactly` | nl-list.c:796-897 | The sort is sorted and stable on every list exactly when the comparison is a total preorder. |
| `MergeSort.StrictSortReverses` | nl-list.c:879-885 | With any strict weak order, such as `<`, every list comes out sorted and each class of elements that compare equal comes out reversed. |
| `MergeSort.StrictSortStable` | nl-list.c:879-885 | With a strict weak order a list without repetitions is sorted stably exactly when no two of its elements compare equal. |
| `MergeSort.RunBounds` | nl-list.c:813-825 | The bounds of the one or two runs that start at a position. |
| `MergeSort.MergeRuns` | nl-list.c:827-890 | The loop writes the merge of the two runs and nothing before them. |
| `MergeSort.MergePass` | nl-list.c:811-890 | One pass over the whole vector. |
| `MergeSort.Binsort` | nl-list.c:796-897 | In place, the first n elements become their merge sort; the others stay. |
| `SetOperations.SortedByIndex` | nl-list.c:996-996 | Sorting by the indices kept in the link fields restores the original order. |
| `SetOperations.DuplicateTest` | nl-list.c:317-322 | In a sorted vector comparing with the last element chosen finds exactly the duplicates. |
| `SetOperations.WantedEitherWay` | nl-list.c:283-325 | An element is chosen at its place in the sorted vector exactly when the naive filter takes it at its place in the list: the first occurrence survives because sorting is stable. |
| `SetOperations.ChosenInOrder` | nl-list.c:328-341 | The chosen cells sorted by index are the naive filter in the order of the first list. |
| `SetOperations.NotThere` | nl-list.c:285-310 | An element smaller than the current one of the other vector is not in it. |
| `SetOperations.SetMeaning` | nl-list.c:237-352 | As sets of values the naive filter is the intersection, the difference or the set itself. |
| `SetOperations.NaiveDistinct` | nl-list.c:317-322 | Except in list mode no two elements of the result are equal. |
| `SetOperations.ListModeKeepsAll` | nl-list.c:317-322 | In list mode an element that is kept is there as often as in the first list. |
| `SetOperations.ListCells.ListToSortedVector` | nl-list.c:959-988 | The cells sorted stably by value; in index mode each link field holds the position. |
| `SetOperations.ListCells.ResortVectorToList` | nl-list.c:991-1008 | The list is linked again in its original order; other cells untouched. |
| `SetOperations.ListCells.Judge` | nl-list.c:285-310 | What one comparison decides about membership. |
| `SetOperations.ListCells.Append` | nl-list.c:317-322 | Appends unless the element repeats the last one chosen. |
| `SetOperations.ListCells.Walk` | nl-list.c:283-325 | The walk along both sorted vectors chooses exactly the wanted elements. |
| `SetOperations.ListCells.CopyList` | nl-list.c:260-264 | A list passed twice is copied: new cells with the same values in the same order. |
| `SetOperations.ListCells.SetInterDiff` | nl-list.c:237-352 | intersect, difference and unique give the naive filter of A by membership in B in the order of A, first occurrences only unless in list mode; A and B are linked as they were and hold the same values, also when they are one list. |
| `PatternMatch.FilledMatches` | nl-list.c:391-521 | Whatever pattern and captures put together is matched by the pattern. |
| `PatternMatch.MatchesEmpty` | nl-list.c:482-483 | A non-empty pattern that matches nothing matches everything: giving up at the last element loses no match. |
| `PatternMatch.CapturesUsed` | nl-list.c:419-431 | In the mode that returns every element a pattern returns nothing exactly when it is made of empty lists. |
| `PatternMatch.FillMore` | nl-list.c:372-388 | Appending captures leaves the use of the earlier ones as it was. |
| `PatternMatch.ElementCaptures` | nl-list.c:439-513 | What each pattern element captures: `*` and `+` a list of what they cover, `?` its element, another element itself if every element is returned. |
| `PatternMatch.NestedCaptures` | nl-list.c:408-436 | A nested pattern covers a list of its own kind; its captures stand in line, or with the flag in an expression of their own. |
| `PatternMatch.MatchStar` | nl-list.c:448-502 | The wildcards `*` and `+` cover the shortest stretch whose rest matches, and a failure means that no stretch does. |
| `PatternMatch.PatternMatchL` | nl-list.c:391-521 | Failure exactly when no decomposition of the list matches; otherwise putting the captures back into the pattern reproduces the list, in both modes. |
| `PatternMatch.NoCaptures` | nl-list.c:517-520 | After a failure no captures at all reproduce the list. |
| `Matrices.ProductIsEntry` | nl-matrix.c:435-457 | The product of the two factors stored in one matrix, entry by entry, as the algorithm accumulates it. |
| `Matrices.Associates` | nl-matrix.c:502-525 | (L U) x = L (U x). |
| `Matrices.Unpermute` | nl-matrix.c:507-511 | A solution of the interchanged equations solves the original ones. |
| `BackSubstitution.SolvesPermuted` | nl-matrix.c:502-525 | Forward and backward substitution together solve the interchanged equations. |
| `BackSubstitution.ForwardStep` | nl-matrix.c:507-517 | One forward step, with the leading zeros of the right-hand side skipped, solves one more equation of the lower factor. |
| `BackSubstitution.Substitute` | nl-matrix.c:502-525 | In place, both substitutions. |
| `BackSubstitution.Lubksb` | nl-matrix.c:502-525 | For every right-hand side b, b becomes x with A x = b. |
| `Singularity.DecomposedIsRegular` | nl-matrix.c:410-499 | A matrix that has a decomposition has exactly one solution for every right-hand side. |
| `Singularity.ZeroRowIsSingular` | nl-matrix.c:426-430 | A row of zeros: some right-hand side has no solution. |
| `Singularity.ZeroPivotIsSingular` | nl-matrix.c:475-487 | No pivot left in a column: some vector other than zero is sent to zero. |
| `LinearSolver.RowScales` | nl-matrix.c:419-433 | Positive scales, or a row of zeros and a singular matrix. |
| `LinearSolver.Above` | nl-matrix.c:437-442 | The upper part of a column. |
| `LinearSolver.Below` | nl-matrix.c:443-457 | The lower part of a column, and a pivot that is zero only if every candidate is. |
| `LinearSolver.Pivot` | nl-matrix.c:437-473 | One column worked on and its rows interchanged, with the sign of the interchanges. |
| `LinearSolver.Finish` | nl-matrix.c:475-494 | The column is divided by the pivot, or the matrix is singular. |
| `LinearSolver.Ludcmp` | nl-matrix.c:410-499 | Succeeds exactly when every right-hand side has one solution; and exactly when the determinant is not zero; then the factors multiply to A with the rows interchanged by `indx`, and the determinant is d times the product of the diagonal. |
| `LinearSolver.PDeterminant` | nl-matrix.c:198-237 | det gives the determinant of A, defined by expansion, and nil exactly when it is zero. |
| `LuDeterminant.DecomposedDeterminant` | nl-matrix.c:231-232 | The determinant of a decomposed matrix is the product of the diagonal, with the sign of the interchanges. |
| `LuDeterminant.ZeroPivotDeterminant` | nl-matrix.c:475-487 | No pivot left in a column: the determinant is zero. |
| `Determinants.Linear` | nl-matrix.c:437-457 | The determinant is linear in every row. |
| `Determinants.Exchanged` | nl-matrix.c:461-471 | Exchanging two rows changes the sign of the determinant. |
| `Determinants.IdentityDeterminant` | nl-matrix.c:417-417 | The determinant of the identity is 1; with the two laws before, it is the only such function. |
| `Determinants.EliminationKeeps` | nl-matrix.c:437-457 | Subtracting multiples of earlier rows keeps the determinant. |
| `Determinants.PermutedDeterminant` | nl-matrix.c:461-473 | After any interchanges the determinant has changed its sign as `Sign` says. |
| `LinearSolver.Invert` | nl-matrix.c:366-400 | Succeeds exactly for those matrices, and then A * Y is the identity. |
| `Syntax.NumberReadBack` | newlisp.c:4065-4080 | Decimal digits are read back as the number they show. |
| `Syntax.DigitCharacters` | newlisp.c:4065-4080 | The digits and their values. |
| `Tokenizer.HexCharacters` | newlisp.c:4428-4434 | Hexadecimal digits of both cases and their values. |
| `Syntax.DigitsLength` | newlisp.c:3182-3183 | A number below 10^k is shown with at most k digits. |
| `Tokenizer.ThreeDigits` | newlisp.c:4391-4401 | The three digits after a backslash give the byte they were written for. |
| `Tokenizer.EscapedAs` | newlisp.c:3301-3314 | What follows a backslash the printer wrote is the byte in three digits or the name of the byte, never both. |
| `Tokenizer.StringEnds` | newlisp.c:4385-4386 | The loop over a printed string stops at its closing quote and nowhere before. |
| `Tokenizer.TokenStarts` | newlisp.c:4295-4381 | The first characters of a token tell which branch of the reader takes it. |
| `Tokenizer.Stream.Strip` | newlisp.c:4274-4292 | Blanks and comments are skipped, up to where the expected token starts. |
| `Tokenizer.Stream.SkipComment` | newlisp.c:4279-4292 | A comment ends with its line or with the text, and nowhere before. |
| `Tokenizer.Stream.ReadOctal` | newlisp.c:4306-4313 | A zero followed by a digit: the longest run of octal digits, as written. |
| `Tokenizer.Stream.ReadBased` | newlisp.c:4318-4334 | A hexadecimal or binary number: the longest run of its digits up to the limit, as written. |
| `Tokenizer.Stream.ReadExponent` | newlisp.c:4351-4372 | A number with an exponent, as written. |
| `Tokenizer.Stream.ReadEscape` | newlisp.c:4403-4458 | Each named escape, `\x` with two and `\u` with four hexadecimal digits give their characters. |
| `Tokenizer.Stream.ReadBraces` | newlisp.c:4482-4502 | The text up to the closing brace that balances the opening one, as written. |
| `Tokenizer.Stream.ReadTag` | newlisp.c:4514-4522 | A tag up to its closing bracket. |
| `Tokenizer.Stream.ReadNumber` | newlisp.c:4303-4376 | Reads exactly the digits of an expected integer. |
| `Tokenizer.Stream.ReadChar` | newlisp.c:4388-4464 | One written character of a string gives that character, escaped or not. |
| `Tokenizer.Stream.ReadString` | newlisp.c:4383-4477 | Reads exactly the string that was written, shorter than MAX_STRING. |
| `Tokenizer.Stream.ReadSymbol` | newlisp.c:4525-4540 | Reads exactly the expected name. |
| `Tokenizer.Stream.GetToken` | newlisp.c:4234-4551 | On any text: advances by a token or reports the end. Where a token stands, behind any blanks, it returns that token and stops behind it; parentheses and quotes are tokens whatever follows. |
| `Reader.NextLeads` | newlisp.c:4028-4225 | What the next token of an expression under way is: a keyword, the start of an item, or the closing parenthesis. |
| `Reader.SetKind` | newlisp.c:4094-4115 | A word like lambda changes an empty list being read into that kind. |
| `Reader.ExpressionReader.ReadInteger` | newlisp.c:4056-4083 | An integer in the 64-bit range is read as that integer. |
| `Reader.ExpressionReader.ReadQuote` | newlisp.c:4176-4179 | A quote takes one expression. |
| `Reader.ExpressionReader.ReadList` | newlisp.c:4181-4185 | A list takes everything up to its parenthesis, and the counter is back where it was. |
| `Reader.ExpressionReader.LinkItem` | newlisp.c:4209-4224 | The item is linked behind the others; reading goes on while parentheses are open. |
| `Reader.ExpressionReader.Step` | newlisp.c:4026-4225 | One token and what it starts. |
| `Reader.ExpressionReader.CompileExpression` | newlisp.c:4009-4225 | Reads on any text; where the tokens of an expression stand, with lambda and macro words in either spelling and any blanks between them, it returns that expression and `parStackCounter` is as on entry. |
| `Printer.TokenFollows` | newlisp.c:3380-3386 | A token written behind what is there, unless it would run into a symbol or number, leaves every earlier token readable. |
| `Printer.Printer.PrintChar` | newlisp.c:3300-3315 | How each byte is written inside a string. |
| `Printer.Printer.PrintString` | newlisp.c:3285-3317 | The quoted string, escape by escape. |
| `Printer.Printer.PrettyPrint` | newlisp.c:3394-3408 | Line breaks and tabs add blanks only and break no token. |
| `Printer.Printer.PrintSome` | newlisp.c:3350-3363 | The items that go with the head of a pretty-printed form. |
| `Printer.Printer.PrintExpression` | newlisp.c:3320-3391 | The tokens of the list in order, whatever the line breaks; the nesting count is restored. |
| `Printer.Printer.PrintCell` | newlisp.c:3163-3282 | The tokens of the expression, and nothing else but blanks. |
| `Printer.ReadBack` | newlisp.c:4009-4551 | An expression is read back from every text that holds its tokens, whatever blanks are between them, with `fn` for lambda and `fn-macro` for lambda-macro at will. |
| `Printer.ReadForm` | newlisp.c:4094-4115 | A list is a lambda after `lambda` or `fn`, a macro after `lambda-macro` or `fn-macro`, and an expression without such a word. |
| `Printer.PrintAndRead` | newlisp.c:3163-4551 | Printing and then reading gives the expression back, for every nesting of lists, lambdas, quotes, integers, symbols and strings, with every pretty-print setting; the whole text is used and `parStackCounter` is 0. |
| `Chains.NotTwice` | nl-liststr.c:498-499 | A chain that ends does not come back to a cell. |
| `Lists.Cells.PushFirst` | nl-liststr.c:542-549 | push at the front: one new cell, the other cells untouched, and the cached last cell still right or unknown. |
| `Lists.Cells.PushLast` | nl-liststr.c:484-502 | push at -1, with the cached last cell or after a walk; the new cell is cached. |
| `Lists.Cells.PushAt` | nl-liststr.c:526-555 | push at an index from the front: an error exactly past the end; it inserts there unless the test for the first cell misfires (`Misplaced`), and then the new cell becomes the contents of the cell before. |
| `Lists.Cells.PopFirst` | nl-liststr.c:591-599 | pop takes the first cell; a list that becomes empty forgets its last cell. |
| `Lists.Cells.PopAt` | nl-liststr.c:618-652 | pop at any index from either end: out of range is an error that changes nothing; it takes the element out and keeps the cached last cell right, unless the test misfires (`Misread`), with the exact outcome of that. |
| `Lists.Cells.Unlink` | nl-liststr.c:638-651 | The test compares the cell with the contents of the cell before: the chain without one cell, or when it misfires exactly what is left. |
| `Lists.Cells.Overwrite` | nl-liststr.c:640-651 | The branch for the first cell taken behind another cell: that cell is overwritten and the list ends with the popped one. |
| `Lists.Cells.Detach` | nl-liststr.c:638-652 | Otherwise the chain goes on without the cell, and the cached last cell is the cell before if the last one was taken. |
| `Lists.MisplacedWitness` | nl-liststr.c:545-549 | push behind nil, at the end of a list, is such a case. |
| `Lists.MisplacedIsWrong` | nl-liststr.c:545-549 | In every such case the list does not have the word at the index afterwards. |
| `Lists.MisreadWitness` | nl-liststr.c:646-647 | pop behind an integer that equals the address of the popped cell is such a case. |
| `Lists.MisreadIsWrong` | nl-liststr.c:646-647 | In every such case what is left is not the list without the element. |
| `Lists.Cells.CopyList` | newlisp.c:2824-2851 | New cells with the same words in the same order; `lastCellCopied` is the last of them. |
| `Lists.Cells.Extend` | nl-liststr.c:302-330 | extend appends copies, also of the list itself. |
| `Lists.Cells.Append` | nl-liststr.c:217-235 | append makes a new list of copies; its cached last cell is its true last cell or unknown. |
| `Lists.Cells.Last` | newlisp.c:6230-6240 | last gives the true last cell and caches it. |
| `ListRuns.OtherKept` | nl-liststr.c:427-653 | A list that shares no cells with the one that changed is as it was. |
| `ListRuns.Machine.Execute` | nl-liststr.c:193-653 | Each operation does to the words of the lists what the operation on sequences does. |
| `ListRuns.Machine.Run` | nl-liststr.c:193-653 | Every run of push, pop, last, extend and append on two lists computes what the run on sequences computes, with both cached last cells right or unknown throughout, up to its end or the first operation whose test misfires. |
| `ListRuns.Machine.PlainWords` | nl-liststr.c:545-647 | No operation misfires on a list whose words are neither NIL nor addresses. |
| `ListRuns.Machine.RunPlain` | nl-liststr.c:193-653 | Runs that store only such words go on to their end. |
| `Utf8.FieldsAreSums` | nl-utf8.c:95-98 | Putting a field under its lead bits is an addition, and the test for a lead byte a comparison. |
| `Utf8.LeadByte` | nl-utf8.c:64-69 | The lead byte tells the number of bytes that follow and keeps its field apart. |
| `Utf8.GroupsValue` | nl-utf8.c:70-74 | Reading the groups of six bits back gives the character. |
| `Utf8.OneByte` | nl-utf8.c:77-100 | The table of section 2 of RFC 2279: one byte, below 0x80 and not below the range before, with its lead byte and fields. |
| `Utf8.TwoBytes` | nl-utf8.c:77-100 | The table of section 2 of RFC 2279: two bytes, below 0x800 and not below the range before, with its lead byte and fields. |
| `Utf8.ThreeBytes` | nl-utf8.c:77-100 | The table of section 2 of RFC 2279: three bytes, below 0x10000 and not below the range before, with its lead byte and fields. |
| `Utf8.FourBytes` | nl-utf8.c:77-100 | The table of section 2 of RFC 2279: four bytes, below 0x200000 and not below the range before, with its lead byte and fields. |
| `Utf8.FiveBytes` | nl-utf8.c:77-100 | The table of section 2 of RFC 2279: five bytes, below 0x4000000 and not below the range before, with its lead byte and fields. |
| `Utf8.SixByteForm` | nl-utf8.c:77-100 | The table of section 2 of RFC 2279: six bytes, up to 0x7fffffff and not below the range before, with its lead byte and fields. |
| `Utf8.WcharUtf8` | nl-utf8.c:87-100 | Writes the encoding of section 2 of RFC 2279, of one to six bytes, and nothing else. |
| `Utf8.GetCharInc` | nl-utf8.c:63-75 | Decodes an encoded character and steps behind it. |
| `Utf8.Utf8Wlen` | nl-utf8.c:131-153 | The number of characters, as long as the limit is not reached. |
| `Utf8.Utf8Index` | nl-utf8.c:158-171 | The position right behind the first idx characters; the end for a negative or too large index. |
| `Utf8.Utf8Wstr` | nl-utf8.c:197-212 | Decodes at most maxwc characters and terminates the vector. |
| `Utf8.WstrUtf8` | nl-utf8.c:219-234 | Encodes the characters that start below the limit and terminates the string. |
| `Utf8.LimitKept` | nl-utf8.c:214-226 | The promise of at most maxstr bytes holds exactly when the limit does not fall inside a character. |
| `Utf8.LimitNotKept` | nl-utf8.c:273-275 | Called with the size of the vector as limit, as `utf8` does: for three characters of six bytes the limit is 16, and 18 bytes are written. |
| `Utf8.SixBytesSuffice` | nl-utf8.c:214-226 | With a limit of six bytes for each character all are encoded, within the limit. |
| `Utf8.RoundTrip` | nl-utf8.c:197-234 | Encoding and decoding gives back every sequence of characters in 1..0x7fffffff that fits. |

## Left out

- Symbol table: contexts other than the current one, `translateCreateSymbol` and flags; ids are never used again, and the name is entered with the node. The empty name is excluded, because the two-byte comparison reads past its end.
- BigintDiv.BigintToAbsFloat: exact integers instead of doubles, so rounding of the leading digits is not modelled; the scratch arrays have the sizes the loops write.
- `intToBigint` and `floatToBigint`, and big integer arithmetic mixed with other number types.
- Unification.Unifier.Unify: no anonymous variable `_`, quoted terms or lambda lists, no numeric equality across types, and no binding flag.
- Evacuation.Collector.AllocGen1Cell: takes ever new addresses instead of cells of the free list.
- Collection.CollectGen0: without the walk over the symbol trees of contexts and without the roots of the virtual machine. Acyclic heaps and no pointer from tenured cells into the nursery are preconditions, as the code does not scan tenured cells.
- Evaluation: constants, variables, set, throw, catch, lambda calls with defaults, let and letn; no macros, contexts, implicit indexing, local, letex, built-in functions or bytecode. A head that is no lambda is an error.
- ShallowBinding.Interpreter.EvaluateLambda: the check for an exhausted environment stack is not modelled; only the call stack is limited.
- SetOperations.ListCells.SetInterDiff: the two lists are one list or share no cells; lists with a common tail are not modelled.
- Lists.Cells.CopyList: the words of the cells are copied as they stand; the source also copies the lists nested in them.
- MergeSort.Binsort: a comparison is a function; errors raised by a user comparison are not modelled.
- PatternMatch.PatternMatchL: nil elements are excluded, because the code takes nil for the end of a list; elements are compared for equality.
- LinearSolver.Ludcmp: exact reals, and no `tiny` in place of a zero pivot.
- Printer.Printer.PrintCell: only what can be read back: no floats, big integers, arrays, primitives, `[text]` strings, symbols of other contexts or names that look like other tokens; a pretty-print tab of blanks.
- Reader.ExpressionReader.Item: a `[text]` tag is an error instead of being read to its end tag; numbers in other formats and qualified names are kept as written; reader macros, symbol creation and the refilling of a file buffer are not modelled.
- Lists.Cells.PushAt: one index, counted from the front; nested index lists, negative indices other than -1, and pushing into strings are not modelled.
- ListRuns.Machine.Run: stops before an operation whose test misfires, whose outcome is stated for one operation only; append and extend take two lists that share no cells.
- Utf8: malformed strings.
- rotate, sort with a user function on lists as a whole, FFT, statistics, regular expressions, files, sockets and processes.

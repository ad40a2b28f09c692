# Four fours: a Dafny model of the expression search

The modelled program solves "four fours"-style puzzles. It takes a list of
integers and a range `[min, max]`. For every integer in the range it finds
the shortest arithmetic expression that uses all the input numbers and
evaluates to that integer.

An expression uses the numbers in some order. Adjacent numbers may be glued
into one by decimal concatenation: 4 and 4 become 44. The expression combines
them with `+ - * / ^`. It may wrap any leaf or binary node in one of √, `!`
or `!!`.

There are two parts:

- **`operations.py`**: the expression tree, its guarded evaluator and its renderer.
- **`expression_finder.py`**: the search. It has four steps:
  1. Groupings: every contiguous block split of every ordering of the input, each block glued into one number.
  2. Trees: every expression tree over a grouping.
  3. Evaluation: every tree is evaluated, and failures are skipped.
  4. Reduction: for every in-range integer result, the shortest rendering is kept.

The model has five modules, one file each:

| file | module | models |
|---|---|---|
| `decimal.dfy` | `Decimal` | `str(n)` and `int(s)` on integers, and the digit concatenation `int(str(a) + str(b))` |
| `operations.dfy` | `Operations` | the `Expr` datatype, the operator registry, `Eval` with its guards, the double-factorial loop as a method, `Render` |
| `groupings.dfy` | `Groupings` | `generate_combinations` and `generate_all_combinations` |
| `search.dfy` | `Search` | `generate_expressions` |
| `reducer.dfy` | `Reducer` | `generate_expression_dict` |

Choices made in the model:

- **Values are exact `real`s.** Evaluation returns `Ok(value)` or `Err(kind)`, with one error kind per guard. The Python raises `ZeroDivisionError`, `ValueError` or `OverflowError` instead, and the reducer catches them.
- **Floating-point results are parameters.** `math.sqrt` and `x ** y` for a non-integral `y` come from an `Oracle`. Their guards are modelled exactly.
- **Imperative code stays imperative.** Three Python loops build lists in place: `generate_combinations`, the collecting loop of `generate_all_combinations` and the reducer loop. Each is a Dafny method with a loop whose invariants tie it to a specification function or to the promised properties. The double-factorial `while` loop is a method as well.
- **Recursive code stays recursive.** The tree generator is a recursive generator in Python and a pair of mutually recursive functions here. The recursive `evaluate` and `__str__` methods are functions over the datatype.

Behaviour that follows the code and may surprise a reader:

- The tree generator splits at every index `1 .. n-1` (`range(1, len(numbers))`), the last one included.
- The grouping recursion yields every contiguous block split, not only merges anchored at the first position. For `[1,2,3]` it yields `[1,2,3]`, `[12,3]`, `[1,23]` and `[123]` (`CombinationsComplete`, `CombinationsCount`).
- The double-factorial loop ends for every operand, integral or not, because the value drops by 2 while it is positive (`DoubleFact`'s `decreases`, `EvaluateDoubleFactorial`).
- `0 ** y` with `y < 0` raises `ZeroDivisionError` in Python, so `Power` reports `DivideByZero` for it.
- `Divide` evaluates its divisor first. A failing divisor, or a divisor of 0, is reported before a failing dividend (`DivideEvaluation`).
- Gluing needs non-negative numbers after the first. `int("1" + "-2")` raises an uncaught `ValueError`. So `generate_combinations` requires a tail without negative numbers, and `generate_all_combinations` requires a single number or no negative numbers (`Splittable`).
- Gluing a leading 0 drops a digit: `int("0" + "5")` is 5 (`ZeroLosesDigit`). The digit-preservation and 2^(n-1) count properties therefore hold for inputs without 0.
- The reducer's test `expression_dict.get(result) is None` treats a missing key and a `show_all` placeholder alike (`Offer`).
- The candidate set in the reducer compares trees by identity, so it removes nothing. The model's candidate list has no structural duplicates anyway (`GatherCandidates`, from `ExpressionsNoDups` and the duplicate-free groupings).

## Model

| member | source | states |
|---|---|---|
| Decimal.NatStr | expression_finder.py:15 | `str(n)` of a natural is non-empty; it starts with '0' exactly when n is 0; it has one digit exactly when n < 10 |
| Decimal.NatStrDigits | expression_finder.py:15 | `str(n)` of a natural writes only decimal digits |
| Decimal.ParseIntStr | expression_finder.py:15 | `int(str(n)) == n` for every integer |
| Decimal.NatStrParse | expression_finder.py:15 | a digit string without a leading zero is exactly what `str` writes for its value |
| Decimal.IntStrInjective | expression_finder.py:15 | different integers have different decimal texts |
| Decimal.IntTextAppend | expression_finder.py:15 | `str(a) + str(b)` with `b >= 0` is always text that `int` accepts; it starts with '-' exactly when `a < 0`, and then the rest is the digits of `-a` and `b` |
| Decimal.IntStr | operations.py:38-39 | definition of `str(n)`: a minus sign before the digits of a negative number; characterised by ParseIntStr and IntStrInjective |
| Decimal.ParseInt | expression_finder.py:15 | definition of `int(s)` for an optional minus sign followed by digits; characterised by ParseIntStr and NatStrParse |
| Decimal.Concat | expression_finder.py:15 | `int(str(a) + str(b))` is non-negative when `a >= 0` and non-positive when `a < 0` |
| Decimal.ConcatSign | expression_finder.py:15 | the glued number is positive for a positive head and negative for a negative head; a head of 0 is read as a leading zero, so `int("0" + str(b)) == b` |
| Decimal.ConcatText | expression_finder.py:15 | for `a != 0`, `str(int(str(a) + str(b))) == str(a) + str(b)`: no digit is lost |
| Decimal.ConcatInjective | expression_finder.py:15 | for `a != 0`, gluing `a` onto two different numbers gives two different numbers |
| Decimal.ConcatChangesHead | expression_finder.py:15 | for `a != 0`, the glued number differs from `a` and has more digits |
| Operations.Int | operations.py:3-4 | definition of `int(value)` on a real: truncation toward zero; used by IsInteger and the factorial |
| Operations.IsInteger | operations.py:3-4 | definition of `is_integer`: the value equals its truncation; characterised by QuotientGuards and FactorialGuards |
| Operations.Fact | operations.py:121 | definition of `math.factorial` on naturals; characterised by FactorialIsTwoDoubleFactorials and FactorialExamples |
| Operations.DoubleFact | operations.py:135-139 | definition of the descending double-factorial loop on any real, ending once the value is not positive; characterised by EvaluateDoubleFactorial and DoubleFactOfNat |
| Operations.QuotientOf | operations.py:67-73 | definition of Divide's guards on two values; characterised by QuotientGuards |
| Operations.PowerOf | operations.py:83-89 | definition of Power's guards on two values, with the exact power for integral exponents; characterised by PowerGuards and PowAdd |
| Operations.ApplyBinary | operations.py:44-89 | definition of the five binary operators on two values; characterised by ArithmeticNeverFails, QuotientGuards and PowerGuards |
| Operations.ApplyUnary | operations.py:94-139 | definition of the three unary operators' guards and values; characterised by SquareRootGuards, FactorialGuards and DoubleFactorialGuards |
| Operations.BinaryResult | operations.py:44-89 | definition of the evaluation order of a binary node: divisor first for Divide, left first otherwise; characterised by ArithmeticNeverFails, DivideEvaluation and PowerEvaluation |
| Operations.UnaryResult | operations.py:94-139 | definition of a unary node's evaluation: the operand first; characterised by UnaryEvaluation |
| Operations.Eval | operations.py:35-139 | definition of every node's `evaluate`, with each raised exception as an `Err`; characterised by ArithmeticNeverFails, DivideEvaluation, PowerEvaluation and UnaryEvaluation |
| Operations.Render | operations.py:38-142 | definition of every node's `__str__`; characterised by RenderGrows and RenderLength |
| Operations.EvaluateDoubleFactorial | operations.py:127-139 | negative operand gives NegativeOperand; operand > 1000 gives OperandTooLarge; otherwise the descending loop's product equals `DoubleFact(value)` (loop invariant `result * DoubleFact(v) == DoubleFact(value)`) |
| Operations.ArithmeticNeverFails | operations.py:44-60 | Add, Subtract and Multiply fail exactly when a child fails; the left child's error is reported first |
| Operations.DivideEvaluation | operations.py:65-73 | a failing divisor's error comes first, then a divisor of 0 gives DivideByZero, then a failing dividend's error; two good operands give QuotientOf |
| Operations.QuotientGuards | operations.py:67-73 | the quotient fails with DivideByZero iff the divisor is 0, and with NonIntegerResult iff it is not integral; on success the result is an integer and `left == result * right` |
| Operations.PowerGuards | operations.py:83-89 | ExponentTooLarge iff `abs(exponent) > 1000`; ComplexResult iff a negative base has a non-integral exponent within the limit; DivideByZero iff base 0 has a negative exponent; success iff none of these; an integral exponent gives the exact power b^n, or its reciprocal for n < 0 |
| Operations.PowerEvaluation | operations.py:79-89 | Power evaluates base then exponent, passes the first error on, and otherwise applies the guards of PowerGuards to the two values |
| Operations.PowAdd | operations.py:89 | the exact power obeys b^(m+n) = b^m * b^n |
| Operations.UnaryEvaluation | operations.py:94-139 | a unary node passes its operand's error on and otherwise applies its operator to the operand's value |
| Operations.SquareRootGuards | operations.py:97-104 | NegativeRadicand iff operand < 0; RadicandTooLarge iff operand > 10^6; success for every other operand |
| Operations.FactorialGuards | operations.py:112-121 | NonIntegerOperand for a non-integral operand, then NegativeOperand below 0, then OperandTooLarge above 1000; success iff integral and in 0..1000, with value `n!` |
| Operations.DoubleFactOfNat | operations.py:135-139 | the descending product on a natural n is n * (n-2) * ..., with 0!! = 1!! = 1 |
| Operations.DoubleFactorialGuards | operations.py:129-139 | NegativeOperand iff operand < 0; OperandTooLarge iff operand > 1000; success otherwise; on an integer n in 0..1000 the value is n!! |
| Operations.FactorialIsTwoDoubleFactorials | operations.py:109-139 | n! = n!! * (n-1)!! for n >= 1: the two factorial operators agree |
| Operations.RenderGrows | operations.py:48-142 | a binary node's text is its children's texts plus 5 characters; √ and `!` add 1 and `!!` adds 2; so a node's text is strictly longer than each child's |
| Operations.RenderLength | operations.py:38-142 | a tree's text length is the digits of its leaves plus its operator characters |
| Operations.DivideExamples | operations.py:67-73 | 7 / 2 fails as non-integral; 6 / 2 is 3 |
| Operations.PowerExamples | operations.py:83-89 | 2 ^ -1 is 0.5; (-4) ^ (2 ^ -1) is complex; 2 ^ 2000 is rejected |
| Operations.FactorialExamples | operations.py:112-121 | (-1)! fails with NegativeOperand; 5! is 120 |
| Groupings.Merge | expression_finder.py:9-17 | one block split, given by a cut vector, has one number per block, and every number after the first is non-negative |
| Groupings.Blocks | expression_finder.py:9-17 | the blocks of a cut vector are non-empty, one more than the cuts |
| Groupings.BlocksPartition | expression_finder.py:9-17 | the blocks, written one after another, are the input again |
| Groupings.SpellsAt | expression_finder.py:15 | a spelled split pairs every number with its block, and the number's text is exactly that block's digits |
| Groupings.MergeIsBlockDigits | expression_finder.py:9-17 | without zeros, each number of a split is written with exactly its block's digits |
| Groupings.MergeKeepsDigits | expression_finder.py:9-17 | without zeros, the digits of a split are the digits of the input |
| Groupings.GluedDigits | expression_finder.py:15 | gluing a non-zero head onto a split puts the head's digits in front of the split's digits |
| Groupings.MergeAllCuts | expression_finder.py:11 | cutting everywhere gives the input unchanged |
| Groupings.GlueInjective | expression_finder.py:15 | with a non-zero head, different splits stay different after gluing |
| Groupings.PrefixedNoDups | expression_finder.py:11 | putting the head in front of each split of a duplicate-free list keeps it duplicate-free |
| Groupings.PrefixedGluedApart | expression_finder.py:11-17 | with a non-zero head, no split that has the head in front equals a split with the head glued on, so the loop's membership test never drops a glued split |
| Groupings.GluedAll | expression_finder.py:13-15 | one glued split per split of the tail, the head glued onto its first number |
| Groupings.Combinations | expression_finder.py:5-19 | with a non-negative head every result can be glued onto again |
| Groupings.GenerateCombinations | expression_finder.py:5-19 | the recursive method with its loop returns exactly `Combinations(numbers)`, the specification the lemmas below are about (the loop invariant says that running `GlueEach` over the rest of the loop gives that result) |
| Groupings.GlueEachMembers | expression_finder.py:13-17 | the loop keeps what it had, and afterwards holds exactly the old entries plus the glued splits |
| Groupings.GlueEachNoDups | expression_finder.py:16-17 | the membership test keeps the list free of duplicates |
| Groupings.GlueEachAppends | expression_finder.py:13-17 | when every glued split is new, the loop appends all of them in order |
| Groupings.CombinationsStartWithInput | expression_finder.py:6-11 | the first result is the input itself |
| Groupings.CombinationsNoDups | expression_finder.py:11-17 | no split is listed twice |
| Groupings.CombinationsSound | expression_finder.py:9-17 | every result is a block split `Merge(ns, cuts)` of the input |
| Groupings.CombinationsComplete | expression_finder.py:9-17 | every block split of the input is listed |
| Groupings.CombinationsNothingSkipped | expression_finder.py:13-17 | with a non-zero head, no glued split is skipped: the result is the prefixed splits followed by the glued ones, twice as many as for the tail |
| Groupings.CombinationsCount | expression_finder.py:9-17 | without zeros, exactly 2^(n-1) splits are listed |
| Groupings.ZeroLosesDigit | expression_finder.py:15 | `[0, 5]` gives `[[0, 5], [5]]`, and the grouping `[5]` has lost the digit 0 |
| Groupings.Permutations | expression_finder.py:22 | definition of the orderings of the input, by inserting the head everywhere in each ordering of the tail; characterised by PermutationsSound and PermutationsComplete |
| Groupings.PermutationsSound | expression_finder.py:22 | every ordering listed is a sequence with the multiset of the input |
| Groupings.PermutationsComplete | expression_finder.py:22 | every sequence with the multiset of the input is listed |
| Groupings.PermutationTailNonNeg | expression_finder.py:22-26 | an ordering of an input without negative numbers can be split, whatever its order |
| Groupings.AllCombinations | expression_finder.py:22-26 | definition of the collected list: the splits of every ordering, one ordering after another; characterised by CollectedFrom, CollectedHas, GroupingsSound and GroupingsComplete |
| Groupings.ConcatenatedAppend | expression_finder.py:25-26 | each `extend` appends one ordering's splits to what was collected |
| Groupings.ConcatenatedMembers | expression_finder.py:23-26 | a list is collected iff it is in the splits of one of the orderings |
| Groupings.CollectedFrom | expression_finder.py:25-26 | a collected grouping is a split of a listed ordering |
| Groupings.CollectedHas | expression_finder.py:25-26 | every split of every listed ordering is collected |
| Groupings.Distinct | expression_finder.py:28-30 | deduplication keeps exactly the same members, once each |
| Groupings.GenerateAllCombinations | expression_finder.py:21-30 | the result has no duplicates and holds exactly the collected splits of all orderings |
| Groupings.GroupingsHoldInput | expression_finder.py:22-26 | the input order itself is a grouping |
| Groupings.GroupingsSound | expression_finder.py:22-30 | every grouping is non-empty and is a block split of an ordering of the input multiset |
| Groupings.GroupingsComplete | expression_finder.py:22-30 | every block split of every ordering of the input multiset is a grouping |
| Search.Expressions | expression_finder.py:32-45 | definition of the tree generator; characterised by ExpressionsExactly, ExpressionsCount and ExpressionsNoDups |
| Search.SplitsFrom | expression_finder.py:38-45 | definition of the loop over the split points from `i` on; characterised by SplitsFromSplit, SplitsFromHas and SplitsFromCount |
| Search.Wrapped | expression_finder.py:34-36 | one entry for the tree and one per unary operator |
| Search.WrapEach | expression_finder.py:42-45 | four trees per binary operator: the node and its three wraps |
| Search.Combine | expression_finder.py:42-45 | 20 trees per pair of children |
| Search.PairWith | expression_finder.py:41-45 | 20 trees per right subtree |
| Search.WrappedMembers | expression_finder.py:43-45 | the wraps of a non-unary tree are exactly the trees whose core, with any unary wrap removed, is that tree |
| Search.CombineMembers | expression_finder.py:42-45 | the trees for a pair are exactly the trees whose core is a binary node, under any of the five operators, with those children |
| Search.PairAllMembers | expression_finder.py:40-45 | the trees for two lists are exactly the binary cores with a left child from the first list and a right child from the second |
| Search.SplitsFromSplit | expression_finder.py:38-45 | a tree of the splits from `i` on has a binary core whose children come from one split `j` with i <= j < n |
| Search.SplitsFromHas | expression_finder.py:38-45 | every binary core whose children come from a split `j` with i <= j < n is among the trees of the splits from `i` on |
| Search.ExpressionsExactly | expression_finder.py:32-45 | a tree is generated for `ns` iff its leaves, read left to right, are `ns` and no unary node has a unary child |
| Search.ExpressionsSingle | expression_finder.py:33-36 | one number gives exactly 4 trees: the number, then √, `!`, `!!` of it |
| Search.PairAllCount | expression_finder.py:40-45 | 20 trees per pair of a left and a right subtree |
| Search.ExpressionsCount | expression_finder.py:32-45 | the number of trees is E(n), with E(1) = 4 and E(n) = 20 * (E(1) E(n-1) + ... + E(n-1) E(1)) |
| Search.SplitsFromCount | expression_finder.py:38-45 | the splits from `i` on give 20 trees per pair of a left and right subtree, summed over the split points |
| Search.ExprCountValues | expression_finder.py:32-45 | E(1..4) = 4, 320, 51 200, 10 240 000 |
| Search.ExpressionsNoDups | expression_finder.py:32-45 | no tree is generated twice for one grouping |
| Search.PairAllNoDups | expression_finder.py:40-45 | pairing two duplicate-free lists of subtrees gives no tree twice |
| Search.SplitsApart | expression_finder.py:38-45 | a tree of the split at `i` is not produced by any later split |
| Search.SplitAt | expression_finder.py:38-41 | a tree of the split at `i` has a left subtree with exactly `i` leaves |
| Reducer.Score | expression_finder.py:55-56 | a candidate scores key k only if it evaluates without error to exactly k within the range; it scores nothing iff it fails, falls outside the range or is not integral |
| Reducer.RangeTable | expression_finder.py:52 | the placeholder table has exactly the keys of the range, all without a rendering |
| Reducer.InitialTable | expression_finder.py:52 | with `show_all`, the range's keys with placeholders; otherwise empty |
| Reducer.Offer | expression_finder.py:54-60 | definition of one step of the reducer loop; characterised by OfferSkips and OfferScores |
| Reducer.OfferSkips | expression_finder.py:54-60 | a failing or non-scoring candidate leaves the table unchanged |
| Reducer.OfferScores | expression_finder.py:56-58 | a scoring candidate changes only its key; afterwards the key holds a rendering no longer than the candidate's or the old one, and a changed entry is the candidate's rendering |
| Reducer.OfferKeeps | expression_finder.py:53-60 | one more candidate keeps both halves of the reducer's invariant: the witnessing and the minimality |
| Reducer.Reduce | expression_finder.py:52-62 | for any candidate order: every key is in the range; with `show_all` every key of the range is present; without it every key has a rendering; each rendering is that of a candidate that evaluates to its key; and no scoring candidate has a strictly shorter rendering than the one stored for its key |
| Reducer.GatherCandidates | expression_finder.py:48-50 | the candidates are exactly the trees without stacked unary nodes whose leaves are one of the groupings; for duplicate-free groupings no candidate is listed twice |
| Reducer.GenerateExpressionDict | expression_finder.py:47-62 | the Reduce guarantees, stated over all trees whose leaves form a grouping of the input and which have no stacked unary nodes |

## Left out

- The command line, sorting and printing (expression_finder.py:64-82). They are input and output around the core.
- Floating point. Values are exact reals, so round-off, infinities and float overflow are not modelled. `math.sqrt` and `x ** y` for a non-integral `y` are the `Oracle`'s functions, and only their guards are modelled.
- The float keys of the table. With `show_all` off, a result such as `3.0` from a division becomes a float dict key in Python. The model's keys are the integers the results equal.
- The order of the Python sets. The model does not follow the iteration order of `set(itertools.permutations(...))`, the groupings set or the candidate set. `Reduce` is proved for every candidate order. `GenerateExpressionDict` visits one fixed order. No tie-break among renderings of equal length is stated.
- `itertools.permutations`. It is replaced by a reference enumeration, `Permutations`, which lists an ordering again for every repeated input value. Python drops repeated orderings first. The final deduplication makes both give the same groupings.
- Generator laziness. `Expressions` builds the whole sequence.
- `__repr__`, which is debug output.
- Divide evaluates its divisor twice in Python (operations.py:67 and 70). Evaluation has no side effects, so once is the same.
- Negative inputs to gluing. They raise in Python, so the model excludes them by precondition (`TailNonNeg`, `Splittable`).
- The `isinstance(combo[0], int)` test (expression_finder.py:14). It always holds for integer input, so it is not a branch of the model.
- ArithmeticNeverFails: does not restate the sum, difference or product of two good operands, because that is the definition of `ApplyBinary` itself.

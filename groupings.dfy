/** The grouping generator (expression_finder.py:5-30): every way of cutting
    an ordering of the input numbers into contiguous blocks, each block glued
    into one number by decimal concatenation, over every ordering of the
    input multiset, without duplicates. */
module Groupings {
  import opened Decimal

  predicate NoDups<T(==)>(s: seq<T>) {
    forall i, j :: 0 <= i < j < |s| ==> s[i] != s[j]
  }

  /** Every element after the first is non-negative: the numbers a
      concatenation may be glued onto. */
  predicate TailNonNeg(s: seq<int>) {
    forall i :: 1 <= i < |s| ==> s[i] >= 0
  }

  predicate NonZero(s: seq<int>) {
    forall i :: 0 <= i < |s| ==> s[i] != 0
  }

  function Pow2(n: nat): nat {
    if n == 0 then 1 else 2 * Pow2(n - 1)
  }

  function CountTrue(cuts: seq<bool>): nat {
    if cuts == [] then 0 else (if cuts[0] then 1 else 0) + CountTrue(cuts[1..])
  }

  /** Lists of numbers a head can be glued onto: non-empty, first number
      non-negative. */
  predicate Gluable(cs: seq<seq<int>>) {
    forall k :: 0 <= k < |cs| ==> |cs[k]| >= 1 && cs[k][0] >= 0
  }

  /** Glue `head` onto the first number of `c` (expression_finder.py:15). */
  function Glued(head: int, c: seq<int>): seq<int>
    requires |c| >= 1 && c[0] >= 0
  {
    [Concat(head, c[0])] + c[1..]
  }

  /** One block split of `ns`: `cuts[i]` says whether a block ends between
      `ns[i]` and `ns[i + 1]`; each block is glued right to left, as the
      recursion of generate_combinations glues it. */
  function Merge(ns: seq<int>, cuts: seq<bool>): (c: seq<int>)
    requires |ns| >= 1 && |cuts| == |ns| - 1 && TailNonNeg(ns)
    ensures |c| == 1 + CountTrue(cuts)
    ensures TailNonNeg(c) && (ns[0] >= 0 ==> c[0] >= 0)
    decreases |ns|
  {
    if |ns| == 1 then [ns[0]]
    else
      var rest := Merge(ns[1..], cuts[1..]);
      if cuts[0] then [ns[0]] + rest else Glued(ns[0], rest)
  }

  /** The blocks themselves: contiguous, non-empty, and together `ns` again. */
  function Blocks(ns: seq<int>, cuts: seq<bool>): (bs: seq<seq<int>>)
    requires |ns| >= 1 && |cuts| == |ns| - 1
    ensures |bs| >= 1 && |bs| == 1 + CountTrue(cuts)
    ensures forall k :: 0 <= k < |bs| ==> |bs[k]| >= 1
    decreases |ns|
  {
    if |ns| == 1 then [ns]
    else
      var rest := Blocks(ns[1..], cuts[1..]);
      if cuts[0] then [[ns[0]]] + rest else [[ns[0]] + rest[0]] + rest[1..]
  }

  function Flatten(bs: seq<seq<int>>): seq<int> {
    if bs == [] then [] else bs[0] + Flatten(bs[1..])
  }

  /** Each number of `c` is written with exactly the digits of its block
      (pointwise, as SpellsAt states). */
  predicate Spells(c: seq<int>, bs: seq<seq<int>>)
    decreases |c|
  {
    |c| == |bs| && (c == [] || (IntStr(c[0]) == Digits(bs[0]) && Spells(c[1..], bs[1..])))
  }

  /** What Spells means, number by number. */
  lemma {:induction false} SpellsAt(c: seq<int>, bs: seq<seq<int>>, k: nat)
    requires Spells(c, bs) && k < |c|
    ensures |bs| == |c| && IntStr(c[k]) == Digits(bs[k])
    decreases k
  {
    if k > 0 {
      SpellsAt(c[1..], bs[1..], k - 1);
    }
  }

  /** `c` is one of the block splits of `ns`. */
  ghost predicate IsSplit(c: seq<int>, ns: seq<int>)
    requires |ns| >= 1 && TailNonNeg(ns)
  {
    exists cuts :: |cuts| == |ns| - 1 && Merge(ns, cuts) == c
  }

  /** `c` is a block split of some ordering of the multiset `numbers`. */
  ghost predicate IsGrouping(c: seq<int>, numbers: seq<int>) {
    exists p, cuts ::
      |p| == |numbers| >= 1 && multiset(p) == multiset(numbers) && TailNonNeg(p) &&
      |cuts| == |p| - 1 && Merge(p, cuts) == c
  }

  // ---------------------------------------------------------------------
  // Block splits.

  /** The blocks partition the input in order. */
  lemma {:induction false} BlocksPartition(ns: seq<int>, cuts: seq<bool>)
    requires |ns| >= 1 && |cuts| == |ns| - 1
    ensures Flatten(Blocks(ns, cuts)) == ns
    decreases |ns|
  {
    if |ns| > 1 {
      var rest := Blocks(ns[1..], cuts[1..]);
      BlocksPartition(ns[1..], cuts[1..]);
      var bs := Blocks(ns, cuts);
      if cuts[0] {
        assert bs[1..] == rest;
      } else {
        assert bs[1..] == rest[1..];
        assert Flatten(rest) == rest[0] + Flatten(rest[1..]);
      }
    }
  }

  /** When no input is 0, every number of a split is written with exactly the
      digits of its block: the split is a contiguous block split whose
      numbers read as the blocks' digits glued together. */
  lemma {:induction false} MergeIsBlockDigits(ns: seq<int>, cuts: seq<bool>)
    requires |ns| >= 1 && |cuts| == |ns| - 1 && TailNonNeg(ns) && NonZero(ns)
    ensures Spells(Merge(ns, cuts), Blocks(ns, cuts))
    decreases |ns|
  {
    if |ns| == 1 {
      DigitsCons(ns[0], []);
    } else {
      var rest, rbs := Merge(ns[1..], cuts[1..]), Blocks(ns[1..], cuts[1..]);
      MergeIsBlockDigits(ns[1..], cuts[1..]);
      if cuts[0] {
        DigitsCons(ns[0], []);
        SpellsCons(ns[0], [ns[0]], rest, rbs);
      } else {
        GluedSpells(ns[0], rest, rbs);
      }
    }
  }

  lemma SpellsCons(x: int, b: seq<int>, c: seq<int>, bs: seq<seq<int>>)
    requires IntStr(x) == Digits(b) && Spells(c, bs)
    ensures Spells([x] + c, [b] + bs)
  {
    assert ([x] + c)[1..] == c && ([b] + bs)[1..] == bs;
  }

  /** Gluing a non-zero head onto the first number of a spelled split spells
      the head's block extended by the head. */
  lemma GluedSpells(head: int, c: seq<int>, bs: seq<seq<int>>)
    requires head != 0 && |c| >= 1 && c[0] >= 0 && Spells(c, bs)
    ensures Spells(Glued(head, c), [[head] + bs[0]] + bs[1..])
  {
    ConcatText(head, c[0]);
    DigitsCons(head, bs[0]);
    var g := Concat(head, c[0]);
    assert IntStr(g) == Digits([head] + bs[0]);
    SpellsTail(c, bs);
    SpellsCons(g, [head] + bs[0], c[1..], bs[1..]);
  }

  lemma SpellsTail(c: seq<int>, bs: seq<seq<int>>)
    requires |c| >= 1 && Spells(c, bs)
    ensures Spells(c[1..], bs[1..])
  {
  }

  /** When no input is 0, a split keeps every digit: writing its numbers one
      after another gives the inputs' digits. */
  lemma {:induction false} MergeKeepsDigits(ns: seq<int>, cuts: seq<bool>)
    requires |ns| >= 1 && |cuts| == |ns| - 1 && TailNonNeg(ns) && NonZero(ns)
    ensures Digits(Merge(ns, cuts)) == Digits(ns)
    decreases |ns|
  {
    if |ns| > 1 {
      var tail := ns[1..];
      var rest := Merge(tail, cuts[1..]);
      MergeKeepsDigits(tail, cuts[1..]);
      DigitsCons(ns[0], tail);
      assert ns == [ns[0]] + tail;
      if cuts[0] {
        DigitsCons(ns[0], rest);
      } else {
        GluedDigits(ns[0], rest);
      }
    }
  }

  lemma DigitsCons(x: int, s: seq<int>)
    ensures Digits([x] + s) == IntStr(x) + Digits(s)
  {
    assert ([x] + s)[1..] == s;
  }

  lemma StringAssoc(a: string, b: string, c: string)
    ensures (a + b) + c == a + (b + c)
  {
  }

  lemma DigitsGlue(g: int, y: int, t: seq<int>, h: string)
    requires IntStr(g) == h + IntStr(y)
    ensures Digits([g] + t) == h + Digits([y] + t)
  {
    DigitsCons(g, t);
    DigitsCons(y, t);
    StringAssoc(h, IntStr(y), Digits(t));
  }

  /** Gluing a non-zero head onto a split keeps its digits. */
  lemma GluedDigits(head: int, c: seq<int>)
    requires head != 0 && |c| >= 1 && c[0] >= 0
    ensures Digits(Glued(head, c)) == IntStr(head) + Digits(c)
  {
    var g, t := Concat(head, c[0]), c[1..];
    ConcatText(head, c[0]);
    DigitsGlue(g, c[0], t, IntStr(head));
    assert Glued(head, c) == [g] + t;
    assert [c[0]] + t == c;
  }

  /** Cutting everywhere gives the input back. */
  lemma {:induction false} MergeAllCuts(ns: seq<int>, cuts: seq<bool>)
    requires |ns| >= 1 && |cuts| == |ns| - 1 && TailNonNeg(ns)
    requires forall i :: 0 <= i < |cuts| ==> cuts[i]
    ensures Merge(ns, cuts) == ns
    decreases |ns|
  {
    if |ns| > 1 {
      MergeAllCuts(ns[1..], cuts[1..]);
    }
  }

  /** Extending a split of the tail by one more number at the front, either
      as a block of its own or glued onto the first block. */
  lemma SplitExtend(ns: seq<int>, c: seq<int>, cut: bool)
    requires |ns| >= 2 && TailNonNeg(ns) && IsSplit(c, ns[1..])
    ensures |c| >= 1 && c[0] >= 0
    ensures IsSplit(if cut then [ns[0]] + c else Glued(ns[0], c), ns)
  {
    var w :| |w| == |ns| - 2 && Merge(ns[1..], w) == c;
    assert ([cut] + w)[1..] == w;
    assert Merge(ns, [cut] + w) == if cut then [ns[0]] + c else Glued(ns[0], c);
  }

  /** The head glued onto a split starts with a number other than the head. */
  lemma GlueNotPrefixed(head: int, x: seq<int>, y: seq<int>)
    requires head != 0 && |x| >= 1 && x[0] >= 0
    ensures Glued(head, x) != [head] + y
  {
    ConcatChangesHead(head, x[0]);
    assert Glued(head, x)[0] == Concat(head, x[0]);
  }

  /** With a non-zero head, gluing loses nothing: different splits stay
      different. */
  lemma GlueInjective(head: int, x: seq<int>, y: seq<int>)
    requires head != 0 && |x| >= 1 && x[0] >= 0 && |y| >= 1 && y[0] >= 0
    requires Glued(head, x) == Glued(head, y)
    ensures x == y
  {
    assert Glued(head, x)[0] == Concat(head, x[0]) && Glued(head, y)[0] == Concat(head, y[0]);
    ConcatInjective(head, x[0], y[0]);
    assert x[1..] == Glued(head, x)[1..] == Glued(head, y)[1..] == y[1..];
    assert x == [x[0]] + x[1..] && y == [y[0]] + y[1..];
  }

  // ---------------------------------------------------------------------
  // generate_combinations

  /** `[[numbers[0]] + combo for combo in rest_combinations]`
      (expression_finder.py:11). */
  function Prefixed(head: int, cs: seq<seq<int>>): seq<seq<int>> {
    seq(|cs|, k requires 0 <= k < |cs| => [head] + cs[k])
  }

  /** The head glued onto each split in turn. */
  function GluedAll(head: int, cs: seq<seq<int>>): (r: seq<seq<int>>)
    requires Gluable(cs)
    ensures |r| == |cs|
    ensures forall k :: 0 <= k < |r| ==> r[k] == Glued(head, cs[k])
    decreases |cs|
  {
    if cs == [] then [] else [Glued(head, cs[0])] + GluedAll(head, cs[1..])
  }

  /** `if new_combo not in combinations: combinations.append(new_combo)`. */
  function AddIfNew(acc: seq<seq<int>>, c: seq<int>): seq<seq<int>> {
    if c in acc then acc else acc + [c]
  }

  /** The loop of generate_combinations (expression_finder.py:13-17) over the
      splits `cs` it has still to visit, `acc` being what it has built. */
  function GlueEach(head: int, cs: seq<seq<int>>, acc: seq<seq<int>>): seq<seq<int>>
    requires Gluable(cs)
    decreases |cs|
  {
    if cs == [] then acc else GlueEach(head, cs[1..], AddIfNew(acc, Glued(head, cs[0])))
  }

  /** What generate_combinations returns (expression_finder.py:5-19). */
  function Combinations(ns: seq<int>): (r: seq<seq<int>>)
    requires |ns| >= 1 && TailNonNeg(ns)
    ensures ns[0] >= 0 ==> Gluable(r)
    decreases |ns|
  {
    if |ns| == 1 then [[ns[0]]]
    else
      var rest := Combinations(ns[1..]);
      GlueEachGluable(ns[0], rest, Prefixed(ns[0], rest));
      GlueEach(ns[0], rest, Prefixed(ns[0], rest))
  }

  /** generate_combinations: the splits of the tail, each with the head in
      front, then each with the head glued on when that is not already
      present. */
  method GenerateCombinations(numbers: seq<int>) returns (combos: seq<seq<int>>)
    requires |numbers| >= 1 && TailNonNeg(numbers)
    ensures combos == Combinations(numbers)
    decreases |numbers|
  {
    if |numbers| == 1 {
      return [[numbers[0]]];
    }
    var rest := GenerateCombinations(numbers[1..]);
    combos := Prefixed(numbers[0], rest);
    for i := 0 to |rest|
      invariant GlueEach(numbers[0], rest[i..], combos) == Combinations(numbers)
    {
      var combo := rest[i];
      var newCombo := [Concat(numbers[0], combo[0])] + combo[1..];
      assert rest[i..][0] == combo && rest[i..][1..] == rest[i + 1..];
      if newCombo !in combos {
        combos := combos + [newCombo];
      }
    }
  }

  lemma {:induction false} GlueEachGluable(head: int, cs: seq<seq<int>>, acc: seq<seq<int>>)
    requires Gluable(cs)
    ensures head >= 0 && Gluable(acc) ==> Gluable(GlueEach(head, cs, acc))
    decreases |cs|
  {
    if cs != [] && head >= 0 && Gluable(acc) {
      var g := Glued(head, cs[0]);
      assert g[0] == Concat(head, cs[0][0]) >= 0;
      GlueEachGluable(head, cs[1..], AddIfNew(acc, g));
    }
  }

  /** The loop keeps what it was given and adds exactly the glued splits. */
  lemma {:induction false} GlueEachMembers(head: int, cs: seq<seq<int>>, acc: seq<seq<int>>)
    requires Gluable(cs)
    ensures acc <= GlueEach(head, cs, acc)
    ensures forall c :: c in GlueEach(head, cs, acc) <==> c in acc || c in GluedAll(head, cs)
    decreases |cs|
  {
    if cs != [] {
      var g := Glued(head, cs[0]);
      var acc' := AddIfNew(acc, g);
      GlueEachMembers(head, cs[1..], acc');
    }
  }

  lemma {:induction false} GlueEachNoDups(head: int, cs: seq<seq<int>>, acc: seq<seq<int>>)
    requires Gluable(cs) && NoDups(acc)
    ensures NoDups(GlueEach(head, cs, acc))
    decreases |cs|
  {
    if cs != [] {
      var g := Glued(head, cs[0]);
      AddIfNewNoDups(acc, g);
      GlueEachNoDups(head, cs[1..], AddIfNew(acc, g));
    }
  }

  lemma AddIfNewNoDups(acc: seq<seq<int>>, c: seq<int>)
    requires NoDups(acc)
    ensures NoDups(AddIfNew(acc, c))
  {
  }

  /** When nothing glued is already present and no two glued splits
      coincide, the loop appends every glued split, in order. */
  lemma {:induction false} GlueEachAppends(head: int, cs: seq<seq<int>>, acc: seq<seq<int>>)
    requires Gluable(cs) && NoDups(acc + GluedAll(head, cs))
    ensures GlueEach(head, cs, acc) == acc + GluedAll(head, cs)
    decreases |cs|
  {
    if cs != [] {
      var g := Glued(head, cs[0]);
      var all := acc + GluedAll(head, cs);
      assert all == (acc + [g]) + GluedAll(head, cs[1..]);
      assert all[|acc|] == g;
      assert g !in acc by {
        forall k | 0 <= k < |acc| ensures acc[k] != g {
          assert all[k] == acc[k];
        }
      }
      GlueEachAppends(head, cs[1..], acc + [g]);
    }
  }

  lemma NoDupsAppend<T>(a: seq<T>, b: seq<T>)
    requires NoDups(a) && NoDups(b)
    requires forall x :: x in a ==> x !in b
    ensures NoDups(a + b)
  {
    var s := a + b;
    forall i, j | 0 <= i < j < |s| ensures s[i] != s[j] {
      if j < |a| {
        assert s[i] == a[i] && s[j] == a[j];
      } else if i < |a| {
        assert s[i] == a[i] && s[j] == b[j - |a|];
        assert a[i] in a && b[j - |a|] in b;
      } else {
        assert s[i] == b[i - |a|] && s[j] == b[j - |a|];
      }
    }
  }

  lemma PrefixedNoDups(head: int, rest: seq<seq<int>>)
    requires NoDups(rest)
    ensures NoDups(Prefixed(head, rest))
  {
    var front := Prefixed(head, rest);
    forall i, j | 0 <= i < j < |front| ensures front[i] != front[j] {
      assert front[i][1..] == rest[i] && front[j][1..] == rest[j];
    }
  }

  lemma GluedAllNoDups(head: int, rest: seq<seq<int>>)
    requires head != 0 && Gluable(rest) && NoDups(rest)
    ensures NoDups(GluedAll(head, rest))
  {
    var gs := GluedAll(head, rest);
    forall i, j | 0 <= i < j < |gs| ensures gs[i] != gs[j] {
      if gs[i] == gs[j] {
        GlueInjective(head, rest[i], rest[j]);
      }
    }
  }

  lemma PrefixedGluedApart(head: int, rest: seq<seq<int>>)
    requires head != 0 && Gluable(rest)
    ensures forall x :: x in Prefixed(head, rest) ==> x !in GluedAll(head, rest)
  {
    var front, gs := Prefixed(head, rest), GluedAll(head, rest);
    forall i, j | 0 <= i < |front| && 0 <= j < |gs| ensures front[i] != gs[j] {
      GlueNotPrefixed(head, rest[j], rest[i]);
    }
  }

  /** The result starts with the input itself. */
  lemma {:induction false} CombinationsStartWithInput(ns: seq<int>)
    requires |ns| >= 1 && TailNonNeg(ns)
    ensures |Combinations(ns)| >= 1 && Combinations(ns)[0] == ns
    decreases |ns|
  {
    if |ns| > 1 {
      var rest := Combinations(ns[1..]);
      CombinationsStartWithInput(ns[1..]);
      GlueEachMembers(ns[0], rest, Prefixed(ns[0], rest));
      assert Prefixed(ns[0], rest)[0] == [ns[0]] + ns[1..] == ns;
    }
  }

  /** No split is listed twice. */
  lemma {:induction false} CombinationsNoDups(ns: seq<int>)
    requires |ns| >= 1 && TailNonNeg(ns)
    ensures NoDups(Combinations(ns))
    decreases |ns|
  {
    if |ns| > 1 {
      var rest := Combinations(ns[1..]);
      CombinationsNoDups(ns[1..]);
      PrefixedNoDups(ns[0], rest);
      GlueEachNoDups(ns[0], rest, Prefixed(ns[0], rest));
    }
  }

  /** Everything listed is a block split of the input. */
  lemma {:induction false} CombinationsSound(ns: seq<int>)
    requires |ns| >= 1 && TailNonNeg(ns)
    ensures forall c :: c in Combinations(ns) ==> IsSplit(c, ns)
    decreases |ns|
  {
    if |ns| == 1 {
      assert Merge(ns, []) == [ns[0]];
    } else {
      var rest := Combinations(ns[1..]);
      CombinationsSound(ns[1..]);
      GlueEachMembers(ns[0], rest, Prefixed(ns[0], rest));
      forall c | c in Combinations(ns) ensures IsSplit(c, ns) {
        ListedIsSplit(ns, rest, c);
      }
    }
  }

  lemma ListedIsSplit(ns: seq<int>, rest: seq<seq<int>>, c: seq<int>)
    requires |ns| >= 2 && TailNonNeg(ns) && Gluable(rest)
    requires forall r :: r in rest ==> IsSplit(r, ns[1..])
    requires c in Prefixed(ns[0], rest) || c in GluedAll(ns[0], rest)
    ensures IsSplit(c, ns)
  {
    if c in Prefixed(ns[0], rest) {
      var k :| 0 <= k < |rest| && Prefixed(ns[0], rest)[k] == c;
      SplitExtend(ns, rest[k], true);
    } else {
      var k :| 0 <= k < |rest| && GluedAll(ns[0], rest)[k] == c;
      SplitExtend(ns, rest[k], false);
    }
  }

  /** Every block split of the input is listed. */
  lemma {:induction false} CombinationsComplete(ns: seq<int>, cuts: seq<bool>)
    requires |ns| >= 1 && TailNonNeg(ns) && |cuts| == |ns| - 1
    ensures Merge(ns, cuts) in Combinations(ns)
    decreases |ns|
  {
    if |ns| > 1 {
      var rest := Combinations(ns[1..]);
      var r := Merge(ns[1..], cuts[1..]);
      CombinationsComplete(ns[1..], cuts[1..]);
      GlueEachMembers(ns[0], rest, Prefixed(ns[0], rest));
      var k :| 0 <= k < |rest| && rest[k] == r;
      if cuts[0] {
        assert Prefixed(ns[0], rest)[k] == [ns[0]] + r;
      } else {
        assert GluedAll(ns[0], rest)[k] == Glued(ns[0], r);
      }
    }
  }

  /** When no input is 0, all 2^(n-1) splits are different and all listed. */
  lemma {:induction false} CombinationsCount(ns: seq<int>)
    requires |ns| >= 1 && TailNonNeg(ns) && NonZero(ns)
    ensures |Combinations(ns)| == Pow2(|ns| - 1)
    decreases |ns|
  {
    if |ns| > 1 {
      var tail := ns[1..];
      assert NonZero(tail);
      CombinationsCount(tail);
      CombinationsNoDups(tail);
      CombinationsNothingSkipped(ns);
      var m := |Combinations(tail)|;
      assert m == Pow2(|ns| - 2) by { assert |tail| - 1 == |ns| - 2; }
      assert |Combinations(ns)| == 2 * m;
      assert Pow2(|ns| - 1) == 2 * Pow2(|ns| - 2);
    } else {
      assert Combinations(ns) == [[ns[0]]];
    }
  }

  /** Why the digit and count properties exclude 0: `int("0" + "5")` is 5,
      so gluing a leading 0 drops its digit. */
  lemma ZeroLosesDigit()
    ensures Combinations([0, 5]) == [[0, 5], [5]]
    ensures Digits([5]) != Digits([0, 5])
  {
    assert Concat(0, 5) == 5 by {
      assert NatStr(0) == "0" && NatStr(5) == "5";
      assert IntStr(0) + NatStr(5) == "05";
      assert ParseNat("05") == ParseNat("0") * 10 + 5;
    }
    var ns: seq<int> := [0, 5];
    assert ns[1..] == [5];
    assert Combinations([5]) == [[5]];
    var front := Prefixed(0, [[5]]);
    assert front[0] == [0] + [5] == [0, 5];
    assert front == [[0, 5]];
    assert Glued(0, [5]) == [5];
    assert GlueEach(0, [[5]], front) == GlueEach(0, [], AddIfNew(front, [5]));
    assert AddIfNew(front, [5]) == [[0, 5], [5]];
    assert Digits([0, 5]) == "0" + Digits([5]);
  }

  /** With a non-zero head and distinct splits of the tail, the loop of
      generate_combinations skips nothing: every glued split is new. */
  lemma CombinationsNothingSkipped(ns: seq<int>)
    requires |ns| >= 2 && TailNonNeg(ns) && ns[0] != 0 && NoDups(Combinations(ns[1..]))
    ensures Combinations(ns) == Prefixed(ns[0], Combinations(ns[1..])) + GluedAll(ns[0], Combinations(ns[1..]))
    ensures |Combinations(ns)| == 2 * |Combinations(ns[1..])|
  {
    var head, rest := ns[0], Combinations(ns[1..]);
    var front, glued := Prefixed(head, rest), GluedAll(head, rest);
    PrefixedNoDups(head, rest);
    GluedAllNoDups(head, rest);
    PrefixedGluedApart(head, rest);
    NoDupsAppend(front, glued);
    GlueEachAppends(head, rest, front);
    assert |front + glued| == |front| + |glued|;
  }

  // ---------------------------------------------------------------------
  // Orderings of the input multiset.

  function Insertions(x: int, p: seq<int>): (r: seq<seq<int>>)
    ensures |r| == |p| + 1
  {
    seq(|p| + 1, j requires 0 <= j <= |p| => p[..j] + [x] + p[j..])
  }

  function InsertEach(x: int, ps: seq<seq<int>>): seq<seq<int>> {
    if ps == [] then [] else Insertions(x, ps[0]) + InsertEach(x, ps[1..])
  }

  /** The orderings of `s`: the first element inserted at every position of
      every ordering of the rest. A repeated value gives repeated orderings;
      the deduplication at the end of generate_all_combinations absorbs them. */
  function Permutations(s: seq<int>): seq<seq<int>> {
    if s == [] then [[]] else InsertEach(s[0], Permutations(s[1..]))
  }

  lemma {:induction false} InsertEachSound(x: int, ps: seq<seq<int>>, q: seq<int>) returns (k: nat, j: nat)
    requires q in InsertEach(x, ps)
    ensures k < |ps| && j <= |ps[k]| && q == ps[k][..j] + [x] + ps[k][j..]
    decreases |ps|
  {
    if q in Insertions(x, ps[0]) {
      k := 0;
      j :| 0 <= j <= |ps[0]| && Insertions(x, ps[0])[j] == q;
    } else {
      var k', j' := InsertEachSound(x, ps[1..], q);
      assert ps[1..][k'] == ps[k' + 1];
      k, j := k' + 1, j';
    }
  }

  lemma {:induction false} InsertEachComplete(x: int, ps: seq<seq<int>>, k: nat, j: nat)
    requires k < |ps| && j <= |ps[k]|
    ensures ps[k][..j] + [x] + ps[k][j..] in InsertEach(x, ps)
    decreases k
  {
    if k == 0 {
      assert Insertions(x, ps[0])[j] == ps[0][..j] + [x] + ps[0][j..];
    } else {
      InsertEachComplete(x, ps[1..], k - 1, j);
    }
  }

  lemma InsertMultiset(p: seq<int>, j: nat, x: int)
    requires j <= |p|
    ensures |p[..j] + [x] + p[j..]| == |p| + 1
    ensures multiset(p[..j] + [x] + p[j..]) == multiset(p) + multiset{x}
  {
    assert p == p[..j] + p[j..];
  }

  /** Every ordering listed has the multiset of the input. */
  lemma {:induction false} PermutationsSound(s: seq<int>, q: seq<int>)
    requires q in Permutations(s)
    ensures |q| == |s| && multiset(q) == multiset(s)
    decreases |s|
  {
    if s != [] {
      var x, ps := s[0], Permutations(s[1..]);
      var k, j := InsertEachSound(x, ps, q);
      var p := ps[k];
      assert p in ps;
      PermutationsSound(s[1..], p);
      InsertHead(s, p, j);
    }
  }

  /** Inserting the first element of `s` into an ordering of the rest gives
      an ordering of `s`. */
  lemma InsertHead(s: seq<int>, p: seq<int>, j: nat)
    requires |s| >= 1 && j <= |p| && |p| == |s| - 1 && multiset(p) == multiset(s[1..])
    ensures |p[..j] + [s[0]] + p[j..]| == |s| && multiset(p[..j] + [s[0]] + p[j..]) == multiset(s)
  {
    InsertMultiset(p, j, s[0]);
    assert s == [s[0]] + s[1..];
  }

  /** Taking out the element at `j` takes one copy of it out of the multiset. */
  lemma RemoveMultiset(q: seq<int>, j: nat)
    requires j < |q|
    ensures (q[..j] + q[j + 1..])[..j] == q[..j] && (q[..j] + q[j + 1..])[j..] == q[j + 1..]
    ensures q == (q[..j] + q[j + 1..])[..j] + [q[j]] + (q[..j] + q[j + 1..])[j..]
    ensures multiset(q[..j] + q[j + 1..]) == multiset(q) - multiset{q[j]}
  {
    var p := q[..j] + q[j + 1..];
    assert p[..j] == q[..j] && p[j..] == q[j + 1..];
    assert q == p[..j] + [q[j]] + p[j..];
    InsertMultiset(p, j, q[j]);
  }

  /** Every sequence with the multiset of the input is listed. */
  lemma {:induction false} PermutationsComplete(s: seq<int>, q: seq<int>)
    requires multiset(q) == multiset(s)
    ensures q in Permutations(s)
    decreases |s|
  {
    assert |q| == |multiset(q)| == |multiset(s)| == |s|;
    if s != [] {
      var x := s[0];
      assert s == [x] + s[1..];
      assert multiset(s) == multiset{x} + multiset(s[1..]);
      assert x in multiset(q);
      var j :| 0 <= j < |q| && q[j] == x;
      var p := q[..j] + q[j + 1..];
      RemoveMultiset(q, j);
      assert multiset(p) == multiset(s[1..]);
      PermutationsComplete(s[1..], p);
      var ps := Permutations(s[1..]);
      var k :| 0 <= k < |ps| && ps[k] == p;
      InsertEachComplete(x, ps, k, j);
    }
  }

  // ---------------------------------------------------------------------
  // generate_all_combinations

  /** The inputs generate_all_combinations handles: a single number, or
      numbers none of which is negative. A negative number in an input of two
      or more numbers ends up glued behind another one in some ordering, and
      Python's `int` raises on the text. */
  predicate Splittable(numbers: seq<int>) {
    |numbers| >= 1 && (|numbers| == 1 || forall i :: 0 <= i < |numbers| ==> numbers[i] >= 0)
  }

  predicate AllSplittable(ps: seq<seq<int>>) {
    forall k :: 0 <= k < |ps| ==> |ps[k]| >= 1 && TailNonNeg(ps[k])
  }

  /** The splits of each ordering, in the order of the orderings. */
  function SplitsOfEach(ps: seq<seq<int>>): seq<seq<seq<int>>>
    requires AllSplittable(ps)
  {
    seq(|ps|, k requires 0 <= k < |ps| => Combinations(ps[k]))
  }

  /** Lists written one after another, as `all_combinations.extend(...)`
      builds them (expression_finder.py:25-26). */
  function Concatenated<T>(css: seq<seq<T>>): seq<T>
    decreases |css|
  {
    if css == [] then [] else Concatenated(css[..|css| - 1]) + css[|css| - 1]
  }

  /** What generate_all_combinations collects before deduplication. */
  function AllCombinations(numbers: seq<int>): seq<seq<int>>
    requires Splittable(numbers)
  {
    PermutationsSplittable(numbers);
    Concatenated(SplitsOfEach(Permutations(numbers)))
  }

  lemma PermutationsSplittable(numbers: seq<int>)
    requires Splittable(numbers)
    ensures AllSplittable(Permutations(numbers))
  {
    var ps := Permutations(numbers);
    forall k | 0 <= k < |ps| ensures |ps[k]| >= 1 && TailNonNeg(ps[k]) {
      PermutationsSound(numbers, ps[k]);
      PermutationTailNonNeg(ps[k], numbers);
    }
  }

  lemma PermutationTailNonNeg(p: seq<int>, numbers: seq<int>)
    requires Splittable(numbers) && |p| == |numbers| && multiset(p) == multiset(numbers)
    ensures TailNonNeg(p)
  {
    forall i | 1 <= i < |p| ensures p[i] >= 0 {
      assert p[i] in multiset(numbers);
    }
  }

  lemma ConcatenatedAppend<T>(css: seq<seq<T>>, i: nat)
    requires i < |css|
    ensures Concatenated(css[..i + 1]) == Concatenated(css[..i]) + css[i]
  {
    assert css[..i + 1][..i] == css[..i] && css[..i + 1][i] == css[i];
  }

  /** An element is in the concatenation exactly when it is in one of the lists. */
  lemma {:induction false} ConcatenatedMembers<T>(css: seq<seq<T>>, c: T)
    ensures c in Concatenated(css) <==> exists k :: 0 <= k < |css| && c in css[k]
    decreases |css|
  {
    if css != [] {
      var init := css[..|css| - 1];
      ConcatenatedMembers(init, c);
      if c in Concatenated(init) {
        var k :| 0 <= k < |init| && c in init[k];
        assert init[k] == css[k];
      }
      if exists k :: 0 <= k < |css| && c in css[k] {
        var k :| 0 <= k < |css| && c in css[k];
        if k < |init| {
          assert init[k] == css[k];
        }
      }
    }
  }

  /** A collected grouping comes from one of the orderings. */
  lemma CollectedFrom(numbers: seq<int>, c: seq<int>) returns (k: nat)
    requires Splittable(numbers) && c in AllCombinations(numbers)
    ensures AllSplittable(Permutations(numbers))
    ensures k < |Permutations(numbers)| && c in Combinations(Permutations(numbers)[k])
  {
    PermutationsSplittable(numbers);
    var css := SplitsOfEach(Permutations(numbers));
    ConcatenatedMembers(css, c);
    k :| 0 <= k < |css| && c in css[k];
  }

  /** Every split of every ordering is collected. */
  lemma CollectedHas(numbers: seq<int>, c: seq<int>, k: nat)
    requires Splittable(numbers)
    requires AllSplittable(Permutations(numbers))
    requires k < |Permutations(numbers)| && c in Combinations(Permutations(numbers)[k])
    ensures c in AllCombinations(numbers)
  {
    var css := SplitsOfEach(Permutations(numbers));
    assert c in css[k];
    ConcatenatedMembers(css, c);
  }

  /** `set(tuple(c) for c in xs)` turned back into a list
      (expression_finder.py:28-30): the same members, once each. */
  method Distinct(xs: seq<seq<int>>) returns (ys: seq<seq<int>>)
    ensures NoDups(ys)
    ensures forall c :: c in ys <==> c in xs
  {
    ys := [];
    for i := 0 to |xs|
      invariant NoDups(ys)
      invariant forall c :: c in ys <==> c in xs[..i]
    {
      assert xs[..i + 1] == xs[..i] + [xs[i]];
      if xs[i] !in ys {
        ys := ys + [xs[i]];
      }
    }
    assert xs[..|xs|] == xs;
  }

  /** generate_all_combinations (expression_finder.py:21-30): the splits of
      every ordering, collected and deduplicated. */
  method GenerateAllCombinations(numbers: seq<int>) returns (groupings: seq<seq<int>>)
    requires Splittable(numbers)
    ensures NoDups(groupings)
    ensures forall c :: c in groupings <==> c in AllCombinations(numbers)
  {
    var perms := Permutations(numbers);
    PermutationsSplittable(numbers);
    ghost var css := SplitsOfEach(perms);
    var all: seq<seq<int>> := [];
    for i := 0 to |perms|
      invariant all == Concatenated(css[..i])
    {
      var combos := GenerateCombinations(perms[i]);
      ConcatenatedAppend(css, i);
      all := all + combos;
    }
    assert css[..|css|] == css;
    groupings := Distinct(all);
  }

  /** The input itself is one of the groupings. */
  lemma GroupingsHoldInput(numbers: seq<int>)
    requires Splittable(numbers)
    ensures numbers in AllCombinations(numbers)
  {
    PermutationsSplittable(numbers);
    var ps := Permutations(numbers);
    PermutationsComplete(numbers, numbers);
    var k :| 0 <= k < |ps| && ps[k] == numbers;
    CombinationsStartWithInput(numbers);
    CollectedHas(numbers, numbers, k);
  }

  /** Every grouping is a block split of an ordering of the input multiset. */
  lemma GroupingsSound(numbers: seq<int>, c: seq<int>)
    requires Splittable(numbers) && c in AllCombinations(numbers)
    ensures |c| >= 1 && IsGrouping(c, numbers)
  {
    var k := CollectedFrom(numbers, c);
    var p := Permutations(numbers)[k];
    PermutationsSound(numbers, p);
    CombinationsSound(p);
    var cuts :| |cuts| == |p| - 1 && Merge(p, cuts) == c;
  }

  /** Every block split of every ordering of the input multiset is a
      grouping. */
  lemma GroupingsComplete(numbers: seq<int>, p: seq<int>, cuts: seq<bool>)
    requires Splittable(numbers) && multiset(p) == multiset(numbers) && |cuts| == |p| - 1
    ensures |p| == |numbers| && TailNonNeg(p)
    ensures Merge(p, cuts) in AllCombinations(numbers)
  {
    assert |p| == |multiset(p)| == |multiset(numbers)| == |numbers|;
    PermutationTailNonNeg(p, numbers);
    PermutationsSplittable(numbers);
    var ps := Permutations(numbers);
    PermutationsComplete(numbers, p);
    var k :| 0 <= k < |ps| && ps[k] == p;
    CombinationsComplete(p, cuts);
    CollectedHas(numbers, Merge(p, cuts), k);
  }
}

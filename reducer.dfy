/** The reducer (expression_finder.py:47-62): evaluate every candidate tree,
    skip the ones that fail, and keep, for every integral result in
    `[minValue, maxValue]`, the shortest rendering found. */
module Reducer {
  import opened Operations
  import opened Groupings
  import opened Search

  datatype Option<T> = None | Some(value: T)

  /** Result -> rendering, or no rendering yet (the `show_all` placeholders). */
  type Table = map<int, Option<string>>

  /** The key a candidate scores under: its value, when evaluation succeeds
      and the value is an integer within the range (expression_finder.py:55-56). */
  function Score(e: Expr, o: Oracle, minValue: int, maxValue: int): (k: Option<int>)
    ensures k.Some? ==> minValue <= k.value <= maxValue && Eval(e, o) == Ok(k.value as real)
    ensures k.None? <==>
      Eval(e, o).Err? || !(minValue as real <= Eval(e, o).value <= maxValue as real && IsInteger(Eval(e, o).value))
  {
    match Eval(e, o)
    case Err(_) => None
    case Ok(v) =>
      if minValue as real <= v <= maxValue as real && IsInteger(v) then Some(Int(v)) else None
  }

  /** The table before any candidate (expression_finder.py:52): with
      `show_all` every key of the range, each without a rendering. */
  function InitialTable(minValue: int, maxValue: int, showAll: bool): (t: Table)
    ensures showAll ==> forall k :: k in t <==> minValue <= k <= maxValue
    ensures showAll ==> forall k :: k in t ==> t[k] == None
    ensures !showAll ==> t == map[]
  {
    if showAll then RangeTable(minValue, maxValue) else map[]
  }

  /** `{result: None for result in range(lo, hi + 1)}`. */
  function RangeTable(lo: int, hi: int): (t: Table)
    ensures forall k :: k in t <==> lo <= k <= hi
    ensures forall k :: k in t ==> t[k] == None
    decreases hi - lo
  {
    if lo > hi then map[] else RangeTable(lo + 1, hi)[lo := None]
  }

  /** One candidate offered to the table (expression_finder.py:54-60): it
      takes its key when the key has no rendering yet or its own rendering is
      strictly shorter. */
  function Offer(t: Table, e: Expr, o: Oracle, minValue: int, maxValue: int): Table {
    match Score(e, o, minValue, maxValue)
    case None => t
    case Some(k) =>
      if k !in t || t[k].None? || |Render(e)| < |t[k].value| then t[k := Some(Render(e))] else t
  }

  /** A candidate that fails to evaluate, or scores outside the range or off
      the integers, leaves the table as it was. */
  lemma OfferSkips(t: Table, e: Expr, o: Oracle, minValue: int, maxValue: int)
    requires Eval(e, o).Err? || Score(e, o, minValue, maxValue).None?
    ensures Offer(t, e, o, minValue, maxValue) == t
  {
  }

  /** A scoring candidate touches only its own key. Afterwards that key holds
      a rendering no longer than the candidate's, and it holds the
      candidate's rendering if it changed; every other key is untouched. */
  lemma OfferScores(t: Table, e: Expr, o: Oracle, minValue: int, maxValue: int)
    requires Score(e, o, minValue, maxValue).Some?
    ensures var k, t' := Score(e, o, minValue, maxValue).value, Offer(t, e, o, minValue, maxValue);
      t'.Keys == t.Keys + {k} &&
      t'[k].Some? && |t'[k].value| <= |Render(e)| &&
      ((k !in t || t'[k] != t[k]) ==> t'[k] == Some(Render(e))) &&
      (k in t && t[k].Some? ==> |t'[k].value| <= |t[k].value|) &&
      forall k' :: k' in t && k' != k ==> t'[k'] == t[k']
  {
  }

  /** The loop of the reducer over the candidates, in whatever order they
      come (expression_finder.py:52-62). */
  method Reduce(candidates: seq<Expr>, o: Oracle, minValue: int, maxValue: int, showAll: bool)
    returns (table: Table)
    ensures forall k :: k in table ==> minValue <= k <= maxValue
    ensures showAll ==> forall k :: minValue <= k <= maxValue ==> k in table
    ensures !showAll ==> forall k :: k in table ==> table[k].Some?
    ensures forall k :: k in table && table[k].Some? ==>
      exists j :: 0 <= j < |candidates| && Score(candidates[j], o, minValue, maxValue) == Some(k) &&
        Render(candidates[j]) == table[k].value
    ensures forall j :: 0 <= j < |candidates| && Score(candidates[j], o, minValue, maxValue).Some? ==>
      var k := Score(candidates[j], o, minValue, maxValue).value;
      k in table && table[k].Some? && |table[k].value| <= |Render(candidates[j])|
  {
    table := InitialTable(minValue, maxValue, showAll);
    for i := 0 to |candidates|
      invariant forall k :: k in table ==> minValue <= k <= maxValue
      invariant showAll ==> forall k :: minValue <= k <= maxValue ==> k in table
      invariant !showAll ==> forall k :: k in table ==> table[k].Some?
      invariant forall k :: k in table && table[k].Some? ==>
        exists j :: 0 <= j < i && Score(candidates[j], o, minValue, maxValue) == Some(k) &&
          Render(candidates[j]) == table[k].value
      invariant forall j :: 0 <= j < i && Score(candidates[j], o, minValue, maxValue).Some? ==>
        var k := Score(candidates[j], o, minValue, maxValue).value;
        k in table && table[k].Some? && |table[k].value| <= |Render(candidates[j])|
    {
      var e := candidates[i];
      var before := table;
      table := Offer(table, e, o, minValue, maxValue);
      match Score(e, o, minValue, maxValue)
      case None =>
        OfferSkips(before, e, o, minValue, maxValue);
      case Some(k) =>
        OfferScores(before, e, o, minValue, maxValue);
        OfferKeeps(before, table, candidates, i, o, minValue, maxValue);
    }
  }

  /** The invariant of Reduce survives a scoring candidate. */
  lemma OfferKeeps(before: Table, after: Table, candidates: seq<Expr>, i: nat, o: Oracle, minValue: int, maxValue: int)
    requires i < |candidates| && Score(candidates[i], o, minValue, maxValue).Some?
    requires after == Offer(before, candidates[i], o, minValue, maxValue)
    requires forall k :: k in before && before[k].Some? ==>
      exists j :: 0 <= j < i && Score(candidates[j], o, minValue, maxValue) == Some(k) &&
        Render(candidates[j]) == before[k].value
    requires forall j :: 0 <= j < i && Score(candidates[j], o, minValue, maxValue).Some? ==>
      var k := Score(candidates[j], o, minValue, maxValue).value;
      k in before && before[k].Some? && |before[k].value| <= |Render(candidates[j])|
    ensures forall k :: k in after && after[k].Some? ==>
      exists j :: 0 <= j < i + 1 && Score(candidates[j], o, minValue, maxValue) == Some(k) &&
        Render(candidates[j]) == after[k].value
    ensures forall j :: 0 <= j < i + 1 && Score(candidates[j], o, minValue, maxValue).Some? ==>
      var k := Score(candidates[j], o, minValue, maxValue).value;
      k in after && after[k].Some? && |after[k].value| <= |Render(candidates[j])|
  {
    var e := candidates[i];
    var key := Score(e, o, minValue, maxValue).value;
    OfferScores(before, e, o, minValue, maxValue);
    forall k | k in after && after[k].Some?
      ensures exists j :: 0 <= j < i + 1 && Score(candidates[j], o, minValue, maxValue) == Some(k) &&
                          Render(candidates[j]) == after[k].value
    {
      if k == key && (k !in before || after[k] != before[k]) {
        assert Score(candidates[i], o, minValue, maxValue) == Some(k) && Render(candidates[i]) == after[k].value;
      } else {
        var j :| 0 <= j < i && Score(candidates[j], o, minValue, maxValue) == Some(k) &&
          Render(candidates[j]) == before[k].value;
        assert Render(candidates[j]) == after[k].value;
      }
    }
    forall j | 0 <= j < i + 1 && Score(candidates[j], o, minValue, maxValue).Some?
      ensures var k := Score(candidates[j], o, minValue, maxValue).value;
        k in after && after[k].Some? && |after[k].value| <= |Render(candidates[j])|
    {
    }
  }

  // ---------------------------------------------------------------------
  // End to end.

  /** The trees the reducer is offered: those over some grouping of the
      input, with no unary node directly on another. */
  predicate IsCandidate(e: Expr, numbers: seq<int>)
    requires Splittable(numbers)
  {
    NoStackedUnary(e) && Leaves(e) in AllCombinations(numbers)
  }

  /** generate_expression_dict (expression_finder.py:47-62). */
  method GenerateExpressionDict(numbers: seq<int>, minValue: int, maxValue: int, showAll: bool, o: Oracle)
    returns (table: Table)
    requires Splittable(numbers)
    ensures forall k :: k in table ==> minValue <= k <= maxValue
    ensures showAll ==> forall k :: minValue <= k <= maxValue ==> k in table
    ensures !showAll ==> forall k :: k in table ==> table[k].Some?
    ensures forall k :: k in table && table[k].Some? ==>
      exists e :: IsCandidate(e, numbers) && Score(e, o, minValue, maxValue) == Some(k) && Render(e) == table[k].value
    ensures forall e :: IsCandidate(e, numbers) && Score(e, o, minValue, maxValue).Some? ==>
      var k := Score(e, o, minValue, maxValue).value;
      k in table && table[k].Some? && |table[k].value| <= |Render(e)|
  {
    var groupings := GenerateAllCombinations(numbers);
    forall g | g in groupings ensures |g| >= 1 {
      GroupingsSound(numbers, g);
    }
    var candidates := GatherCandidates(groupings);
    table := Reduce(candidates, o, minValue, maxValue, showAll);
    forall k | k in table && table[k].Some?
      ensures exists e :: IsCandidate(e, numbers) && Score(e, o, minValue, maxValue) == Some(k) && Render(e) == table[k].value
    {
      var j :| 0 <= j < |candidates| && Score(candidates[j], o, minValue, maxValue) == Some(k) &&
        Render(candidates[j]) == table[k].value;
      assert candidates[j] in candidates;
      assert IsCandidate(candidates[j], numbers);
    }
    forall e | IsCandidate(e, numbers) && Score(e, o, minValue, maxValue).Some?
      ensures var k := Score(e, o, minValue, maxValue).value;
        k in table && table[k].Some? && |table[k].value| <= |Render(e)|
    {
      assert e in candidates;
      var j :| 0 <= j < |candidates| && candidates[j] == e;
    }
  }

  /** `expressions.update(generate_expressions(permutation))` over every
      grouping (expression_finder.py:48-50): the trees over any of them. */
  method GatherCandidates(groupings: seq<seq<int>>) returns (candidates: seq<Expr>)
    requires forall g :: g in groupings ==> |g| >= 1
    ensures forall e :: e in candidates <==> NoStackedUnary(e) && Leaves(e) in groupings
    ensures NoDups(groupings) ==> NoDups(candidates)
  {
    candidates := [];
    for i := 0 to |groupings|
      invariant forall e :: e in candidates <==> NoStackedUnary(e) && Leaves(e) in groupings[..i]
      invariant NoDups(groupings) ==> NoDups(candidates)
    {
      var g := groupings[i];
      forall e ensures e in Expressions(g) <==> Leaves(e) == g && NoStackedUnary(e) {
        ExpressionsExactly(g, e);
      }
      if NoDups(groupings) {
        assert g !in groupings[..i] by {
          forall j | 0 <= j < i ensures groupings[..i][j] != g {
            assert groupings[..i][j] == groupings[j];
          }
        }
        ExpressionsNoDups(g);
        NoDupsAppend(candidates, Expressions(g));
      }
      assert groupings[..i + 1] == groupings[..i] + [g];
      candidates := candidates + Expressions(g);
    }
    assert groupings[..|groupings|] == groupings;
  }
}

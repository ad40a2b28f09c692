/** The tree generator (expression_finder.py:32-45): every expression tree
    over a grouping, with the grouping's numbers as leaves in order, every
    binary operator at every inner node and at most one unary operator above
    each leaf and each binary node. The Python generator is lazy; the model
    lists the same trees, in the same order, as a sequence. */
module Search {
  import opened Operations
  import opened Groupings

  /** A tree and its three unary wraps, in registry order
      (expression_finder.py:34-36 and 43-45). */
  function Wrapped(c: Expr): (r: seq<Expr>)
    ensures |r| == 1 + |UnaryOperations|
  {
    [c] + seq(|UnaryOperations|, k requires 0 <= k < |UnaryOperations| => Un(UnaryOperations[k], c))
  }

  /** Each operator of `ops` applied to `l` and `r`, each result followed by
      its unary wraps (expression_finder.py:42-45). */
  function WrapEach(ops: seq<BinaryOp>, l: Expr, r: Expr): (t: seq<Expr>)
    ensures |t| == 4 * |ops|
  {
    if ops == [] then [] else Wrapped(Bin(ops[0], l, r)) + WrapEach(ops[1..], l, r)
  }

  /** The 20 trees with `l` and `r` as children of the root. */
  function Combine(l: Expr, r: Expr): (t: seq<Expr>)
    ensures |t| == 20
  {
    WrapEach(BinaryOperations, l, r)
  }

  /** `l` paired with each right tree in turn (expression_finder.py:41). */
  function PairWith(l: Expr, rs: seq<Expr>): (t: seq<Expr>)
    ensures |t| == 20 * |rs|
  {
    if rs == [] then [] else Combine(l, rs[0]) + PairWith(l, rs[1..])
  }

  /** Each left tree paired with each right tree (expression_finder.py:40-41). */
  function PairAll(ls: seq<Expr>, rs: seq<Expr>): seq<Expr>
  {
    if ls == [] then [] else PairWith(ls[0], rs) + PairAll(ls[1..], rs)
  }

  /** generate_expressions (expression_finder.py:32-45). */
  function Expressions(ns: seq<int>): seq<Expr>
    requires |ns| >= 1
    decreases |ns|, |ns|
  {
    if |ns| == 1 then Wrapped(Num(ns[0])) else SplitsFrom(ns, 1)
  }

  /** The trees of the splits `ns[..i] | ns[i..]`, `ns[..i + 1] | ns[i + 1..]`,
      ..., up to the last split (expression_finder.py:38-39). */
  function SplitsFrom(ns: seq<int>, i: nat): seq<Expr>
    requires 1 <= i <= |ns|
    decreases |ns|, |ns| - i
  {
    if i == |ns| then []
    else PairAll(Expressions(ns[..i]), Expressions(ns[i..])) + SplitsFrom(ns, i + 1)
  }

  /** A tree without its unary wrap, if it has one. */
  function Core(e: Expr): Expr {
    if e.Un? then e.arg else e
  }

  // ---------------------------------------------------------------------
  // Which trees are generated.

  lemma WrappedMembers(c: Expr, e: Expr)
    requires !c.Un?
    ensures e in Wrapped(c) <==> Core(e) == c
  {
    var w := Wrapped(c);
    assert w[1] == Un(SquareRoot, c) && w[2] == Un(Factorial, c) && w[3] == Un(DoubleFactorial, c);
    if Core(e) == c && e.Un? {
      match e.uop
      case SquareRoot => assert e == w[1];
      case Factorial => assert e == w[2];
      case DoubleFactorial => assert e == w[3];
    }
  }

  lemma {:induction false} WrapEachMembers(ops: seq<BinaryOp>, l: Expr, r: Expr, e: Expr)
    ensures e in WrapEach(ops, l, r) <==> Core(e).Bin? && Core(e).op in ops && Core(e).left == l && Core(e).right == r
    decreases |ops|
  {
    if ops != [] {
      WrappedMembers(Bin(ops[0], l, r), e);
      WrapEachMembers(ops[1..], l, r, e);
      assert ops == [ops[0]] + ops[1..];
    }
  }

  /** The root's children are `l` and `r`, under any of the five operators. */
  lemma CombineMembers(l: Expr, r: Expr, e: Expr)
    ensures e in Combine(l, r) <==> Core(e).Bin? && Core(e).left == l && Core(e).right == r
  {
    WrapEachMembers(BinaryOperations, l, r, e);
    if Core(e).Bin? {
      assert Core(e).op in BinaryOperations by {
        match Core(e).op
        case Add => assert BinaryOperations[0] == Add;
        case Subtract => assert BinaryOperations[1] == Subtract;
        case Multiply => assert BinaryOperations[2] == Multiply;
        case Divide => assert BinaryOperations[3] == Divide;
        case Power => assert BinaryOperations[4] == Power;
      }
    }
  }

  lemma {:induction false} PairWithMembers(l: Expr, rs: seq<Expr>, e: Expr)
    ensures e in PairWith(l, rs) <==> Core(e).Bin? && Core(e).left == l && Core(e).right in rs
    decreases |rs|
  {
    if rs != [] {
      CombineMembers(l, rs[0], e);
      PairWithMembers(l, rs[1..], e);
      assert rs == [rs[0]] + rs[1..];
    }
  }

  lemma {:induction false} PairAllMembers(ls: seq<Expr>, rs: seq<Expr>, e: Expr)
    ensures e in PairAll(ls, rs) <==> Core(e).Bin? && Core(e).left in ls && Core(e).right in rs
    decreases |ls|
  {
    if ls != [] {
      PairWithMembers(ls[0], rs, e);
      PairAllMembers(ls[1..], rs, e);
      assert ls == [ls[0]] + ls[1..];
    }
  }

  /** A tree of the splits from `i` on is a binary tree (possibly wrapped)
      whose children come from one split `j >= i`. */
  lemma {:induction false} SplitsFromSplit(ns: seq<int>, i: nat, e: Expr) returns (j: nat)
    requires 1 <= i <= |ns| && e in SplitsFrom(ns, i)
    ensures i <= j < |ns| && Core(e).Bin?
    ensures Core(e).left in Expressions(ns[..j]) && Core(e).right in Expressions(ns[j..])
    decreases |ns| - i
  {
    var head := PairAll(Expressions(ns[..i]), Expressions(ns[i..]));
    assert SplitsFrom(ns, i) == head + SplitsFrom(ns, i + 1);
    if e in head {
      PairAllMembers(Expressions(ns[..i]), Expressions(ns[i..]), e);
      j := i;
    } else {
      j := SplitsFromSplit(ns, i + 1, e);
    }
  }

  /** Every binary tree (possibly wrapped) whose children come from a split
      `j >= i` is among the trees of the splits from `i` on. */
  lemma {:induction false} SplitsFromHas(ns: seq<int>, i: nat, j: nat, e: Expr)
    requires 1 <= i <= j < |ns| && Core(e).Bin?
    requires Core(e).left in Expressions(ns[..j]) && Core(e).right in Expressions(ns[j..])
    ensures e in SplitsFrom(ns, i)
    decreases |ns| - i
  {
    var head := PairAll(Expressions(ns[..i]), Expressions(ns[i..]));
    assert SplitsFrom(ns, i) == head + SplitsFrom(ns, i + 1);
    if j == i {
      PairAllMembers(Expressions(ns[..i]), Expressions(ns[i..]), e);
    } else {
      SplitsFromHas(ns, i + 1, j, e);
    }
  }

  /** The trees over `ns` are exactly the trees whose leaves, read left to
      right, are `ns` and in which no unary node sits directly on another. */
  lemma {:induction false} ExpressionsExactly(ns: seq<int>, e: Expr)
    requires |ns| >= 1
    ensures e in Expressions(ns) <==> Leaves(e) == ns && NoStackedUnary(e)
    decreases |ns|, 1
  {
    if |ns| == 1 {
      SingleExactly(ns[0], e);
    } else {
      if e in Expressions(ns) {
        GeneratedShape(ns, e);
      }
      if Leaves(e) == ns && NoStackedUnary(e) {
        ShapeGenerated(ns, e);
      }
    }
  }

  lemma SingleExactly(x: int, e: Expr)
    ensures e in Wrapped(Num(x)) <==> Leaves(e) == [x] && NoStackedUnary(e)
  {
    var c := Core(e);
    WrappedMembers(Num(x), e);
    if Leaves(e) == [x] && NoStackedUnary(e) {
      assert !c.Un? && Leaves(c) == [x];
    }
  }

  lemma {:induction false} GeneratedShape(ns: seq<int>, e: Expr)
    requires |ns| >= 2 && e in Expressions(ns)
    ensures Leaves(e) == ns && NoStackedUnary(e)
    decreases |ns|, 0
  {
    var c := Core(e);
    var j := SplitsFromSplit(ns, 1, e);
    ExpressionsExactly(ns[..j], c.left);
    ExpressionsExactly(ns[j..], c.right);
    assert ns == ns[..j] + ns[j..];
    assert Leaves(c) == ns && NoStackedUnary(c);
  }

  lemma {:induction false} ShapeGenerated(ns: seq<int>, e: Expr)
    requires |ns| >= 2 && Leaves(e) == ns && NoStackedUnary(e)
    ensures e in Expressions(ns)
    decreases |ns|, 0
  {
    var c := Core(e);
    assert !c.Un? && Leaves(c) == ns && NoStackedUnary(c);
    assert c.Bin?;
    var j := |Leaves(c.left)|;
    assert ns[..j] == Leaves(c.left) && ns[j..] == Leaves(c.right);
    ExpressionsExactly(ns[..j], c.left);
    ExpressionsExactly(ns[j..], c.right);
    SplitsFromHas(ns, 1, j, e);
  }

  /** On one number the generator yields the number and its three unary
      wraps, in registry order (expression_finder.py:33-36). */
  lemma ExpressionsSingle(x: int)
    ensures Expressions([x]) == [Num(x), Un(SquareRoot, Num(x)), Un(Factorial, Num(x)), Un(DoubleFactorial, Num(x))]
  {
    var w := Wrapped(Num(x));
    assert w[1] == Un(SquareRoot, Num(x)) && w[2] == Un(Factorial, Num(x)) && w[3] == Un(DoubleFactorial, Num(x));
  }

  // ---------------------------------------------------------------------
  // How many trees are generated.

  /** E(1) = 4 and E(n) = 20 * (E(1) E(n-1) + ... + E(n-1) E(1)). */
  function ExprCount(n: nat): nat
    requires n >= 1
    decreases n, n
  {
    if n == 1 then 4 else 20 * PairCounts(n, 1)
  }

  /** E(i) E(n-i) + E(i+1) E(n-i-1) + ... + E(n-1) E(1). */
  function PairCounts(n: nat, i: nat): nat
    requires 1 <= i <= n
    decreases n, n - i
  {
    if i == n then 0 else ExprCount(i) * ExprCount(n - i) + PairCounts(n, i + 1)
  }

  lemma {:induction false} PairAllCount(ls: seq<Expr>, rs: seq<Expr>)
    ensures |PairAll(ls, rs)| == 20 * (|ls| * |rs|)
    decreases |ls|
  {
    if ls != [] {
      PairAllCount(ls[1..], rs);
      assert |ls| * |rs| == |rs| + (|ls| - 1) * |rs|;
    }
  }

  lemma {:induction false} ExpressionsCount(ns: seq<int>)
    requires |ns| >= 1
    ensures |Expressions(ns)| == ExprCount(|ns|)
    decreases |ns|, 1
  {
    if |ns| > 1 {
      SplitsFromCount(ns, 1);
    }
  }

  lemma {:induction false} SplitsFromCount(ns: seq<int>, i: nat)
    requires 1 <= i <= |ns|
    ensures |SplitsFrom(ns, i)| == 20 * PairCounts(|ns|, i)
    decreases |ns|, 0, |ns| - i
  {
    if i < |ns| {
      var ls, rs := Expressions(ns[..i]), Expressions(ns[i..]);
      ExpressionsCount(ns[..i]);
      ExpressionsCount(ns[i..]);
      SplitsFromCount(ns, i + 1);
      PairAllCount(ls, rs);
      var m := |ls| * |rs|;
      assert m == ExprCount(i) * ExprCount(|ns| - i) by {
        assert |ns[..i]| == i && |ns[i..]| == |ns| - i;
      }
      assert PairCounts(|ns|, i) == m + PairCounts(|ns|, i + 1);
      assert |SplitsFrom(ns, i)| == |PairAll(ls, rs)| + |SplitsFrom(ns, i + 1)|;
    }
  }

  /** For four numbers there are 4, 320, 51 200 and 10 240 000 trees over
      groupings of one, two, three and four numbers. */
  lemma ExprCountValues()
    ensures ExprCount(1) == 4 && ExprCount(2) == 320 && ExprCount(3) == 51200 && ExprCount(4) == 10240000
  {
    assert PairCounts(2, 1) == 16;
    assert PairCounts(3, 1) == 2560;
    assert PairCounts(4, 3) == 51200 * 4;
    assert PairCounts(4, 2) == 320 * 320 + 51200 * 4;
  }

  // ---------------------------------------------------------------------
  // No tree is generated twice.

  lemma WrappedNoDups(c: Expr)
    requires !c.Un?
    ensures NoDups(Wrapped(c))
  {
    var w := Wrapped(c);
    assert w[0] == c && w[1] == Un(SquareRoot, c) && w[2] == Un(Factorial, c) && w[3] == Un(DoubleFactorial, c);
  }

  lemma {:induction false} WrapEachNoDups(ops: seq<BinaryOp>, l: Expr, r: Expr)
    requires NoDups(ops)
    ensures NoDups(WrapEach(ops, l, r))
    decreases |ops|
  {
    if ops != [] {
      var head, tail := Wrapped(Bin(ops[0], l, r)), WrapEach(ops[1..], l, r);
      assert NoDups(head) by {
        WrappedNoDups(Bin(ops[0], l, r));
      }
      assert NoDups(tail) by {
        NoDupsTail(ops);
        WrapEachNoDups(ops[1..], l, r);
      }
      assert forall x :: x in head ==> x !in tail by {
        NoDupsHeadApart(ops);
        forall x | x in head ensures x !in tail {
          WrappedMembers(Bin(ops[0], l, r), x);
          WrapEachMembers(ops[1..], l, r, x);
        }
      }
      NoDupsAppend(head, tail);
    }
  }

  lemma CombineNoDups(l: Expr, r: Expr)
    ensures NoDups(Combine(l, r))
  {
    WrapEachNoDups(BinaryOperations, l, r);
  }

  lemma {:induction false} PairWithNoDups(l: Expr, rs: seq<Expr>)
    requires NoDups(rs)
    ensures NoDups(PairWith(l, rs))
    decreases |rs|
  {
    if rs != [] {
      var head, tail := Combine(l, rs[0]), PairWith(l, rs[1..]);
      assert NoDups(head) by {
        CombineNoDups(l, rs[0]);
      }
      assert NoDups(tail) by {
        NoDupsTail(rs);
        PairWithNoDups(l, rs[1..]);
      }
      assert forall x :: x in head ==> x !in tail by {
        NoDupsHeadApart(rs);
        forall x | x in head ensures x !in tail {
          CombineMembers(l, rs[0], x);
          PairWithMembers(l, rs[1..], x);
        }
      }
      NoDupsAppend(head, tail);
    }
  }

  lemma {:induction false} PairAllNoDups(ls: seq<Expr>, rs: seq<Expr>)
    requires NoDups(ls) && NoDups(rs)
    ensures NoDups(PairAll(ls, rs))
    decreases |ls|
  {
    if ls != [] {
      var head, tail := PairWith(ls[0], rs), PairAll(ls[1..], rs);
      assert NoDups(head) by {
        PairWithNoDups(ls[0], rs);
      }
      assert NoDups(tail) by {
        NoDupsTail(ls);
        PairAllNoDups(ls[1..], rs);
      }
      assert forall x :: x in head ==> x !in tail by {
        NoDupsHeadApart(ls);
        forall x | x in head ensures x !in tail {
          PairWithMembers(ls[0], rs, x);
          PairAllMembers(ls[1..], rs, x);
        }
      }
      NoDupsAppend(head, tail);
    }
  }

  lemma NoDupsTail<T>(s: seq<T>)
    requires s != [] && NoDups(s)
    ensures NoDups(s[1..])
  {
    forall i, j | 0 <= i < j < |s[1..]| ensures s[1..][i] != s[1..][j] {
      assert s[1..][i] == s[i + 1] && s[1..][j] == s[j + 1];
    }
  }

  lemma NoDupsHeadApart<T>(s: seq<T>)
    requires s != [] && NoDups(s)
    ensures s[0] !in s[1..]
  {
    forall k | 0 <= k < |s[1..]| ensures s[1..][k] != s[0] {
      assert s[1..][k] == s[k + 1];
    }
  }

  /** The generator never yields the same tree twice, so the count above
      counts different trees. */
  lemma {:induction false} ExpressionsNoDups(ns: seq<int>)
    requires |ns| >= 1
    ensures NoDups(Expressions(ns))
    decreases |ns|, 1
  {
    if |ns| == 1 {
      WrappedNoDups(Num(ns[0]));
    } else {
      SplitsFromNoDups(ns, 1);
    }
  }

  lemma {:induction false} SplitsFromNoDups(ns: seq<int>, i: nat)
    requires 1 <= i <= |ns|
    ensures NoDups(SplitsFrom(ns, i))
    decreases |ns|, 0, |ns| - i
  {
    if i < |ns| {
      var ls, rs := Expressions(ns[..i]), Expressions(ns[i..]);
      var head, tail := PairAll(ls, rs), SplitsFrom(ns, i + 1);
      assert NoDups(head) by {
        ExpressionsNoDups(ns[..i]);
        ExpressionsNoDups(ns[i..]);
        PairAllNoDups(ls, rs);
      }
      assert NoDups(tail) by {
        SplitsFromNoDups(ns, i + 1);
      }
      assert forall x :: x in head ==> x !in tail by {
        forall x | x in head ensures x !in tail {
          SplitsApart(ns, i, x);
        }
      }
      NoDupsAppend(head, tail);
    }
  }

  lemma SplitsApart(ns: seq<int>, i: nat, x: Expr)
    requires 1 <= i < |ns| && x in PairAll(Expressions(ns[..i]), Expressions(ns[i..]))
    ensures x !in SplitsFrom(ns, i + 1)
  {
    SplitAt(ns, i, x);
    SplitsFromLater(ns, i + 1, x);
  }

  /** A tree of the split at `i` has a left subtree with `i` leaves. */
  lemma SplitAt(ns: seq<int>, i: nat, x: Expr)
    requires 1 <= i < |ns| && x in PairAll(Expressions(ns[..i]), Expressions(ns[i..]))
    ensures Core(x).Bin? && |Leaves(Core(x).left)| == i
  {
    PairAllMembers(Expressions(ns[..i]), Expressions(ns[i..]), x);
    ExpressionsExactly(ns[..i], Core(x).left);
  }

  /** A tree whose left subtree has fewer than `i` leaves is not among the
      trees of the splits from `i` on. */
  lemma SplitsFromLater(ns: seq<int>, i: nat, x: Expr)
    requires 1 <= i <= |ns| && Core(x).Bin? && |Leaves(Core(x).left)| < i
    ensures x !in SplitsFrom(ns, i)
  {
    if x in SplitsFrom(ns, i) {
      var j := SplitsFromSplit(ns, i, x);
      ExpressionsExactly(ns[..j], Core(x).left);
    }
  }

}

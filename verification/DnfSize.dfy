/** How large the normal forms of module Dnf can get. */
module DnfSize {
  import opened Expression
  import opened Dnf

  function Pow3(k: nat): (p: nat)
    ensures p >= 1 && (k >= 1 ==> p >= 3) && (k >= 2 ==> p >= 9)
  {
    if k == 0 then 1 else 3 * Pow3(k - 1)
  }

  lemma MulAssoc(a: nat, b: nat, c: nat)
    ensures a * (b * c) == (a * b) * c
  {
  }

  lemma {:induction false} Pow3Adds(p: nat, q: nat)
    ensures Pow3(p + q) == Pow3(p) * Pow3(q)
  {
    if p > 0 {
      Pow3Adds(p - 1, q);
      assert Pow3(p + q) == 3 * Pow3((p - 1) + q);
      MulAssoc(3, Pow3(p - 1), Pow3(q));
    }
  }

  function Cube(x: nat): nat { x * x * x }

  /** Number of leaf occurrences. */
  function Leaves(n: Node): nat
    decreases n, 1
  {
    match n
    case And(cs) => LeavesOf(cs)
    case Or(cs) => LeavesOf(cs)
    case Not(c) => Leaves(c)
    case _ => 1
  }

  function LeavesOf(cs: seq<Node>): nat
    decreases cs, 0
  {
    if cs == [] then 0 else LeavesOf(cs[..|cs| - 1]) + Leaves(cs[|cs| - 1])
  }

  /** Every and/or node has a child. The parser produces no other trees. */
  predicate Inhabited(n: Node) {
    match n
    case And(cs) => cs != [] && forall i | 0 <= i < |cs| :: Inhabited(cs[i])
    case Or(cs) => cs != [] && forall i | 0 <= i < |cs| :: Inhabited(cs[i])
    case Not(c) => Inhabited(c)
    case _ => true
  }

  lemma {:induction false} LeavesPositive(n: Node)
    requires Inhabited(n)
    ensures Leaves(n) >= 1
  {
    match n
    case And(cs) => LeavesPositive(cs[|cs| - 1]);
    case Or(cs) => LeavesPositive(cs[|cs| - 1]);
    case Not(c) => LeavesPositive(c);
    case _ =>
  }

  lemma {:induction false} CrossSize(a: Groups, b: Groups)
    ensures |Cross(a, b)| == |a| * |b|
  {
    if a != [] {
      CrossSize(a[..|a| - 1], b);
      assert (|a| - 1) * |b| + |b| == |a| * |b|;
    }
  }

  lemma MulMono(a: nat, b: nat, c: nat, d: nat)
    requires a <= b && c <= d
    ensures a * c <= b * d
  {
    assert a * c <= b * c by { assert (b - a) * c >= 0; }
    assert b * c <= b * d by { assert b * (d - c) >= 0; }
  }

  lemma CubeOfProduct(x: nat, y: nat)
    ensures Cube(x * y) == Cube(x) * Cube(y)
  {
    calc {
      (x * y) * (x * y) * (x * y);
      (x * y) * (x * y * x) * y;
      { assert x * y * x == x * x * y; }
      (x * y) * (x * x * y) * y;
      { assert (x * y) * (x * x * y) == (x * x * x) * (y * y); }
      (x * x * x) * (y * y) * y;
      (x * x * x) * (y * y * y);
    }
  }

  lemma CubeMono(x: nat, y: nat)
    requires x <= y
    ensures Cube(x) <= Cube(y)
  {
    MulMono(x, y, x, y);
    MulMono(x * x, y * y, x, y);
  }

  /** (y + 1)^3 <= 3 y^3 from y = 3 on. */
  lemma SuccessorCube(y: nat)
    requires y >= 3
    ensures Cube(y + 1) <= 3 * Cube(y)
  {
    var y2 := y * y;
    assert Cube(y) == y2 * y;
    assert Cube(y + 1) == y2 * y + 3 * y2 + 3 * y + 1 by {
      assert (y + 1) * (y + 1) == y2 + 2 * y + 1;
      assert (y2 + 2 * y + 1) * (y + 1) == (y2 + 2 * y + 1) * y + (y2 + 2 * y + 1);
      assert (y2 + 2 * y + 1) * y == y2 * y + 2 * y * y + y;
    }
    assert y2 * y >= y2 * 3 by { MulMono(y2, y2, 3, y); }
    assert y2 >= 3 * y by { MulMono(3, y, y, y); }
    assert y2 * y >= 3 * y2 >= 9 * y;
  }

  /** A single group beside y groups. */
  lemma CubePlusOne(y: nat, q: nat)
    requires q >= 1 && Cube(y) <= Pow3(q)
    ensures Cube(y + 1) <= 3 * Pow3(q)
  {
    if y >= 3 {
      SuccessorCube(y);
    } else if y == 2 {
      assert Cube(2) == 8 && Cube(3) == 27;
      assert Pow3(1) == 3;
      assert q >= 2;
    } else {
      assert Cube(0) == 0 && Cube(1) == 1 && Cube(2) == 8;
    }
  }

  /** Sums of sizes respect the bound, because powers of three outgrow them. */
  lemma CubeOfSum(x: nat, y: nat, p: nat, q: nat)
    requires p >= 1 && q >= 1 && Cube(x) <= Pow3(p) && Cube(y) <= Pow3(q)
    ensures Cube(x + y) <= Pow3(p + q)
  {
    Pow3Adds(p, q);
    MulMono(1, Pow3(p), Pow3(q), Pow3(q));
    MulMono(Pow3(p), Pow3(p), 1, Pow3(q));
    if x == 0 || y == 0 {
    } else if x == 1 {
      CubePlusOne(y, q);
      MulMono(3, Pow3(p), Pow3(q), Pow3(q));
    } else if y == 1 {
      CubePlusOne(x, p);
      MulMono(Pow3(p), Pow3(p), 3, Pow3(q));
    } else {
      assert x + y <= x * y by { assert (x - 1) * (y - 1) >= 1 by { MulMono(1, x - 1, 1, y - 1); } }
      CubeMono(x + y, x * y);
      CubeOfProduct(x, y);
      MulMono(Cube(x), Pow3(p), Cube(y), Pow3(q));
    }
  }

  /** The number of groups: |to_dnf(n)|^3 <= 3^leaves(n), and the same for the negated form. */
  lemma {:induction false} SizeBound(n: Node, negate: bool)
    requires Inhabited(n)
    ensures Cube(|Form(n, negate)|) <= Pow3(Leaves(n))
    decreases n, 1
  {
    match n
    case And(cs) => if negate { UnionBound(cs, negate); } else { ProductBound(cs, negate); }
    case Or(cs) => if negate { ProductBound(cs, negate); } else { UnionBound(cs, negate); }
    case Not(c) => SizeBound(c, !negate);
    case _ =>
      assert Cube(1) == 1;
  }

  lemma {:induction false} UnionBound(cs: seq<Node>, negate: bool)
    requires forall i :: 0 <= i < |cs| ==> Inhabited(cs[i])
    ensures cs != [] ==> LeavesOf(cs) >= 1
    ensures Cube(|Union(cs, negate)|) <= Pow3(LeavesOf(cs))
    decreases cs, 0
  {
    if cs != [] {
      var init, last := cs[..|cs| - 1], cs[|cs| - 1];
      UnionBound(init, negate);
      SizeBound(last, negate);
      LeavesPositive(last);
      if init != [] {
        CubeOfSum(|Union(init, negate)|, |Form(last, negate)|, LeavesOf(init), Leaves(last));
      }
    }
  }

  lemma {:induction false} ProductBound(cs: seq<Node>, negate: bool)
    requires forall i :: 0 <= i < |cs| ==> Inhabited(cs[i])
    ensures Cube(|Product(cs, negate)|) <= Pow3(LeavesOf(cs))
    decreases cs, 0
  {
    if cs == [] {
      assert Cube(1) == 1;
    } else {
      var init, last := cs[..|cs| - 1], cs[|cs| - 1];
      ProductBound(init, negate);
      SizeBound(last, negate);
      CrossSize(Product(init, negate), Form(last, negate));
      CubeOfProduct(|Product(init, negate)|, |Form(last, negate)|);
      Pow3Adds(LeavesOf(init), Leaves(last));
      MulMono(Cube(|Product(init, negate)|), Pow3(LeavesOf(init)), Cube(|Form(last, negate)|), Pow3(Leaves(last)));
    }
  }

  // ---------------------------------------------------------------- the bound is attained

  /** A conjunction of k three-way disjunctions of the given leaf. */
  function Widest(leaf: Node, k: nat): Node {
    And(seq(k, _ => Or([leaf, leaf, leaf])))
  }

  lemma SnocLeaf(cs: seq<Node>, leaf: Node)
    requires IsLeaf(leaf)
    ensures |Union(cs + [leaf], false)| == |Union(cs, false)| + 1 && LeavesOf(cs + [leaf]) == LeavesOf(cs) + 1
  {
    var all := cs + [leaf];
    assert all[..|all| - 1] == cs && all[|all| - 1] == leaf;
    assert Union(all, false) == Union(cs, false) + Form(leaf, false);
    assert Form(leaf, false) == [[leaf]];
  }

  lemma ThreeWay(leaf: Node)
    requires IsLeaf(leaf)
    ensures |ToDnfSpec(Or([leaf, leaf, leaf]))| == 3 && Leaves(Or([leaf, leaf, leaf])) == 3
  {
    SnocLeaf([], leaf);
    SnocLeaf([leaf], leaf);
    SnocLeaf([leaf, leaf], leaf);
    assert [leaf, leaf, leaf] == [leaf, leaf] + [leaf] && [leaf, leaf] == [leaf] + [leaf] && [leaf] == [] + [leaf];
  }

  lemma ProductSnoc(cs: seq<Node>, n: Node)
    ensures |Product(cs + [n], false)| == |Product(cs, false)| * |ToDnfSpec(n)|
    ensures LeavesOf(cs + [n]) == LeavesOf(cs) + Leaves(n)
  {
    var all := cs + [n];
    assert all[..|all| - 1] == cs && all[|all| - 1] == n;
    assert Form(n, false) == ToDnfSpec(n);
    assert Product(all, false) == Cross(Product(cs, false), Form(n, false));
    CrossSize(Product(cs, false), ToDnfSpec(n));
  }

  lemma {:induction false} PowerSize(n: Node, k: nat)
    requires |ToDnfSpec(n)| == 3 && Leaves(n) == 3
    ensures |Product(seq(k, _ => n), false)| == Pow3(k) && LeavesOf(seq(k, _ => n)) == 3 * k
  {
    hide ToDnfSpec, Leaves;
    if k > 0 {
      hide Product, LeavesOf;
      PowerSize(n, k - 1);
      ProductSnoc(seq(k - 1, _ => n), n);
      assert seq(k, _ => n) == seq(k - 1, _ => n) + [n];
    } else {
      assert seq(k, _ => n) == [];
    }
  }

  lemma {:induction false} CubeOfPow3(k: nat)
    ensures Cube(Pow3(k)) == Pow3(3 * k)
  {
    Pow3Adds(k, k);
    Pow3Adds(k + k, k);
  }

  /** The bound is tight: conjunctions of three-way disjunctions meet it with equality. */
  lemma SizeBoundAttained(leaf: Node, k: nat)
    requires IsLeaf(leaf) && k >= 1
    ensures Inhabited(Widest(leaf, k))
    ensures Cube(|ToDnfSpec(Widest(leaf, k))|) == Pow3(Leaves(Widest(leaf, k)))
  {
    var n := Or([leaf, leaf, leaf]);
    ThreeWay(leaf);
    PowerSize(n, k);
    CubeOfPow3(k);
    assert Inhabited(n);
    assert Widest(leaf, k) == And(seq(k, _ => n));
  }

  // ---------------------------------------------------------------- the shape of a group

  /** Every group has at most `m` terms, all of them leaves. */
  predicate Shaped(groups: Groups, m: nat) {
    forall i | 0 <= i < |groups| :: |groups[i]| <= m && forall j | 0 <= j < |groups[i]| :: IsLeaf(groups[i][j])
  }

  lemma {:induction false} CrossShaped(a: Groups, b: Groups, p: nat, q: nat)
    requires Shaped(a, p) && Shaped(b, q)
    ensures Shaped(Cross(a, b), p + q)
  {
    if a != [] {
      CrossShaped(a[..|a| - 1], b, p, q);
    }
  }

  /** Groups never have more terms than the tree has leaves, and their terms are leaves. */
  lemma {:induction false} GroupsAreShaped(n: Node, negate: bool)
    ensures Shaped(Form(n, negate), Leaves(n))
    decreases n, 1
  {
    match n
    case And(cs) => ListsAreShaped(cs, negate);
    case Or(cs) => ListsAreShaped(cs, negate);
    case Not(c) => GroupsAreShaped(c, !negate);
    case _ =>
  }

  lemma {:induction false} ListsAreShaped(cs: seq<Node>, negate: bool)
    ensures Shaped(Union(cs, negate), LeavesOf(cs)) && Shaped(Product(cs, negate), LeavesOf(cs))
    decreases cs, 0
  {
    if cs != [] {
      var init, last := cs[..|cs| - 1], cs[|cs| - 1];
      ListsAreShaped(init, negate);
      GroupsAreShaped(last, negate);
      CrossShaped(Product(init, negate), Form(last, negate), LeavesOf(init), Leaves(last));
    }
  }
}

/** Heat conduction networks: symmetric conductance matrices with grounded nodes. Uniqueness of the
    steady state, the minimum principle, and conservation of heat. */
module Conduction {
  import opened RealFunctions
  import opened Sums
  import opened LupMatrix
  import opened Lup

  /** A conductance matrix: symmetric, no negative conductance between nodes, and every row sums to the
      node's conductance to the ambient. */
  ghost predicate Conductive(b: Matrix, amb: seq<real>, n: nat) {
    && Square(b, n) && |amb| == n
    && (forall i, j :: 0 <= i < n && 0 <= j < n ==> b[i][j] == b[j][i])
    && (forall i, j :: 0 <= i < n && 0 <= j < n && i != j ==> b[i][j] <= 0.0)
    && (forall i :: 0 <= i < n ==> amb[i] >= 0.0 && Sum(n, RowEntry(b, i)) == amb[i])
  }

  ghost function RowEntry(b: Matrix, i: int): int -> real {
    j => Get(b, i, j)
  }

  /** Heat can flow from node `i` to the ambient in at most `k` hops. */
  ghost predicate Grounded(b: Matrix, amb: seq<real>, n: nat, i: int, k: nat)
    requires Conductive(b, amb, n) && 0 <= i < n
    decreases k
  {
    amb[i] > 0.0 || (k > 0 && exists j :: 0 <= j < n && j != i && b[i][j] < 0.0 && Grounded(b, amb, n, j, k - 1))
  }

  lemma {:induction false} ArgMin(t: seq<real>) returns (i: nat)
    requires |t| > 0
    ensures i < |t| && forall j :: 0 <= j < |t| ==> t[i] <= t[j]
  {
    if |t| == 1 {
      i := 0;
    } else {
      var k := ArgMin(t[..|t| - 1]);
      i := if t[|t| - 1] < t[k] then |t| - 1 else k;
    }
  }

  lemma {:induction false} NonpositiveSum(n: nat, f: int -> real)
    requires forall j :: 0 <= j < n ==> f(j) <= 0.0
    ensures Sum(n, f) <= 0.0
    ensures Sum(n, f) == 0.0 ==> forall j :: 0 <= j < n ==> f(j) == 0.0
  {
    if n > 0 { NonpositiveSum(n - 1, f); }
  }

  /** Heat drawn at node `i`, relative to its own temperature. */
  ghost function FlowTerm(b: Matrix, t: seq<real>, i: int): int -> real {
    j => Get(b, i, j) * (At(t, j) - At(t, i))
  }

  lemma RowAsFlow(b: Matrix, amb: seq<real>, n: nat, t: seq<real>, i: nat)
    requires Conductive(b, amb, n) && |t| == n && i < n
    ensures Sum(n, RowTerm(b, t, i)) == Sum(n, FlowTerm(b, t, i)) + Times(t[i], amb[i])
  {
    var scaled := (j: int) => t[i] * RowEntry(b, i)(j);
    SumScale(n, t[i], RowEntry(b, i));
    SumEqual(n, scaled, j => t[i] * RowEntry(b, i)(j));
    SumAdd(n, FlowTerm(b, t, i), scaled);
    forall j | 0 <= j < n ensures RowTerm(b, t, i)(j) == FlowTerm(b, t, i)(j) + scaled(j) {}
    SumEqual(n, RowTerm(b, t, i), j => FlowTerm(b, t, i)(j) + scaled(j));
  }

  /** At a coldest node that receives no heat from outside and is below ambient, nothing flows: it has no
      ambient link and all its neighbours are as cold. */
  lemma ColdestNode(b: Matrix, amb: seq<real>, n: nat, t: seq<real>, q: seq<real>, i: nat)
    requires Conductive(b, amb, n) && Solves(b, t, q, n) && i < n && q[i] >= 0.0 && t[i] < 0.0
    requires forall j :: 0 <= j < n ==> t[i] <= t[j]
    ensures amb[i] == 0.0 && forall j :: 0 <= j < n && j != i && b[i][j] < 0.0 ==> t[j] == t[i]
  {
    hide FlowTerm, RowTerm, Times, Sum;
    RowAsFlow(b, amb, n, t, i);
    forall j: nat | j < n ensures FlowTerm(b, t, i)(j) <= 0.0 {
      FlowSign(b, t, i, j);
      NegativeTimes(if j == i then 0.0 else b[i][j], t[j] - t[i]);
    }
    NonpositiveSum(n, FlowTerm(b, t, i));
    NegativeTimes(t[i], amb[i]);
    forall j: nat | j < n && j != i && b[i][j] < 0.0 ensures t[j] == t[i] {
      FlowSign(b, t, i, j);
      NegativeTimes(b[i][j], t[j] - t[i]);
    }
  }

  /** No heat flows from a node to itself. */
  lemma FlowSign(b: Matrix, t: seq<real>, i: nat, j: nat)
    requires i < |t| && j < |t|
    ensures FlowTerm(b, t, i)(j) == if j == i then Times(0.0, 0.0) else Times(Get(b, i, j), t[j] - t[i])
  {
  }

  lemma NegativeTimes(x: real, y: real)
    requires x <= 0.0 && y >= 0.0
    ensures Times(x, y) <= 0.0 && (Times(x, y) == 0.0 && x < 0.0 ==> y == 0.0)
  {
  }

  lemma {:induction false} GroundedNotCold(b: Matrix, amb: seq<real>, n: nat, t: seq<real>, q: seq<real>, i: nat,
      k: nat)
    requires Conductive(b, amb, n) && Solves(b, t, q, n) && i < n && Grounded(b, amb, n, i, k)
    requires forall j :: 0 <= j < n ==> q[j] >= 0.0 && t[i] <= t[j]
    ensures t[i] >= 0.0
    decreases k
  {
    if t[i] < 0.0 {
      ColdestNode(b, amb, n, t, q, i);
      var j :| 0 <= j < n && j != i && b[i][j] < 0.0 && Grounded(b, amb, n, j, k - 1);
      GroundedNotCold(b, amb, n, t, q, j, k - 1);
    }
  }

  lemma {:induction false} MoreHops(b: Matrix, amb: seq<real>, n: nat, i: nat, k: nat, l: nat)
    requires Conductive(b, amb, n) && i < n && k <= l && Grounded(b, amb, n, i, k)
    ensures Grounded(b, amb, n, i, l)
    decreases k
  {
    if amb[i] <= 0.0 {
      var j :| 0 <= j < n && j != i && b[i][j] < 0.0 && Grounded(b, amb, n, j, k - 1);
      MoreHops(b, amb, n, j, k - 1, l - 1);
    }
  }

  /** Minimum principle: where no node is cooled from outside, no node is below ambient. */
  lemma MinimumPrinciple(b: Matrix, amb: seq<real>, n: nat, t: seq<real>, q: seq<real>, k: nat)
    requires Conductive(b, amb, n) && Solves(b, t, q, n) && forall j :: 0 <= j < n ==> q[j] >= 0.0
    requires forall i :: 0 <= i < n ==> Grounded(b, amb, n, i, k)
    ensures forall i :: 0 <= i < n ==> t[i] >= 0.0
  {
    if n > 0 {
      var i := ArgMin(t);
      GroundedNotCold(b, amb, n, t, q, i, k);
    }
  }

  function Negated(t: seq<real>): (r: seq<real>)
    ensures |r| == |t| && forall i :: 0 <= i < |t| ==> r[i] == -t[i]
  {
    seq(|t|, i requires 0 <= i < |t| => -t[i])
  }

  /** The matrix is nonsingular: B*T = 0 only for T = 0. */
  lemma OnlyZeroSolvesZero(b: Matrix, amb: seq<real>, n: nat, t: seq<real>, k: nat)
    requires Conductive(b, amb, n) && Solves(b, t, seq(n, i => 0.0), n)
    requires forall i :: 0 <= i < n ==> Grounded(b, amb, n, i, k)
    ensures forall i :: 0 <= i < n ==> t[i] == 0.0
  {
    var zero := seq(n, i => 0.0);
    MinimumPrinciple(b, amb, n, t, zero, k);
    forall i | 0 <= i < n ensures Sum(n, RowTerm(b, Negated(t), i)) == zero[i] {
      SumScale(n, -1.0, RowTerm(b, t, i));
      SumEqual(n, RowTerm(b, Negated(t), i), j => -1.0 * RowTerm(b, t, i)(j));
    }
    MinimumPrinciple(b, amb, n, Negated(t), zero, k);
  }

  function Difference(t: seq<real>, u: seq<real>): (r: seq<real>)
    requires |t| == |u|
    ensures |r| == |t| && forall i :: 0 <= i < |t| ==> r[i] == t[i] - u[i]
  {
    seq(|t|, i requires 0 <= i < |t| => t[i] - u[i])
  }

  /** The solution is unique. */
  lemma UniqueSolution(b: Matrix, amb: seq<real>, n: nat, t: seq<real>, u: seq<real>, q: seq<real>, k: nat)
    requires Conductive(b, amb, n) && Solves(b, t, q, n) && Solves(b, u, q, n)
    requires forall i :: 0 <= i < n ==> Grounded(b, amb, n, i, k)
    ensures t == u
  {
    hide Conductive, Grounded;
    var d, zero := Difference(t, u), seq(n, i => 0.0);
    forall i | 0 <= i < n ensures Sum(n, RowTerm(b, d, i)) == zero[i] {
      DifferenceRow(b, t, u, n, i);
    }
    OnlyZeroSolvesZero(b, amb, n, d, k);
    forall i | 0 <= i < n ensures t[i] == u[i] { assert d[i] == 0.0; }
  }

  lemma {:induction false} DifferenceRow(b: Matrix, t: seq<real>, u: seq<real>, n: nat, i: int)
    requires n <= |t| == |u|
    ensures Sum(n, RowTerm(b, Difference(t, u), i)) == Sum(n, RowTerm(b, t, i)) - Sum(n, RowTerm(b, u, i))
  {
    if n > 0 {
      DifferenceRow(b, t, u, n - 1, i);
      assert Get(b, i, n - 1) * (t[n - 1] - u[n - 1]) == Get(b, i, n - 1) * t[n - 1] - Get(b, i, n - 1) * u[n - 1];
    }
  }

  function Shifted(t: seq<real>, c: real): (r: seq<real>)
    ensures |r| == |t| && forall i :: 0 <= i < |t| ==> r[i] == t[i] - c
  {
    seq(|t|, i requires 0 <= i < |t| => t[i] - c)
  }

  /** Measuring temperatures from the ambient removes the ambient's share of the right-hand side. */
  lemma FromAmbient(b: Matrix, amb: seq<real>, n: nat, t: seq<real>, q: seq<real>, r: seq<real>, ambient: real)
    requires Conductive(b, amb, n) && Solves(b, t, r, n) && |q| == n
    requires forall i :: 0 <= i < n ==> r[i] == q[i] + ambient * amb[i]
    ensures Solves(b, Shifted(t, ambient), q, n)
  {
    forall i | 0 <= i < n ensures Sum(n, RowTerm(b, Shifted(t, ambient), i)) == q[i] {
      ShiftedRow(b, t, ambient, n, i);
    }
  }

  lemma {:induction false} ShiftedRow(b: Matrix, t: seq<real>, c: real, n: nat, i: int)
    requires n <= |t|
    ensures Sum(n, RowTerm(b, Shifted(t, c), i)) == Sum(n, RowTerm(b, t, i)) - c * Sum(n, RowEntry(b, i))
  {
    if n > 0 {
      ShiftedRow(b, t, c, n - 1, i);
      ShiftedTerm(Get(b, i, n - 1), t[n - 1], c, Sum(n - 1, RowEntry(b, i)));
    }
  }

  lemma ShiftedTerm(g: real, x: real, c: real, s: real)
    ensures g * (x - c) - c * s == g * x - c * (s + g)
  {
  }

  ghost function Ones(): int -> real { i => 1.0 }

  ghost function Whole(b: Matrix): (int, int) -> real { (i, j) => Get(b, i, j) }

  /** By symmetry the columns sum to the ambient conductances too. */
  lemma ColumnSum(b: Matrix, amb: seq<real>, n: nat, j: nat)
    requires Conductive(b, amb, n) && j < n
    ensures LeftMul(n, Ones(), Whole(b))(j) == amb[j]
  {
    SumIsDot(n, RowEntry(b, j), Ones(), ColumnOf(Whole(b), j));
  }

  lemma HeatOutwards(b: Matrix, amb: seq<real>, n: nat, t: seq<real>)
    requires Conductive(b, amb, n)
    ensures Sum(n, i => At(amb, i) * At(t, i)) == Dot(n, LeftMul(n, Ones(), Whole(b)), Components(t))
  {
    hide LeftMul, Dot, Sum;
    forall j: nat | j < n ensures LeftMul(n, Ones(), Whole(b))(j) == At(amb, j) { ColumnSum(b, amb, n, j); }
    SumIsDot(n, i => At(amb, i) * At(t, i), LeftMul(n, Ones(), Whole(b)), Components(t));
  }

  lemma HeatInwards(b: Matrix, n: nat, t: seq<real>, q: seq<real>)
    requires Solves(b, t, q, n)
    ensures Sum(n, i => At(q, i)) == Dot(n, Ones(), RightMul(n, Whole(b), Components(t)))
  {
    hide Dot, Sum;
    forall i: nat | i < n ensures RightMul(n, Whole(b), Components(t))(i) == At(q, i) {
      SumIsDot(n, RowTerm(b, t, i), RowOf(Whole(b), i), Components(t));
    }
    SumIsDot(n, i => At(q, i), Ones(), RightMul(n, Whole(b), Components(t)));
  }

  /** Conservation: the heat flowing to the ambient is the heat fed in. */
  lemma HeatConserved(b: Matrix, amb: seq<real>, n: nat, t: seq<real>, q: seq<real>)
    requires Conductive(b, amb, n) && Solves(b, t, q, n)
    ensures Sum(n, i => At(amb, i) * At(t, i)) == Sum(n, i => At(q, i))
  {
    HeatOutwards(b, amb, n, t);
    Associative(n, Ones(), Whole(b), Components(t));
    HeatInwards(b, n, t, q);
  }
}

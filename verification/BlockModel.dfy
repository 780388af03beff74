/** The block thermal model: the conductance matrix B built from pairwise conductances, the power of the
    package nodes, and the steady state they determine. */
module BlockModel {
  import opened Sums
  import opened LupMatrix
  import opened Lup
  import opened Conduction

  const NL: nat := 4
  const IFACE: nat := 1
  const HSP: nat := 2
  const HSINK: nat := 3
  const EXTRA: nat := 12
  const SINK_C_W: nat := 4

  function Nodes(n: nat): nat { NL * n + EXTRA }

  /** Series combination of the two half-conductances of a pair of nodes, as an off-diagonal entry. */
  function Link(g: real, h: real): real {
    if g == 0.0 || h == 0.0 || 1.0 / g + 1.0 / h == 0.0 then 0.0 else -1.0 / (1.0 / g + 1.0 / h)
  }

  lemma LinkSign(g: real, h: real)
    requires g >= 0.0 && h >= 0.0
    ensures Link(g, h) <= 0.0 && (g > 0.0 && h > 0.0 ==> Link(g, h) < 0.0) && Link(g, h) == Link(h, g)
    ensures g > 0.0 && h > 0.0 ==> 1.0 / g + 1.0 / h > 0.0
  {
  }

  /** Conductance from node `i` to the ambient: blocks of the heat sink layer and sink periphery. */
  function AmbientLink(gAmb: seq<real>, n: nat, i: nat): real
    requires |gAmb| == n + EXTRA
  {
    if HSINK * n <= i < NL * n then gAmb[i - HSINK * n]
    else if NL * n + SINK_C_W <= i < Nodes(n) then gAmb[n + i - NL * n]
    else 0.0
  }

  function AmbientLinks(gAmb: seq<real>, n: nat): (a: seq<real>)
    requires |gAmb| == n + EXTRA
    ensures |a| == Nodes(n) && forall i :: 0 <= i < |a| ==> a[i] == AmbientLink(gAmb, n, i)
  {
    seq(Nodes(n), i requires 0 <= i < Nodes(n) => AmbientLink(gAmb, n, i))
  }

  /** What the assembly of the pairwise conductances guarantees: none is negative, every block is linked
      down through interface, spreader and sink, every spreader edge to its sink edge, and the bottom nodes
      to the ambient. */
  ghost predicate Assembled(g: Matrix, gAmb: seq<real>, n: nat) {
    && Square(g, Nodes(n)) && |gAmb| == n + EXTRA
    && (forall i, j :: 0 <= i < Nodes(n) && 0 <= j < Nodes(n) ==> g[i][j] >= 0.0)
    && (forall i, j :: 0 <= i < HSINK * n && j == n + i ==> Bonded(g, i, j))
    && (forall i, j :: NL * n <= i < NL * n + SINK_C_W && j == i + SINK_C_W ==> Bonded(g, i, j))
    && (forall i :: 0 <= i < n + EXTRA ==> gAmb[i] >= 0.0)
    && (forall i :: 0 <= i < n || n + SINK_C_W <= i < n + EXTRA ==> gAmb[i] > 0.0)
  }

  /** Heat can flow between nodes `i` and `j`. */
  predicate Bonded(g: Matrix, i: int, j: int) {
    Get(g, i, j) > 0.0 && Get(g, j, i) > 0.0
  }

  /** The entries of B: symmetric links, and a diagonal that makes each row sum to the ambient link. */
  ghost predicate IsB(b: Matrix, g: Matrix, gAmb: seq<real>, n: nat) {
    && Square(b, Nodes(n)) && Square(g, Nodes(n)) && |gAmb| == n + EXTRA
    && (forall i, j :: 0 <= i < Nodes(n) && 0 <= j < Nodes(n) && i != j ==> b[i][j] == Link(g[i][j], g[j][i]))
    && (forall i :: 0 <= i < Nodes(n) ==> Sum(Nodes(n), RowEntry(b, i)) == AmbientLink(gAmb, n, i))
  }

  // ----- building B

  ghost function OffDiagonal(b: Matrix, i: int): int -> real {
    j => if j == i then 0.0 else Get(b, i, j)
  }

  lemma {:induction false} DiagonalAdded(b: Matrix, c: Matrix, i: nat, k: nat)
    requires forall j :: 0 <= j < k && j != i ==> Get(c, i, j) == Get(b, i, j)
    ensures Sum(k, RowEntry(c, i)) == Sum(k, OffDiagonal(b, i)) + (if i < k then Get(c, i, i) else 0.0)
  {
    if k > 0 { DiagonalAdded(b, c, i, k - 1); }
  }

  method FillLinks(b: array2<real>, g: array2<real>)
    requires b.Length0 == b.Length1 == g.Length0 == g.Length1 && b != g
    modifies b
    ensures forall i, j :: 0 <= i < b.Length0 && 0 <= j < b.Length0 && i != j ==> b[i, j] == Link(g[i, j], g[j, i])
  {
    hide Link;
    var m := b.Length0;
    for i := 0 to m
      invariant forall r, c :: 0 <= r < i && 0 <= c < i && r != c ==> b[r, c] == Link(g[r, c], g[c, r])
    {
      for j := 0 to i
        invariant forall r, c :: 0 <= r < i && 0 <= c < i && r != c ==> b[r, c] == Link(g[r, c], g[c, r])
        invariant forall c :: 0 <= c < j ==> b[i, c] == Link(g[i, c], g[c, i]) && b[c, i] == Link(g[c, i], g[i, c])
      {
        LinkSwap(g[i, j], g[j, i]);
        b[i, j] := Link(g[i, j], g[j, i]);
        b[j, i] := b[i, j];
      }
    }
  }

  lemma LinkSwap(g: real, h: real)
    ensures Link(g, h) == Link(h, g)
  {
  }

  /** Subtracts the other entries of row `i` from its ambient link. */
  method FillDiagonal(b: array2<real>, i: nat, link: real)
    requires b.Length0 == b.Length1 && i < b.Length0
    modifies b
    ensures forall r, c :: 0 <= r < b.Length0 && 0 <= c < b.Length0 && !(r == i && c == i) ==> b[r, c] == old(b[r, c])
    ensures Sum(b.Length0, RowEntry(Rows(b), i)) == link
  {
    var m := b.Length0;
    ghost var before := Rows(b);
    b[i, i] := link;
    for j := 0 to m
      invariant forall r, c :: 0 <= r < m && 0 <= c < m && !(r == i && c == i) ==> b[r, c] == old(b[r, c])
      invariant b[i, i] == link - Sum(j, OffDiagonal(before, i))
    {
      if i != j {
        b[i, i] := b[i, i] - b[i, j];
      }
    }
    DiagonalAdded(before, Rows(b), i, m);
  }

  /** Matrix B such that B * temperature = power in the steady state. */
  method BuildB(b: array2<real>, g: array2<real>, gAmb: array<real>, n: nat)
    requires b.Length0 == b.Length1 == g.Length0 == g.Length1 == Nodes(n) && gAmb.Length == n + EXTRA && b != g
    modifies b
    ensures IsB(Rows(b), Rows(g), gAmb[..], n)
  {
    FillLinks(b, g);
    for i := 0 to Nodes(n)
      invariant forall r, c :: 0 <= r < Nodes(n) && 0 <= c < Nodes(n) && r != c ==> b[r, c] == Link(g[r, c], g[c, r])
      invariant forall r :: 0 <= r < i ==> Sum(Nodes(n), RowEntry(Rows(b), r)) == AmbientLink(gAmb[..], n, r)
    {
      ghost var before := Rows(b);
      var link := if HSINK * n <= i < NL * n then gAmb[i - HSINK * n]
                  else if i >= NL * n + SINK_C_W then gAmb[n + i - NL * n] else 0.0;
      FillDiagonal(b, i, link);
      RowSumsKept(before, Rows(b), Nodes(n), i);
    }
  }

  lemma RowSumsKept(before: Matrix, after: Matrix, m: nat, i: nat)
    requires Square(before, m) && Square(after, m) && i < m
    requires forall r, c :: 0 <= r < i && 0 <= c < m ==> after[r][c] == before[r][c]
    ensures forall r :: 0 <= r < i ==> Sum(m, RowEntry(after, r)) == Sum(m, RowEntry(before, r))
  {
    forall r | 0 <= r < i ensures Sum(m, RowEntry(after, r)) == Sum(m, RowEntry(before, r)) {
      SumEqual(m, RowEntry(after, r), RowEntry(before, r));
    }
  }

  // ----- B is a grounded conductance matrix

  lemma BIsConductive(b: Matrix, g: Matrix, gAmb: seq<real>, n: nat)
    requires Assembled(g, gAmb, n) && IsB(b, g, gAmb, n)
    ensures Conductive(b, AmbientLinks(gAmb, n), Nodes(n))
  {
    forall i, j | 0 <= i < Nodes(n) && 0 <= j < Nodes(n) ensures b[i][j] == b[j][i] {
      if i != j { LinkSwap(g[i][j], g[j][i]); }
    }
    forall i, j | 0 <= i < Nodes(n) && 0 <= j < Nodes(n) && i != j ensures b[i][j] <= 0.0 {
      LinkSign(g[i][j], g[j][i]);
    }
    var amb := AmbientLinks(gAmb, n);
    forall i | 0 <= i < Nodes(n) ensures amb[i] >= 0.0 && Sum(Nodes(n), RowEntry(b, i)) == amb[i] {
      assert amb[i] == AmbientLink(gAmb, n, i);
    }
  }

  lemma LinkedDown(b: Matrix, g: Matrix, gAmb: seq<real>, n: nat, i: nat, j: nat, k: nat)
    requires Assembled(g, gAmb, n) && IsB(b, g, gAmb, n) && Conductive(b, AmbientLinks(gAmb, n), Nodes(n))
    requires i < Nodes(n) && j < Nodes(n) && i != j && Bonded(g, i, j)
    requires Grounded(b, AmbientLinks(gAmb, n), Nodes(n), j, k)
    ensures Grounded(b, AmbientLinks(gAmb, n), Nodes(n), i, k + 1)
  {
    LinkSign(g[i][j], g[j][i]);
    assert b[i][j] < 0.0;
  }

  /** Hops from a node to the ambient. */
  function Hops(n: nat, i: nat): nat {
    if i < n then 3 else if i < 2 * n then 2 else if i < 3 * n then 1
    else if NL * n <= i < NL * n + SINK_C_W then 1 else 0
  }

  lemma {:induction false} EveryNodeGrounded(b: Matrix, g: Matrix, gAmb: seq<real>, n: nat, i: nat)
    requires Assembled(g, gAmb, n) && IsB(b, g, gAmb, n) && Conductive(b, AmbientLinks(gAmb, n), Nodes(n))
        && i < Nodes(n)
    ensures Grounded(b, AmbientLinks(gAmb, n), Nodes(n), i, Hops(n, i))
    decreases Hops(n, i)
  {
    hide IsB, Conductive;
    if Hops(n, i) > 0 {
      var j := if i < HSINK * n then n + i else i + SINK_C_W;
      assert Bonded(g, i, j);
      EveryNodeGrounded(b, g, gAmb, n, j);
      LinkedDown(b, g, gAmb, n, i, j, Hops(n, j));
    } else {
      assert AmbientLink(gAmb, n, i) > 0.0;
    }
  }

  lemma BIsGrounded(b: Matrix, g: Matrix, gAmb: seq<real>, n: nat)
    requires Assembled(g, gAmb, n) && IsB(b, g, gAmb, n)
    ensures Conductive(b, AmbientLinks(gAmb, n), Nodes(n))
    ensures forall i :: 0 <= i < Nodes(n) ==> Grounded(b, AmbientLinks(gAmb, n), Nodes(n), i, 3)
  {
    BIsConductive(b, g, gAmb, n);
    forall i | 0 <= i < Nodes(n) ensures Grounded(b, AmbientLinks(gAmb, n), Nodes(n), i, 3) {
      EveryNodeGrounded(b, g, gAmb, n, i);
      MoreHops(b, AmbientLinks(gAmb, n), Nodes(n), i, Hops(n, i), 3);
    }
  }

  /** B is nonsingular, as the positive-definiteness argument in the code claims. */
  lemma BNonsingular(b: Matrix, g: Matrix, gAmb: seq<real>, n: nat, t: seq<real>)
    requires Assembled(g, gAmb, n) && IsB(b, g, gAmb, n) && Solves(b, t, seq(Nodes(n), i => 0.0), Nodes(n))
    ensures forall i :: 0 <= i < Nodes(n) ==> t[i] == 0.0
  {
    BIsGrounded(b, g, gAmb, n);
    OnlyZeroSolvesZero(b, AmbientLinks(gAmb, n), Nodes(n), t, 3);
  }

  // ----- power and steady state

  /** The power vector handed to the solver: block power on top, nothing in interface and spreader, and
      ambient temperature times ambient conductance below. */
  ghost predicate InternalPower(power: seq<real>, blocks: seq<real>, gAmb: seq<real>, n: nat, ambient: real) {
    && |power| == Nodes(n) && |blocks| == n && |gAmb| == n + EXTRA
    && (forall i :: 0 <= i < n ==> power[i] == blocks[i])
    && (forall i :: n <= i < HSINK * n ==> power[i] == 0.0)
    && (forall i :: HSINK * n <= i < Nodes(n) ==> power[i] == ambient * gAmb[i - HSINK * n])
  }

  method SetInternalPower(power: array<real>, gAmb: array<real>, n: nat, ambient: real)
    requires power.Length == Nodes(n) && gAmb.Length == n + EXTRA && power != gAmb
    modifies power
    ensures InternalPower(power[..], old(power[..n]), gAmb[..], n, ambient)
  {
    for i := 0 to n
      invariant forall k :: 0 <= k < n ==> power[k] == old(power[k])
      invariant forall k :: n <= k < n + i ==> power[k] == 0.0
    {
      power[IFACE * n + i] := 0.0;
    }
    for i := 0 to n
      invariant forall k :: 0 <= k < n ==> power[k] == old(power[k])
      invariant forall k :: n <= k < HSP * n + i ==> power[k] == 0.0
    {
      power[HSP * n + i] := 0.0;
    }
    for i := 0 to n + EXTRA
      invariant forall k :: 0 <= k < n ==> power[k] == old(power[k])
      invariant forall k :: n <= k < HSINK * n ==> power[k] == 0.0
      invariant forall k :: HSINK * n <= k < HSINK * n + i ==> power[k] == ambient * gAmb[k - HSINK * n]
    {
      power[HSINK * n + i] := ambient * gAmb[i];
    }
  }

  /** The spreader periphery has no ambient link; the code stores zero there. */
  ghost predicate SpreaderIsolated(gAmb: seq<real>, n: nat) {
    |gAmb| == n + EXTRA && forall i :: n <= i < n + SINK_C_W ==> gAmb[i] == 0.0
  }

  /** The block power spread over all nodes. */
  function Sources(blocks: seq<real>, n: nat): (q: seq<real>)
    requires |blocks| == n
    ensures |q| == Nodes(n) && forall i :: 0 <= i < |q| ==> q[i] == if i < n then blocks[i] else 0.0
  {
    seq(Nodes(n), i requires 0 <= i < Nodes(n) => if i < n then blocks[i] else 0.0)
  }

  lemma {:induction false} SourceTotal(blocks: seq<real>, n: nat, k: nat)
    requires |blocks| == n && k <= Nodes(n)
    ensures Sum(k, i => At(Sources(blocks, n), i)) == Sum(if k < n then k else n, i => At(blocks, i))
  {
    if k > 0 { SourceTotal(blocks, n, k - 1); }
  }

  lemma SteadyFromAmbient(b: Matrix, g: Matrix, gAmb: seq<real>, n: nat, blocks: seq<real>, power: seq<real>,
      ambient: real, t: seq<real>)
    requires Assembled(g, gAmb, n) && IsB(b, g, gAmb, n) && SpreaderIsolated(gAmb, n)
    requires InternalPower(power, blocks, gAmb, n, ambient) && Solves(b, t, power, Nodes(n))
    ensures Solves(b, Shifted(t, ambient), Sources(blocks, n), Nodes(n))
  {
    BIsConductive(b, g, gAmb, n);
    forall i | 0 <= i < Nodes(n) ensures power[i] == Sources(blocks, n)[i] + ambient * AmbientLinks(gAmb, n)[i] {
      if NL * n <= i < NL * n + SINK_C_W { assert gAmb[i - HSINK * n] == 0.0; }
    }
    FromAmbient(b, AmbientLinks(gAmb, n), Nodes(n), t, Sources(blocks, n), power, ambient);
  }

  /** The heat that flows to the ambient, and the power of all blocks. */
  ghost function HeatOut(gAmb: seq<real>, n: nat, t: seq<real>, ambient: real): real
    requires |gAmb| == n + EXTRA && |t| == Nodes(n)
  {
    Sum(Nodes(n), i => At(AmbientLinks(gAmb, n), i) * At(Shifted(t, ambient), i))
  }

  ghost function TotalPower(blocks: seq<real>, n: nat): real { Sum(n, i => At(blocks, i)) }

  /** Steady state: the heat flowing to the ambient equals the total block power, and with non-negative
      power no node is below the ambient temperature. */
  lemma SteadyState(b: Matrix, g: Matrix, gAmb: seq<real>, n: nat, blocks: seq<real>, power: seq<real>, ambient: real,
      t: seq<real>)
    requires Assembled(g, gAmb, n) && IsB(b, g, gAmb, n) && SpreaderIsolated(gAmb, n)
    requires InternalPower(power, blocks, gAmb, n, ambient) && Solves(b, t, power, Nodes(n))
    ensures HeatOut(gAmb, n, t, ambient) == TotalPower(blocks, n)
    ensures (forall i :: 0 <= i < n ==> blocks[i] >= 0.0) ==> forall i :: 0 <= i < Nodes(n) ==> t[i] >= ambient
  {
    SteadyFromAmbient(b, g, gAmb, n, blocks, power, ambient, t);
    BIsGrounded(b, g, gAmb, n);
    hide Assembled, IsB, InternalPower, Conductive, Solves, Grounded;
    HeatConserved(b, AmbientLinks(gAmb, n), Nodes(n), Shifted(t, ambient), Sources(blocks, n));
    SourceTotal(blocks, n, Nodes(n));
    if forall i :: 0 <= i < n ==> blocks[i] >= 0.0 {
      MinimumPrinciple(b, AmbientLinks(gAmb, n), Nodes(n), Shifted(t, ambient), Sources(blocks, n), 3);
    }
  }

  /** steady_state_temp_block: completes the power vector and solves for the temperatures. */
  method SteadyStateTemp(lu: array2<real>, p: array<int>, power: array<real>, temp: array<real>, gAmb: array<real>,
      n: nat, ambient: real, ghost b: Matrix)
    requires lu.Length0 == lu.Length1 == p.Length == power.Length == temp.Length == Nodes(n) && gAmb.Length == n + EXTRA
    requires power != temp && power != gAmb && temp != gAmb
    requires Decomposed(b, p[..], Rows(lu), Nodes(n)) && forall i :: 0 <= i < Nodes(n) ==> lu[i, i] != 0.0
    modifies power, temp
    ensures InternalPower(power[..], old(power[..n]), gAmb[..], n, ambient) && Solves(b, temp[..], power[..], Nodes(n))
  {
    SetInternalPower(power, gAmb, n, ambient);
    Lusolve(lu, p, power, temp, b);
  }
}

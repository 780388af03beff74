/** The block model from floorplan and power to temperatures: conductances, matrix B, its decomposition and the
    steady state. */
module BlockThermal {
  import opened RealFunctions
  import opened Geometry
  import opened FloorplanLayout
  import opened Wrap
  import opened Sums
  import opened LupMatrix
  import opened Lup
  import opened Conduction
  import opened BlockModel
  import opened BlockAssembly
  import opened BlockGeometry
  import opened BlockSolve
  import opened BlockValues

  /** Copies a matrix, as the decomposition works in place. */
  method CopyMatrix(lu: array2<real>, b: array2<real>)
    requires lu.Length0 == b.Length0 && lu.Length1 == b.Length1 && lu != b
    modifies lu
    ensures Rows(lu) == Rows(b)
  {
    for i := 0 to b.Length0
      invariant forall r, c :: 0 <= r < i && 0 <= c < b.Length1 ==> lu[r, c] == b[r, c]
    {
      for j := 0 to b.Length1
        invariant forall r, c :: 0 <= r < i && 0 <= c < b.Length1 ==> lu[r, c] == b[r, c]
        invariant forall c :: 0 <= c < j ==> lu[i, c] == b[i, c]
      {
        lu[i, j] := b[i, j];
      }
    }
    assert forall r :: 0 <= r < b.Length0 ==> Rows(lu)[r] == Rows(b)[r];
  }

  /** B is the matrix of the chip's conductances. */
  ghost predicate ModelOf(c: Chip, b: Matrix, g: Matrix, gAmb: seq<real>) {
    && Physical(c) && Assembled(g, gAmb, c.n) && SpreaderIsolated(gAmb, c.n) && IsB(b, g, gAmb, c.n)
    && (forall a: nat, k: nat :: a < Nodes(c.n) && k < Nodes(c.n) ==> g[a][k] == Value(c, a, k))
    && (forall i :: 0 <= i < c.n + EXTRA ==> gAmb[i] == AmbientValue(c, i))
  }

  /** Builds the conductances and B of a chip and decomposes B; false if the decomposition finds a column
      below its tolerance. */
  method PopulateModel(c: Chip, lu: array2<real>, p: array<int>, gAmb: array<real>)
    returns (ok: bool, ghost b: Matrix, ghost g: Matrix)
    requires Physical(c) && lu.Length0 == lu.Length1 == p.Length == Nodes(c.n) && gAmb.Length == c.n + EXTRA
    modifies lu, p, gAmb
    ensures ModelOf(c, b, g, gAmb[..]) && Square(b, Nodes(c.n))
    ensures ok ==> Decomposed(b, p[..], Rows(lu), Nodes(c.n))
    ensures !ok ==> Stopped(b, p[..], Rows(lu), Nodes(c.n))
  {
    hide Physical, Value, AmbientValue, Assembled, SpreaderIsolated, IsB, Decomposed, Partial;
    var m := Nodes(c.n);
    var conductances := new real[m, m];
    AssembleG(c, conductances, gAmb);
    var matrix := new real[m, m];
    BuildB(matrix, conductances, gAmb, c.n);
    b, g := Rows(matrix), Rows(conductances);
    CopyMatrix(lu, matrix);
    ok := Lupdcmp(lu, p);
  }

  /** Steady-state temperatures of a chip under the given block power. Unless the decomposition fails, no pivot
      is zero, the temperatures solve B*T = power, the heat that flows to the ambient is the total block power,
      and with non-negative power no node is colder than the ambient. */
  method SteadyTemperatures(c: Chip, blocks: seq<real>, ambient: real)
    returns (ok: bool, temp: array<real>, ghost b: Matrix, ghost g: Matrix, ghost gAmb: seq<real>)
    requires Physical(c) && |blocks| == c.n
    ensures temp.Length == Nodes(c.n) && |gAmb| == c.n + EXTRA
    ensures ModelOf(c, b, g, gAmb) && Square(b, Nodes(c.n))
    ensures !ok ==> exists p, lu :: Stopped(b, p, lu, Nodes(c.n))
    ensures ok ==> exists power :: InternalPower(power, blocks, gAmb, c.n, ambient)
                     && Solves(b, temp[..], power, Nodes(c.n))
    ensures ok ==> Conductive(b, AmbientLinks(gAmb, c.n), Nodes(c.n))
    ensures ok ==> HeatOut(gAmb, c.n, temp[..], ambient) == TotalPower(blocks, c.n)
    ensures ok && (forall i :: 0 <= i < c.n ==> blocks[i] >= 0.0) ==>
              forall i :: 0 <= i < Nodes(c.n) ==> temp[i] >= ambient
  {
    hide Physical, Value, AmbientValue, Assembled, SpreaderIsolated, IsB, Decomposed, Partial, InternalPower, Solves,
        Conductive;
    var m := Nodes(c.n);
    var lu, p, amb := new real[m, m], new int[m], new real[c.n + EXTRA];
    temp := new real[m];
    ok, b, g := PopulateModel(c, lu, p, amb);
    gAmb := amb[..];
    if !ok { return; }
    var power := new real[m](i => if 0 <= i < |blocks| then blocks[i] else 0.0);
    assert power[..c.n] == blocks;
    BPivotsNonzero(b, g, gAmb, c.n, p[..], Rows(lu));
    DecomposedPermutes(b, p[..], Rows(lu), m);
    SteadyStateTemp(lu, p, power, temp, amb, c.n, ambient, b);
    BIsConductive(b, g, gAmb, c.n);
    SteadyState(b, g, gAmb, c.n, blocks, power[..], ambient, temp[..]);
  }

  /** The sides of the floorplan's bounding box. */
  ghost predicate Bounds(us: seq<Rect>, box: Rect) {
    LeftmostIs(us, box.leftx) && RightmostIs(us, box.Right()) && BottomIs(us, box.bottomy) && TopIs(us, box.Top())
  }

  /** No larger than spreader and sink. */
  predicate Covered(k: Materials, box: Rect) {
    box.width <= k.sinkSide && box.height <= k.sinkSide && box.width <= k.spreaderSide && box.height <= k.spreaderSide
  }

  /** The same from a floorplan, refused exactly when the chip is larger than spreader or sink, or when the
      decomposition fails. */
  method SolveFloorplan(k: Materials, flp: Flp, blocks: seq<real>, ambient: real)
    returns (fits: bool, ok: bool, temp: array<real>, ghost box: Rect, ghost b: Matrix, ghost g: Matrix,
      ghost gAmb: seq<real>)
    requires Proper(k) && 0 < flp.nUnits <= flp.units.Length && AllSolid(flp.units[..flp.nUnits])
    requires |blocks| == flp.nUnits
    ensures Bounds(flp.units[..flp.nUnits], box) && (fits <==> Covered(k, box))
    ensures ok ==> fits && temp.Length == Nodes(flp.nUnits) && |gAmb| == flp.nUnits + EXTRA
    ensures fits ==> ModelOf(ChipOf(k, flp.units[..flp.nUnits], box.width, box.height), b, g, gAmb)
    ensures fits ==> Conducts(k, flp.units[..flp.nUnits], box.width, box.height, b, gAmb)
    ensures fits && !ok ==> exists p, lu :: Stopped(b, p, lu, Nodes(flp.nUnits))
    ensures ok ==> Conductive(b, AmbientLinks(gAmb, flp.nUnits), Nodes(flp.nUnits))
    ensures ok ==> exists power :: InternalPower(power, blocks, gAmb, flp.nUnits, ambient)
                     && Solves(b, temp[..], power, Nodes(flp.nUnits))
    ensures ok ==> HeatOut(gAmb, flp.nUnits, temp[..], ambient) == TotalPower(blocks, flp.nUnits)
    ensures ok && (forall i :: 0 <= i < flp.nUnits ==> blocks[i] >= 0.0) ==>
              forall i :: 0 <= i < Nodes(flp.nUnits) ==> temp[i] >= ambient
  {
    hide Physical, AmbientValue, InternalPower, Solves, Conductive, ModelOf, ChipOf, AllSolid, Conducts,
        LeftmostIs, RightmostIs, BottomIs, TopIs;
    ok, temp, b, g, gAmb := false, new real[0], [], [], [];
    var us := flp.units[..flp.nUnits];
    var width, left, right := TotalWidth(flp);
    var height, bottom, top := TotalHeight(flp);
    box := Rect(left, bottom, right - left, top - bottom);
    fits := width <= k.sinkSide && height <= k.sinkSide && width <= k.spreaderSide && height <= k.spreaderSide;
    if !fits { return; }
    ChipPhysical(k, us, width, height);
    ok, temp, b, g, gAmb := SteadyTemperatures(ChipOf(k, us, width, height), blocks, ambient);
    ModelConducts(k, us, width, height, b, g, gAmb);
  }

  lemma ModelConducts(k: Materials, us: seq<Rect>, width: real, height: real, b: Matrix, g: Matrix, gAmb: seq<real>)
    requires Proper(k) && AllSolid(us) && ModelOf(ChipOf(k, us, width, height), b, g, gAmb)
    ensures Conducts(k, us, width, height, b, gAmb)
  {
    ChipPhysical(k, us, width, height);
    hide ChipOf, Conducts, Value, AmbientValue, Physical;
    EntriesRight(k, us, width, height, b, g, gAmb);
  }
}

/** The elementary row operations of MatGSO, b_i <- b_i + c b_j, and the
    dispatcher row_addmul_we that picks one of them from the pair (lx, expo)
    a floating-point coefficient was rounded to. */
module RowOps {
  import opened Vectors
  import opened Transform

  datatype RowOp =
    | NoOp                                  // lx == 0: nothing is done
    | Add                                   // row_add: c = 1
    | Sub                                   // row_sub: c = -1
    | AddMulSi(x: Long)                     // row_addmul_si: c = x
    | AddMulSi2Exp(x: Long, expo: nat)      // row_addmul_si_2exp: c = x 2^expo
    | AddMul2Exp(z: int, expo: nat)         // row_addmul_2exp: c = z 2^expo

  /** The multiple of b_j each operation adds to b_i. */
  function Coefficient(op: RowOp): (c: int)
  {
    match op
    case NoOp => 0
    case Add => 1
    case Sub => -1
    case AddMulSi(x) => x as int
    case AddMulSi2Exp(x, expo) => x as int * Pow2(expo)
    case AddMul2Exp(z, expo) => z * Pow2(expo)
  }

  /** row_addmul_we (fplll/gso.cpp:309-325).  (lx, expo) is the result of
      get_si_exp_we, (zx, zexpo) that of get_z_exp_we, which is computed only
      on the last branch; forceLong is rowOpForceLong. */
  function Dispatch(lx: Long, expo: nat, forceLong: bool, zx: int, zexpo: nat): (op: RowOp)
    ensures op == NoOp <==> expo == 0 && lx == 0
    ensures op == Add <==> expo == 0 && lx == 1
    ensures op == Sub <==> expo == 0 && lx == -1
    ensures op.AddMulSi? <==> expo == 0 && lx != 0 && lx != 1 && lx != -1
    ensures op.AddMulSi2Exp? <==> expo != 0 && forceLong
    ensures op.AddMul2Exp? <==> expo != 0 && !forceLong
  {
    if expo == 0 then
      if lx == 1 then Add
      else if lx == -1 then Sub
      else if lx != 0 then AddMulSi(lx)
      else NoOp
    else if forceLong then AddMulSi2Exp(lx, expo)
    else AddMul2Exp(zx, zexpo)
  }

  /** Whatever branch is taken, the multiple of b_j added is the rounded
      coefficient: lx 2^expo when it is used, zx 2^zexpo otherwise. */
  lemma DispatchCoefficient(lx: Long, expo: nat, forceLong: bool, zx: int, zexpo: nat)
    ensures Coefficient(Dispatch(lx, expo, forceLong, zx, zexpo)) ==
      if expo == 0 || forceLong then lx as int * Pow2(expo) else zx * Pow2(zexpo)
  {
  }

  /** The two scaled operations multiply by x 2^expo; their diagonal update
      (fplll/gso.cpp:254-260, 287-293) adds (g(i,j) x) 2^(expo+1) and
      (g(j,j) x x) 2^(2 expo), which is 2 c g(i,j) + c^2 g(j,j) for c = x 2^expo. */
  lemma ScaledDiagonal(x: int, expo: nat, gij: int, gjj: int)
    ensures var c := x * Pow2(expo);
      gij * x * Pow2(expo + 1) + gjj * x * x * Pow2(2 * expo) == 2 * c * gij + c * c * gjj
  {
    Pow2Add(expo, 1);
    Pow2Add(expo, expo);
    var p := Pow2(expo);
    assert Pow2(1) == 2;
    assert gij * x * (p * 2) == 2 * (x * p) * gij;
    assert gjj * x * x * (p * p) == (x * p) * (x * p) * gjj;
  }
}

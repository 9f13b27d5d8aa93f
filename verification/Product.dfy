/** mul: the choice among the multiplication routines, for equal sizes and for short second operands. */
module Product {
  import opened Limbs
  import opened Multiplication
  import opened Karatsuba
  import opened BlockMultiplication
  import opened Squaring

  /** The square of fewer than 64 limbs goes to sqr_basecase; equal sizes go to mul_n. */
  predicate Covered(op1: array<Limb>, o1: nat, n1: nat, op2: array<Limb>, o2: nat, n2: nat)
  {
    if n1 == n2 then n1 < 0x8000_0000 && (op1 == op2 && o1 == o2 ==> n1 < 64) else n2 < 32
  }

  /** target := op1 * op2; the carry is the top limb. */
  method Mul(target: array<Limb>, to: nat, op1: array<Limb>, o1: nat, n1: nat, op2: array<Limb>, o2: nat, n2: nat)
    returns (carry: Limb)
    requires n1 >= n2 >= 1 && Covered(op1, o1, n1, op2, o2, n2)
    requires Slice(target, to, n1 + n2) && Slice(op1, o1, n1) && Slice(op2, o2, n2)
    requires Apart(target, to, n1 + n2, op1, o1, n1) && Apart(target, to, n1 + n2, op2, o2, n2)
    modifies target
    ensures Val(target[to..to + n1 + n2]) == Val(old(op1[o1..o1 + n1])) * Val(old(op2[o2..o2 + n2]))
    ensures carry == target[to + n1 + n2 - 1]
    ensures forall j :: 0 <= j < to || to + n1 + n2 <= j < target.Length ==> target[j] == old(target[j])
  {
    hide Val, Shift;
    if n1 == n2 {
      if op1 == op2 && o1 == o2 {
        SqrBasecase(target, to, op1, o1, n1);
      } else {
        MulN(target, to, op1, o1, op2, o2, n1);
      }
      carry := target[to + 2 * n1 - 1];
    } else if n1 <= 500 {
      MulBasecase(target, to, op1, o1, n1, op2, o2, n2);
      carry := target[to + n1 + n2 - 1];
    } else {
      carry := MulBlocks(target, to, op1, o1, n1, op2, o2, n2);
    }
  }
}

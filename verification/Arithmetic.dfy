/**
 What the fused and the wide instructions compute, said about numbers (src/instructions/execute.rs,
 src/instructions/register.rs): additions and subtractions with carry, double-width products, division.
 */
module Arithmetic {
  import opened Words
  import opened Instructions
  import opened Machine

  // ---------------------------------------------------------------- residues

  lemma {:induction false} WrapUnique(x: int, k: int, r: U64)
    requires x == r + k * TWO64
    ensures Wrap(x) == r
  {
  }

  lemma {:induction false} WrapShift(x: int, k: int)
    ensures Wrap(x + k * TWO64) == Wrap(x)
  {
  }

  /** The number of times 2^64 a word is above what it stands for. */
  function Excess(x: int): int { (x - Wrap(x)) / TWO64 }

  lemma {:induction false} ExcessIs(x: int)
    ensures x == Wrap(x) + Excess(x) * TWO64
  {
  }

  function SignExcess(a: U64): int { if a < TWO63 then 0 else 1 }

  lemma {:induction false} SignExcessIs(a: U64)
    ensures a == Signed(a) + SignExcess(a) * TWO64
  {
  }

  /** Multiplying and subtracting words is the same on words and on what they stand for. */
  lemma {:induction false} WrapMulSub(a: U64, b: U64, q: int)
    ensures Wrap(a - Wrap(q) * b) == Wrap(Signed(a) - q * Signed(b))
  {
    ExcessIs(q);
    SignExcessIs(a);
    SignExcessIs(b);
    var k, ka, kb := Excess(q), SignExcess(a), SignExcess(b);
    MulSubExpansion(Signed(a), ka, Wrap(q), k, Signed(b), kb, TWO64);
    WrapShift(Signed(a) - q * Signed(b), ka + k * Signed(b) - Wrap(q) * kb);
  }

  lemma {:induction false} MulSubExpansion(a: int, ka: int, q: int, k: int, b: int, kb: int, m: int)
    ensures (a + ka * m) - q * (b + kb * m) == (a - (q + k * m) * b) + (ka + k * b - q * kb) * m
  {
  }

  // ---------------------------------------------------------------- carries

  /** The registers an ADC leaves, for operands the decoder fuses. */
  lemma {:induction false} AdcClosed(regs: Registers, rd: Reg, rs1: Reg, rs2: Reg)
    requires rd != rs1 && rd != rs2 && rs1 != rs2 && rd != ZERO && rs1 != ZERO && rs2 != ZERO
    ensures var first := Add(regs[rd], regs[rs1]);
            var sum := Add(first, regs[rs2]);
            var c1, c2 := Lt(first, regs[rs1]), Lt(sum, regs[rs2]);
            AdcEffect(regs, rd, rs1, rs2) == regs[rs1 := Or(c1, c2)][rs2 := c2][rd := sum]
  {
    hide Add, Lt, Or;
  }

  lemma {:induction false} SbbClosed(regs: Registers, rd: Reg, rs1: Reg, rs2: Reg, rs3: Reg)
    requires rd != rs1 && rd != rs2 && rd != rs3 && rs1 != rs2 && rs1 != rs3 && rs2 != rs3
    requires rd != ZERO && rs1 != ZERO && rs2 != ZERO && rs3 != ZERO
    ensures var first := Sub(regs[rd], regs[rs1]);
            var difference := Sub(first, regs[rs2]);
            var b1, b2 := Lt(regs[rd], first), Lt(first, difference);
            SbbEffect(regs, rd, rs1, rs2, rs3) == regs[rs2 := b2][rs3 := b1][rs1 := Or(b2, b1)][rd := difference]
  {
    hide Sub, Lt, Or;
  }

  /** ADC: an addition with carry in and carry out. */
  lemma {:induction false} AdcAdds(regs: Registers, rd: Reg, rs1: Reg, rs2: Reg)
    requires rd != rs1 && rd != rs2 && rs1 != rs2 && rd != ZERO && rs1 != ZERO && rs2 != ZERO
    requires regs[rs2] <= 1
    ensures var r := AdcEffect(regs, rd, rs1, rs2);
            r[rs1] <= 1 && r[rd] as int + TWO64 * r[rs1] == regs[rd] as int + regs[rs1] as int + regs[rs2] as int
  {
    hide AdcEffect;
    AdcClosed(regs, rd, rs1, rs2);
    var first := Add(regs[rd], regs[rs1]);
    OrOfFlags(Lt(first, regs[rs1]), Lt(Add(first, regs[rs2]), regs[rs2]));
    TwoCarries(regs[rd], regs[rs1], regs[rs2]);
  }

  lemma {:induction false} TwoCarries(a: U64, b: U64, c: U64)
    requires c <= 1
    ensures var first := Add(a, b);
            var sum, c1, c2 := Add(first, c), Lt(first, b), Lt(Add(first, c), c);
            c1 + c2 <= 1 && sum as int + TWO64 * (c1 + c2) == a as int + b as int + c as int
  {
  }

  /** SBB: a subtraction with borrow in and borrow out. */
  lemma {:induction false} SbbSubtracts(regs: Registers, rd: Reg, rs1: Reg, rs2: Reg, rs3: Reg)
    requires rd != rs1 && rd != rs2 && rd != rs3 && rs1 != rs2 && rs1 != rs3 && rs2 != rs3
    requires rd != ZERO && rs1 != ZERO && rs2 != ZERO && rs3 != ZERO && regs[rs2] <= 1
    ensures var r := SbbEffect(regs, rd, rs1, rs2, rs3);
            r[rs1] <= 1 && r[rd] as int - TWO64 * r[rs1] == regs[rd] as int - regs[rs1] as int - regs[rs2] as int
  {
    hide SbbEffect;
    SbbClosed(regs, rd, rs1, rs2, rs3);
    var first := Sub(regs[rd], regs[rs1]);
    OrOfFlags(Lt(first, Sub(first, regs[rs2])), Lt(regs[rd], first));
    TwoBorrows(regs[rd], regs[rs1], regs[rs2]);
  }

  lemma {:induction false} TwoBorrows(a: U64, b: U64, c: U64)
    requires c <= 1
    ensures var first := Sub(a, b);
            var difference, b1, b2 := Sub(first, c), Lt(a, first), Lt(first, Sub(first, c));
            b1 + b2 <= 1 && difference as int - TWO64 * (b1 + b2) == a as int - b as int - c as int
  {
  }

  // ---------------------------------------------------------------- double-width products

  lemma {:induction false} ScaledBounds(x: int, lo: int, hi: int, y: int, top: int)
    requires lo <= x <= hi && lo <= 0 <= hi && 0 <= y <= top
    ensures lo * top <= x * y <= hi * top
  {
  }

  /** A product whose high half fits a signed word is its high and low words. */
  lemma {:induction false} HighAndLow(x: int)
    requires -TWO63 * TWO64 <= x < TWO63 * TWO64
    ensures Signed(Wrap(x / TWO64)) * TWO64 + Wrap(x) == x
  {
  }

  lemma {:induction false} LowOfProduct(a: U64, b: U64)
    ensures Mul(a, b) == Wrap(Signed(a) * Signed(b)) && Mul(a, b) == Wrap(Signed(a) * b)
  {
    SignExcessIs(a);
    SignExcessIs(b);
    var ka, kb := SignExcess(a), SignExcess(b);
    assert a * b == Signed(a) * b + (ka * b) * TWO64 by { ProductExpansion(Signed(a), ka, b, 0, TWO64); }
    WrapShift(Signed(a) * b, ka * b);
    ProductExpansion(Signed(a), ka, Signed(b), kb, TWO64);
    WrapShift(Signed(a) * Signed(b), ka * Signed(b) + a * kb);
  }

  lemma {:induction false} ProductExpansion(a: int, ka: int, b: int, kb: int, m: int)
    ensures (a + ka * m) * (b + kb * m) == a * b + (ka * b + (a + ka * m) * kb) * m
  {
  }

  /** MULH with MUL, MULHU with MUL and MULHSU with MUL are the whole product. */
  lemma {:induction false} WholeProduct(a: U64, b: U64)
    ensures Signed(MulHighSigned(a, b)) * TWO64 + Mul(a, b) == Signed(a) * Signed(b)
    ensures MulHighUnsigned(a, b) * TWO64 + Mul(a, b) == a * b
    ensures Signed(MulHighSignedUnsigned(a, b)) * TWO64 + Mul(a, b) == Signed(a) * b
  {
    hide Mul, Signed;
    LowOfProduct(a, b);
    ProductRanges(a, b);
    HighAndLow(Signed(a) * Signed(b));
    HighAndLow(Signed(a) * b);
    UnsignedHighAndLow(a * b);
    MulIsLow(a, b);
  }

  lemma {:induction false} MulIsLow(a: U64, b: U64)
    ensures Mul(a, b) == Wrap(a * b)
  {
  }

  lemma {:induction false} UnsignedHighAndLow(x: int)
    requires 0 <= x < TWO64 * TWO64
    ensures Wrap(x / TWO64) * TWO64 + Wrap(x) == x
  {
  }

  lemma {:induction false} ProductRanges(a: U64, b: U64)
    ensures -TWO63 * TWO64 <= Signed(a) * Signed(b) < TWO63 * TWO64
    ensures -TWO63 * TWO64 <= Signed(a) * b < TWO63 * TWO64
    ensures 0 <= a * b < TWO64 * TWO64
  {
    ScaledBounds(Signed(a), -TWO63, TWO63 - 1, b, TWO64);
    ScaledBounds(a, 0, TWO64 - 1, b, TWO64);
    if Signed(b) >= 0 {
      ScaledBounds(Signed(a), -TWO63, TWO63 - 1, Signed(b), TWO63);
    } else {
      ScaledBounds(Signed(a), -TWO63, TWO63 - 1, -Signed(b), TWO63);
      assert Signed(a) * Signed(b) == -(Signed(a) * -Signed(b));
    }
  }
}

/** Bitwise masks of 32-bit words, and the arithmetic fields that the rest of the model uses in their place. */
module Bits {

  type word = x: int | 0 <= x < 0x1_0000_0000

  /** Bitwise conjunction, one binary digit at a time. */
  function And(a: nat, b: nat): nat {
    if a == 0 || b == 0 then 0
    else (if a % 2 == 1 && b % 2 == 1 then 1 else 0) + 2 * And(a / 2, b / 2)
  }

  /** Bitwise disjunction, one binary digit at a time. */
  function Or(a: nat, b: nat): nat {
    if a == 0 then b
    else if b == 0 then a
    else (if a % 2 + b % 2 > 0 then 1 else 0) + 2 * Or(a / 2, b / 2)
  }

  /** a >> k */
  function Shr(a: nat, k: nat): nat {
    if k == 0 then a else Shr(a / 2, k - 1)
  }

  /** m << k, without truncation */
  function Shl(m: nat, k: nat): nat {
    if k == 0 then m else 2 * Shl(m, k - 1)
  }

  /** The k lowest binary digits of a. */
  function Low(a: nat, k: nat): nat {
    if k == 0 then 0 else a % 2 + 2 * Low(a / 2, k - 1)
  }

  /** The mask of k ones. */
  function Ones(k: nat): nat {
    if k == 0 then 0 else 1 + 2 * Ones(k - 1)
  }

  // The fields of a descriptor or of an address that the source extracts with a mask.
  function Low2(w: nat): nat { w % 4 }                     // w & 0x3
  function Low3(w: nat): nat { w % 8 }                     // w & 0x7
  predicate Bit1(w: nat) { w / 2 % 2 == 1 }                // w & 0x2
  predicate Bit18(w: nat) { w / 0x40000 % 2 == 1 }         // w & 0x00040000
  function Base10(w: nat): nat { w - w % 0x400 }           // w & 0xfffffc00
  function Base12(w: nat): nat { w - w % 0x1000 }          // w & 0xfffff000
  function Base14(w: nat): nat { w - w % 0x4000 }          // w & 0xffffc000
  function Base20(w: nat): nat { w - w % 0x100000 }        // w & 0xfff00000
  function Base24(w: nat): nat { w - w % 0x1000000 }       // w & 0xff000000

  /** Quotient and remainder are determined by q * m + r with r < m. */
  lemma DivMod(m: nat, q: nat, r: nat)
    requires r < m
    ensures (m * q + r) / m == q && (m * q + r) % m == r
  {
    var a := m * q + r;
    var d := a / m - q;
    assert a == m * (a / m) + a % m;
    assert m * d == m * (a / m) - m * q;
    assert d >= 1 ==> m * d >= m;
    assert d <= -1 ==> m * d <= 0 - m;
  }

  /** A mask whose k lowest bits are clear acts on the digits above them only. */
  lemma {:induction false} AndShl(a: nat, m: nat, k: nat)
    ensures And(a, Shl(m, k)) == Shl(And(Shr(a, k), m), k)
  {
    if k != 0 {
      AndDouble(a, Shl(m, k - 1));
      AndShl(a / 2, m, k - 1);
    }
  }

  lemma AndDouble(a: nat, m: nat)
    ensures And(a, 2 * m) == 2 * And(a / 2, m)
  {
    if a != 0 && m != 0 {
      assert 2 * m / 2 == m;
    }
  }

  /** A mask of k ones keeps the k lowest digits. */
  lemma {:induction false} AndOnes(a: nat, k: nat)
    ensures And(a, Ones(k)) == Low(a, k)
  {
    if k != 0 {
      AndOnes(a / 2, k - 1);
      if a == 0 {
        LowZero(k);
      }
    }
  }

  lemma {:induction false} LowZero(k: nat)
    ensures Low(0, k) == 0
  {
    if k != 0 {
      LowZero(k - 1);
    }
  }

  /** Splitting a number at digit k loses nothing. */
  lemma {:induction false} SplitAt(a: nat, k: nat)
    ensures a == Shl(Shr(a, k), k) + Low(a, k)
  {
    if k != 0 {
      SplitAt(a / 2, k - 1);
    }
  }

  lemma {:induction false} ShrAdd(a: nat, j: nat, k: nat)
    ensures Shr(a, j + k) == Shr(Shr(a, j), k)
  {
    if j != 0 {
      ShrAdd(a / 2, j - 1, k);
    }
  }

  lemma {:induction false} ShlAdd(a: nat, j: nat, k: nat)
    ensures Shl(a, j + k) == Shl(Shl(a, j), k)
  {
    if k != 0 {
      ShlAdd(a, j, k - 1);
    }
  }

  /** When the low k bits of one operand are clear and the other uses only those bits, `|` is addition. */
  lemma {:induction false} OrDisjoint(x: nat, b: nat, k: nat)
    requires b <= Ones(k)
    ensures Or(Shl(x, k), b) == Shl(x, k) + b
  {
    if k != 0 && Shl(x, k) != 0 && b != 0 {
      OrDisjoint(x, b / 2, k - 1);
    }
  }

  lemma Shift2(a: nat)
    ensures Shl(a, 1) == 2 * a && Shr(a, 1) == a / 2
    ensures Shl(a, 2) == 4 * a && Shr(a, 2) == a / 4
  {
    assert Shl(a, 2) == 2 * Shl(a, 1);
    assert Shr(a, 1) == Shr(a / 2, 0);
    assert Shr(a, 2) == Shr(a / 2, 1) == Shr(a / 2 / 2, 0);
  }

  lemma Shift4(a: nat)
    ensures Shl(a, 4) == 16 * a && Shr(a, 4) == a / 16
  {
    ShrAdd(a, 2, 2);
    ShlAdd(a, 2, 2);
    Shift2(a);
    Shift2(a / 4);
    Shift2(4 * a);
  }

  /** Shifts by the amounts that occur in the source, as multiplications and divisions. */
  lemma Shifts(a: nat)
    ensures Shl(a, 1) == 2 * a && Shr(a, 1) == a / 2
    ensures Shl(a, 2) == 4 * a && Shr(a, 2) == a / 4
    ensures Shl(a, 4) == 16 * a && Shr(a, 4) == a / 16
    ensures Shl(a, 8) == 0x100 * a && Shr(a, 8) == a / 0x100
  {
    ShrAdd(a, 4, 4);
    ShlAdd(a, 4, 4);
    Shift2(a);
    Shift4(a);
    Shift4(a / 16);
    Shift4(16 * a);
  }

  lemma LongShifts(a: nat)
    ensures Shl(a, 10) == 0x400 * a && Shr(a, 10) == a / 0x400
    ensures Shl(a, 12) == 0x1000 * a && Shr(a, 12) == a / 0x1000
    ensures Shl(a, 14) == 0x4000 * a && Shr(a, 14) == a / 0x4000
    ensures Shl(a, 18) == 0x40000 * a && Shr(a, 18) == a / 0x40000
    ensures Shl(a, 20) == 0x100000 * a && Shr(a, 20) == a / 0x100000
    ensures Shl(a, 24) == 0x1000000 * a && Shr(a, 24) == a / 0x1000000
  {
    Shifts(a);
    Step(a, 8, 0x100, 2, 4);
    Step(a, 8, 0x100, 4, 16);
    Step(a, 12, 0x1000, 2, 4);
    Step(a, 10, 0x400, 8, 0x100);
    Step(a, 12, 0x1000, 8, 0x100);
    Step(a, 20, 0x100000, 4, 16);
  }

  /** Shifting by j and then by k, where k is 2, 4 or 8. */
  lemma Step(a: nat, j: nat, p: nat, k: nat, q: nat)
    requires (k == 2 && q == 4) || (k == 4 && q == 16) || (k == 8 && q == 0x100)
    requires p > 0 && Shl(a, j) == p * a && Shr(a, j) == a / p
    ensures Shl(a, j + k) == q * (p * a) && Shr(a, j + k) == a / p / q
  {
    ShlAdd(a, j, k);
    ShrAdd(a, j, k);
    Shifts(p * a);
    Shifts(a / p);
  }

  lemma {:induction false} OnesShl(n: nat)
    ensures Shl(1, n) == Ones(n) + 1
  {
    if n != 0 {
      OnesShl(n - 1);
    }
  }

  lemma {:induction false} LowAll(a: nat, n: nat)
    requires a <= Ones(n)
    ensures Low(a, n) == a
  {
    if n != 0 {
      LowAll(a / 2, n - 1);
    }
  }

  lemma OnesValues()
    ensures Ones(1) == 0x1 && Ones(2) == 0x3 && Ones(3) == 0x7 && Ones(8) == 0xff && Ones(12) == 0xfff
    ensures Ones(18) == 0x3ffff && Ones(20) == 0xfffff && Ones(22) == 0x3fffff
  {
    Shifts(1);
    LongShifts(1);
    Shifts(0x100000);
    ShlAdd(1, 20, 2);
    OnesShl(8);
    OnesShl(12);
    OnesShl(18);
    OnesShl(20);
    OnesShl(22);
  }

  /** A mask of n ones above k zeros, k + n == 32, clears the low k bits of a word and nothing else. */
  lemma HighMask(w: word, k: nat, n: nat, p: nat)
    requires k + n == 32 && p > 0
    requires Shr(w, k) == w / p && Shl(w / p, k) == p * (w / p)
    requires w / p <= Ones(n)
    ensures And(w, Shl(Ones(n), k)) == p * (w / p)
  {
    AndShl(w, Ones(n), k);
    AndOnes(w / p, n);
    LowAll(w / p, n);
  }

  /** The five masks of the source that clear low bits. */
  lemma HighMasks(w: word)
    ensures And(w, 0xfffffc00) == Base10(w) && And(w, 0xfffff000) == Base12(w)
    ensures And(w, 0xffffc000) == Base14(w)
    ensures And(w, 0xfff00000) == Base20(w) && And(w, 0xff000000) == Base24(w)
  {
    hide And, Shl, Shr;
    PageMasks(w);
    SectionMasks(w);
  }

  lemma PageMasks(w: word)
    ensures And(w, 0xfffffc00) == Base10(w) && And(w, 0xfffff000) == Base12(w)
    ensures And(w, 0xffffc000) == Base14(w)
  {
    OnesValues();
    LongShifts(w);
    LongShifts(w / 0x400);
    LongShifts(w / 0x1000);
    LongShifts(w / 0x4000);
    HighMask(w, 10, 22, 0x400);
    HighMask(w, 12, 20, 0x1000);
    HighMask(w, 14, 18, 0x4000);
    LongShifts(0x3fffff);
    LongShifts(0xfffff);
    LongShifts(0x3ffff);
  }

  lemma SectionMasks(w: word)
    ensures And(w, 0xfff00000) == Base20(w) && And(w, 0xff000000) == Base24(w)
  {
    OnesValues();
    LongShifts(w);
    LongShifts(w / 0x100000);
    LongShifts(w / 0x1000000);
    HighMask(w, 20, 12, 0x100000);
    HighMask(w, 24, 8, 0x1000000);
    LongShifts(0xfff);
    LongShifts(0xff);
  }

  /** The masks that keep a field in place: low bits, one flag, or the second-level index. */
  lemma FieldMasks(w: word)
    ensures And(w, 0x3) == Low2(w) && And(w, 0x7) == Low3(w)
    ensures And(w, 0x2) != 0 <==> Bit1(w)
    ensures And(w, 0x00040000) != 0 <==> Bit18(w)
    ensures And(w, 0x000ff000) == w / 0x1000 % 0x100 * 0x1000
  {
    LowMasks(w);
    FlagMasks(w);
    IndexMask(w);
  }

  lemma LowMasks(w: word)
    ensures And(w, 0x3) == Low2(w) && And(w, 0x7) == Low3(w)
  {
    OnesValues();
    AndOnes(w, 2);
    AndOnes(w, 3);
    LowDigits(w);
  }

  lemma LowDigits(w: nat)
    ensures Low(w, 2) == w % 4 && Low(w, 3) == w % 8
  {
    var h := w / 2;
    LowOne(h);
    LowOne(h / 2);
    assert Low(w, 2) == w % 2 + 2 * Low(h, 1);
    assert Low(w, 3) == w % 2 + 2 * Low(h, 2);
    assert Low(h, 2) == h % 2 + 2 * Low(h / 2, 1);
    DivMod(4, h / 2, 2 * (h % 2) + w % 2);
    DivMod(8, h / 2 / 2, 4 * (h / 2 % 2) + 2 * (h % 2) + w % 2);
  }

  lemma LowOne(a: nat)
    ensures Low(a, 1) == a % 2
  {
    assert Low(a / 2, 0) == 0;
  }

  lemma FlagMasks(w: word)
    ensures And(w, 0x2) != 0 <==> Bit1(w)
    ensures And(w, 0x00040000) != 0 <==> Bit18(w)
  {
    OnesValues();
    Shift2(w);
    Shift2(1);
    LongShifts(w);
    LongShifts(1);
    AndShl(w, 1, 1);
    AndShl(w, 1, 18);
    AndOnes(w / 2, 1);
    AndOnes(w / 0x40000, 1);
    LowOne(w / 2);
    LowOne(w / 0x40000);
    Shift2(w / 2 % 2);
    LongShifts(w / 0x40000 % 2);
  }

  lemma IndexMask(w: word)
    ensures And(w, 0x000ff000) == w / 0x1000 % 0x100 * 0x1000
  {
    OnesValues();
    var x := w / 0x1000;
    LongShifts(w);
    LongShifts(0xff);
    AndShl(w, 0xff, 12);
    AndOnes(x, 8);
    LowByte(x);
    LongShifts(x % 0x100);
  }

  lemma LowByte(x: nat)
    ensures Low(x, 8) == x % 0x100
  {
    SplitAt(x, 8);
    Shifts(x);
    Shifts(x / 0x100);
  }

  /** Every mask of the source, as the arithmetic field that stands for it in this model. */
  lemma Masks(w: word)
    ensures And(w, 0x3) == Low2(w) && And(w, 0x7) == Low3(w)
    ensures And(w, 0x2) != 0 <==> Bit1(w)
    ensures And(w, 0x00040000) != 0 <==> Bit18(w)
    ensures And(w, 0xfffffc00) == Base10(w) && And(w, 0xfffff000) == Base12(w)
    ensures And(w, 0xffffc000) == Base14(w)
    ensures And(w, 0xfff00000) == Base20(w) && And(w, 0xff000000) == Base24(w)
    ensures And(w, 0x000ff000) == w / 0x1000 % 0x100 * 0x1000
  {
    FieldMasks(w);
    HighMasks(w);
  }
}

/** Fields of model specific registers (utils.cpp) and the clock modulation that is built
    on them (topology-linux.cpp). */
module MsrBits {
  import opened Arithmetic

  /** Bits, the lowest first. */
  type Bits = seq<bool>

  type Word = s: seq<bool> | |s| == 64 witness seq(64, _ => false)

  function Pow2(n: nat): (p: nat)
    ensures p > 0
  {
    if n == 0 then 1 else 2 * Pow2(n - 1)
  }

  /** The number that bits stand for. */
  function Num(s: Bits): nat {
    if s == [] then 0 else (if s[0] then 1 else 0) + 2 * Num(s[1..])
  }

  /** The lowest bits of a number. */
  function BitsOf(n: nat, width: nat): (s: Bits)
    ensures |s| == width
    decreases width
  {
    if width == 0 then [] else [n % 2 == 1] + BitsOf(n / 2, width - 1)
  }

  lemma HalfMod(n: nat, m: nat)
    requires m > 0
    ensures n % (2 * m) == n % 2 + 2 * (n / 2 % m)
  {
    var h := n / 2;
    var q, r := h / m, h % m;
    assert n == (2 * m) * q + (n % 2 + 2 * r) by {
      assert h == q * m + r;
      assert n == 2 * h + n % 2;
      assert 2 * (q * m) == (2 * m) * q;
    }
    assert n % 2 + 2 * r < 2 * m;
    ModUnique(n, q, n % 2 + 2 * r, 2 * m);
  }

  lemma {:induction false} NumOfBits(n: nat, width: nat)
    ensures Num(BitsOf(n, width)) == n % Pow2(width)
    decreases width
  {
    if width > 0 {
      NumOfBits(n / 2, width - 1);
      HalfMod(n, Pow2(width - 1));
      assert BitsOf(n, width)[1..] == BitsOf(n / 2, width - 1);
    }
  }

  lemma {:induction false} BitsPrefix(n: nat, width: nat, k: nat)
    requires k <= width
    ensures BitsOf(n, width)[..k] == BitsOf(n, k)
    decreases width
  {
    if k > 0 { BitsPrefix(n / 2, width - 1, k - 1); }
  }

  lemma {:induction false} NumTrailingZeros(s: Bits, zeros: Bits)
    requires forall i :: 0 <= i < |zeros| ==> !zeros[i]
    ensures Num(s + zeros) == Num(s)
    decreases |s| + |zeros|
  {
    if s != [] {
      assert (s + zeros)[1..] == s[1..] + zeros;
      NumTrailingZeros(s[1..], zeros);
    } else if zeros != [] {
      assert s + zeros == zeros && [] + zeros[1..] == zeros[1..];
      NumTrailingZeros([], zeros[1..]);
    }
  }

  // ---------------------------------------------------------------------
  // Operations on words

  function Zeros(n: nat): (s: Bits)
    ensures |s| == n && forall i :: 0 <= i < n ==> !s[i]
  {
    seq(n, _ => false)
  }

  function ShiftLeft(w: Word, n: nat): Word
    requires n <= 64
  {
    Zeros(n) + w[..64 - n]
  }

  function ShiftRight(w: Word, n: nat): Word
    requires n <= 64
  {
    w[n..] + Zeros(n)
  }

  /** w & ((1 << n) - 1) */
  function MaskLow(w: Word, n: nat): Word
    requires n <= 64
  {
    w[..n] + Zeros(64 - n)
  }

  /** w & ~(1 << i) */
  function ClearBit(w: Word, i: nat): Word
    requires i < 64
  {
    w[i := false]
  }

  function Or(a: Word, b: Word): Word {
    seq(64, i requires 0 <= i < 64 => a[i] || b[i])
  }

  /** A word with a field replaced by the lowest bits of another. */
  function WithField(w: Word, high: nat, low: nat, value: Word): Word
    requires low <= high < 64
  {
    w[..low] + value[..high - low + 1] + w[high + 1..]
  }

  lemma NumZeros(n: nat)
    ensures Num(Zeros(n)) == 0
  {
    NumTrailingZeros([], Zeros(n));
    assert [] + Zeros(n) == Zeros(n);
  }

  class Msr {
    var register: Word
    const readable: bool
    const writable: bool

    constructor (register: Word, readable: bool, writable: bool)
      ensures this.register == register && this.readable == readable && this.writable == writable
    {
      this.register, this.readable, this.writable := register, readable, writable;
    }

    /** The bits of the field, in the lowest places of a word. */
    method ReadBits(high: nat, low: nat) returns (ok: bool, value: Word)
      requires low <= high < 64
      ensures ok == readable
      ensures ok ==> value == register[low..high + 1] + Zeros(63 - high + low)
      ensures Num(value) == if ok then Num(register[low..high + 1]) else 0
    {
      value := Zeros(64);
      if !readable {
        NumZeros(64);
        return false, value;
      }
      value := register;
      var bits := high - low + 1;
      if bits < 64 {
        value := ShiftRight(value, low);
        value := MaskLow(value, bits);
      }
      NumTrailingZeros(register[low..high + 1], Zeros(63 - high + low));
      ok := true;
    }

    /** The 64 steps of the loop amount to replacing the field.  A register that cannot
        be read leaves the old value undefined: `junk`. */
    method WriteBits(high: nat, low: nat, value: Word, junk: Word) returns (ok: bool)
      requires low <= high < 64
      modifies this`register
      ensures ok == writable
      ensures !ok ==> register == old(register)
      ensures ok ==> register == WithField(if readable then old(register) else junk, high, low, value)
    {
      var v: Word := ShiftLeft(value, low);
      var oldValue: Word := if readable then register else junk;
      ghost var before := oldValue;
      var i := 0;
      while i < 64
        invariant 0 <= i <= 64
        invariant forall j :: 0 <= j < 64 ==>
                    oldValue[j] == if j < i && low <= j <= high then false else before[j]
        invariant forall j :: 0 <= j < 64 ==>
                    v[j] == if j < i && !(low <= j <= high) then false else ShiftLeft(value, low)[j]
      {
        if i >= low && i <= high {
          oldValue := ClearBit(oldValue, i);
        } else {
          v := ClearBit(v, i);
        }
        i := i + 1;
      }
      if !writable {
        return false;
      }
      assert Or(oldValue, v) == WithField(before, high, low, value);
      register := Or(oldValue, v);
      ok := true;
    }
  }

  /** What is written to a field is read from it, modulo the width of the field. */
  lemma ReadAfterWrite(w: Word, high: nat, low: nat, n: nat)
    requires low <= high < 64
    ensures Num(WithField(w, high, low, BitsOf(n, 64))[low..high + 1]) == n % Pow2(high - low + 1)
  {
    var width := high - low + 1;
    assert WithField(w, high, low, BitsOf(n, 64))[low..high + 1] == BitsOf(n, 64)[..width];
    BitsPrefix(n, 64, width);
    NumOfBits(n, width);
  }

  /** A disjoint field is left alone, and so is every bit outside the field. */
  lemma OtherFieldsKept(w: Word, high: nat, low: nat, value: Word, h: nat, l: nat)
    requires low <= high < 64 && l <= h < 64 && (h < low || high < l)
    ensures WithField(w, high, low, value)[l..h + 1] == w[l..h + 1]
  {
  }

  /** The word with a field replaced by a number, in arithmetic. */
  lemma FieldInNumbers(w: Word, high: nat, low: nat, n: nat)
    requires low <= high < 64
    ensures Num(WithField(w, high, low, BitsOf(n, 64)))
         == Num(w[..low]) + Pow2(low) * (n % Pow2(high - low + 1)) + Pow2(high + 1) * Num(w[high + 1..])
  {
    var width := high - low + 1;
    var field := BitsOf(n, 64)[..width];
    BitsPrefix(n, 64, width);
    NumOfBits(n, width);
    NumConcat(w[..low] + field, w[high + 1..]);
    NumConcat(w[..low], field);
  }

  lemma PowZero()
    ensures Pow2(0) == 1
  {
  }

  lemma TwicePow2(n: nat, x: nat)
    requires n > 0
    ensures Pow2(n) * x == 2 * (Pow2(n - 1) * x)
  {
  }

  lemma {:induction false} NumConcat(a: Bits, b: Bits)
    ensures Num(a + b) == Num(a) + Pow2(|a|) * Num(b)
    decreases |a|
  {
    hide Pow2;
    PowZero();
    if a == [] {
      assert a + b == b;
    } else {
      NumConcat(a[1..], b);
      TwicePow2(|a|, Num(b));
      assert (a + b)[1..] == a[1..] + b;
    }
  }

  // ---------------------------------------------------------------------
  // Clock modulation

  class VirtualCore {
    const msr: Msr
    const lowBit: nat
    const step: real
    var values: seq<real>

    /** Extended modulation has 15 steps of 6.25 in bits 3..0, the other one 7 steps of
        12.5 in bits 3..1; bit 4 enables it.  Disabled means 100. */
    ghost predicate Valid()
      reads this
    {
      && (if lowBit == 0 then step == 6.25 else lowBit == 1 && step == 12.5)
      && values == Offered(lowBit, step)
    }

    constructor (msr: Msr, extended: bool)
      ensures Valid() && this.msr == msr && (lowBit == 0 <==> extended)
    {
      this.msr := msr;
      var possible: nat;
      var size: real;
      if extended {
        lowBit, step, possible, size := 0, 6.25, 15, 6.25;
      } else {
        lowBit, step, possible, size := 1, 12.5, 7, 12.5;
      }
      var offered: seq<real> := [];
      var i := 0;
      while i < possible
        invariant 0 <= i <= possible && offered == Multiples(size, i)
      {
        MultiplesNext(size, i);
        offered := offered + [size * (i + 1) as real];
        i := i + 1;
      }
      values := offered + [100.0];
    }

    /** Only the values offered are accepted; anything else is an error that leaves the
        register alone.  Nobody looks at whether the register could be read and written:
        one that cannot be written stays as it is, and what one that cannot be read is
        taken to hold is undefined, anew at each of the two writes. */
    method SetClockModulation(value: real, junk: Word, junk2: Word) returns (ok: bool)
      requires Valid()
      modifies msr`register
      ensures ok <==> value in values
      ensures !ok || !msr.writable ==> msr.register == old(msr.register)
      ensures ok && msr.writable ==>
                msr.register == if msr.readable then Modulated(old(msr.register), lowBit, step, value)
                                else if value == 100.0 then Modulated(junk, lowBit, step, value)
                                else WithField(junk2, 3, lowBit, BitsOf(StepsIn(value, step), 64))
    {
      if value !in values {
        return false;
      }
      if value == 100.0 {
        var _ := msr.WriteBits(4, lowBit, BitsOf(0, 64), junk);
      } else {
        ghost var k := OfferedAt(lowBit, step, value);
        var _ := msr.WriteBits(4, 4, BitsOf(1, 64), junk);
        var _ := msr.WriteBits(3, lowBit, BitsOf((value / step).Floor, 64), junk2);
      }
      ok := true;
    }

    method GetClockModulation() returns (value: real)
      requires Valid()
      ensures value == if msr.readable then ModulationOf(msr.register, lowBit, step) else 100.0
    {
      var _, enabled := msr.ReadBits(4, 4);
      if Num(enabled) == 0 {
        return 100.0;
      }
      var _, v := msr.ReadBits(3, lowBit);
      value := Num(v) as real * step;
    }
  }

  function Multiples(step: real, n: nat): (s: seq<real>)
    ensures |s| == n
  {
    if n == 0 then [] else Multiples(step, n - 1) + [step * n as real]
  }

  lemma MultiplesNext(step: real, n: nat)
    ensures Multiples(step, n + 1) == Multiples(step, n) + [step * (n + 1) as real]
  {
  }

  function Offered(lowBit: nat, step: real): seq<real> {
    Multiples(step, if lowBit == 0 then 15 else 7) + [100.0]
  }

  function StepsIn(value: real, step: real): nat
    requires step > 0.0
  {
    var n := (value / step).Floor;
    if n < 0 then 0 else n
  }

  /** The register after a value has been set. */
  ghost function Modulated(w: Word, lowBit: nat, step: real, value: real): Word
    requires lowBit <= 1 && step > 0.0
  {
    if value == 100.0 then WithField(w, 4, lowBit, BitsOf(0, 64))
    else WithField(WithField(w, 4, 4, BitsOf(1, 64)), 3, lowBit, BitsOf(StepsIn(value, step), 64))
  }

  /** The modulation that a register stands for. */
  ghost function ModulationOf(w: Word, lowBit: nat, step: real): real
    requires lowBit <= 1
  {
    if Num(w[4..5]) == 0 then 100.0 else Num(w[lowBit..4]) as real * step
  }

  lemma {:induction false} MultiplesAt(step: real, n: nat, value: real) returns (k: nat)
    requires value in Multiples(step, n)
    ensures 1 <= k <= n && value == step * k as real
  {
    if value in Multiples(step, n - 1) {
      k := MultiplesAt(step, n - 1, value);
    } else {
      k := n;
    }
  }

  predicate Steps(value: real, size: real, k: nat) {
    value == size * k as real
  }

  lemma {:induction false} MultiplesHas(size: real, n: nat, k: nat)
    requires 1 <= k <= n
    ensures Multiples(size, n)[k - 1] == size * k as real
  {
    if k < n { MultiplesHas(size, n - 1, k); }
  }

  /** Extended modulation offers 6.25, 12.5, ... to 93.75 and 100, the other one 12.5, 25,
      ... to 87.5 and 100. */
  lemma OfferedExactly(value: real)
    ensures value in Offered(0, 6.25) <==> value == 100.0 || exists k: nat :: Steps(value, 6.25, k) && 1 <= k <= 15
    ensures value in Offered(1, 12.5) <==> value == 100.0 || exists k: nat :: Steps(value, 12.5, k) && 1 <= k <= 7
  {
    hide Multiples;
    OfferedIn(0, 6.25, 15, value);
    OfferedIn(1, 12.5, 7, value);
  }

  lemma OfferedIn(lowBit: nat, size: real, n: nat, value: real)
    requires n == if lowBit == 0 then 15 else 7
    ensures value in Offered(lowBit, size) <==> value == 100.0 || exists k: nat :: Steps(value, size, k) && 1 <= k <= n
  {
    hide Multiples;
    if value in Multiples(size, n) {
      var k := MultiplesAt(size, n, value);
      assert Steps(value, size, k);
    }
    if k: nat :| Steps(value, size, k) && 1 <= k <= n {
      MultiplesHas(size, n, k);
    }
  }

  /** The bits of a register after a value has been set: bit 4 is off for 100, and on
      otherwise, and the bits below it count the steps. */
  lemma ModulatedBits(w: Word, lowBit: nat, step: real, value: real)
    requires if lowBit == 0 then step == 6.25 else lowBit == 1 && step == 12.5
    requires value in Offered(lowBit, step)
    ensures var m := Modulated(w, lowBit, step, value);
      && (m[4] <==> value != 100.0)
      && (value != 100.0 ==> Steps(value, step, Num(m[lowBit..4])))
  {
    hide WithField, BitsOf, Offered;
    var m := Modulated(w, lowBit, step, value);
    ModulationBits(m, lowBit, step);
    GetAfterSet(w, lowBit, step, value);
    if value == 100.0 {
      ReadInside(w, lowBit);
    } else {
      var k := OfferedAt(lowBit, step, value);
      var on := WithField(w, 4, 4, BitsOf(1, 64));
      ReadAfterWrite(w, 4, 4, 1);
      assert Pow2(1) == 2;
      OtherFieldsKept(on, 3, lowBit, BitsOf(k, 64), 4, 4);
    }
  }

  /** What a register stands for, bit by bit. */
  lemma ModulationBits(w: Word, lowBit: nat, step: real)
    requires lowBit <= 1
    ensures w[4] <==> Num(w[4..5]) == 1
    ensures !w[4] <==> Num(w[4..5]) == 0
    ensures ModulationOf(w, lowBit, step) == if !w[4] then 100.0 else Num(w[lowBit..4]) as real * step
  {
    assert w[4..5] == [w[4]];
    assert [w[4]][1..] == [];
  }

  lemma OfferedAt(lowBit: nat, step: real, value: real) returns (k: nat)
    requires if lowBit == 0 then step == 6.25 else lowBit == 1 && step == 12.5
    requires value in Offered(lowBit, step) && value != 100.0
    ensures 1 <= k < Pow2(4 - lowBit) && value == step * k as real
    ensures (value / step).Floor == k == StepsIn(value, step)
  {
    var n := if lowBit == 0 then 15 else 7;
    assert value in Multiples(step, n);
    k := MultiplesAt(step, n, value);
    assert value / step == k as real;
    assert Pow2(4) == 16 && Pow2(3) == 8;
  }

  /** Getting the modulation after setting it gives back every value offered, in both
      modes. */
  lemma GetAfterSet(w: Word, lowBit: nat, step: real, value: real)
    requires if lowBit == 0 then step == 6.25 else lowBit == 1 && step == 12.5
    requires value in Offered(lowBit, step)
    ensures ModulationOf(Modulated(w, lowBit, step, value), lowBit, step) == value
  {
    hide WithField, BitsOf, Num, Offered;
    if value == 100.0 {
      var zero := WithField(w, 4, lowBit, BitsOf(0, 64));
      ReadInside(w, lowBit);
    } else {
      var k := OfferedAt(lowBit, step, value);
      var on := WithField(w, 4, 4, BitsOf(1, 64));
      ReadAfterWrite(w, 4, 4, 1);
      assert Pow2(1) == 2;
      OtherFieldsKept(on, 3, lowBit, BitsOf(k, 64), 4, 4);
      ReadAfterWrite(on, 3, lowBit, k);
      SmallMod(k, Pow2(4 - lowBit));
    }
  }

  lemma SmallMod(k: nat, m: nat)
    requires k < m
    ensures k % m == k
  {
    ModUnique(k, 0, k, m);
  }

  /** Bit 4 is off after zeros have been written to a field that contains it. */
  lemma ReadInside(w: Word, lowBit: nat)
    requires lowBit <= 1
    ensures Num(WithField(w, 4, lowBit, BitsOf(0, 64))[4..5]) == 0
  {
    hide BitsOf;
    var z := BitsOf(0, 64);
    ZeroBits(64);
    assert WithField(w, 4, lowBit, z)[4..5] == [false];
    assert [false][1..] == [];
  }

  lemma {:induction false} ZeroBits(width: nat)
    ensures forall i :: 0 <= i < width ==> !BitsOf(0, width)[i]
  {
    if width > 0 { ZeroBits(width - 1); }
  }

  /** Setting a modulation touches no bit outside 4..lowBit. */
  lemma SetKeepsOtherBits(w: Word, lowBit: nat, step: real, value: real, i: nat)
    requires lowBit <= 1 && step > 0.0 && i < 64 && (i < lowBit || i > 4)
    ensures Modulated(w, lowBit, step, value)[i] == w[i]
  {
    hide BitsOf;
  }

  /** The code end to end, on a register with any contents.  Offered values are accepted,
      others are refused and change nothing.  What was accepted is read back exactly if
      the register can be read and written, or reads as that value anyway. */
  method SetThenGet(register: Word, readable: bool, writable: bool, extended: bool, value: real,
                    junk: Word, junk2: Word)
      returns (ok: bool, got: real, after: Word)
    ensures ok <==> value == 100.0 || exists k: nat :: if extended then Steps(value, 6.25, k) && 1 <= k <= 15
                                                       else Steps(value, 12.5, k) && 1 <= k <= 7
    ensures got == if !readable then 100.0
                   else if ok && writable then value
                   else if !register[4] then 100.0
                   else if extended then Num(register[0..4]) as real * 6.25
                   else Num(register[1..4]) as real * 12.5
    ensures ok && readable && writable ==> (after[4] <==> value != 100.0)
    ensures ok && readable && writable && value != 100.0 ==>
              if extended then Steps(value, 6.25, Num(after[0..4])) else Steps(value, 12.5, Num(after[1..4]))
    ensures !ok || !writable ==> after == register
    ensures readable ==> forall i :: 0 <= i < 64 && (i > 4 || (i == 0 && !extended)) ==> after[i] == register[i]
  {
    hide Offered, ModulationOf, Modulated, WithField;
    var msr := new Msr(register, readable, writable);
    var core := new VirtualCore(msr, extended);
    ok := core.SetClockModulation(value, junk, junk2);
    got := core.GetClockModulation();
    after := msr.register;
    OfferedExactly(value);
    ModulationBits(register, core.lowBit, core.step);
    if ok && readable && writable {
      GetAfterSet(register, core.lowBit, core.step, value);
      ModulatedBits(register, core.lowBit, core.step, value);
      forall i | 0 <= i < 64 && (i > 4 || (i == 0 && !extended))
        ensures after[i] == register[i]
      {
        SetKeepsOtherBits(register, core.lowBit, core.step, value, i);
      }
    }
  }
}

/** Positional numbers in any base, least significant digit first: the arithmetic
    behind the byte strings and the 64-bit limbs of the proof-of-work seal. */
module LittleEndian {

  function Pow(base: nat, exponent: nat): (p: nat)
    ensures base > 0 ==> p > 0
  {
    if exponent == 0 then 1 else base * Pow(base, exponent - 1)
  }

  ghost predicate AreDigits(base: nat, digits: seq<nat>) {
    forall i | 0 <= i < |digits| :: digits[i] < base
  }

  /** The number that a digit string stands for. */
  function Value(base: nat, digits: seq<nat>): nat {
    if digits == [] then 0 else digits[0] + base * Value(base, digits[1..])
  }

  /** The lowest `count` digits of a number. */
  function ToDigits(base: nat, count: nat, x: nat): (digits: seq<nat>)
    requires base > 0
    ensures |digits| == count
    ensures AreDigits(base, digits)
  {
    if count == 0 then [] else [x % base] + ToDigits(base, count - 1, x / base)
  }

  lemma MulMonotone(a: nat, b: int, c: int)
    ensures b <= c ==> a * b <= a * c
  {
  }

  lemma Distribute(a: int, b: int, c: int)
    ensures a * (b + c) == a * b + a * c
  {
  }

  lemma Regroup(a: int, b: int, c: int)
    ensures a * (b * c) == (a * b) * c == b * (a * c)
  {
  }

  lemma RoomForOneDigit(base: nat, d: nat, v: nat, p: nat)
    requires d < base && v < p
    ensures d + base * v < base * p
  {
    MulMonotone(base, v + 1, p);
    assert base * (v + 1) == base * v + base;
  }

  lemma {:induction false} PowAdd(base: nat, a: nat, b: nat)
    ensures Pow(base, a + b) == Pow(base, a) * Pow(base, b)
  {
    if a == 0 {
    } else {
      PowAdd(base, a - 1, b);
      Regroup(base, Pow(base, a - 1), Pow(base, b));
    }
  }

  lemma {:induction false} ValueConcat(base: nat, low: seq<nat>, high: seq<nat>)
    ensures Value(base, low + high) == Value(base, low) + Pow(base, |low|) * Value(base, high)
  {
    if low == [] {
      assert low + high == high;
    } else {
      var rest := low[1..];
      assert (low + high)[1..] == rest + high;
      ValueConcat(base, rest, high);
      var p, h := Pow(base, |rest|), Value(base, high);
      Distribute(base, Value(base, rest), p * h);
      Regroup(base, p, h);
    }
  }

  lemma {:induction false} ValueBound(base: nat, digits: seq<nat>)
    requires AreDigits(base, digits)
    ensures Value(base, digits) < Pow(base, |digits|)
  {
    if digits == [] {
    } else {
      var rest := digits[1..];
      assert AreDigits(base, rest);
      ValueBound(base, rest);
      RoomForOneDigit(base, digits[0], Value(base, rest), Pow(base, |rest|));
    }
  }

  /** Changing one digit moves the value by the difference at that digit's weight. */
  lemma {:induction false} ValueUpdate(base: nat, digits: seq<nat>, k: nat, d: nat)
    requires k < |digits|
    ensures Value(base, digits[k := d]) == Value(base, digits) + (d - digits[k]) * Pow(base, k)
  {
    var changed := digits[k := d];
    if k == 0 {
      assert changed[1..] == digits[1..];
    } else {
      assert changed[1..] == digits[1..][k - 1 := d];
      ValueUpdate(base, digits[1..], k - 1, d);
      var p, diff := Pow(base, k - 1), d - digits[k];
      Distribute(base, Value(base, digits[1..]), diff * p);
      Regroup(base, diff, p);
    }
  }

  /** Zero is written with zeros only. */
  lemma {:induction false} ValueZero(base: nat, digits: seq<nat>)
    requires base > 0
    ensures Value(base, digits) == 0 <==> forall i | 0 <= i < |digits| :: digits[i] == 0
  {
    if digits == [] {
    } else {
      ValueZero(base, digits[1..]);
      var v := Value(base, digits[1..]);
      assert base * v == 0 <==> v == 0;
      if Value(base, digits) == 0 {
        forall i | 0 <= i < |digits| ensures digits[i] == 0 {
          if i > 0 { assert digits[i] == digits[1..][i - 1]; }
        }
      } else if v != 0 {
        var i :| 0 <= i < |digits[1..]| && digits[1..][i] != 0;
        assert digits[i + 1] != 0;
      }
    }
  }

  lemma DivModUnique(base: nat, q: nat, r: nat)
    requires r < base
    ensures (r + base * q) % base == r && (r + base * q) / base == q
  {
    var x := r + base * q;
    assert x == base * (x / base) + x % base;
    var gap := x / base - q;
    assert base * gap == r - x % base;
    MulMonotone(base, 1, gap);
    MulMonotone(base, gap, -1);
  }

  lemma QuotientFits(base: nat, x: nat, p: nat)
    requires base > 0
    requires x < base * p
    ensures x == x % base + base * (x / base)
    ensures x / base < p
  {
    MulMonotone(base, p, x / base);
  }

  /** Reading back the digits of a number that fits gives the number. */
  lemma {:induction false} ValueOfDigits(base: nat, count: nat, x: nat)
    requires base > 0
    requires x < Pow(base, count)
    ensures Value(base, ToDigits(base, count, x)) == x
  {
    if count == 0 {
    } else {
      QuotientFits(base, x, Pow(base, count - 1));
      ValueOfDigits(base, count - 1, x / base);
      assert ToDigits(base, count, x)[1..] == ToDigits(base, count - 1, x / base);
    }
  }

  /** Writing out the value of a digit string gives the digit string back. */
  lemma {:induction false} DigitsOfValue(base: nat, digits: seq<nat>)
    requires base > 0
    requires AreDigits(base, digits)
    ensures ToDigits(base, |digits|, Value(base, digits)) == digits
  {
    if digits == [] {
    } else {
      DivModUnique(base, Value(base, digits[1..]), digits[0]);
      DigitsOfValue(base, digits[1..]);
    }
  }

  function Reverse<T>(s: seq<T>): (r: seq<T>)
    ensures |r| == |s|
    ensures forall i {:trigger r[i]} | 0 <= i < |s| :: r[i] == s[|s| - 1 - i]
  {
    seq(|s|, i requires 0 <= i < |s| => s[|s| - 1 - i])
  }

  lemma ReverseTwice<T>(s: seq<T>)
    ensures Reverse(Reverse(s)) == s
  {
  }
}

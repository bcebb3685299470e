/** 256-bit multiplication with an overflow flag, limb by limb. */
module Multiplication {
  import opened LittleEndian
  import opened Primitives

  /** The sum formed for one limb never needs more than two limbs. */
  lemma CarryFits(digit: u64, x: u64, y: u64, carry: u64)
    ensures (digit + x * y + carry) / TWO_64 < TWO_64
  {
    var m := TWO_64 - 1;
    MulMonotone(x, y, m);
    MulMonotone(m, x, m);
    assert digit + x * y + carry <= m * m + 2 * m;
  }

  /** Keeping the low limb of `t` in place and carrying its high limb on adds
      exactly `x * y * place` to the number written so far. */
  lemma CarryStep(digit: nat, x: nat, y: nat, carry: nat, t: nat, place: nat)
    requires t == digit + x * y + carry
    ensures (t % TWO_64 - digit) * place + t / TWO_64 * (TWO_64 * place)
         == carry * place + x * y * place
  {
    var q, m := t / TWO_64, t % TWO_64;
    assert t == TWO_64 * q + m;
    assert q * (TWO_64 * place) == (TWO_64 * q) * place;
    assert (m - digit) * place + (TWO_64 * q) * place == (m - digit + TWO_64 * q) * place;
    assert (x * y + carry) * place == x * y * place + carry * place;
  }

  lemma ValueSnoc(digits: seq<u64>, k: nat)
    requires k < |digits|
    ensures Value(TWO_64, digits[..k + 1]) == Value(TWO_64, digits[..k]) + digits[k] * Pow(TWO_64, k)
  {
    assert digits[..k + 1] == digits[..k] + [digits[k]];
    ValueConcat(TWO_64, digits[..k], [digits[k]]);
    assert Value(TWO_64, [digits[k]]) == digits[k];
  }

  /** What the inner loop keeps: the number written plus the carry at its place is
      the finished rows plus the part of row `i` done so far. */
  ghost predicate RowProgress(r: seq<u64>, carry: nat, a: seq<u64>, b: seq<u64>, i: nat, j: nat)
    requires i < |b| && j <= |a|
  {
    Value(TWO_64, r) + carry * Pow(TWO_64, i + j)
    == Value(TWO_64, a) * Value(TWO_64, b[..i]) + Value(TWO_64, a[..j]) * b[i] * Pow(TWO_64, i)
  }

  lemma DistributeCell(done: nat, x: nat, column: nat, y: nat, row: nat)
    ensures (done + x * column) * y * row == done * y * row + x * y * (row * column)
  {
    assert (done + x * column) * y == done * y + x * column * y;
    assert (done * y + x * column * y) * row == done * y * row + x * column * y * row;
    assert x * column * y * row == x * y * (row * column) by {
      assert x * column * y == x * y * column;
      assert (x * y * column) * row == (x * y) * (column * row);
    }
  }

  lemma PlaceStep(k: nat)
    ensures Pow(TWO_64, k + 1) == TWO_64 * Pow(TWO_64, k)
  {
  }

  lemma RowStep(r: seq<u64>, carry: u64, a: seq<u64>, b: seq<u64>, i: nat, j: nat, t: nat)
    requires i < |b| && j < |a| && |r| == |a| + |b|
    requires RowProgress(r, carry, a, b, i, j)
    requires t == r[i + j] + a[j] * b[i] + carry
    ensures RowProgress(r[i + j := t % TWO_64], t / TWO_64, a, b, i, j + 1)
  {
    var place := Pow(TWO_64, i + j);
    ValueUpdate(TWO_64, r, i + j, t % TWO_64);
    CarryStep(r[i + j], a[j], b[i], carry, t, place);
    ValueSnoc(a, j);
    PowAdd(TWO_64, i, j);
    DistributeCell(Value(TWO_64, a[..j]), a[j], Pow(TWO_64, j), b[i], Pow(TWO_64, i));
    PlaceStep(i + j);
  }

  lemma DistributeRow(v: nat, w: nat, y: nat, row: nat)
    ensures v * (w + y * row) == v * w + v * y * row
  {
    assert v * (y * row) == v * y * row;
  }

  lemma RowEnd(r: seq<u64>, carry: u64, a: seq<u64>, b: seq<u64>, i: nat)
    requires i < |b| && |r| == |a| + |b|
    requires RowProgress(r, carry, a, b, i, |a|)
    requires r[i + |a|] == 0
    ensures Value(TWO_64, r[i + |a| := carry]) == Value(TWO_64, a) * Value(TWO_64, b[..i + 1])
  {
    ValueUpdate(TWO_64, r, i + |a|, carry);
    ValueSnoc(b, i);
    assert a[..|a|] == a;
    DistributeRow(Value(TWO_64, a), Value(TWO_64, b[..i]), b[i], Pow(TWO_64, i));
  }

  /** The first `i` rows are in `r`, and the limbs above them are still zero. */
  ghost predicate RowsDone(r: seq<u64>, a: seq<u64>, b: seq<u64>, i: nat)
    requires i <= |b|
  {
    && |r| == |a| + |b|
    && (forall k | i + |a| <= k < |r| :: r[k] == 0)
    && Value(TWO_64, r) == Value(TWO_64, a) * Value(TWO_64, b[..i])
  }

  lemma RowStart(r: seq<u64>, a: seq<u64>, b: seq<u64>, i: nat)
    requires i < |b|
    requires RowsDone(r, a, b, i)
    ensures RowProgress(r, 0, a, b, i, 0)
  {
  }

  /** Adds row `i`, `a` times limb `i` of `b`, carrying from limb to limb. */
  method AddRow(r: array<u64>, a: seq<u64>, b: seq<u64>, i: nat)
    requires i < |b|
    requires RowsDone(r[..], a, b, i)
    modifies r
    ensures RowsDone(r[..], a, b, i + 1)
  {
    var carry: u64 := 0;
    RowStart(r[..], a, b, i);
    for j := 0 to |a|
      invariant forall k | i + |a| <= k < r.Length :: r[k] == 0
      invariant RowProgress(r[..], carry, a, b, i, j)
    {
      ghost var was := r[..];
      var t := r[i + j] + a[j] * b[i] + carry;
      CarryFits(r[i + j], a[j], b[i], carry);
      RowStep(was, carry, a, b, i, j, t);
      var low: u64 := t % TWO_64;
      r[i + j], carry := low, t / TWO_64;
      assert r[..] == was[i + j := low];
    }
    ghost var was := r[..];
    RowEnd(was, carry, a, b, i);
    r[i + |a|] := carry;
    assert r[..] == was[i + |a| := carry];
  }

  /** All product limbs of `a * b`, for operands of any length. */
  method FullMul(a: seq<u64>, b: seq<u64>) returns (product: seq<u64>)
    ensures |product| == |a| + |b|
    ensures Value(TWO_64, product) == Value(TWO_64, a) * Value(TWO_64, b)
  {
    var r := new u64[|a| + |b|](_ => 0);
    ValueZero(TWO_64, r[..]);
    for i := 0 to |b|
      invariant RowsDone(r[..], a, b, i)
    {
      AddRow(r, a, b, i);
    }
    assert b[..|b|] == b;
    product := r[..];
  }

  /** The high half of an eight-limb number is its quotient by 2^256, the low half the remainder. */
  lemma SplitProduct(product: seq<u64>)
    requires |product| == 8
    ensures ToNat(product[..4]) == Value(TWO_64, product) % TWO_256
    ensures Value(TWO_64, product) >= TWO_256 <==> exists k | 4 <= k < 8 :: product[k] != 0
  {
    var low, high := product[..4], product[4..];
    Constants();
    assert product == low + high;
    ValueConcat(TWO_64, low, high);
    DivModUnique(TWO_256, Value(TWO_64, high), ToNat(low));
    ValueZero(TWO_64, high);
    if k :| 4 <= k < 8 && product[k] != 0 {
      assert high[k - 4] != 0;
    }
  }

  /** The product modulo 2^256, and whether the high limbs were needed. */
  method OverflowingMul(a: U256, b: U256) returns (low: U256, overflowed: bool)
    ensures ToNat(low) == ToNat(a) * ToNat(b) % TWO_256
    ensures overflowed <==> ToNat(a) * ToNat(b) >= TWO_256
  {
    var product := FullMul(a, b);
    low := product[..4];
    overflowed := false;
    for i := 4 to 8
      invariant overflowed <==> exists k | 4 <= k < i :: product[k] != 0
    {
      if product[i] != 0 {
        overflowed := true;
      }
    }
    SplitProduct(product);
  }
}

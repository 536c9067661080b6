/** Rows of bytes as big-endian integers, as int.from_bytes and int.to_bytes read and write them,
    with the bitwise operations of unbounded integers (src/apex/model/screens.py:147-165, 179-181). */
module WideIntegers {
  import opened Bytes

  /** Digits, whatever their size, weighed by powers of 256. */
  function FromBig(s: seq<nat>): nat {
    if s == [] then 0 else 256 * FromBig(s[..|s| - 1]) + s[|s| - 1]
  }

  /** The bytes of a number in a fixed width; none when it does not fit, where Python raises. */
  function ToBig(v: nat, width: nat): (r: Option<Bytes>)
    ensures r.Some? ==> |r.value| == width
  {
    if width == 0 then (if v == 0 then Some([]) else None)
    else
      match ToBig(v / 256, width - 1)
      case None => None
      case Some(high) => Some(high + [v % 256])
  }

  function And(a: nat, b: nat): nat {
    if a == 0 || b == 0 then 0 else 2 * And(a / 2, b / 2) + (if a % 2 == 1 && b % 2 == 1 then 1 else 0)
  }

  function Xor(a: nat, b: nat): nat
    decreases a + b
  {
    if a == 0 && b == 0 then 0 else 2 * Xor(a / 2, b / 2) + (if a % 2 != b % 2 then 1 else 0)
  }

  /** Which bytes fit and what they are: reading a row back gives the row. */
  lemma {:induction false} BigReadsBack(s: Bytes)
    ensures ToBig(FromBig(s), |s|) == Some(s)
  {
    if s != [] {
      var high, low := s[..|s| - 1], s[|s| - 1];
      BigReadsBack(high);
      assert FromBig(s) / 256 == FromBig(high) && FromBig(s) % 256 == low;
      assert s == high + [low];
    }
  }

  // ----- bitwise operations act on each byte alone -----

  function Shifted(a: nat, k: nat): nat {
    if k == 0 then a else 2 * Shifted(a, k - 1)
  }

  lemma ShiftedTwice(a: nat, k: nat)
    ensures Shifted(a, k + 2) == 4 * Shifted(a, k)
  {
    assert Shifted(a, k + 2) == 2 * Shifted(a, k + 1);
  }

  lemma ShiftedByte(a: nat)
    ensures Shifted(a, 8) == 256 * a && Shifted(1, 8) == 256
  {
    ShiftedTwice(a, 0);
    ShiftedTwice(a, 2);
    ShiftedTwice(a, 4);
    ShiftedTwice(a, 6);
    ShiftedTwice(1, 0);
    ShiftedTwice(1, 2);
    ShiftedTwice(1, 4);
    ShiftedTwice(1, 6);
  }

  lemma Halves(a: nat, x: nat)
    requires x < 2
    ensures (2 * a + x) / 2 == a && (2 * a + x) % 2 == x
  {
  }

  lemma AndStep(a: nat, b: nat, x: nat, y: nat)
    requires x < 2 && y < 2
    ensures And(2 * a + x, 2 * b + y) == 2 * And(a, b) + And(x, y)
  {
    Halves(a, x);
    Halves(b, y);
  }

  lemma XorStep(a: nat, b: nat, x: nat, y: nat)
    requires x < 2 && y < 2
    ensures Xor(2 * a + x, 2 * b + y) == 2 * Xor(a, b) + Xor(x, y)
  {
    Halves(a, x);
    Halves(b, y);
  }

  /** An operation acts on each bit alone. */
  ghost predicate StepHolds(op: (nat, nat) -> nat, a: nat, b: nat, x: nat, y: nat) {
    op(2 * a + x, 2 * b + y) == 2 * op(a, b) + op(x, y)
  }

  ghost predicate Bitwise(op: (nat, nat) -> nat) {
    forall a: nat, b: nat, x: nat, y: nat | x < 2 && y < 2 :: StepHolds(op, a, b, x, y)
  }

  /** Then its low k bits do not meet the rest. */
  lemma {:induction false} Splits(op: (nat, nat) -> nat, a: nat, b: nat, x: nat, y: nat, k: nat)
    requires Bitwise(op) && x < Shifted(1, k) && y < Shifted(1, k)
    ensures op(Shifted(a, k) + x, Shifted(b, k) + y) == Shifted(op(a, b), k) + op(x, y)
    decreases k
  {
    if k == 0 {
      assert StepHolds(op, 0, 0, 0, 0);
    } else {
      Splits(op, a, b, x / 2, y / 2, k - 1);
      var m, n := Shifted(a, k - 1) + x / 2, Shifted(b, k - 1) + y / 2;
      assert StepHolds(op, m, n, x % 2, y % 2);
      assert StepHolds(op, x / 2, y / 2, x % 2, y % 2);
      assert 2 * m + x % 2 == Shifted(a, k) + x && 2 * n + y % 2 == Shifted(b, k) + y;
    }
  }

  function AndOp(): (nat, nat) -> nat {
    (a: nat, b: nat) => And(a, b)
  }

  function XorOp(): (nat, nat) -> nat {
    (a: nat, b: nat) => Xor(a, b)
  }

  lemma AndIsBitwise()
    ensures Bitwise(AndOp())
  {
    forall a: nat, b: nat, x: nat, y: nat | x < 2 && y < 2
      ensures StepHolds(AndOp(), a, b, x, y)
    {
      AndStep(a, b, x, y);
    }
  }

  lemma XorIsBitwise()
    ensures Bitwise(XorOp())
  {
    forall a: nat, b: nat, x: nat, y: nat | x < 2 && y < 2
      ensures StepHolds(XorOp(), a, b, x, y)
    {
      XorStep(a, b, x, y);
    }
  }

  lemma SplitsByte(op: (nat, nat) -> nat, a: nat, b: nat, x: byte, y: byte)
    requires Bitwise(op)
    ensures op(256 * a + x, 256 * b + y) == 256 * op(a, b) + op(x, y)
  {
    ShiftedByte(a);
    ShiftedByte(b);
    ShiftedByte(op(a, b));
    Splits(op, a, b, x, y, 8);
  }

  lemma AndBytes(a: nat, b: nat, x: byte, y: byte)
    ensures And(256 * a + x, 256 * b + y) == 256 * And(a, b) + And(x, y)
  {
    AndIsBitwise();
    SplitsByte(AndOp(), a, b, x, y);
  }

  lemma XorBytes(a: nat, b: nat, x: byte, y: byte)
    ensures Xor(256 * a + x, 256 * b + y) == 256 * Xor(a, b) + Xor(x, y)
    ensures Xor(x, y) < 256 && (Xor(x, y) == 0 <==> x == y)
  {
    XorIsBitwise();
    SplitsByte(XorOp(), a, b, x, y);
    ShiftedByte(0);
    XorWithin(x, y, 8);
  }

  /** Below k bits the exclusive or stays below k bits, and it is zero only for equals. */
  lemma {:induction false} XorWithin(x: nat, y: nat, k: nat)
    requires x < Shifted(1, k) && y < Shifted(1, k)
    ensures Xor(x, y) < Shifted(1, k)
    ensures Xor(x, y) == 0 <==> x == y
    decreases k
  {
    if k > 0 {
      XorWithin(x / 2, y / 2, k - 1);
    }
  }

  /** The conjunction of two rows of masks, byte by byte. */
  function Both(s: Bytes, t: Bytes): (r: Bytes)
    requires |s| == |t|
    ensures |r| == |s|
  {
    if s == [] then []
    else Both(s[..|s| - 1], t[..|t| - 1]) + [if s[|s| - 1] == 1 && t[|t| - 1] == 1 then 1 else 0]
  }

  predicate IsMask(s: Bytes) {
    forall i | 0 <= i < |s| :: s[i] <= 1
  }

  lemma {:induction false} BothAt(s: Bytes, t: Bytes, i: nat)
    requires |s| == |t| && i < |s|
    ensures Both(s, t)[i] == if s[i] == 1 && t[i] == 1 then 1 else 0
  {
    if i < |s| - 1 { BothAt(s[..|s| - 1], t[..|t| - 1], i); }
  }

  /** Joining masks as wide integers joins them byte by byte. */
  lemma {:induction false} AndOfMasks(s: Bytes, t: Bytes)
    requires |s| == |t| && IsMask(s) && IsMask(t)
    ensures And(FromBig(s), FromBig(t)) == FromBig(Both(s, t)) && IsMask(Both(s, t))
  {
    if s != [] {
      var a, b, x, y := s[..|s| - 1], t[..|t| - 1], s[|s| - 1], t[|t| - 1];
      AndOfMasks(a, b);
      AndBytes(FromBig(a), FromBig(b), x, y);
      assert Both(s, t)[..|s| - 1] == Both(a, b);
    }
  }

  /** Where two rows differ, as the bytes of the exclusive or. */
  function Differing(s: Bytes, t: Bytes): (r: Option<Bytes>) {
    ToBig(Xor(FromBig(s), FromBig(t)), |s|)
  }

  lemma {:induction false} DifferingMarks(s: Bytes, t: Bytes)
    requires |s| == |t|
    ensures var d := Differing(s, t);
            d.Some? && |d.value| == |s| && forall i | 0 <= i < |s| :: d.value[i] == 0 <==> s[i] == t[i]
  {
    if s != [] {
      var a, b := s[..|s| - 1], t[..|t| - 1];
      DifferingMarks(a, b);
      DifferingAppends(a, b, s[|s| - 1], t[|t| - 1]);
      InitAndLast(s);
      InitAndLast(t);
    }
  }

  lemma DifferingAppends(a: Bytes, b: Bytes, x: byte, y: byte)
    requires |a| == |b| && Differing(a, b).Some?
    ensures Xor(x, y) < 256 && (Xor(x, y) == 0 <==> x == y)
    ensures Differing(a + [x], b + [y]) == Some(Differing(a, b).value + [Xor(x, y)])
  {
    FromBigAppend(a, x);
    FromBigAppend(b, y);
    Appends(FromBig(a + [x]), FromBig(b + [y]), FromBig(a), FromBig(b), x, y, |a|);
  }

  lemma Appends(s: nat, t: nat, a: nat, b: nat, x: byte, y: byte, width: nat)
    requires ToBig(Xor(a, b), width).Some? && s == 256 * a + x && t == 256 * b + y
    ensures Xor(x, y) < 256 && (Xor(x, y) == 0 <==> x == y)
    ensures ToBig(Xor(s, t), width + 1) == Some(ToBig(Xor(a, b), width).value + [Xor(x, y)])
  {
    XorBytes(a, b, x, y);
    ToBigAppend(Xor(a, b), Xor(x, y), width);
  }

  lemma ToBigAppend(high: nat, low: byte, width: nat)
    requires ToBig(high, width).Some?
    ensures ToBig(256 * high + low, width + 1) == Some(ToBig(high, width).value + [low])
  {
    var v := 256 * high + low;
    assert v / 256 == high && v % 256 == low;
  }

  lemma FromBigAppend(s: seq<nat>, x: nat)
    ensures FromBig(s + [x]) == 256 * FromBig(s) + x
  {
    assert (s + [x])[..|s|] == s;
  }

  // ----- sums -----

  /** Adding wide integers adds them byte by byte, with nothing carried into the next byte, as
      long as every weighted sum is itself a byte. */
  lemma {:induction false} WeightedSum(r: Bytes, g: Bytes, b: Bytes, sums: Bytes)
    requires |r| == |g| == |b| == |sums|
    requires forall i | 0 <= i < |r| :: sums[i] as nat == r[i] as nat + g[i] as nat * 2 + b[i] as nat * 3
    ensures FromBig(r) * 1 + FromBig(g) * 2 + FromBig(b) * 3 == FromBig(sums)
  {
    if r != [] {
      var n := |r| - 1;
      WeightedSum(r[..n], g[..n], b[..n], sums[..n]);
    }
  }
}

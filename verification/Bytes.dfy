/** Byte strings, and the few text conventions the wire formats share: decimal numbers,
    first occurrences, and newline-terminated lines. */
module Bytes {
  type byte = x: int | 0 <= x < 256
  type Bytes = seq<byte>

  datatype Option<+T> = None | Some(value: T)

  const NEWLINE: byte := 10
  const RETURN: byte := 13

  /** Where `b` first occurs in `s`; the length of `s` when it does not. */
  function IndexOf(s: Bytes, b: byte): (i: nat)
    ensures i <= |s|
    ensures b !in s[..i]
    ensures i < |s| ==> s[i] == b
  {
    if s == [] then 0
    else if s[0] == b then 0
    else
      var i := IndexOf(s[1..], b);
      assert s[..i + 1] == [s[0]] + s[1..][..i];
      i + 1
  }

  predicate StartsWith(s: Bytes, prefix: Bytes) {
    |prefix| <= |s| && s[..|prefix|] == prefix
  }

  function Concat<T>(parts: seq<seq<T>>): seq<T> {
    if parts == [] then [] else parts[0] + Concat(parts[1..])
  }

  lemma InitAndLast<T>(s: seq<T>)
    requires s != []
    ensures s == s[..|s| - 1] + [s[|s| - 1]]
  {
  }

  lemma HeadAndTail<T>(s: seq<T>)
    requires s != []
    ensures s == [s[0]] + s[1..]
  {
  }

  lemma AppendAssociates<T>(a: seq<T>, b: seq<T>, c: seq<T>)
    ensures a + (b + c) == a + b + c
  {
  }

  lemma {:induction false} ConcatAppend<T>(a: seq<seq<T>>, b: seq<seq<T>>)
    ensures Concat(a + b) == Concat(a) + Concat(b)
  {
    if a == [] {
      assert a + b == b;
    } else {
      ConcatAppend(a[1..], b);
      assert (a + b)[1..] == a[1..] + b;
      AppendAssociates(a[0], Concat(a[1..]), Concat(b));
    }
  }

  // ----- numbers and finite sets -----

  function Min(a: nat, b: nat): nat {
    if a < b then a else b
  }

  function Max(a: nat, b: nat): nat {
    if a < b then b else a
  }

  lemma {:induction false} SubsetSize<T>(a: set<T>, b: set<T>)
    requires a <= b
    ensures |a| <= |b|
  {
    if a != {} {
      var x :| x in a;
      SubsetSize(a - {x}, b - {x});
    }
  }

  /** Where an element that occurs twice does. */
  lemma {:induction false} FindTwo<T>(s: seq<T>, x: T) returns (i: nat, j: nat)
    requires multiset(s)[x] >= 2
    ensures i < j < |s| && s[i] == s[j] == x
  {
    var init, last := s[..|s| - 1], s[|s| - 1];
    InitAndLast(s);
    assert multiset(s) == multiset(init) + multiset{last};
    if last != x {
      i, j := FindTwo(init, x);
    } else {
      assert x in multiset(init);
      i :| 0 <= i < |init| && init[i] == x;
      j := |s| - 1;
    }
  }

  lemma CountTwo<T>(s: seq<T>, i: nat, j: nat)
    requires i < j < |s| && s[i] == s[j]
    ensures multiset(s)[s[i]] >= 2
  {
    assert s == s[..j] + s[j..];
    assert multiset(s) == multiset(s[..j]) + multiset(s[j..]);
    assert s[..j][i] == s[i] && s[j..][0] == s[i];
    assert s[i] in s[..j] && s[i] in s[j..];
  }

  // ----- decimal text -----

  predicate IsDigit(b: byte) {
    48 <= b <= 57
  }

  predicate AllDigits(s: Bytes) {
    forall b :: b in s ==> IsDigit(b)
  }

  function Pow10(k: nat): (p: nat)
    ensures p > 0
  {
    if k == 0 then 1 else 10 * Pow10(k - 1)
  }

  function Decimal(n: nat): (s: Bytes)
    ensures s != []
  {
    if n < 10 then [48 + n] else Decimal(n / 10) + [48 + n % 10]
  }

  function ParseDecimal(s: Bytes): nat
    requires AllDigits(s)
  {
    if s == [] then 0
    else
      assert s[|s| - 1] in s;
      ParseDecimal(s[..|s| - 1]) * 10 + (s[|s| - 1] - 48)
  }

  lemma {:induction false} DecimalRoundTrip(n: nat)
    ensures AllDigits(Decimal(n)) && ParseDecimal(Decimal(n)) == n
  {
    if n < 10 {
      assert Decimal(n)[..0] == [];
      assert ParseDecimal([48 + n]) == ParseDecimal([48 + n][..0]) * 10 + n;
    } else {
      DecimalRoundTrip(n / 10);
      var s := Decimal(n);
      assert s[..|s| - 1] == Decimal(n / 10);
    }
  }

  /** A number takes at most `k` digits exactly when it is below ten to the `k`. */
  lemma {:induction false} DecimalWidth(n: nat, k: nat)
    requires k >= 1
    ensures |Decimal(n)| <= k <==> n < Pow10(k)
  {
    if k == 1 {
      assert Pow10(1) == 10 * Pow10(0);
      if n >= 10 { assert |Decimal(n / 10)| >= 1; }
    } else if n < 10 {
      assert Pow10(k) == 10 * Pow10(k - 1);
    } else {
      DecimalWidth(n / 10, k - 1);
      assert Pow10(k) == 10 * Pow10(k - 1);
    }
  }

  // ----- hexadecimal text -----

  predicate IsHex(b: byte) {
    48 <= b <= 57 || 97 <= b <= 102
  }

  predicate AllHex(s: Bytes) {
    forall b :: b in s ==> IsHex(b)
  }

  /** A SHA-256 digest as it is written: 64 lower-case hex digits. */
  predicate IsDigest(s: Bytes) {
    |s| == 64 && AllHex(s)
  }

  // ----- lines -----

  /** A byte stream as a reader sees it: the complete lines, and the unfinished rest. */
  datatype Text = Text(lines: seq<Bytes>, rest: Bytes)

  function Lines(s: Bytes): Text
    decreases |s|
  {
    var at := IndexOf(s, NEWLINE);
    if at == |s| then
      assert s[..at] == s;
      Text([], s)
    else
      var more := Lines(s[at + 1..]);
      Text([s[..at]] + more.lines, more.rest)
  }

  function Unlines(lines: seq<Bytes>): Bytes {
    if lines == [] then [] else lines[0] + [NEWLINE] + Unlines(lines[1..])
  }

  lemma {:induction false} IndexOfFirst(s: Bytes, b: byte, i: nat)
    requires i < |s| && s[i] == b && b !in s[..i]
    ensures IndexOf(s, b) == i
  {
    if i > 0 {
      assert s[..i][0] == s[0];
      assert forall x :: x in s[1..][..i - 1] ==> x in s[..i];
      IndexOfFirst(s[1..], b, i - 1);
    }
  }

  lemma LinesOfOne(l: Bytes, s: Bytes)
    requires NEWLINE !in l
    ensures Lines(l + [NEWLINE] + s) == Text([l] + Lines(s).lines, Lines(s).rest)
  {
    var t := l + [NEWLINE] + s;
    assert t[..|l|] == l;
    IndexOfFirst(t, NEWLINE, |l|);
    assert t[|l| + 1..] == s;
  }

  lemma {:induction false} LinesHoldNoNewline(s: Bytes)
    ensures NEWLINE !in Lines(s).rest
    ensures forall l :: l in Lines(s).lines ==> NEWLINE !in l
    decreases |s|
  {
    var at := IndexOf(s, NEWLINE);
    if at == |s| {
      assert s[..at] == s;
    } else {
      LinesHoldNoNewline(s[at + 1..]);
      forall l | l in Lines(s).lines
        ensures NEWLINE !in l
      {
        if l != s[..at] { assert l in Lines(s[at + 1..]).lines; }
      }
    }
  }

  lemma LinesOfNone(s: Bytes)
    requires NEWLINE !in s
    ensures Lines(s) == Text([], s)
  {
    assert IndexOf(s, NEWLINE) == |s|;
  }

  lemma LinesAppendStep(x: Bytes, y: Bytes, at: nat)
    requires at == IndexOf(x, NEWLINE) < |x|
    ensures Lines(x + y) == Text([x[..at]] + Lines(x[at + 1..] + y).lines, Lines(x[at + 1..] + y).rest)
  {
    assert x + y == x[..at] + [NEWLINE] + (x[at + 1..] + y);
    LinesOfOne(x[..at], x[at + 1..] + y);
  }

  /** Splitting after more bytes arrive continues from the unfinished rest. */
  lemma {:induction false} LinesAppend(x: Bytes, y: Bytes)
    ensures Lines(x + y).lines == Lines(x).lines + Lines(Lines(x).rest + y).lines
    ensures Lines(x + y).rest == Lines(Lines(x).rest + y).rest
    decreases |x|
  {
    var at := IndexOf(x, NEWLINE);
    if at == |x| {
      assert x[..at] == x;
      LinesOfNone(x);
    } else {
      LinesAppendStep(x, y, at);
      LinesAppend(x[at + 1..], y);
      var t := Lines(x[at + 1..]);
      AppendAssociates([x[..at]], t.lines, Lines(t.rest + y).lines);
    }
  }

  lemma {:induction false} LinesOfUnlines(lines: seq<Bytes>, rest: Bytes)
    requires forall l :: l in lines ==> NEWLINE !in l
    requires NEWLINE !in rest
    ensures Lines(Unlines(lines) + rest) == Text(lines, rest)
  {
    if lines == [] {
      assert Unlines(lines) + rest == rest;
      assert IndexOf(rest, NEWLINE) == |rest|;
    } else {
      LinesOfUnlines(lines[1..], rest);
      assert Unlines(lines) + rest == lines[0] + [NEWLINE] + (Unlines(lines[1..]) + rest);
      LinesOfOne(lines[0], Unlines(lines[1..]) + rest);
    }
  }
}

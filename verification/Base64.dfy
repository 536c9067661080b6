/** Base64 with padding, section 4 of RFC 4648, over bytes. */
module Base64 {
  import opened Bytes

  type sextet = x: int | 0 <= x < 64

  const PAD: byte := 61

  function Symbol(v: sextet): (c: byte)
    ensures c != PAD
  {
    if v < 26 then 65 + v
    else if v < 52 then 71 + v
    else if v < 62 then v - 4
    else if v == 62 then 43
    else 47
  }

  function Value(c: byte): Option<sextet> {
    if 65 <= c <= 90 then Some(c - 65)
    else if 97 <= c <= 122 then Some(c - 71)
    else if 48 <= c <= 57 then Some(c + 4)
    else if c == 43 then Some(62)
    else if c == 47 then Some(63)
    else None
  }

  lemma SymbolValue(v: sextet)
    ensures Value(Symbol(v)) == Some(v)
  {
  }

  /** The number of three-byte groups `n` bytes take, the last one possibly short. */
  function Groups(n: nat): nat {
    (n + 2) / 3
  }

  function EncodeGroup(g: Bytes): (s: Bytes)
    requires 1 <= |g| <= 3
    ensures |s| == 4
  {
    var b1 := if |g| > 1 then g[1] else 0;
    var b2 := if |g| > 2 then g[2] else 0;
    [Symbol(g[0] / 4),
     Symbol(g[0] % 4 * 16 + b1 / 16),
     if |g| > 1 then Symbol(b1 % 16 * 4 + b2 / 64) else PAD,
     if |g| > 2 then Symbol(b2 % 64) else PAD]
  }

  function Encode(p: Bytes): (s: Bytes)
    ensures |s| == 4 * Groups(|p|)
  {
    if p == [] then []
    else if |p| <= 3 then EncodeGroup(p)
    else EncodeGroup(p[..3]) + Encode(p[3..])
  }

  /** One quantum of four symbols; padding is allowed only in the last one. */
  function DecodeGroup(q: Bytes, last: bool): (g: Option<Bytes>)
    requires |q| == 4
    ensures g.Some? ==> 1 <= |g.value| <= 3 && (!last ==> |g.value| == 3)
  {
    var v0, v1, v2, v3 := Value(q[0]), Value(q[1]), Value(q[2]), Value(q[3]);
    if v0.None? || v1.None? then None
    else
      var b0 := v0.value * 4 + v1.value / 16;
      if v2.Some? && v3.Some? then
        Some([b0, v1.value % 16 * 16 + v2.value / 4, v2.value % 4 * 64 + v3.value])
      else if last && v2.Some? && q[3] == PAD then
        Some([b0, v1.value % 16 * 16 + v2.value / 4])
      else if last && q[2] == PAD && q[3] == PAD then
        Some([b0])
      else
        None
  }

  function Decode(s: Bytes): (p: Option<Bytes>)
    ensures p.Some? ==> |s| == 4 * Groups(|p.value|)
  {
    if s == [] then Some([])
    else if |s| < 4 then None
    else if |s| == 4 then DecodeGroup(s, true)
    else
      var first, rest := DecodeGroup(s[..4], false), Decode(s[4..]);
      if first.Some? && rest.Some? then Some(first.value + rest.value) else None
  }

  lemma OneByte(g: Bytes)
    requires |g| == 1
    ensures DecodeGroup(EncodeGroup(g), true) == Some(g)
  {
    SymbolValue(g[0] / 4);
    SymbolValue(g[0] % 4 * 16);
    assert g == [g[0]];
  }

  lemma TwoBytes(g: Bytes)
    requires |g| == 2
    ensures DecodeGroup(EncodeGroup(g), true) == Some(g)
  {
    SymbolValue(g[0] / 4);
    SymbolValue(g[0] % 4 * 16 + g[1] / 16);
    SymbolValue(g[1] % 16 * 4);
    assert g == [g[0], g[1]];
  }

  /** Three bytes cut into four sextets are put together again. */
  lemma Recombine(b0: byte, b1: byte, b2: byte)
    ensures b0 / 4 * 4 + (b0 % 4 * 16 + b1 / 16) / 16 == b0
    ensures (b0 % 4 * 16 + b1 / 16) % 16 * 16 + (b1 % 16 * 4 + b2 / 64) / 4 == b1
    ensures (b1 % 16 * 4 + b2 / 64) % 4 * 64 + b2 % 64 == b2
  {
  }

  lemma ThreeBytes(g: Bytes, last: bool)
    requires |g| == 3
    ensures DecodeGroup(EncodeGroup(g), last) == Some(g)
  {
    Recombine(g[0], g[1], g[2]);
    SymbolValue(g[0] / 4);
    SymbolValue(g[0] % 4 * 16 + g[1] / 16);
    SymbolValue(g[1] % 16 * 4 + g[2] / 64);
    SymbolValue(g[2] % 64);
    assert g == [g[0], g[1], g[2]];
  }

  lemma {:induction false} RoundTrip(p: Bytes)
    ensures Decode(Encode(p)) == Some(p)
  {
    if p == [] {
    } else if |p| <= 3 {
      if |p| == 1 { OneByte(p); } else if |p| == 2 { TwoBytes(p); } else { ThreeBytes(p, true); }
    } else {
      ThreeBytes(p[..3], false);
      RoundTrip(p[3..]);
      var s := Encode(p);
      assert s == EncodeGroup(p[..3]) + Encode(p[3..]);
      assert s[..4] == EncodeGroup(p[..3]) && s[4..] == Encode(p[3..]);
      assert |s| > 4 && p == p[..3] + p[3..];
    }
  }

  /** Every byte of an encoding is a symbol of the alphabet or padding. */
  lemma {:induction false} EncodeAlphabet(p: Bytes, c: byte)
    requires c in Encode(p)
    ensures Value(c).Some? || c == PAD
  {
    if p == [] {
    } else {
      var g := if |p| <= 3 then p else p[..3];
      if c !in EncodeGroup(g) {
        EncodeAlphabet(p[3..], c);
      }
    }
  }

  // ----- the table and the bits -----

  /** The symbols of table 1 of RFC 4648: capitals, small letters, digits, plus and slash. */
  lemma SymbolsAreTheTable(v: sextet)
    ensures Symbol(0) as char == 'A' && Symbol(25) as char == 'Z'
    ensures Symbol(26) as char == 'a' && Symbol(51) as char == 'z'
    ensures Symbol(52) as char == '0' && Symbol(61) as char == '9'
    ensures Symbol(62) as char == '+' && Symbol(63) as char == '/' && PAD as char == '='
    ensures v !in {25, 51, 61, 62, 63} ==> Symbol(v + 1) == Symbol(v) + 1
  {
  }

  /** The four sextets are the 24 bits of the group, the first byte's highest bit first; a short group
      is filled with zero bits, and padded. */
  lemma EncodesItsBits(g: Bytes) returns (v0: sextet, v1: sextet, v2: sextet, v3: sextet)
    requires 1 <= |g| <= 3
    ensures v0 as int * 0x40000 + v1 as int * 0x1000 + v2 as int * 0x40 + v3 as int
            == g[0] as int * 0x10000 + (if |g| > 1 then g[1] as int * 0x100 else 0)
               + (if |g| > 2 then g[2] as int else 0)
    ensures EncodeGroup(g) == [Symbol(v0), Symbol(v1), if |g| > 1 then Symbol(v2) else PAD,
                               if |g| > 2 then Symbol(v3) else PAD]
  {
    var b0: int, b1: int, b2: int := g[0], if |g| > 1 then g[1] else 0, if |g| > 2 then g[2] else 0;
    v0, v1, v2, v3 := b0 / 4, b0 % 4 * 16 + b1 / 16, b1 % 16 * 4 + b2 / 64, b2 % 64;
  }

  // ----- what decodes -----

  lemma ValueSymbol(c: byte)
    requires Value(c).Some?
    ensures Symbol(Value(c).value) == c
  {
  }

  /** Symbols that agree but for the bits below `unit`. */
  predicate SameAbove(c: byte, d: byte, unit: nat)
    requires unit > 0
  {
    Value(c).Some? && Value(d).Some? && Value(c).value / unit == Value(d).value / unit
  }

  /** A quantum as the group is encoded, up to the bits a short group leaves unused. */
  predicate Spells(q: Bytes, g: Bytes) {
    && |q| == 4 && 1 <= |g| <= 3
    && var e := EncodeGroup(g);
       && q[0] == e[0] && q[3] == e[3]
       && (if |g| == 1 then SameAbove(q[1], e[1], 16) else q[1] == e[1])
       && (if |g| == 2 then SameAbove(q[2], e[2], 4) else q[2] == e[2])
  }

  /** Four sextets put together are cut into the same ones. */
  lemma Uncut(v0: sextet, v1: sextet, v2: sextet, v3: sextet)
    ensures var b0, b1, b2 := v0 * 4 + v1 / 16, v1 % 16 * 16 + v2 / 4, v2 % 4 * 64 + v3;
            && b0 / 4 == v0 && b0 % 4 * 16 + b1 / 16 == v1
            && b1 % 16 * 4 + b2 / 64 == v2 && b2 % 64 == v3
  {
  }

  lemma OneDecoded(q: Bytes, g: Bytes, last: bool)
    requires |q| == 4 && |g| == 1 && DecodeGroup(q, last) == Some(g)
    ensures last && Spells(q, g)
  {
    ValueSymbol(q[0]);
    SymbolValue(g[0] % 4 * 16);
    assert g[0] as int == Value(q[0]).value * 4 + Value(q[1]).value / 16;
  }

  lemma OneSpelled(q: Bytes, g: Bytes)
    requires |q| == 4 && |g| == 1 && Spells(q, g)
    ensures DecodeGroup(q, true) == Some(g)
  {
    SymbolValue(g[0] / 4);
    SymbolValue(g[0] % 4 * 16);
    assert Value(PAD) == None;
    assert g == [g[0]];
  }

  lemma GroupOfOne(q: Bytes, g: Bytes, last: bool)
    requires |q| == 4 && |g| == 1
    ensures DecodeGroup(q, last) == Some(g) <==> last && Spells(q, g)
  {
    if DecodeGroup(q, last) == Some(g) { OneDecoded(q, g, last); }
    if last && Spells(q, g) { OneSpelled(q, g); }
  }

  lemma SpellsTwo(q: Bytes, g: Bytes, v0: sextet, v1: sextet, v2: sextet)
    requires |q| == 4 && |g| == 2 && q[3] == PAD
    requires Value(q[0]) == Some(v0) && Value(q[1]) == Some(v1) && Value(q[2]) == Some(v2)
    requires g[0] / 4 == v0 && g[0] % 4 * 16 + g[1] / 16 == v1 && g[1] % 16 * 4 == v2 / 4 * 4
    ensures Spells(q, g)
  {
    ValueSymbol(q[0]);
    ValueSymbol(q[1]);
    SymbolValue(v2 / 4 * 4);
    assert EncodeGroup(g) == [Symbol(v0), Symbol(v1), Symbol(v2 / 4 * 4), PAD];
  }

  lemma TwoDecoded(q: Bytes, g: Bytes, last: bool)
    requires |q| == 4 && |g| == 2 && DecodeGroup(q, last) == Some(g)
    ensures last && Spells(q, g)
  {
    var v0: int, v1: int, v2: int := Value(q[0]).value, Value(q[1]).value, Value(q[2]).value;
    assert g[0] == v0 * 4 + v1 / 16 && g[1] == v1 % 16 * 16 + v2 / 4 && q[3] == PAD;
    UncutTwo(v0, v1, v2);
    SpellsTwo(q, g, v0, v1, v2);
  }

  lemma UncutTwo(v0: sextet, v1: sextet, v2: sextet)
    ensures var b0, b1 := v0 * 4 + v1 / 16, v1 % 16 * 16 + v2 / 4;
            b0 / 4 == v0 && b0 % 4 * 16 + b1 / 16 == v1 && b1 % 16 * 4 == v2 / 4 * 4
  {
  }

  lemma TwoSpelled(q: Bytes, g: Bytes)
    requires |q| == 4 && |g| == 2 && Spells(q, g)
    ensures DecodeGroup(q, true) == Some(g)
  {
    SymbolValue(g[0] / 4);
    SymbolValue(g[0] % 4 * 16 + g[1] / 16);
    SymbolValue(g[1] % 16 * 4);
    Recombine(g[0], g[1], 0);
    assert Value(PAD) == None;
    assert Value(q[2]).value / 4 == g[1] % 16;
    assert g == [g[0], g[1]];
  }

  lemma GroupOfTwo(q: Bytes, g: Bytes, last: bool)
    requires |q| == 4 && |g| == 2
    ensures DecodeGroup(q, last) == Some(g) <==> last && Spells(q, g)
  {
    if DecodeGroup(q, last) == Some(g) { TwoDecoded(q, g, last); }
    if last && Spells(q, g) { TwoSpelled(q, g); }
  }

  lemma EncodesThree(g: Bytes, v0: sextet, v1: sextet, v2: sextet, v3: sextet)
    requires |g| == 3 && g[0] / 4 == v0 && g[0] % 4 * 16 + g[1] / 16 == v1
    requires g[1] % 16 * 4 + g[2] / 64 == v2 && g[2] % 64 == v3
    ensures EncodeGroup(g) == [Symbol(v0), Symbol(v1), Symbol(v2), Symbol(v3)]
  {
  }

  lemma ThreeDecoded(q: Bytes, g: Bytes, last: bool)
    requires |q| == 4 && |g| == 3 && DecodeGroup(q, last) == Some(g)
    ensures q == EncodeGroup(g)
  {
    var v0: int, v1: int := Value(q[0]).value, Value(q[1]).value;
    var v2: int, v3: int := Value(q[2]).value, Value(q[3]).value;
    assert g[0] == v0 * 4 + v1 / 16 && g[1] == v1 % 16 * 16 + v2 / 4 && g[2] == v2 % 4 * 64 + v3;
    Uncut(v0, v1, v2, v3);
    EncodesThree(g, v0, v1, v2, v3);
    AllSymbols(q);
  }

  lemma AllSymbols(q: Bytes)
    requires |q| == 4 && forall i | 0 <= i < 4 :: Value(q[i]).Some?
    ensures q == [Symbol(Value(q[0]).value), Symbol(Value(q[1]).value),
                  Symbol(Value(q[2]).value), Symbol(Value(q[3]).value)]
  {
    ValueSymbol(q[0]);
    ValueSymbol(q[1]);
    ValueSymbol(q[2]);
    ValueSymbol(q[3]);
  }

  lemma GroupOfThree(q: Bytes, g: Bytes, last: bool)
    requires |q| == 4 && |g| == 3
    ensures DecodeGroup(q, last) == Some(g) <==> q == EncodeGroup(g)
  {
    if q == EncodeGroup(g) { ThreeBytes(g, last); }
    if DecodeGroup(q, last) == Some(g) { ThreeDecoded(q, g, last); }
  }

  lemma GroupExactly(q: Bytes, g: Bytes, last: bool)
    requires |q| == 4
    ensures DecodeGroup(q, last) == Some(g) <==> Spells(q, g) && (last || |g| == 3)
  {
    if |g| == 1 { GroupOfOne(q, g, last); }
    if |g| == 2 { GroupOfTwo(q, g, last); }
    if |g| == 3 { GroupOfThree(q, g, last); }
  }

  /** Text that is the bytes encoded, up to the unused bits of its last quantum. */
  predicate SpellsAll(s: Bytes, p: Bytes) {
    if p == [] then s == []
    else if |p| <= 3 then Spells(s, p)
    else |s| > 4 && s[..4] == EncodeGroup(p[..3]) && SpellsAll(s[4..], p[3..])
  }

  lemma MoreDecodes(s: Bytes, p: Bytes)
    requires |s| > 4
    ensures Decode(s) == Some(p) <==>
            |p| > 3 && DecodeGroup(s[..4], false) == Some(p[..3]) && Decode(s[4..]) == Some(p[3..])
  {
    var first, rest := DecodeGroup(s[..4], false), Decode(s[4..]);
    if |p| > 3 { assert p == p[..3] + p[3..]; }
    if first.Some? && rest.Some? {
      assert rest.value != [];
      assert (first.value + rest.value)[..3] == first.value && (first.value + rest.value)[3..] == rest.value;
    }
  }

  /** Exactly which text decodes, and to what. */
  lemma {:induction false} DecodeExactly(s: Bytes, p: Bytes)
    ensures Decode(s) == Some(p) <==> SpellsAll(s, p)
  {
    if |s| == 4 {
      GroupExactly(s, p, true);
    } else if |s| > 4 {
      MoreDecodes(s, p);
      if |p| > 3 {
        DecodeExactly(s[4..], p[3..]);
        GroupExactly(s[..4], p[..3], false);
        GroupOfThree(s[..4], p[..3], false);
      }
    }
  }

  // ----- surplus padding -----

  function TrimPadding(s: Bytes): (t: Bytes)
    ensures t <= s
    ensures t != [] ==> t[|t| - 1] != PAD
    ensures forall k | |t| <= k < |s| :: s[k] == PAD
  {
    if s != [] && s[|s| - 1] == PAD then TrimPadding(s[..|s| - 1]) else s
  }

  /** A decoder that may pass over padding after complete quads. Older CPython interpreters do,
      newer ones refuse it as the strict form does; everything here holds of both. */
  function Accept(s: Bytes, lenient: bool): (p: Option<Bytes>)
    ensures p.Some? ==> 4 * Groups(|p.value|) <= |s|
    ensures p.Some? ==> (p.value == [] <==> s == [])
  {
    var text := TrimPadding(s);
    if lenient && text != [] && |text| % 4 == 0 then Decode(text) else Decode(s)
  }

  lemma {:induction false} AtMostTwoPadding(s: Bytes)
    requires s != [] && Decode(s).Some?
    ensures |s| >= 4 && s[|s| - 3] != PAD
    decreases |s|
  {
    if |s| > 4 {
      AtMostTwoPadding(s[4..]);
    }
  }

  /** Passing over surplus padding changes nothing about text the strict form accepts. */
  lemma LeniencyOnlyAdds(s: Bytes, lenient: bool)
    requires Decode(s).Some?
    ensures Accept(s, lenient) == Decode(s)
  {
    if s != [] {
      AtMostTwoPadding(s);
      if |TrimPadding(s)| % 4 == 0 {
        assert TrimPadding(s) == s;
      }
    }
  }

  /** Whole quads, and padding behind them that is not needed. */
  predicate IsSurplus(s: Bytes, n: nat) {
    0 < n < |s| && n % 4 == 0 && s[n - 1] != PAD && forall k | n <= k < |s| :: s[k] == PAD
  }

  lemma {:induction false} TrimmedAt(s: Bytes, n: nat)
    requires n <= |s| && (n > 0 ==> s[n - 1] != PAD) && forall k | n <= k < |s| :: s[k] == PAD
    ensures TrimPadding(s) == s[..n]
  {
    if n < |s| {
      TrimmedAt(s[..|s| - 1], n);
      assert s[..|s| - 1][..n] == s[..n];
    } else {
      assert s[..n] == s;
    }
  }

  /** The lenient decoder accepts what the strict one does, and what it does before surplus padding;
      nothing else, and the strict one nothing more. */
  lemma {:induction false} AcceptExactly(s: Bytes, lenient: bool, p: Bytes)
    ensures Accept(s, lenient) == Some(p) <==>
            Decode(s) == Some(p)
            || (lenient && exists n: nat :: IsSurplus(s, n) && Decode(s[..n]) == Some(p))
  {
    var text := TrimPadding(s);
    if n: nat :| IsSurplus(s, n) {
      TrimmedAt(s, n);
    }
    if Decode(s).Some? {
      LeniencyOnlyAdds(s, lenient);
    }
    if text != [] && |text| % 4 == 0 && text != s {
      assert text == s[..|text|];
      assert IsSurplus(s, |text|);
    }
  }
}

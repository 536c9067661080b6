/** The two judgements over a screenshot (src/apex/model/screens.py): the colour bars of the render
    probe, and how many pixels changed below the top bar. */
module Screens {
  import opened Bytes
  import opened WideIntegers

  const CHANNELS: nat := 3
  const ROW_STRIDE: nat := 4
  const BAR_RUN: nat := 80
  const BAR_GAP: nat := 4
  const BAR_ROWS: nat := 20
  const TOP_BAR_ROWS: nat := 40
  const CHANGE: nat := 20
  const MINIMUM_CHANGED: nat := 5000
  const CHANGED_SHARE: nat := 100
  const NONE: byte := 0
  const RED: byte := 1
  const GREEN: byte := 2
  const BLUE: byte := 3

  /** How many pixels come before a row: rows * width, a row at a time. */
  function Before(rows: nat, width: nat): nat {
    if rows == 0 then 0 else Before(rows - 1, width) + width
  }

  lemma {:induction false} BeforeIs(rows: nat, width: nat)
    ensures Before(rows, width) == rows * width
  {
    if rows > 0 { BeforeIs(rows - 1, width); }
  }

  lemma {:induction false} BeforeAscends(lo: nat, hi: nat, width: nat)
    requires lo <= hi
    ensures Before(lo, width) <= Before(hi, width)
  {
    if lo < hi { BeforeAscends(lo, hi - 1, width); }
  }

  /** A parsed frame: three bytes per pixel, row by row. */
  datatype Frame = Frame(width: nat, height: nat, pixels: Bytes) {
    predicate Valid() {
      width > 0 && height > 0 && |pixels| == CHANNELS * Before(height, width)
    }
  }

  function Row(frame: Frame, index: nat): (row: Bytes)
    requires frame.Valid() && index < frame.height
    ensures |row| == frame.width * CHANNELS
  {
    BeforeAscends(index + 1, frame.height, frame.width);
    frame.pixels[CHANNELS * Before(index, frame.width)..CHANNELS * Before(index + 1, frame.width)]
  }

  /** A row is the slice of the buffer at its index times the stride. */
  lemma RowIsItsSlice(frame: Frame, index: nat)
    requires frame.Valid() && index < frame.height
    ensures var stride := frame.width * CHANNELS;
            && 0 <= index * stride <= (index + 1) * stride <= |frame.pixels|
            && Row(frame, index) == frame.pixels[index * stride..(index + 1) * stride]
  {
    BeforeIs(index, frame.width);
    BeforeIs(index + 1, frame.width);
    BeforeAscends(index + 1, frame.height, frame.width);
    assert index * (frame.width * CHANNELS) == CHANNELS * (index * frame.width);
    assert (index + 1) * (frame.width * CHANNELS) == CHANNELS * ((index + 1) * frame.width);
  }

  // ----- colour classes -----

  type Test = byte -> bool

  function Least(bound: byte): Test {
    (value: byte) => value > bound
  }

  function Under(bound: byte): Test {
    (value: byte) => value < bound
  }

  /** One channel of a row. */
  function Channel(row: Bytes, channel: nat, width: nat): (s: Bytes)
    requires channel < CHANNELS && |row| == width * CHANNELS
    ensures |s| == width
  {
    seq(width, i requires 0 <= i < width => row[CHANNELS * i + channel])
  }

  /** A channel translated through the table of a test: one where it passes. */
  function Translate(s: Bytes, test: Test): (mask: Bytes)
    ensures |mask| == |s|
    ensures forall i | 0 <= i < |s| :: mask[i] == if test(s[i]) then 1 else 0
  {
    seq(|s|, i requires 0 <= i < |s| => if test(s[i]) then 1 else 0)
  }

  /** Three masks joined as wide integers. */
  function Wide(a: Bytes, b: Bytes, c: Bytes): nat {
    And(And(FromBig(a), FromBig(b)), FromBig(c))
  }

  function Reds(row: Bytes, width: nat): nat
    requires |row| == width * CHANNELS
  {
    Wide(Translate(Channel(row, 0, width), Least(180)),
         Translate(Channel(row, 1, width), Under(90)),
         Translate(Channel(row, 2, width), Under(90)))
  }

  function Greens(row: Bytes, width: nat): nat
    requires |row| == width * CHANNELS
  {
    Wide(Translate(Channel(row, 1, width), Least(140)),
         Translate(Channel(row, 0, width), Under(100)),
         Translate(Channel(row, 2, width), Under(120)))
  }

  function Blues(row: Bytes, width: nat): nat
    requires |row| == width * CHANNELS
  {
    Wide(Translate(Channel(row, 2, width), Least(180)),
         Translate(Channel(row, 0, width), Under(100)),
         Translate(Channel(row, 1, width), Under(120)))
  }

  function Total(row: Bytes, width: nat): nat
    requires |row| == width * CHANNELS
  {
    Reds(row, width) * 1 + Greens(row, width) * 2 + Blues(row, width) * 3
  }

  /** One byte per pixel naming its colour class, computed over the whole row at once; none
      when the sum does not fit the row. */
  function Classes(row: Bytes, width: nat): Option<Bytes>
    requires |row| == width * CHANNELS
  {
    ToBig(Total(row, width), width)
  }

  /** The class of one pixel by its thresholds. */
  function ClassOf(red: byte, green: byte, blue: byte): byte {
    if red > 180 && green < 90 && blue < 90 then RED
    else if green > 140 && red < 100 && blue < 120 then GREEN
    else if blue > 180 && red < 100 && green < 120 then BLUE
    else NONE
  }

  type PixelTest = (byte, byte, byte) -> byte

  /** A judgement of each pixel of a row by itself. */
  function EachPixel(row: Bytes, width: nat, test: PixelTest): (s: Bytes)
    requires |row| == width * CHANNELS
    ensures |s| == width
    ensures forall i | 0 <= i < width ::
              s[i] == test(row[CHANNELS * i], row[CHANNELS * i + 1], row[CHANNELS * i + 2])
  {
    seq(width, i requires 0 <= i < width => test(row[CHANNELS * i], row[CHANNELS * i + 1], row[CHANNELS * i + 2]))
  }

  function PixelClasses(row: Bytes, width: nat): (classes: Bytes)
    requires |row| == width * CHANNELS
    ensures |classes| == width
  {
    EachPixel(row, width, ClassOf)
  }

  function IsRed(r: byte, g: byte, b: byte): byte {
    if r > 180 && g < 90 && b < 90 then 1 else 0
  }

  function IsGreen(r: byte, g: byte, b: byte): byte {
    if g > 140 && r < 100 && b < 120 then 1 else 0
  }

  function IsBlue(r: byte, g: byte, b: byte): byte {
    if b > 180 && r < 100 && g < 120 then 1 else 0
  }

  /** Three masks joined as wide integers are joined byte by byte. */
  lemma WideIsEach(a: Bytes, b: Bytes, c: Bytes)
    requires |a| == |b| == |c| && IsMask(a) && IsMask(b) && IsMask(c)
    ensures Wide(a, b, c) == FromBig(Both(Both(a, b), c))
    ensures forall i | 0 <= i < |a| :: Both(Both(a, b), c)[i] == if a[i] == 1 && b[i] == 1 && c[i] == 1 then 1 else 0
  {
    AndOfMasks(a, b);
    AndOfMasks(Both(a, b), c);
    forall i | 0 <= i < |a|
      ensures Both(Both(a, b), c)[i] == if a[i] == 1 && b[i] == 1 && c[i] == 1 then 1 else 0
    {
      BothAt(a, b, i);
      BothAt(Both(a, b), c, i);
    }
  }

  lemma WideOfTests(s: Bytes, t: Bytes, u: Bytes, a: Test, b: Test, c: Test, flags: Bytes)
    requires |s| == |t| == |u| == |flags|
    requires forall i | 0 <= i < |s| :: flags[i] == if a(s[i]) && b(t[i]) && c(u[i]) then 1 else 0
    ensures Wide(Translate(s, a), Translate(t, b), Translate(u, c)) == FromBig(flags)
  {
    var x, y, z := Translate(s, a), Translate(t, b), Translate(u, c);
    WideIsEach(x, y, z);
    assert Both(Both(x, y), z) == flags;
  }

  lemma RedsAre(row: Bytes, width: nat)
    requires |row| == width * CHANNELS
    ensures Reds(row, width) == FromBig(EachPixel(row, width, IsRed))
  {
    WideOfTests(Channel(row, 0, width), Channel(row, 1, width), Channel(row, 2, width),
                Least(180), Under(90), Under(90), EachPixel(row, width, IsRed));
  }

  lemma GreensAre(row: Bytes, width: nat)
    requires |row| == width * CHANNELS
    ensures Greens(row, width) == FromBig(EachPixel(row, width, IsGreen))
  {
    WideOfTests(Channel(row, 1, width), Channel(row, 0, width), Channel(row, 2, width),
                Least(140), Under(100), Under(120), EachPixel(row, width, IsGreen));
  }

  lemma BluesAre(row: Bytes, width: nat)
    requires |row| == width * CHANNELS
    ensures Blues(row, width) == FromBig(EachPixel(row, width, IsBlue))
  {
    WideOfTests(Channel(row, 2, width), Channel(row, 0, width), Channel(row, 1, width),
                Least(180), Under(100), Under(120), EachPixel(row, width, IsBlue));
  }

  /** At most one of the three tests passes, so the weighted sum of the flags is the class. */
  lemma ClassFromFlags(r: byte, g: byte, b: byte)
    ensures ClassOf(r, g, b) as nat == IsRed(r, g, b) as nat + IsGreen(r, g, b) as nat * 2 + IsBlue(r, g, b) as nat * 3
  {
  }

  /** The row-wide computation gives each pixel its own class, for rows of any width, and never
      overflows the row. */
  lemma ClassesAreThePixels(row: Bytes, width: nat)
    requires |row| == width * CHANNELS
    ensures Classes(row, width) == Some(PixelClasses(row, width))
  {
    TotalIs(row, width);
    ReadsBackAs(Total(row, width), PixelClasses(row, width), width);
  }

  lemma TotalIs(row: Bytes, width: nat)
    requires |row| == width * CHANNELS
    ensures Total(row, width) == FromBig(PixelClasses(row, width))
  {
    RedsAre(row, width);
    GreensAre(row, width);
    BluesAre(row, width);
    FlagsAdd(row, width);
  }

  lemma FlagsAdd(row: Bytes, width: nat)
    requires |row| == width * CHANNELS
    ensures FromBig(EachPixel(row, width, IsRed)) * 1 + FromBig(EachPixel(row, width, IsGreen)) * 2
              + FromBig(EachPixel(row, width, IsBlue)) * 3 == FromBig(PixelClasses(row, width))
  {
    FlagsAreClasses(row, width);
    WeightedSum(EachPixel(row, width, IsRed), EachPixel(row, width, IsGreen), EachPixel(row, width, IsBlue),
                PixelClasses(row, width));
  }

  lemma ReadsBackAs(total: nat, classes: Bytes, width: nat)
    requires total == FromBig(classes) && |classes| == width
    ensures ToBig(total, width) == Some(classes)
  {
    BigReadsBack(classes);
  }

  lemma FlagsAreClasses(row: Bytes, width: nat)
    requires |row| == width * CHANNELS
    ensures forall i | 0 <= i < width ::
              PixelClasses(row, width)[i] as nat == EachPixel(row, width, IsRed)[i] as nat
                + EachPixel(row, width, IsGreen)[i] as nat * 2 + EachPixel(row, width, IsBlue)[i] as nat * 3
  {
    forall i | 0 <= i < width
      ensures PixelClasses(row, width)[i] as nat == EachPixel(row, width, IsRed)[i] as nat
                + EachPixel(row, width, IsGreen)[i] as nat * 2 + EachPixel(row, width, IsBlue)[i] as nat * 3
    {
      ClassFromFlags(row[CHANNELS * i], row[CHANNELS * i + 1], row[CHANNELS * i + 2]);
    }
  }

  // ----- the bars -----

  ghost predicate AllOf(s: Bytes, lo: nat, hi: nat, colour: byte) {
    lo <= hi <= |s| && forall i | lo <= i < hi :: s[i] == colour
  }

  /** A match of the pattern: runs of at least eighty red, green and blue in that order, with at
      most four unclassed pixels between them. */
  ghost predicate BarsAt(s: Bytes, a: nat, b: nat, c: nat, d: nat, e: nat, f: nat) {
    && a + BAR_RUN <= b && b <= c <= b + BAR_GAP && c + BAR_RUN <= d && d <= e <= d + BAR_GAP && e + BAR_RUN <= f
    && AllOf(s, a, b, RED) && AllOf(s, b, c, NONE) && AllOf(s, c, d, GREEN)
    && AllOf(s, d, e, NONE) && AllOf(s, e, f, BLUE)
  }

  ghost predicate HasBars(s: Bytes) {
    exists a: nat, b: nat, c: nat, d: nat, e: nat, f: nat :: BarsAt(s, a, b, c, d, e, f)
  }

  // ----- the pattern, piece by piece -----

  /** A piece of a pattern: so many of one class, at most so many where there is a bound. */
  datatype Piece = Piece(colour: byte, least: nat, most: Option<nat>)

  /** Eighty or more red, up to four of none, eighty or more green, up to four of none, eighty or more
      blue. */
  const BARS: seq<Piece> :=
    [Piece(1, 80, None), Piece(0, 0, Some(4)), Piece(2, 80, None), Piece(0, 0, Some(4)), Piece(3, 80, None)]

  /** The pieces match the classes from a place to a place, one after another. */
  ghost predicate MatchesFrom(pieces: seq<Piece>, s: Bytes, from: nat, to: nat) {
    if pieces == [] then from == to
    else exists mid: nat :: PieceMatches(pieces[0], s, from, mid) && MatchesFrom(pieces[1..], s, mid, to)
  }

  ghost predicate PieceMatches(piece: Piece, s: Bytes, from: nat, mid: nat) {
    && from + piece.least <= mid <= |s| && (piece.most.Some? ==> mid <= from + piece.most.value)
    && forall i | from <= i < mid :: s[i] == piece.colour
  }

  lemma {:induction false} OneMore(pieces: seq<Piece>, s: Bytes, from: nat, mid: nat, to: nat)
    requires pieces != [] && PieceMatches(pieces[0], s, from, mid) && MatchesFrom(pieces[1..], s, mid, to)
    ensures MatchesFrom(pieces, s, from, to)
  {
  }

  lemma {:induction false} BarsMatch(s: Bytes, a: nat, b: nat, c: nat, d: nat, e: nat, f: nat)
    requires BarsAt(s, a, b, c, d, e, f)
    ensures MatchesFrom(BARS, s, a, f)
  {
    assert BARS[4..][1..] == [] && MatchesFrom([], s, f, f);
    OneMore(BARS[4..], s, e, f, f);
    assert BARS[3..][1..] == BARS[4..];
    OneMore(BARS[3..], s, d, e, f);
    assert BARS[2..][1..] == BARS[3..];
    OneMore(BARS[2..], s, c, d, f);
    assert BARS[1..][1..] == BARS[2..];
    OneMore(BARS[1..], s, b, c, f);
    OneMore(BARS, s, a, b, f);
  }

  lemma {:induction false} Peeled(k: nat, s: Bytes, from: nat, to: nat) returns (mid: nat)
    requires k < 5 && MatchesFrom(BARS[k..], s, from, to)
    ensures PieceMatches(BARS[k], s, from, mid) && MatchesFrom(BARS[k + 1..], s, mid, to)
  {
    assert BARS[k..][1..] == BARS[k + 1..];
    mid :| PieceMatches(BARS[k..][0], s, from, mid) && MatchesFrom(BARS[k..][1..], s, mid, to);
  }

  /** The pattern matches this part of the row. */
  ghost predicate BarsBetween(s: Bytes, from: nat, to: nat) {
    MatchesFrom(BARS, s, from, to)
  }

  lemma {:induction false} MatchedAreBars(s: Bytes, from: nat, to: nat)
    requires BarsBetween(s, from, to)
    ensures HasBars(s)
  {
    assert BARS[0..] == BARS;
    var b := Peeled(0, s, from, to);
    var c := Peeled(1, s, b, to);
    var d := Peeled(2, s, c, to);
    var e := Peeled(3, s, d, to);
    var f := Peeled(4, s, e, to);
    BarsFound(s, from, b, c, d, e, f);
  }

  /** A row holds the bars if and only if the pattern matches some part of it. */
  lemma {:induction false} BarsExactly(s: Bytes)
    ensures HasBars(s) <==> exists from: nat, to: nat :: BarsBetween(s, from, to)
  {
    if HasBars(s) {
      var a: nat, b: nat, c: nat, d: nat, e: nat, f: nat :| BarsAt(s, a, b, c, d, e, f);
      BarsMatch(s, a, b, c, d, e, f);
      assert BarsBetween(s, a, f);
    }
    if from: nat, to: nat :| BarsBetween(s, from, to) {
      MatchedAreBars(s, from, to);
    }
  }

  lemma BarsFound(s: Bytes, a: nat, b: nat, c: nat, d: nat, e: nat, f: nat)
    requires PieceMatches(BARS[0], s, a, b) && PieceMatches(BARS[1], s, b, c) && PieceMatches(BARS[2], s, c, d)
    requires PieceMatches(BARS[3], s, d, e) && PieceMatches(BARS[4], s, e, f)
    ensures HasBars(s)
  {
    assert BarsAt(s, a, b, c, d, e, f);
  }

  /** How many of the first k of 0, 4, 8, ... are found. */
  function Sampled(found: nat -> bool, k: nat): (n: nat)
    ensures n <= k
  {
    if k == 0 then 0 else Sampled(found, k - 1) + (if found(ROW_STRIDE * (k - 1)) then 1 else 0)
  }

  /** How many multiples of four lie below `height`. */
  function RowsSampled(height: nat): (k: nat)
    ensures ROW_STRIDE * k < height + ROW_STRIDE && height <= ROW_STRIDE * k
  {
    if height < ROW_STRIDE then (if height == 0 then 0 else 1) else 1 + RowsSampled(height - ROW_STRIDE)
  }

  /** What the pattern search answers for a row of classes; the search engine is a parameter. */
  type Search = Bytes -> bool

  /** Whether a row carries the bars, its classes taken pixel by pixel. */
  function RowMatches(frame: Frame, search: Search): nat -> bool
    requires frame.Valid()
  {
    (index: nat) => index < frame.height && search(PixelClasses(Row(frame, index), frame.width))
  }

  function MatchedRows(frame: Frame, search: Search): nat
    requires frame.Valid()
  {
    Sampled(RowMatches(frame, search), RowsSampled(frame.height))
  }

  /** Counts the sampled rows that carry the bars: every fourth row once, and no other. */
  method Swatches(frame: Frame, search: Search) returns (matched: nat)
    requires frame.Valid()
    ensures matched == MatchedRows(frame, search)
  {
    matched := 0;
    var index: nat := 0;
    ghost var k: nat := 0;
    while index < frame.height
      invariant index == ROW_STRIDE * k && k <= RowsSampled(frame.height)
      invariant matched == Sampled(RowMatches(frame, search), k)
    {
      var classes := Classes(Row(frame, index), frame.width);
      ClassesAreThePixels(Row(frame, index), frame.width);
      if search(classes.value) {
        matched := matched + 1;
      }
      index := index + ROW_STRIDE;
      k := k + 1;
    }
  }

  /** The search answers only with a match of the pattern. */
  ghost predicate FindsOnlyBars(search: Search) {
    forall s :: search(s) ==> HasBars(s)
  }

  /** It answers with a match of the pattern whenever there is one. */
  ghost predicate FindsExactlyBars(search: Search) {
    forall s :: search(s) <==> HasBars(s)
  }

  /** The sampled rows, by their place among 0, 4, 8, ..., whose pixels, one by one, are of the
      classes that make up the bars. */
  ghost function BarRows(frame: Frame): set<nat>
    requires frame.Valid()
  {
    set j: nat | j < frame.height && ROW_STRIDE * j < frame.height
      && HasBars(PixelClasses(Row(frame, ROW_STRIDE * j), frame.width))
  }

  /** Which of the first `k` sampled places are found. */
  ghost function FoundBelow(found: nat -> bool, k: nat): set<nat> {
    set j: nat | j < k && found(ROW_STRIDE * j)
  }

  lemma {:induction false} SampledCounts(found: nat -> bool, k: nat)
    ensures Sampled(found, k) == |FoundBelow(found, k)|
  {
    if k > 0 {
      SampledCounts(found, k - 1);
      assert FoundBelow(found, k) == FoundBelow(found, k - 1) + (if found(ROW_STRIDE * (k - 1)) then {k - 1} else {});
    }
  }

  /** The rows counted are exactly the sampled rows that hold the bars. */
  lemma SwatchesExactly(frame: Frame, search: Search)
    requires frame.Valid() && FindsExactlyBars(search)
    ensures MatchedRows(frame, search) == |BarRows(frame)|
  {
    var found := RowMatches(frame, search);
    SampledCounts(found, RowsSampled(frame.height));
    assert FoundBelow(found, RowsSampled(frame.height)) == BarRows(frame);
  }

  /** The bars are visible only on a frame with room for them: three runs across, and twenty
      sampled rows. */
  lemma VisibleNeedsRoom(frame: Frame, search: Search)
    requires frame.Valid() && FindsOnlyBars(search)
    requires MatchedRows(frame, search) >= BAR_ROWS
    ensures frame.width >= 240
    ensures frame.height >= 77
  {
    var at := OneFound(RowMatches(frame, search), RowsSampled(frame.height));
    var classes := PixelClasses(Row(frame, at), frame.width);
    assert HasBars(classes);
  }

  lemma {:induction false} OneFound(found: nat -> bool, k: nat) returns (at: nat)
    requires Sampled(found, k) > 0
    ensures found(at)
  {
    if found(ROW_STRIDE * (k - 1)) {
      at := ROW_STRIDE * (k - 1);
    } else {
      at := OneFound(found, k - 1);
    }
  }

  // ----- changed pixels -----

  function Distance(x: byte, y: byte): nat {
    if x < y then y - x else x - y
  }

  /** A pixel moved: one of its three channels by the threshold or more. */
  predicate Moved(first: Bytes, second: Bytes, pixel: nat)
    requires |first| == |second| && CHANNELS * pixel + 2 < |first|
  {
    var at := CHANNELS * pixel;
    || Distance(first[at], second[at]) >= CHANGE
    || Distance(first[at + 1], second[at + 1]) >= CHANGE
    || Distance(first[at + 2], second[at + 2]) >= CHANGE
  }

  /** How many of the pixels lo, lo + 1, ... below hi moved, one at a time. */
  function CountMoved(first: Bytes, second: Bytes, lo: nat, hi: nat): nat
    requires |first| == |second| && lo <= hi && CHANNELS * hi <= |first|
    decreases hi - lo
  {
    if lo == hi then 0
    else CountMoved(first, second, lo, hi - 1) + (if Moved(first, second, hi - 1) then 1 else 0)
  }

  predicate SameBytes(first: Bytes, second: Bytes, lo: nat, hi: nat)
    requires |first| == |second|
  {
    forall i | lo <= i < hi && i < |first| :: first[i] == second[i]
  }

  lemma {:induction false} SameMovesNothing(first: Bytes, second: Bytes, lo: nat, hi: nat)
    requires |first| == |second| && lo <= hi && CHANNELS * hi <= |first|
    requires SameBytes(first, second, CHANNELS * lo, CHANNELS * hi)
    ensures CountMoved(first, second, lo, hi) == 0
    decreases hi - lo
  {
    if lo < hi { SameMovesNothing(first, second, lo, hi - 1); }
  }

  lemma {:induction false} CountSplits(first: Bytes, second: Bytes, lo: nat, mid: nat, hi: nat)
    requires |first| == |second| && lo <= mid <= hi && CHANNELS * hi <= |first|
    ensures CountMoved(first, second, lo, hi) ==
            CountMoved(first, second, lo, mid) + CountMoved(first, second, mid, hi)
    decreases hi - mid
  {
    if mid < hi { CountSplits(first, second, lo, mid, hi - 1); }
  }

  /** The next maximal run of non-zero bytes at or after `from`. */
  method NextSpan(s: Bytes, from: nat) returns (start: nat, end: nat)
    requires from <= |s|
    ensures from <= start <= end <= |s|
    ensures forall i | from <= i < start :: s[i] == 0
    ensures forall i | start <= i < end :: s[i] != 0
    ensures start < end || start == |s|
    ensures end < |s| ==> s[end] == 0
  {
    start := from;
    while start < |s| && s[start] == 0
      invariant from <= start <= |s|
      invariant forall i | from <= i < start :: s[i] == 0
    {
      start := start + 1;
    }
    end := start;
    while end < |s| && s[end] != 0
      invariant start <= end <= |s|
      invariant forall i | start <= i < end :: s[i] != 0
      invariant end > start || end == |s| || s[end] != 0
    {
      end := end + 1;
    }
  }

  /** The pixels a run of differing bytes touches, from the next one not looked at. */
  method CountSpan(first: Bytes, second: Bytes, start: nat, stop: nat) returns (counted: nat)
    requires |first| == |second| && start <= stop && CHANNELS * stop <= |first|
    ensures counted == CountMoved(first, second, start, stop)
  {
    counted := 0;
    for pixel := start to stop
      invariant counted == CountMoved(first, second, start, pixel)
    {
      if Moved(first, second, pixel) {
        counted := counted + 1;
      }
    }
  }

  /** Before a run nothing moved, so counting on from it counts on from where the last one ended. */
  lemma CountOn(first: Bytes, second: Bytes, next: nat, start: nat, stop: nat)
    requires |first| == |second| && next <= start <= stop && CHANNELS * stop <= |first|
    requires SameBytes(first, second, CHANNELS * next, CHANNELS * start)
    ensures CountMoved(first, second, 0, stop) ==
            CountMoved(first, second, 0, next) + CountMoved(first, second, start, stop)
  {
    SameMovesNothing(first, second, next, start);
    CountSplits(first, second, 0, next, start);
    CountSplits(first, second, 0, start, stop);
  }

  /** Pixels that moved, looked at only where a byte differs: as many as a look at every pixel
      would find. */
  method ChangedPixels(first: Bytes, second: Bytes) returns (counted: nat)
    requires |first| == |second| && |first| % CHANNELS == 0
    ensures counted == CountMoved(first, second, 0, |first| / CHANNELS)
  {
    ghost var pixels := |first| / CHANNELS;
    assert |first| == CHANNELS * pixels;
    DifferingMarks(first, second);
    var differing := Differing(first, second).value;
    counted := 0;
    var nextPixel: nat, at: nat := 0, 0;
    while at < |differing|
      invariant at <= |differing| && nextPixel <= pixels
      invariant SameBytes(first, second, CHANNELS * nextPixel, at)
      invariant CHANNELS * nextPixel <= at + 2
      invariant counted == CountMoved(first, second, 0, nextPixel)
      decreases |differing| - at
    {
      var s, e := NextSpan(differing, at);
      assert SameBytes(first, second, CHANNELS * nextPixel, s);
      if s < e {
        var start := Max(s / CHANNELS, nextPixel);
        var stop := (e - 1) / CHANNELS + 1;
        CountOn(first, second, nextPixel, start, stop);
        var moved := CountSpan(first, second, start, stop);
        counted := counted + moved;
        nextPixel := stop;
      }
      at := e;
    }
    CountOn(first, second, nextPixel, pixels, pixels);
  }

  // ----- the surface -----

  datatype SurfaceChange = SizeChanged | Changed(changed: nat, minimum: nat)

  /** The first pixel below the top bar, and the number of pixels. */
  function BelowBar(frame: Frame): (pixel: nat)
    ensures pixel <= PixelsOf(frame)
  {
    BeforeAscends(Min(TOP_BAR_ROWS, frame.height), frame.height, frame.width);
    Before(Min(TOP_BAR_ROWS, frame.height), frame.width)
  }

  function PixelsOf(frame: Frame): nat {
    Before(frame.height, frame.width)
  }

  predicate SameSize(before: Frame, after: Frame) {
    before.Valid() && after.Valid() && before.width == after.width && before.height == after.height
  }

  function MinimumPixels(frame: Frame): nat {
    Max(MINIMUM_CHANGED, frame.width * frame.height / CHANGED_SHARE)
  }

  /** The judgement by a plain look at every pixel below the bar of the two buffers. */
  function SurfaceSpec(before: Frame, after: Frame): SurfaceChange
    requires before.Valid() && after.Valid()
  {
    if !SameSize(before, after) then SizeChanged
    else
      Changed(CountMoved(before.pixels, after.pixels, BelowBar(before), PixelsOf(before)),
              MinimumPixels(before))
  }

  /** A row's pixels are those of the whole buffer. */
  lemma {:induction false} RowCounts(first: Bytes, second: Bytes, at: nat, width: nat, k: nat)
    requires |first| == |second| && CHANNELS * (at + width) <= |first| && k <= width
    ensures var lo, hi := CHANNELS * at, CHANNELS * (at + width);
            CountMoved(first[lo..hi], second[lo..hi], 0, k) == CountMoved(first, second, at, at + k)
  {
    if k > 0 { RowCounts(first, second, at, width, k - 1); }
  }

  /** The pixels that moved in the rows lo, lo + 1, ... below hi of the buffers. */
  ghost function MovedInRows(before: Frame, after: Frame, lo: nat, hi: nat): nat
    requires SameSize(before, after) && lo <= hi <= before.height
  {
    BeforeAscends(lo, hi, before.width);
    BeforeAscends(hi, before.height, before.width);
    CountMoved(before.pixels, after.pixels, Before(lo, before.width), Before(hi, before.width))
  }

  lemma NextRow(before: Frame, after: Frame, lo: nat, index: nat)
    requires SameSize(before, after) && lo <= index < before.height
    ensures MovedInRows(before, after, lo, index + 1)
            == MovedInRows(before, after, lo, index)
               + CountMoved(Row(before, index), Row(after, index), 0, before.width)
  {
    var w := before.width;
    var from, at, to := Before(lo, w), Before(index, w), Before(index + 1, w);
    BeforeAscends(lo, index, w);
    BeforeAscends(index + 1, before.height, w);
    NextCounts(before.pixels, after.pixels, from, at, to, w);
  }

  lemma NextCounts(first: Bytes, second: Bytes, lo: nat, at: nat, to: nat, width: nat)
    requires |first| == |second| && lo <= at && to == at + width && CHANNELS * to <= |first|
    ensures CountMoved(first, second, lo, to)
            == CountMoved(first, second, lo, at)
               + CountMoved(first[CHANNELS * at..CHANNELS * to], second[CHANNELS * at..CHANNELS * to], 0, width)
  {
    RowCounts(first, second, at, width, width);
    CountSplits(first, second, lo, at, at + width);
  }

  /** Counts each pixel below the top bar at most once, row by row, and skips equal rows. */
  method SurfaceChangeOf(before: Frame, after: Frame) returns (r: SurfaceChange)
    requires before.Valid() && after.Valid()
    ensures r == SurfaceSpec(before, after)
  {
    if before.width != after.width || before.height != after.height { return SizeChanged; }
    var changed: nat := 0;
    var top: nat := Min(TOP_BAR_ROWS, before.height);
    for index := top to before.height
      invariant changed == MovedInRows(before, after, top, index)
    {
      var first, second := Row(before, index), Row(after, index);
      NextRow(before, after, top, index);
      if first != second {
        var more := ChangedPixels(first, second);
        changed := changed + more;
      } else {
        SameMovesNothing(first, second, 0, before.width);
      }
    }
    assert changed == CountMoved(before.pixels, after.pixels, BelowBar(before), PixelsOf(before));
    return Changed(changed, MinimumPixels(before));
  }

  /** The judgement does not depend on which frame came first. */
  lemma SurfaceIsSymmetric(before: Frame, after: Frame)
    requires before.Valid() && after.Valid()
    ensures SurfaceSpec(before, after) == SurfaceSpec(after, before)
  {
    if SameSize(before, after) {
      CountIsSymmetric(before.pixels, after.pixels, BelowBar(before), PixelsOf(before));
    }
  }

  lemma {:induction false} CountIsSymmetric(first: Bytes, second: Bytes, lo: nat, hi: nat)
    requires |first| == |second| && lo <= hi && CHANNELS * hi <= |first|
    ensures CountMoved(first, second, lo, hi) == CountMoved(second, first, lo, hi)
    decreases hi - lo
  {
    if lo < hi { CountIsSymmetric(first, second, lo, hi - 1); }
  }

  /** A change confined to the top bar never counts. */
  lemma TopBarNeverCounts(before: Frame, after: Frame)
    requires SameSize(before, after)
    requires SameBytes(before.pixels, after.pixels, CHANNELS * BelowBar(before), |before.pixels|)
    ensures SurfaceSpec(before, after).changed == 0
  {
    SameMovesNothing(before.pixels, after.pixels, BelowBar(before), PixelsOf(before));
  }

  /** A byte of the pixel differs by twenty or more between the frames. */
  predicate ByteDiffers(before: Frame, after: Frame, pixel: nat, channel: nat)
    requires SameSize(before, after) && pixel < PixelsOf(before) && channel < 3
  {
    var a, b := before.pixels[3 * pixel + channel] as int, after.pixels[3 * pixel + channel] as int;
    a - b >= 20 || b - a >= 20
  }

  predicate DiffersThere(before: Frame, after: Frame, pixel: nat)
    requires SameSize(before, after) && pixel < PixelsOf(before)
  {
    exists channel | 0 <= channel < 3 :: ByteDiffers(before, after, pixel, channel)
  }

  /** The pixels, in rows of the frame's width, that lie below the first forty rows and differ. */
  ghost function ChangedBelow(before: Frame, after: Frame): set<nat>
    requires SameSize(before, after)
  {
    set pixel: nat | pixel < PixelsOf(before) && pixel / before.width >= 40 && DiffersThere(before, after, pixel)
  }

  lemma MovedDiffers(before: Frame, after: Frame, pixel: nat)
    requires SameSize(before, after) && pixel < PixelsOf(before)
    ensures Moved(before.pixels, after.pixels, pixel) <==> DiffersThere(before, after, pixel)
  {
    var a, b := before.pixels, after.pixels;
    var at := CHANNELS * pixel;
    assert Distance(a[at], b[at]) >= CHANGE <==> ByteDiffers(before, after, pixel, 0);
    assert Distance(a[at + 1], b[at + 1]) >= CHANGE <==> ByteDiffers(before, after, pixel, 1);
    assert Distance(a[at + 2], b[at + 2]) >= CHANGE <==> ByteDiffers(before, after, pixel, 2);
  }

  ghost function MovedFrom(before: Frame, after: Frame, lo: nat, hi: nat): set<nat>
    requires SameSize(before, after) && hi <= PixelsOf(before)
  {
    set pixel: nat | lo <= pixel < hi && DiffersThere(before, after, pixel)
  }

  lemma {:induction false} CountIsSize(before: Frame, after: Frame, lo: nat, hi: nat)
    requires SameSize(before, after) && lo <= hi <= PixelsOf(before)
    ensures CountMoved(before.pixels, after.pixels, lo, hi) == |MovedFrom(before, after, lo, hi)|
    decreases hi - lo
  {
    if lo < hi {
      CountIsSize(before, after, lo, hi - 1);
      MovedDiffers(before, after, hi - 1);
      assert MovedFrom(before, after, lo, hi)
          == MovedFrom(before, after, lo, hi - 1) + (if DiffersThere(before, after, hi - 1) then {hi - 1} else {});
    }
  }

  /** A pixel is below the bar when its row is the fortieth or a later one. */
  lemma BelowBarIs(frame: Frame, pixel: nat)
    requires frame.Valid() && pixel < PixelsOf(frame)
    ensures pixel >= BelowBar(frame) <==> pixel / frame.width >= 40
  {
    BeforeIs(Min(TOP_BAR_ROWS, frame.height), frame.width);
    BeforeIs(frame.height, frame.width);
    RowOf(pixel, frame.width, 40);
    RowOf(pixel, frame.width, frame.height);
  }

  lemma RowOf(pixel: nat, width: nat, row: nat)
    requires width > 0
    ensures pixel / width >= row <==> pixel >= row * width
  {
    var q := pixel / width;
    assert pixel == q * width + pixel % width;
    if q >= row { assert q * width >= row * width; }
    if q < row { assert (q + 1) * width <= row * width; }
  }

  /** The judgement counts exactly the pixels below the first forty rows in which a byte moved by
      twenty or more, against five thousand or a hundredth of the frame; it is made exactly for
      frames of one size. */
  lemma SurfaceExactly(before: Frame, after: Frame)
    requires before.Valid() && after.Valid()
    ensures SurfaceSpec(before, after).SizeChanged? <==> (before.width, before.height) != (after.width, after.height)
    ensures SameSize(before, after) ==>
              SurfaceSpec(before, after)
              == Changed(|ChangedBelow(before, after)|, Max(5000, before.width * before.height / 100))
  {
    if SameSize(before, after) {
      CountIsSize(before, after, BelowBar(before), PixelsOf(before));
      forall pixel: nat | pixel < PixelsOf(before)
        ensures pixel >= BelowBar(before) <==> pixel / before.width >= 40
      {
        BelowBarIs(before, pixel);
      }
      assert MovedFrom(before, after, BelowBar(before), PixelsOf(before)) == ChangedBelow(before, after);
    }
  }
}

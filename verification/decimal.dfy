/** Numbers in scientific notation: the decimal point is moved in place, in a buffer of zeros
    behind the mantissa, before the text is read as a number. */
module Decimal {
  import opened Common

  const NUL := 0
  const COMMA := 44
  const MINUS := 45
  const POINT := 46
  const ZERO := 48
  const EXPONENT := 69

  /** The spare room behind the text in the buffer. */
  const ROOM := 33

  predicate IsDigit(c: int): (r: bool)
    ensures r <==> c in {48, 49, 50, 51, 52, 53, 54, 55, 56, 57}
  {
    48 <= c <= 57
  }

  predicate AllDigits(s: Bytes) {
    forall i :: 0 <= i < |s| ==> IsDigit(s[i])
  }

  /** Text as C keeps it: no byte is NUL. */
  predicate IsCString(s: Bytes) {
    forall i :: 0 <= i < |s| ==> s[i] != NUL
  }

  function Zeros(n: nat): (r: Bytes)
    ensures |r| == n
  {
    seq(n, _ => ZERO)
  }

  // ----- what the text is rewritten to

  function Normal(s: Bytes): (r: Bytes)
    ensures |r| == |s|
    ensures forall i :: 0 <= i < |s| ==> r[i] == if s[i] == COMMA then POINT else s[i]
  {
    seq(|s|, i requires 0 <= i < |s| => if s[i] == COMMA then POINT else s[i])
  }

  predicate StartsExponent(from: Bytes, i: nat)
    requires i < |from|
  {
    from[i] == EXPONENT && i + 2 <= |from|
  }

  /** Where the exponent starts, or the length. */
  function MantissaEnd(from: Bytes, i: nat := 0): (e: nat)
    requires i <= |from|
    ensures i <= e <= |from|
    ensures forall k :: i <= k < e ==> !StartsExponent(from, k)
    ensures e < |from| ==> StartsExponent(from, e)
    decreases |from| - i
  {
    if i == |from| || StartsExponent(from, i) then i else MantissaEnd(from, i + 1)
  }

  /** The value of the digits a text starts with. */
  function LeadingNumber(s: Bytes, acc: nat := 0): nat {
    if s == [] || !IsDigit(s[0]) then acc else LeadingNumber(s[1..], 10 * acc + (s[0] - 48))
  }

  /** The exponent at `e`: the byte after the E is taken for its sign, then up to three bytes are
      read.  A negative exponent moves nothing. */
  function Exponent(from: Bytes, e: nat): nat
    requires e <= |from|
  {
    if e + 2 > |from| || from[e + 1] == MINUS then 0
    else LeadingNumber(from[e + 2..if e + 5 <= |from| then e + 5 else |from|])
  }

  /** The index of the last point, or 0. */
  function PointAt(s: Bytes): (p: nat)
    ensures s == [] ==> p == 0
    ensures s != [] ==> p < |s|
    ensures POINT in s ==> s[p] == POINT
    ensures forall i :: p < i < |s| ==> s[i] != POINT
  {
    if s == [] then 0
    else if s[|s| - 1] == POINT then |s| - 1
    else PointAt(s[..|s| - 1])
  }

  /** The digits after the point, with the point moved `d` places: no point is left at the end,
      unless the room behind the text runs out first. */
  function Moved(frac: Bytes, d: nat): Bytes {
    if d < |frac| then frac[..d] + [POINT] + frac[d..]
    else if d <= |frac| + ROOM then frac + Zeros(d - |frac|)
    else frac + Zeros(ROOM) + [POINT]
  }

  function Shifted(mantissa: Bytes, d: nat): Bytes {
    var p := PointAt(mantissa);
    if d == 0 || POINT !in mantissa then mantissa else mantissa[..p] + Moved(mantissa[p + 1..], d)
  }

  function Rewritten(from: Bytes): Bytes {
    var e := MantissaEnd(from);
    Shifted(Normal(from[..e]), Exponent(from, e))
  }

  // ----- the code

  /** The byte at index `j` once the point has moved `k` places from `p`. */
  function Cell(m: Bytes, p: nat, k: nat, j: nat): int
    requires p < |m|
  {
    if j < p then m[j]
    else if j < p + k then (if j + 1 < |m| then m[j + 1] else ZERO)
    else if j == p + k then POINT
    else if j < |m| then m[j]
    else NUL
  }

  /** The buffer holds `r` and nothing behind it. */
  predicate Holds(to: Bytes, r: Bytes) {
    && |r| <= |to|
    && (forall j :: 0 <= j < |r| ==> to[j] == r[j])
    && (forall j :: |r| <= j < |to| ==> to[j] == NUL)
  }

  ghost predicate MovedCells(to: Bytes, m: Bytes, p: nat, k: nat)
    requires p < |m|
  {
    forall j :: 0 <= j < |to| ==> to[j] == Cell(m, p, k, j)
  }

  /** The point among the digits. */
  lemma PointInside(to: Bytes, m: Bytes, p: nat, k: nat)
    requires p + k + 1 < |m| <= |to| && MovedCells(to, m, p, k)
    ensures Holds(to, m[..p] + Moved(m[p + 1..], k))
  {
    var frac := m[p + 1..];
    var r := m[..p] + Moved(frac, k);
    assert |r| == |m|;
    forall j | 0 <= j < |r| ensures r[j] == Cell(m, p, k, j) {
      if p + k < j { assert r[j] == frac[k..][j - (p + k + 1)] == m[j]; }
    }
  }

  /** The point behind the last digit. */
  lemma PointBehind(to: Bytes, m: Bytes, p: nat, k: nat)
    requires p < |m| <= p + k + 1 <= |to| && MovedCells(to, m, p, k)
    ensures Holds(to, m[..p] + (m[p + 1..] + Zeros(k - (|m| - p - 1)) + [POINT]))
    ensures Holds(to[p + k := NUL], m[..p] + (m[p + 1..] + Zeros(k - (|m| - p - 1))))
  {
  }

  /** The loop that moves the point, one place per pass, within the room behind the text. */
  method MovePoint(to: array<int>, p: nat, size: nat, d: nat, ghost m: Bytes)
    requires |m| == size && size + ROOM + 1 <= to.Length && IsCString(m) && Holds(to[..], m) && d > 0
    requires p == PointAt(m)
    modifies to
    ensures Holds(to[..], Shifted(m, d))
  {
    hide Holds, MovedCells, Cell, Moved;
    var i, left := p, d;
    ghost var pointed := POINT in m;
    Untouched(to[..], m);
    while i < size + ROOM - 1
      invariant p <= i <= size + ROOM - 1
      invariant !pointed ==> to[..] == old(to[..])
      invariant pointed && left > 0 ==> left == d - (i - p) && MovedCells(to[..], m, p, i - p)
      invariant pointed && left == 0 ==> Holds(to[..], Shifted(m, d))
    {
      if pointed && left > 0 {
        AroundPoint(to[..], m, p, i - p);
      }
      if to[i] == POINT && left > 0 {
        ghost var before := to[..];
        to[i] := to[i + 1];
        to[i + 1] := POINT;
        left := left - 1;
        if to[i] == NUL || i > size {
          to[i] := ZERO;
        }
        OneMove(before, m, p, i - p, to[..]);
        if left == 0 {
          LastMove(to[..], m, p, d);
        }
        if left == 0 && to[i + 2] == NUL {
          to[i + 1] := NUL;
          return;
        }
      }
      i := i + 1;
    }
    if pointed && left > 0 {
      OutOfRoom(to[..], m, p, d);
    }
  }

  lemma Untouched(to: Bytes, m: Bytes)
    requires Holds(to, m)
    ensures POINT in m ==> MovedCells(to, m, PointAt(m), 0)
    ensures POINT !in m ==> POINT !in to
  {
  }

  lemma OneMove(before: Bytes, m: Bytes, p: nat, k: nat, after: Bytes)
    requires p < |m| && IsCString(m) && p + k + 1 < |before| == |after| && MovedCells(before, m, p, k)
    requires var c := if before[p + k + 1] == NUL || p + k > |m| then ZERO else before[p + k + 1];
             after == before[p + k := c][p + k + 1 := POINT]
    ensures MovedCells(after, m, p, k + 1)
  {
  }

  lemma AroundPoint(to: Bytes, m: Bytes, p: nat, k: nat)
    requires p < |m| && IsCString(m) && p + k + 1 < |to| && MovedCells(to, m, p, k)
    ensures to[p + k] == POINT && (to[p + k + 1] == NUL <==> |m| <= p + k + 1)
  {
  }

  lemma LastMove(to: Bytes, m: Bytes, p: nat, d: nat)
    requires POINT in m && p == PointAt(m) && 0 < d <= |m| - p - 1 + ROOM && |m| + ROOM + 1 <= |to|
    requires IsCString(m) && MovedCells(to, m, p, d)
    ensures if to[p + d + 1] == NUL then Holds(to[p + d := NUL], Shifted(m, d)) else Holds(to, Shifted(m, d))
  {
    hide Holds, MovedCells, Moved, PointAt;
    AroundPoint(to, m, p, d);
    if p + d + 1 < |m| {
      PointInside(to, m, p, d);
    } else {
      PointBehind(to, m, p, d);
      MovedBehind(m[p + 1..], d);
    }
  }

  lemma MovedBehind(frac: Bytes, d: nat)
    requires |frac| <= d
    ensures d <= |frac| + ROOM ==> Moved(frac, d) == frac + Zeros(d - |frac|)
    ensures d > |frac| + ROOM ==> Moved(frac, d) == frac + Zeros(ROOM) + [POINT]
  {
  }

  lemma OutOfRoom(to: Bytes, m: Bytes, p: nat, d: nat)
    requires POINT in m && p == PointAt(m) && d > |m| - p - 1 + ROOM && |m| + ROOM + 1 <= |to|
    requires MovedCells(to, m, p, |m| - p - 1 + ROOM)
    ensures Holds(to, Shifted(m, d))
  {
    hide Holds, MovedCells, Moved, PointAt;
    PointBehind(to, m, p, |m| - p - 1 + ROOM);
    MovedBehind(m[p + 1..], d);
  }

  /** What the copying loop has done with the first `i` bytes. */
  ghost predicate Copied(from: Bytes, to: Bytes, i: nat, iDecPos: nat, integer: bool) {
    && i <= |from| < |to| && iDecPos == PointAt(Normal(from[..i])) && (integer <==> POINT !in Normal(from[..i]))
    && Holds(to, Normal(from[..i]))
  }

  lemma CopiedStep(from: Bytes, to: Bytes, i: nat, iDecPos: nat, integer: bool)
    requires i < |from| && Copied(from, to, i, iDecPos, integer)
    ensures var b := if from[i] == COMMA then POINT else from[i];
            Copied(from, to[i := b], i + 1, if b == POINT then i else iDecPos, integer && b != POINT)
  {
    hide PointAt;
    var b := if from[i] == COMMA then POINT else from[i];
    var m, m' := Normal(from[..i]), Normal(from[..i + 1]);
    assert m' == m + [b];
    PointAppended(m, b);
  }

  lemma PointAppended(m: Bytes, b: int)
    ensures PointAt(m + [b]) == if b == POINT then |m| else PointAt(m)
    ensures POINT in m + [b] <==> POINT in m || b == POINT
  {
    assert (m + [b])[..|m|] == m;
  }

  /** The copying loop: commas become points, the last point is remembered, and the scan stops at
      the exponent. */
  method CopyMantissa(from: Bytes, to: array<int>) returns (size: nat, iDecPos: nat, integer: bool, dMultpl: nat)
    requires to.Length == |from| + ROOM && forall i :: 0 <= i < to.Length ==> to[i] == NUL
    requires IsCString(from)
    modifies to
    ensures size == MantissaEnd(from) && dMultpl == Exponent(from, size)
    ensures Holds(to[..][size := NUL], Normal(from[..size])) && iDecPos == PointAt(Normal(from[..size]))
    ensures integer <==> size == |from| && POINT !in Normal(from)
  {
    assert Exponent(from, |from|) == 0;
    assert Copied(from, to[..], 0, 0, true);
    hide LeadingNumber, Exponent, PointAt, Copied;
    size, iDecPos, integer, dMultpl := |from|, 0, true, 0;
    var i := 0;
    while i < size
      invariant 0 <= i <= size == |from| && dMultpl == 0
      invariant Copied(from, to[..], i, iDecPos, integer)
      invariant MantissaEnd(from) == MantissaEnd(from, i)
    {
      ghost var before, point, whole := to[..], iDecPos, integer;
      CopiedStep(from, before, i, point, whole);
      if from[i] == COMMA {
        to[i] := POINT;
        iDecPos := i;
      } else {
        to[i] := from[i];
      }
      if to[i] == POINT {
        integer := false;
        iDecPos := i;
      }
      if to[i] == EXPONENT && i + 2 <= size {
        integer := false;
        dMultpl := Exponent(from, i);
        size := i;
        CutAt(from, before, i, point, whole, to[i]);
        assert to[..][i := NUL] == before[i := to[i]][i := NUL];
        return;
      }
      i := i + 1;
    }
    CopiedAll(from, to[..], iDecPos, integer);
  }

  lemma CutAt(from: Bytes, before: Bytes, i: nat, iDecPos: nat, integer: bool, b: int)
    requires i < |from| && Copied(from, before, i, iDecPos, integer)
    ensures Holds(before[i := b][i := NUL], Normal(from[..i])) && iDecPos == PointAt(Normal(from[..i]))
  {
  }

  lemma CopiedAll(from: Bytes, to: Bytes, iDecPos: nat, integer: bool)
    requires Copied(from, to, |from|, iDecPos, integer)
    ensures Holds(to[|from| := NUL], Normal(from[..|from|])) && iDecPos == PointAt(Normal(from[..|from|]))
    ensures integer <==> POINT !in Normal(from)
  {
    assert from[..|from|] == from;
  }

  method StrLen(to: array<int>, ghost r: Bytes) returns (size: nat)
    requires IsCString(r) && |r| < to.Length && Holds(to[..], r)
    ensures size == |r|
  {
    size := 0;
    while to[size] != NUL
      invariant 0 <= size <= |r|
      decreases |r| - size
    {
      size := size + 1;
    }
  }

  /** sr_escapeNumber, up to the reading of the rewritten text. */
  method EscapeNumber(from: Bytes) returns (to: array<int>, size: nat, integer: bool)
    requires IsCString(from)
    ensures size < to.Length == |from| + ROOM && to[size] == NUL && to[..size] == Rewritten(from)
    ensures integer <==> MantissaEnd(from) == |from| && POINT !in Normal(from)
  {
    to := new int[|from| + ROOM](_ => NUL);
    var iDecPos, dMultpl;
    size, iDecPos, integer, dMultpl := CopyMantissa(from, to);
    ghost var m := Normal(from[..size]);
    to[size] := NUL;
    if dMultpl > 0 {
      MovePoint(to, iDecPos, size, dMultpl, m);
      ShiftedIsCString(m, dMultpl);
      size := StrLen(to, Shifted(m, dMultpl));
    }
    assert to[..size] == Rewritten(from);
  }

  lemma ShiftedIsCString(m: Bytes, d: nat)
    requires IsCString(m)
    ensures IsCString(Shifted(m, d)) && |Shifted(m, d)| <= |m| + ROOM
  {
  }

  // ----- the value of the text

  function Pow10(n: nat): (r: int)
    ensures r >= 1
    ensures n > 0 ==> r > 1
  {
    if n == 0 then 1 else 10 * Pow10(n - 1)
  }

  /** `digits` with a decimal point `scale` places from the right. */
  function Scaled(digits: int, scale: nat): real {
    digits as real / Pow10(scale) as real
  }

  function TimesPow10(x: real, k: nat): real {
    x * Pow10(k) as real
  }

  function Digits(s: Bytes): (r: int)
    ensures AllDigits(s) ==> r >= 0
  {
    if s == [] then 0 else 10 * Digits(s[..|s| - 1]) + (s[|s| - 1] - 48)
  }

  function FirstPoint(s: Bytes): (p: nat)
    ensures p <= |s|
    ensures forall i :: 0 <= i < p ==> s[i] != POINT
    ensures p < |s| ==> s[p] == POINT
  {
    if s == [] || s[0] == POINT then 0 else 1 + FirstPoint(s[1..])
  }

  function Magnitude(s: Bytes): real {
    var p := FirstPoint(s);
    var frac := if p < |s| then s[p + 1..] else [];
    Scaled(Digits(s[..p] + frac), |frac|)
  }

  /** The number a plain decimal text stands for. */
  function Value(s: Bytes): real {
    if s != [] && s[0] == MINUS then -Magnitude(s[1..]) else Magnitude(s)
  }

  /** A mantissa: sign, digits, and perhaps a separator and more digits. */
  datatype Mantissa = Mantissa(negative: bool, whole: Bytes, pointed: bool, comma: bool, frac: Bytes) {
    predicate Valid() {
      AllDigits(whole) && AllDigits(frac) && (pointed || frac == [])
    }

    function Sign(): Bytes {
      if negative then [MINUS] else []
    }

    function Text(): Bytes {
      Sign() + whole + (if pointed then [if comma then COMMA else POINT] + frac else [])
    }

    /** The number it stands for. */
    function Number(): real {
      var r := Scaled(Digits(whole + frac), |frac|);
      if negative then -r else r
    }
  }

  lemma {:induction false} PowAdd(a: nat, b: nat)
    ensures Pow10(a + b) == Pow10(a) * Pow10(b)
  {
    if a > 0 {
      PowAdd(a - 1, b);
      assert 10 * (Pow10(a - 1) * Pow10(b)) == (10 * Pow10(a - 1)) * Pow10(b);
    }
  }

  lemma {:induction false} DigitsZeros(s: Bytes, n: nat)
    ensures Digits(s + Zeros(n)) == Digits(s) * Pow10(n)
  {
    if n == 0 {
      assert s + Zeros(0) == s;
    } else {
      DigitsZeros(s, n - 1);
      assert (s + Zeros(n))[..|s| + n - 1] == s + Zeros(n - 1);
      assert 10 * (Digits(s) * Pow10(n - 1)) == Digits(s) * (10 * Pow10(n - 1));
    }
  }

  lemma MagnitudePointed(whole: Bytes, frac: Bytes)
    requires POINT !in whole
    ensures Magnitude(whole + ([POINT] + frac)) == Scaled(Digits(whole + frac), |frac|)
  {
    var s := whole + ([POINT] + frac);
    assert s[|whole|] == POINT && forall i :: 0 <= i < |whole| ==> s[i] == whole[i];
    assert FirstPoint(s) == |whole|;
    assert s[..|whole|] == whole && s[|whole| + 1..] == frac;
  }

  lemma MagnitudeWhole(whole: Bytes)
    requires POINT !in whole
    ensures Magnitude(whole) == Scaled(Digits(whole), 0)
  {
    var p := FirstPoint(whole);
    assert p == |whole|;
    assert whole[..p] + [] == whole;
  }

  lemma PowAddReal(a: nat, b: nat)
    ensures Pow10(a + b) as real == Pow10(a) as real * Pow10(b) as real
  {
    PowAdd(a, b);
  }

  lemma DivIs(x: real, a: real, y: real)
    requires a > 0.0 && y * a == x
    ensures x / a == y
  {
  }

  lemma CancelFactor(x: real, a: real, b: real)
    requires a > 0.0 && b > 0.0
    ensures a * b > 0.0 && x / (a * b) * b == x / a
  {
    var r := x / (a * b);
    assert r * (a * b) == x;
    assert r * (a * b) == (r * b) * a;
    DivIs(x, a, r * b);
  }

  /** A number of `scale` decimals, times a power of ten that leaves some of them. */
  lemma ScaleInside(digits: int, scale: nat, k: nat)
    requires k <= scale
    ensures Scaled(digits, scale - k) == TimesPow10(Scaled(digits, scale), k)
  {
    hide Pow10;
    PowAddReal(scale - k, k);
    CancelFactor(digits as real, Pow10(scale - k) as real, Pow10(k) as real);
  }

  lemma Regroup(x: real, a: real, b: real)
    requires a > 0.0
    ensures x / a * (a * b) == x * b
  {
    var r := x / a;
    assert r * a == x;
    assert r * (a * b) == (r * a) * b;
  }

  /** The same, when it leaves none and appends zeros. */
  lemma ScaleBehind(digits: int, scale: nat, k: nat)
    requires k >= scale
    ensures Scaled(digits * Pow10(k - scale), 0) == TimesPow10(Scaled(digits, scale), k)
  {
    PowAddReal(scale, k - scale);
    Regroup(digits as real, Pow10(scale) as real, Pow10(k - scale) as real);
  }

  /** How many places the loop can move the point. */
  function Places(frac: Bytes, d: nat): nat {
    if d <= |frac| + ROOM then d else |frac| + ROOM
  }

  lemma SplitAt(whole: Bytes, frac: Bytes, d: nat)
    requires AllDigits(whole) && AllDigits(frac) && d < |frac|
    ensures whole + Moved(frac, d) == whole + frac[..d] + ([POINT] + frac[d..])
    ensures whole + frac[..d] + frac[d..] == whole + frac && POINT !in whole + frac[..d]
  {
  }

  lemma ValueInside(whole: Bytes, frac: Bytes, d: nat)
    requires AllDigits(whole) && AllDigits(frac) && d < |frac|
    ensures Magnitude(whole + Moved(frac, d)) == TimesPow10(Scaled(Digits(whole + frac), |frac|), d)
  {
    hide Digits, Magnitude, Scaled, TimesPow10;
    hide Moved;
    SplitAt(whole, frac, d);
    MagnitudePointed(whole + frac[..d], frac[d..]);
    ScaleInside(Digits(whole + frac), |frac|, d);
  }

  lemma ValueBehind(whole: Bytes, frac: Bytes, k: nat)
    requires AllDigits(whole) && AllDigits(frac) && k >= |frac|
    ensures var all := whole + frac + Zeros(k - |frac|);
            && Magnitude(all) == TimesPow10(Scaled(Digits(whole + frac), |frac|), k)
            && Magnitude(all + ([POINT] + [])) == TimesPow10(Scaled(Digits(whole + frac), |frac|), k)
  {
    hide Digits, Magnitude, Scaled, TimesPow10;
    var all := whole + frac + Zeros(k - |frac|);
    DigitsZeros(whole + frac, k - |frac|);
    ScaleBehind(Digits(whole + frac), |frac|, k);
    MagnitudeWhole(all);
    MagnitudePointed(all, []);
    assert all + [] == all;
  }

  /** The number the moved text stands for: the mantissa times 10^d, or as many places as there is
      room for. */
  lemma MovedValue(whole: Bytes, frac: Bytes, d: nat)
    requires AllDigits(whole) && AllDigits(frac)
    ensures Magnitude(whole + Moved(frac, d)) == TimesPow10(Scaled(Digits(whole + frac), |frac|), Places(frac, d))
  {
    hide Digits, Magnitude, Scaled, TimesPow10;
    var k := Places(frac, d);
    if d < |frac| {
      ValueInside(whole, frac, d);
    } else {
      ValueBehind(whole, frac, k);
      var all := whole + frac + Zeros(k - |frac|);
      if d <= |frac| + ROOM {
        assert whole + Moved(frac, d) == all;
      } else {
        assert whole + Moved(frac, d) == all + ([POINT] + []);
      }
    }
  }

  lemma {:induction false} PowGrows(k: nat, d: nat)
    requires k < d
    ensures Pow10(k) < Pow10(d)
  {
    if k + 1 < d {
      PowGrows(k, d - 1);
    }
  }

  lemma SameOnlyAtZero(x: real, a: real, c: real)
    requires a < c
    ensures x * a == x * c <==> x == 0.0
  {
    assert x * c - x * a == x * (c - a);
  }

  lemma TimesSame(x: real, k: nat, d: nat)
    requires k <= d
    ensures TimesPow10(x, k) == TimesPow10(x, d) <==> k == d || x == 0.0
  {
    if k < d {
      PowGrows(k, d);
      SameOnlyAtZero(x, Pow10(k) as real, Pow10(d) as real);
    }
  }

  // ----- the theorem

  lemma {:induction false} DigitsCons(c: int, s: Bytes)
    ensures Digits([c] + s) == (c - 48) * Pow10(|s|) + Digits(s)
  {
    if s == [] {
      assert [c] + s == [c] && [c][..0] == [];
    } else {
      DigitsCons(c, s[..|s| - 1]);
      assert ([c] + s)[..|s|] == [c] + s[..|s| - 1];
      assert 10 * ((c - 48) * Pow10(|s| - 1)) == (c - 48) * (10 * Pow10(|s| - 1));
    }
  }

  /** The exponent's digits are read as the number they stand for. */
  lemma {:induction false} LeadingIsDigits(s: Bytes, acc: nat)
    requires AllDigits(s)
    ensures LeadingNumber(s, acc) == acc * Pow10(|s|) + Digits(s)
  {
    if s != [] {
      LeadingIsDigits(s[1..], 10 * acc + (s[0] - 48));
      DigitsCons(s[0], s[1..]);
      assert [s[0]] + s[1..] == s;
      LeadingStep(acc, s[0] - 48, Pow10(|s| - 1));
    }
  }

  lemma LeadingStep(acc: nat, d: int, unit: int)
    ensures (10 * acc + d) * unit == acc * (10 * unit) + d * unit
  {
  }

  /** The exponent starts behind the mantissa, and up to three digits of it are read. */
  lemma CutAtExponent(text: Bytes, sign: int, e: Bytes)
    requires EXPONENT !in text && AllDigits(e)
    ensures var from := text + [EXPONENT, sign] + e; var read := if |e| <= 3 then e else e[..3];
            Rewritten(from) == Shifted(Normal(text), if sign == MINUS then 0 else Digits(read))
  {
    hide LeadingNumber, Normal, Shifted, Digits;
    var from := text + [EXPONENT, sign] + e;
    var read := if |e| <= 3 then e else e[..3];
    assert forall i :: 0 <= i < |text| ==> from[i] == text[i] != EXPONENT;
    assert StartsExponent(from, |text|);
    assert MantissaEnd(from) == |text| && from[..|text|] == text;
    assert from[|text| + 2..if |text| + 5 <= |from| then |text| + 5 else |from|] == read;
    assert from[|text| + 1] == sign;
    LeadingIsDigits(read, 0);
  }

  lemma ShiftedParts(head: Bytes, frac: Bytes, d: nat)
    requires POINT !in frac
    ensures Shifted(head + ([POINT] + frac), d) == head + if d == 0 then [POINT] + frac else Moved(frac, d)
  {
    hide Moved;
    var n := head + ([POINT] + frac);
    assert n[|head|] == POINT && forall i :: |head| < i < |n| ==> n[i] == frac[i - |head| - 1];
    assert PointAt(n) == |head|;
    assert n[..|head|] == head && n[|head| + 1..] == frac;
  }

  lemma NormalText(m: Mantissa)
    requires m.Valid()
    ensures Normal(m.Text()) == m.Sign() + m.whole + if m.pointed then [POINT] + m.frac else []
    ensures EXPONENT !in m.Text() && POINT !in m.frac && POINT !in m.Sign() + m.whole
  {
  }

  lemma RewrittenText(m: Mantissa, sign: int, e: Bytes)
    requires m.Valid() && AllDigits(e) && |e| <= 3
    ensures Rewritten(m.Text() + [EXPONENT, sign] + e)
            == m.Sign() + m.whole + Tail(m, if sign == MINUS then 0 else Digits(e))
  {
    hide Digits, Moved, Normal, Mantissa.Text, Rewritten, Mantissa.Sign;
    NormalText(m);
    CutAtExponent(m.Text(), sign, e);
    var head := m.Sign() + m.whole;
    if m.pointed {
      ShiftedParts(head, m.frac, if sign == MINUS then 0 else Digits(e));
    } else {
      assert head + [] == head;
    }
  }

  /** What follows the whole part once the point has moved. */
  function Tail(m: Mantissa, d: nat): Bytes {
    if !m.pointed then [] else if d == 0 then [POINT] + m.frac else Moved(m.frac, d)
  }

  lemma TailStart(m: Mantissa, d: nat)
    requires m.Valid() && Tail(m, d) != []
    ensures Tail(m, d)[0] != MINUS
  {
  }

  /** The value of the text, for an exponent read as `d`. */
  lemma ShiftedValue(m: Mantissa, d: nat)
    requires m.Valid()
    ensures Value(m.Sign() + m.whole + Tail(m, d)) == TimesPow10(m.Number(), if m.pointed then Places(m.frac, d) else 0)
  {
    hide Tail, Magnitude, Digits, Mantissa.Sign, Scaled, TimesPow10;
    if Tail(m, d) != [] {
      TailStart(m, d);
    }
    SignedValue(m, Tail(m, d));
    TailValue(m, d);
    NegateTimes(Scaled(Digits(m.whole + m.frac), |m.frac|), if m.pointed then Places(m.frac, d) else 0);
  }

  /** A number in scientific notation with an exponent of up to three digits is rewritten to the
      decimal text of mantissa * 10^exponent if and only if it is zero, or the exponent is, or the
      mantissa has a point and the exponent fits the room behind it: a mantissa without a point
      loses its exponent. */
  lemma ShiftIsExact(m: Mantissa, sign: int, e: Bytes)
    requires m.Valid() && sign != MINUS && |e| <= 3 && AllDigits(e)
    ensures Value(Rewritten(m.Text() + [EXPONENT, sign] + e)) == TimesPow10(m.Number(), Digits(e))
            <==> m.Number() == 0.0 || Digits(e) == 0 || (m.pointed && Digits(e) <= |m.frac| + ROOM)
  {
    hide Tail, Value, Digits, Rewritten, Mantissa.Text, Mantissa.Sign, Mantissa.Number, TimesPow10;
    RewrittenText(m, sign, e);
    ShiftedValue(m, Digits(e));
    TimesSame(m.Number(), if m.pointed then Places(m.frac, Digits(e)) else 0, Digits(e));
  }

  /** A negative exponent is dropped: the text stands for the mantissa. */
  lemma NegativeIsDropped(m: Mantissa, e: Bytes)
    requires m.Valid() && |e| <= 3 && AllDigits(e)
    ensures Value(Rewritten(m.Text() + [EXPONENT, MINUS] + e)) == m.Number()
  {
    hide Tail, Value, Digits, Rewritten, Mantissa.Text, Mantissa.Sign, Mantissa.Number;
    RewrittenText(m, MINUS, e);
    ShiftedValue(m, 0);
    assert TimesPow10(m.Number(), 0) == m.Number();
  }

  lemma NegateTimes(x: real, k: nat)
    ensures TimesPow10(-x, k) == -TimesPow10(x, k)
  {
  }

  lemma TailValue(m: Mantissa, d: nat)
    requires m.Valid()
    ensures var k := if !m.pointed then 0 else Places(m.frac, d);
            Magnitude(m.whole + Tail(m, d)) == TimesPow10(Scaled(Digits(m.whole + m.frac), |m.frac|), k)
  {
    hide Moved, Magnitude, Digits, Scaled;
    if m.pointed && d > 0 {
      MovedValue(m.whole, m.frac, d);
    } else if m.pointed {
      MagnitudePointed(m.whole, m.frac);
    } else {
      assert m.whole + [] == m.whole;
      MagnitudeWhole(m.whole);
    }
  }

  lemma SignedValue(m: Mantissa, tail: Bytes)
    requires AllDigits(m.whole) && (tail != [] ==> tail[0] != MINUS)
    ensures Value(m.Sign() + m.whole + tail) == if m.negative then -Magnitude(m.whole + tail)
            else Magnitude(m.whole + tail)
  {
    var s := m.Sign() + m.whole + tail;
    if m.negative {
      assert s[1..] == m.whole + tail;
    } else {
      assert s == m.whole + tail;
    }
  }

  /** Within the room, the result is digits with at most a point among them, never at the end. */
  lemma NoTrailingPoint(frac: Bytes, d: nat)
    requires AllDigits(frac) && 0 < d <= |frac| + ROOM
    ensures var r := Moved(frac, d); r != [] && IsDigit(r[|r| - 1])
    ensures POINT in Moved(frac, d) <==> d < |frac|
  {
    var r := Moved(frac, d);
    if d < |frac| {
      assert r[d] == POINT;
    } else {
      assert forall i :: 0 <= i < |r| ==> IsDigit(r[i]);
    }
  }
}

/** Rounding a decimal string to six significant digits, in place. */
module DecimalRounding {

  function Pow10(k: nat): (p: nat)
    ensures p >= 1
  {
    if k == 0 then 1 else 10 * Pow10(k - 1)
  }

  predicate IsDigit(c: char) { '0' <= c <= '9' }

  function DigitOf(c: char): (d: nat)
    ensures IsDigit(c) ==> d <= 9
  {
    if IsDigit(c) then c as int - '0' as int else 0
  }

  /** The digits read as one number, the dot left out. */
  function Value(s: string): nat
  {
    if s == [] then 0
    else if s[|s| - 1] == '.' then Value(s[..|s| - 1])
    else 10 * Value(s[..|s| - 1]) + DigitOf(s[|s| - 1])
  }

  function DigitCount(s: string): nat
  {
    if s == [] then 0 else DigitCount(s[..|s| - 1]) + (if s[|s| - 1] == '.' then 0 else 1)
  }

  /** Where the dot is, or the length when there is none. */
  function DotPosition(s: string): (d: nat)
    ensures d <= |s| && '.' !in s[..d] && (d < |s| ==> s[d] == '.')
  {
    if s == [] then 0 else if s[0] == '.' then 0 else 1 + DotPosition(s[1..])
  }

  /** How many digits stand after the dot. */
  function Fraction(s: string): nat
  {
    var d := DotPosition(s);
    if d < |s| then |s| - d - 1 else 0
  }

  /** A non-negative decimal number: digits, and at most one dot. */
  predicate Decimal(s: string)
  {
    && (forall i | 0 <= i < |s| :: IsDigit(s[i]) || s[i] == '.')
    && '.' !in s[DotPosition(s) + (if DotPosition(s) < |s| then 1 else 0)..]
  }

  /** The power of ten that six significant digits leave out. */
  function Scale(v: nat): (p: nat)
    ensures p >= 1
  {
    if v < 1_000_000 then 1 else 10 * Scale(v / 10)
  }

  /** v in units of its scale, halves up. */
  function InScale(v: nat): nat { (v + Scale(v) / 2) / Scale(v) }

  /** v rounded to six significant digits, halves up. */
  function RoundToSix(v: nat): nat { InScale(v) * Scale(v) }

  /** Digits and at most one dot. */
  lemma DecimalIff(s: string)
    ensures Decimal(s) <==>
      && (forall i | 0 <= i < |s| :: '0' <= s[i] <= '9' || s[i] == '.')
      && (forall i, j | 0 <= i < j < |s| :: !(s[i] == '.' && s[j] == '.'))
  {
    var d := DotPosition(s);
    if Decimal(s) {
      forall i, j | 0 <= i < j < |s| ensures !(s[i] == '.' && s[j] == '.') {
        if i < d { assert s[..d][i] == s[i]; }
        if i == d { assert s[d + 1..][j - d - 1] == s[j]; }
        if i > d { assert s[d + 1..][i - d - 1] == s[i]; }
      }
    } else if d < |s| && '.' in s[d + 1..] {
      var j :| 0 <= j < |s[d + 1..]| && s[d + 1..][j] == '.';
      assert s[d] == '.' && s[d + 1 + j] == '.';
    }
  }

  /** What a decimal string denotes: digits before the dot and digits after it, as a number over a power of ten. */
  lemma Denotes(whole: string, part: string)
    requires forall i | 0 <= i < |whole| :: '0' <= whole[i] <= '9'
    requires forall i | 0 <= i < |part| :: '0' <= part[i] <= '9'
    ensures Decimal(whole) && Fraction(whole) == 0
    ensures Decimal(whole + "." + part) && Fraction(whole + "." + part) == |part|
    ensures Value(whole + "." + part) == Value(whole + part)
    ensures Value([]) == 0 && Pow10(0) == 1 && Pow10(|part| + 1) == 10 * Pow10(|part|)
  {
    hide Value, Decimal, DotPosition;
    OneDotIsDecimal(whole, |whole|);
    OneDotIsDecimal(whole + "." + part, |whole|);
    DotAdds(whole, part);
    NothingDenotes();
  }

  /** One digit more. */
  lemma DigitAdds(s: string, c: char)
    requires '0' <= c <= '9'
    ensures Value(s + [c]) == 10 * Value(s) + (c as int - '0' as int)
  {
    AppendDigit(s, c);
  }

  lemma NothingDenotes()
    ensures Value([]) == 0
  {}

  lemma DotAdds(whole: string, part: string)
    ensures Value(whole + "." + part) == Value(whole + part)
  {
    hide Value;
    assert whole + "." + part == whole + ("." + part);
    ValueConcat(whole, "." + part);
    ValueConcat(whole, part);
    LeadingDot(part);
  }

  // ---------------------------------------------------------------- values of parts

  lemma {:induction false} ValueConcat(a: string, b: string)
    ensures DigitCount(a + b) == DigitCount(a) + DigitCount(b)
    ensures Value(a + b) == Value(a) * Pow10(DigitCount(b)) + Value(b)
    decreases |b|
  {
    if b == [] {
      assert a + b == a;
    } else {
      var front, c := b[..|b| - 1], b[|b| - 1];
      ValueConcat(a, front);
      assert (a + b)[..|a + b| - 1] == a + front && (a + b)[|a + b| - 1] == c;
      if c != '.' { Times10(Value(a), Pow10(DigitCount(front))); }
    }
  }

  lemma Times10(x: nat, p: nat)
    ensures x * (10 * p) == 10 * (x * p)
  {}

  lemma {:induction false} ValueBelow(s: string)
    ensures Value(s) < Pow10(DigitCount(s))
  {
    if s != [] { ValueBelow(s[..|s| - 1]); }
  }

  lemma {:induction false} NoDotCounts(s: string)
    requires '.' !in s
    ensures DigitCount(s) == |s|
  {
    if s != [] { NoDotCounts(s[..|s| - 1]); }
  }

  lemma {:induction false} ZerosAreZero(s: string)
    requires forall i | 0 <= i < |s| :: s[i] == '0' || s[i] == '.'
    ensures Value(s) == 0
  {
    if s != [] { ZerosAreZero(s[..|s| - 1]); }
  }

  lemma {:induction false} NinesFill(s: string)
    requires forall i | 0 <= i < |s| :: s[i] == '9' || s[i] == '.'
    ensures Value(s) + 1 == Pow10(DigitCount(s))
  {
    if s != [] { NinesFill(s[..|s| - 1]); }
  }

  lemma {:induction false} Pow10Add(a: nat, b: nat)
    ensures Pow10(a + b) == Pow10(a) * Pow10(b)
  {
    if b > 0 {
      Pow10Add(a, b - 1);
      Times10(Pow10(a), Pow10(b - 1));
    }
  }

  // ---------------------------------------------------------------- rounding

  /** Six leading digits a and k more, b: six digits leave out the last k. */
  lemma {:induction false} ScaleOfParts(a: nat, b: nat, k: nat)
    requires 100_000 <= a < 1_000_000 && b < Pow10(k)
    ensures Scale(a * Pow10(k) + b) == Pow10(k)
    decreases k
  {
    if k > 0 {
      var p := Pow10(k - 1);
      Times10(a, p);
      var v := a * Pow10(k) + b;
      assert v == 10 * (a * p) + b;
      assert v / 10 == a * p + b / 10;
      AtLeastMillion(a, p);
      ScaleOfParts(a, b / 10, k - 1);
    }
  }

  lemma AtLeastMillion(a: nat, p: nat)
    requires a >= 100_000 && p >= 1
    ensures 10 * (a * p) >= 1_000_000
  {
    assert a * p >= a * 1;
  }

  /** Rounding goes up exactly when the part left out is at least half. */
  lemma RoundParts(a: nat, b: nat, k: nat)
    requires 100_000 <= a < 1_000_000 && b < Pow10(k)
    ensures RoundToSix(a * Pow10(k) + b) == (if k > 0 && 2 * b >= Pow10(k) then a + 1 else a) * Pow10(k)
  {
    hide Scale, Pow10;
    ScaleOfParts(a, b, k);
    var p := Pow10(k);
    EvenPower(k);
    var q := if k > 0 && 2 * b >= p then a + 1 else a;
    Larger(a, q, p);
    QuotientIs(a * p + b + p / 2, q, p);
  }

  lemma EvenPower(k: nat)
    ensures if k == 0 then Pow10(k) == 1 else Pow10(k) / 2 * 2 == Pow10(k)
  {
    if k > 0 { Halving(5 * Pow10(k - 1)); }
  }

  lemma Halving(h: nat)
    ensures 2 * h / 2 == h
  {}

  lemma QuotientIs(x: nat, q: nat, p: nat)
    requires p > 0 && q * p <= x < q * p + p
    ensures x / p == q
  {
    var r := x / p;
    assert x == r * p + x % p;
    if r > q { Larger(q + 1, r, p); }
    if r < q { Larger(r + 1, q, p); }
  }

  lemma Larger(a: nat, b: nat, p: nat)
    requires a <= b
    ensures a * p <= b * p && (a - 1) * p == a * p - p
  {}

  /** The rounded number has at most six significant digits. */
  lemma RoundToSixFits(v: nat)
    ensures RoundToSix(v) == InScale(v) * Scale(v) && InScale(v) <= 1_000_000
  {
    hide Scale;
    ScaleFits(v);
    Remainder(v + Scale(v) / 2, Scale(v));
    AtMostMillion(v, Scale(v), InScale(v));
  }

  /** It is the nearest such number, the upper one of two. */
  lemma RoundToSixIsNearest(v: nat)
    ensures v < 1_000_000 ==> RoundToSix(v) == v
    ensures v >= 1_000_000 ==> 2 * v - Scale(v) < 2 * RoundToSix(v) <= 2 * v + Scale(v)
  {
    hide Scale;
    ScaleFits(v);
    Remainder(v + Scale(v) / 2, Scale(v));
  }

  /**
   A number of 6 + k digits goes to a multiple of 10^k, not further than half of that away,
   and upwards from the middle.
   */
  lemma SixDigitsAreKept(v: nat, k: nat)
    requires 100_000 * Pow10(k) <= v < 1_000_000 * Pow10(k)
    ensures RoundToSix(v) % Pow10(k) == 0
    ensures 2 * v - Pow10(k) < 2 * RoundToSix(v) <= 2 * v + Pow10(k)
  {
    hide Pow10, RoundToSix;
    var p := Pow10(k);
    var a, b := v / p, v % p;
    SixDigitPart(v, a, b, p);
    RoundParts(a, b, k);
    EvenPower(k);
    var q := if k > 0 && 2 * b >= p then a + 1 else a;
    MultipleOf(q, p);
    Times1More(a, p);
    HalfAway(a * p, b, p, k > 0, q * p);
  }

  lemma HalfAway(x: nat, b: nat, p: nat, scaled: bool, r: nat)
    requires b < p && (if scaled then p % 2 == 0 else p == 1)
    requires r == if scaled && 2 * b >= p then x + p else x
    ensures 2 * (x + b) - p < 2 * r <= 2 * (x + b) + p
  {}

  lemma Times1More(a: nat, p: nat)
    ensures (a + 1) * p == a * p + p
  {}

  lemma SixDigitPart(v: nat, a: nat, b: nat, p: nat)
    requires p > 0 && a == v / p && b == v % p && 100_000 * p <= v < 1_000_000 * p
    ensures v == a * p + b && b < p && 100_000 <= a < 1_000_000
  {
    assert v == v / p * p + v % p;
    if a < 100_000 { Larger(a, 99_999, p); }
    if a > 999_999 { Larger(1_000_000, a, p); }
  }

  lemma MultipleOf(q: nat, p: nat)
    requires p > 0
    ensures q * p % p == 0
  {
    var r := q * p % p;
    assert q * p == q * p / p * p + r;
    QuotientIs(q * p, q, p);
  }

  lemma Remainder(x: nat, p: nat)
    requires p > 0
    ensures x - p < x / p * p <= x
  {
    assert x == x / p * p + x % p;
  }

  lemma AtMostMillion(v: nat, p: nat, q: nat)
    requires v < 1_000_000 * p && q * p <= v + p / 2
    ensures q <= 1_000_000
  {
    if q > 1_000_000 { Larger(1_000_001, q, p); }
  }

  lemma {:induction false} ScaleFits(v: nat)
    ensures v < 1_000_000 * Scale(v)
    ensures v < 1_000_000 ==> Scale(v) == 1
    ensures v >= 1_000_000 ==> Scale(v) % 10 == 0
  {
    if v >= 1_000_000 { ScaleFits(v / 10); }
  }

  /** Half of the part left out: its first digit decides. */
  lemma FirstDigitDecides(c: char, rest: string)
    requires IsDigit(c)
    ensures 2 * Value([c] + rest) >= Pow10(DigitCount([c] + rest)) <==> c >= '5'
  {
    ValueConcat([c], rest);
    ValueBelow(rest);
    var p := Pow10(DigitCount(rest));
    assert [c][..0] == [];
    assert Value([c]) == DigitOf(c) && DigitCount([c]) == 1;
    assert Pow10(DigitCount([c] + rest)) == 10 * p;
    var d := DigitOf(c);
    if d >= 5 { Larger(5, d, p); } else { Larger(d, 4, p); }
  }

  // ---------------------------------------------------------------- where the dot is

  /** The dot, if any, is at position dp; everything else is a digit. */
  ghost predicate DotAt(s: string, dp: nat)
  {
    forall j | 0 <= j < |s| :: if j == dp then s[j] == '.' else IsDigit(s[j])
  }

  lemma DecimalHasOneDot(s: string)
    requires Decimal(s)
    ensures DotAt(s, DotPosition(s))
  {
    var d := DotPosition(s);
    forall j | 0 <= j < |s| ensures if j == d then s[j] == '.' else IsDigit(s[j]) {
      if j < d { assert s[..d][j] == s[j]; }
      if j > d { assert s[d + 1..][j - d - 1] == s[j]; }
    }
  }

  lemma OneDotIsDecimal(s: string, dp: nat)
    requires dp <= |s| && DotAt(s, dp)
    ensures Decimal(s) && DotPosition(s) == dp
  {
    FirstDot(s, dp);
  }

  lemma {:induction false} FirstDot(s: string, dp: nat)
    requires dp <= |s| && DotAt(s, dp)
    ensures DotPosition(s) == dp
  {
    if dp > 0 { FirstDot(s[1..], dp - 1); }
  }

  /** Digits in a stretch: its length, less one if the dot is in it. */
  lemma CountBetween(s: string, dp: nat, from: nat, to: nat)
    requires from <= to <= |s| && DotAt(s, dp)
    ensures DigitCount(s[from..to]) == to - from - (if from <= dp < to then 1 else 0)
  {
    if from <= dp < to {
      assert s[from..to] == s[from..dp] + ['.'] + s[dp + 1..to];
      NoDotCounts(s[from..dp]);
      NoDotCounts(s[dp + 1..to]);
      assert ['.'][..0] == [];
      assert DigitCount(['.']) == 0;
      ValueConcat(s[from..dp] + ['.'], s[dp + 1..to]);
      ValueConcat(s[from..dp], ['.']);
    } else {
      NoDotCounts(s[from..to]);
    }
  }

  // ---------------------------------------------------------------- the first six digits

  /** Reading stops after six significant digits, or at the end. */
  method SixDigits(n: string) returns (i: nat, dotPos: nat)
    requires Decimal(n)
    ensures i <= |n| && dotPos == DotPosition(n)
    ensures i < |n| ==> 100_000 <= Value(n[..i]) < 1_000_000 && 0 < i && n[i - 1] != '.'
    ensures i == |n| ==> Value(n) < 1_000_000
  {
    hide Value, Decimal, DotPosition, Significant;
    DecimalHasOneDot(n);
    NothingRead(n[..0]);
    var digitCnt := 0;
    i, dotPos := 0, |n|;
    var leadingZero := true;
    while digitCnt < 6 && i < |n|
      invariant 0 <= i <= |n| && 0 <= digitCnt <= 6 && (leadingZero <==> digitCnt == 0)
      invariant dotPos == if DotPosition(n) < i then DotPosition(n) else |n|
      invariant Significant(Value(n[..i]), digitCnt)
      invariant digitCnt == 6 ==> 0 < i && n[i - 1] != '.'
    {
      OneMoreCharacter(n, i, digitCnt);
      if n[i] == '0' {
        if !leadingZero { digitCnt := digitCnt + 1; }
      } else if IsDigit(n[i]) {
        digitCnt := digitCnt + 1;
        leadingZero := false;
      } else if n[i] == '.' {
        dotPos := i;
      }
      i := i + 1;
    }
    SixOrFewer(digitCnt, Value(n[..i]));
    assert n[..|n|] == n;
    if dotPos == |n| {
      var j := i;
      while j < |n|
        invariant i <= j <= |n| && dotPos == |n|
        invariant DotPosition(n) < |n| ==> j <= DotPosition(n)
      {
        if n[j] == '.' {
          dotPos := j;
          break;
        }
        j := j + 1;
      }
    }
  }

  /** v has c digits, the first of them not zero. */
  ghost predicate Significant(v: nat, c: nat)
  {
    if c == 0 then v == 0 else Pow10(c - 1) <= v < Pow10(c)
  }

  lemma NothingRead(none: string)
    requires none == []
    ensures Significant(Value(none), 0)
  {}

  lemma OneMoreCharacter(n: string, i: nat, c: nat)
    requires i < |n| && (IsDigit(n[i]) || n[i] == '.') && Significant(Value(n[..i]), c)
    ensures Significant(Value(n[..i + 1]), if n[i] == '.' || (c == 0 && n[i] == '0') then c else c + 1)
  {
    assert n[..i + 1][..i] == n[..i] && n[..i + 1][i] == n[i];
  }

  lemma SixOrFewer(c: nat, v: nat)
    requires c <= 6 && Significant(v, c)
    ensures v < 1_000_000 && (c == 6 ==> v >= 100_000)
  {
    assert Pow10(5) == 100_000;
    if c < 6 { Pow10Add(c, 5 - c); Larger(1, Pow10(5 - c), Pow10(c)); }
  }

  // ---------------------------------------------------------------- the carry

  /** What is left of the first i characters once a carry has been added to them. */
  ghost predicate CarriedInto(n: string, i: nat, dp: nat, m: string, end: nat, carry: bool)
  {
    && i <= |n| == |m| && end <= i && (if i <= dp then end == i else dp <= end)
    && DotAt(m[..end], dp) && (carry ==> end <= dp)
    && Kept(m[..end], carry) * Pow10(DigitCount(n[end..i])) == Value(n[..i]) + 1
  }

  /** The value of the digits kept, with the one that a carry puts in front. */
  ghost function Kept(s: string, carry: bool): nat
  {
    Value(s) + if carry then Pow10(DigitCount(s)) else 0
  }

  /** Adds one to the last of the first i characters and carries it to the front; nines after the dot are dropped. */
  method CarryNines(n: string, i: nat, dotPos: nat) returns (m: string, end: nat, carry: bool)
    requires DotAt(n, dotPos) && 0 < i <= |n| && n[i - 1] != '.'
    ensures CarriedInto(n, i, dotPos, m, end, carry)
  {
    hide CarriedInto;
    m, end, carry := n, i, true;
    var e := i - 1;
    while carry && e >= 0
      invariant -1 <= e < i && |m| == |n|
      invariant carry ==> UpTo(n, i, dotPos, m, end, e)
      invariant !carry ==> CarriedInto(n, i, dotPos, m, end, false)
    {
      if m[e] == '.' {
        if end == e + 1 { end := end - 1; }
      } else if m[e] == '9' {
        if e > dotPos { end := end - 1; } else { m := m[e := '0']; }
      } else {
        CarryStops(n, i, dotPos, m, end, e);
        m := m[e := (m[e] as int + 1) as char];
        carry := false;
      }
      e := e - 1;
    }
    if carry { CarryLeaves(n, i, dotPos, m, end); }
  }

  /** The carry has come down to position e: only nines behind it, now zeros or dropped. */
  ghost predicate UpTo(n: string, i: nat, dp: nat, m: string, end: nat, e: int)
  {
    && 0 < i <= |n| == |m| && -1 <= e < i && DotAt(n, dp) && n[i - 1] != '.'
    && m[..e + 1] == n[..e + 1]
    && end == (if e >= dp then e + 1 else if i <= dp then i else dp)
    && (forall j | e < j < end :: m[j] == '0')
    && (forall j | e < j < i :: n[j] == '9' || n[j] == '.')
  }

  lemma CarryStops(n: string, i: nat, dp: nat, m: string, end: nat, e: nat)
    requires UpTo(n, i, dp, m, end, e) && m[e] != '9' && m[e] != '.'
    ensures IsDigit(m[e])
    ensures CarriedInto(n, i, dp, m[e := (m[e] as int + 1) as char], end, false)
  {
    hide Value, DigitCount, Pow10;
    assert m[e] == m[..e + 1][e] == n[e];
    var c := (m[e] as int + 1) as char;
    var r := m[e := c];
    var zeros := m[e + 1..end];
    assert r[..end] == n[..e] + [c] + zeros;
    assert n[..i] == n[..e] + [n[e]] + n[e + 1..i];
    AppendDigit(n[..e], c);
    AppendDigit(n[..e], n[e]);
    ZerosAreZero(zeros);
    NoDotCounts(zeros);
    NinesFill(n[e + 1..i]);
    ValueConcat(n[..e] + [c], zeros);
    ValueConcat(n[..e] + [n[e]], n[e + 1..i]);
    CountBetween(n, dp, e + 1, i);
    CountBetween(n, dp, end, i);
    StopValue(Value(n[..e] + [n[e]]), |zeros|, DigitCount(n[end..i]));
  }

  lemma AppendDigit(s: string, c: char)
    requires c != '.'
    ensures Value(s + [c]) == 10 * Value(s) + DigitOf(c) && DigitCount(s + [c]) == DigitCount(s) + 1
  {
    assert (s + [c])[..|s|] == s;
  }

  lemma StopValue(v: nat, z: nat, d: nat)
    ensures (v + 1) * Pow10(z) * Pow10(d) == v * Pow10(z + d) + Pow10(z + d)
  {
    Pow10Add(z, d);
    assert (v + 1) * (Pow10(z) * Pow10(d)) == (v + 1) * Pow10(z) * Pow10(d);
  }

  lemma CarryLeaves(n: string, i: nat, dp: nat, m: string, end: nat)
    requires UpTo(n, i, dp, m, end, -1)
    ensures CarriedInto(n, i, dp, m, end, true)
  {
    ZerosAreZero(m[..end]);
    NoDotCounts(m[..end]);
    NinesFill(n[..i]);
    CountBetween(n, dp, 0, i);
    CountBetween(n, dp, end, i);
    assert n[0..i] == n[..i];
    Pow10Add(end, DigitCount(n[end..i]));
  }

  // ---------------------------------------------------------------- the result

  /** Whether the character after the six digits, or the one after a dot there, asks for rounding up. */
  predicate RoundsUp(n: string, i: nat)
    requires i <= |n|
  {
    (i < |n| && n[i] >= '5') || (i + 1 < |n| && n[i] == '.' && n[i + 1] >= '5')
  }

  /** That character decides as the whole part left out would. */
  lemma RoundsUpIsHalf(n: string, i: nat, dp: nat)
    requires i <= |n| && DotAt(n, dp)
    ensures var k := DigitCount(n[i..]);
      RoundsUp(n, i) <==> k > 0 && 2 * Value(n[i..]) >= Pow10(k)
  {
    hide Pow10, Value, DigitCount;
    var q := n[i..];
    NoDigits();
    if q != [] {
      if i == dp {
        var rest := q[1..];
        assert q == ['.'] + rest;
        LeadingDot(rest);
        if rest != [] {
          assert rest == [rest[0]] + rest[1..] && rest[0] == n[i + 1];
          FirstDigitDecides(rest[0], rest[1..]);
          HasDigits(rest[0], rest[1..]);
        }
      } else {
        assert q == [q[0]] + q[1..] && q[0] == n[i];
        FirstDigitDecides(q[0], q[1..]);
        HasDigits(q[0], q[1..]);
      }
    }
  }

  lemma NoDigits()
    ensures DigitCount([]) == 0
  {}

  lemma LeadingDot(s: string)
    ensures Value(['.'] + s) == Value(s) && DigitCount(['.'] + s) == DigitCount(s)
    ensures s == [] ==> DigitCount(s) == 0
  {
    ValueConcat(['.'], s);
    assert ['.'][..0] == [];
    assert Value(['.']) == 0 && DigitCount(['.']) == 0;
  }

  lemma HasDigits(c: char, rest: string)
    requires c != '.'
    ensures DigitCount([c] + rest) > 0
  {
    ValueConcat([c], rest);
    assert [c][..0] == [];
  }

  /** n, cut to the first i characters and rounded by them, kept up to end; what that is worth. */
  ghost predicate Rounded(n: string, i: nat, dp: nat, m: string, end: nat, carry: bool)
  {
    && i <= |n| == |m| && end <= i && (if i <= dp then end == i else dp <= end)
    && DotAt(m[..end], dp) && (carry ==> end <= dp)
    && Kept(m[..end], carry) * Pow10(DigitCount(n[end..])) == RoundToSix(Value(n))
  }

  lemma RoundedUp(n: string, i: nat, dp: nat, m: string, end: nat, carry: bool)
    requires DotAt(n, dp) && CarriedInto(n, i, dp, m, end, carry) && RoundsUp(n, i)
    requires 100_000 <= Value(n[..i]) < 1_000_000
    ensures Rounded(n, i, dp, m, end, carry)
  {
    hide Pow10, Value, DigitCount, RoundToSix, Kept;
    RoundsUpIsHalf(n, i, dp);
    SplitValue(n, i);
    RoundParts(Value(n[..i]), Value(n[i..]), DigitCount(n[i..]));
    assert n[end..] == n[end..i] + n[i..];
    ValueConcat(n[end..i], n[i..]);
    Pow10Add(DigitCount(n[end..i]), DigitCount(n[i..]));
    Regroup(Kept(m[..end], carry), Pow10(DigitCount(n[end..i])), Pow10(DigitCount(n[i..])));
  }

  lemma Regroup(x: nat, p: nat, q: nat)
    ensures x * (p * q) == x * p * q
  {}

  lemma SplitValue(n: string, i: nat)
    requires i <= |n|
    ensures Value(n) == Value(n[..i]) * Pow10(DigitCount(n[i..])) + Value(n[i..])
    ensures Value(n[i..]) < Pow10(DigitCount(n[i..]))
  {
    assert n == n[..i] + n[i..];
    ValueConcat(n[..i], n[i..]);
    ValueBelow(n[i..]);
  }

  lemma NotRoundedUp(n: string, i: nat, dp: nat)
    requires DotAt(n, dp) && i <= |n| && !RoundsUp(n, i)
    requires i < |n| ==> 100_000 <= Value(n[..i]) < 1_000_000 && 0 < i && n[i - 1] != '.'
    requires i == |n| ==> Value(n) < 1_000_000
    ensures Rounded(n, i, dp, n, i, false)
  {
    if i < |n| {
      RoundsUpIsHalf(n, i, dp);
      SplitValue(n, i);
      RoundParts(Value(n[..i]), Value(n[i..]), DigitCount(n[i..]));
    } else {
      assert n[..i] == n && n[i..] == [];
      assert Value(n) * 1 == Value(n);
    }
  }

  /** represent_float */
  method RepresentFloat(number: string) returns (r: string)
    requires Decimal(number)
    ensures Decimal(r) && Fraction(r) <= Fraction(number)
    ensures Value(r) * Pow10(Fraction(number) - Fraction(r)) == RoundToSix(Value(number))
  {
    hide Rounded, CarriedInto, RoundToSix, Value, Pow10, Decimal;
    DecimalHasOneDot(number);
    var n := number;
    var i, dotPos := SixDigits(n);
    var end, carry := i, false;
    if RoundsUp(n, i) {
      n, end, carry := CarryNines(number, i, dotPos);
      RoundedUp(number, i, dotPos, n, end, carry);
    } else {
      NotRoundedUp(number, i, dotPos);
    }
    if end > dotPos {
      FractionKept(number, i, dotPos, n, end, carry);
      n := n[..end];
    } else {
      ghost var kept := n;
      RoundedLengths(number, i, dotPos, n, end, carry);
      var t := end;
      while t < dotPos
        invariant end <= t <= dotPos && |n| == |kept| && n[..end] == kept[..end]
        invariant forall j | end <= j < t :: n[j] == '0'
      {
        n := n[t := '0'];
        t := t + 1;
      }
      n := n[..dotPos];
      FilledUp(number, i, dotPos, kept, end, carry, n);
    }
    r := if carry then "1" + n else n;
  }

  lemma RoundedLengths(n: string, i: nat, dp: nat, m: string, end: nat, carry: bool)
    requires Rounded(n, i, dp, m, end, carry)
    ensures |m| == |n| && end <= |n|
  {}

  /** The result ends after the dot: the digits dropped are the difference of the fractions. */
  lemma FractionKept(n: string, i: nat, dp: nat, m: string, end: nat, carry: bool)
    requires DotAt(n, dp) && Decimal(n) && dp == DotPosition(n) && Rounded(n, i, dp, m, end, carry) && end > dp
    ensures !carry && end <= |m| && Decimal(m[..end]) && Fraction(m[..end]) <= Fraction(n)
    ensures Value(m[..end]) * Pow10(Fraction(n) - Fraction(m[..end])) == RoundToSix(Value(n))
  {
    hide Value, Pow10, RoundToSix, DigitCount, Decimal, DotPosition;
    OneDotIsDecimal(m[..end], dp);
    CountBetween(n, dp, end, |n|);
    assert n[end..|n|] == n[end..];
  }

  /** The result is whole: zeros up to the dot stand for the digits dropped before it. */
  lemma FilledUp(n: string, i: nat, dp: nat, m: string, end: nat, carry: bool, r: string)
    requires DotAt(n, dp) && Decimal(n) && dp == DotPosition(n) && Rounded(n, i, dp, m, end, carry) && end <= dp
    requires |r| == dp && r[..end] == m[..end] && forall j | end <= j < dp :: r[j] == '0'
    ensures var result := if carry then "1" + r else r;
      && Decimal(result) && Fraction(result) == 0
      && Value(result) * Pow10(Fraction(n)) == RoundToSix(Value(n))
  {
    hide Value, Pow10, RoundToSix, DigitCount, Decimal, DotPosition, Kept;
    var zeros := r[end..];
    assert r == m[..end] + zeros;
    KeptAndZeros(m[..end], zeros, carry);
    var result := if carry then "1" + r else r;
    OneDotIsDecimal(result, |result|);
    CountBetween(n, dp, end, |n|);
    assert n[end..|n|] == n[end..];
    Pow10Add(|zeros|, Fraction(n));
    Regroup(Kept(m[..end], carry), Pow10(|zeros|), Pow10(Fraction(n)));
  }

  /** Zeros behind the digits kept, and perhaps a one in front of them. */
  lemma KeptAndZeros(s: string, zeros: string, carry: bool)
    requires '.' !in s && forall j | 0 <= j < |zeros| :: zeros[j] == '0'
    ensures Value(if carry then "1" + (s + zeros) else s + zeros) == Kept(s, carry) * Pow10(|zeros|)
  {
    hide Value, Pow10, DigitCount;
    ZerosAreZero(zeros);
    NoDotCounts(zeros);
    NoDotCounts(s);
    NoDotCounts(s + zeros);
    ValueConcat(s, zeros);
    LeadingOne(s + zeros);
    Pow10Add(|s|, |zeros|);
    SumTimes(Value(s), Pow10(|s|), Pow10(|zeros|));
  }

  lemma SumTimes(a: nat, b: nat, p: nat)
    ensures (a + b) * p == a * p + b * p
  {}

  lemma LeadingOne(r: string)
    ensures Value("1" + r) == Pow10(DigitCount(r)) + Value(r)
  {
    ValueConcat("1", r);
    assert "1"[..0] == [];
    assert Value("1") == 1;
  }
}

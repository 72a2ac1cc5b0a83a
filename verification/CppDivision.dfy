/**
 Integer division as C++ does it, and the alignment of a time to a multiple of a duration.
 */
module CppDivision {
  import opened Numbers

  /** Division that truncates towards zero. */
  function TDiv(a: int, d: Pos): int {
    if a >= 0 then a / d else -((-a) / d)
  }

  function TMod(a: int, d: Pos): int {
    a - TDiv(a, d) * d
  }

  /** The number of whole durations up to `x`, rounded up, and how much `x` falls short of that. */
  function Ceil(x: int, d: Pos): int {
    -((-x) / d)
  }

  function Short(x: int, d: Pos): int {
    (-x) % d
  }

  lemma {:induction false} CeilSpec(x: int, d: Pos)
    ensures x == Ceil(x, d) * d - Short(x, d) && 0 <= Short(x, d) < d
  {
  }

  lemma {:induction false} Gap(a: int, b: int, d: Pos)
    requires a > b
    ensures a * d >= b * d + d
  {
    assert a * d == b * d + (a - b) * d;
    assert (a - b) * d == d + (a - b - 1) * d;
  }

  lemma {:induction false} CeilUnique(x: int, c: int, r: int, d: Pos)
    requires x == c * d - r && 0 <= r < d
    ensures Ceil(x, d) == c && Short(x, d) == r
  {
    CeilSpec(x, d);
    if Ceil(x, d) > c {
      Gap(Ceil(x, d), c, d);
    } else if Ceil(x, d) < c {
      Gap(c, Ceil(x, d), d);
    }
  }

  lemma {:induction false} FloorUnique(x: int, c: int, r: int, d: Pos)
    requires x == c * d + r && 0 <= r < d
    ensures x / d == c && x % d == r
  {
    if x / d > c {
      Gap(x / d, c, d);
    } else if x / d < c {
      Gap(c, x / d, d);
    }
  }

  /** A quotient that comes out even is exact in both directions; otherwise it is cut towards zero. */
  lemma {:induction false} TDivCut(c: int, r: int, d: Pos)
    requires 0 <= r < d
    ensures TDiv(c * d - r, d) == if r == 0 || c <= 0 then c else c - 1
  {
    if c <= 0 {
      NotPositive(c, d);
      FloorUnique(-(c * d - r), -c, r, d);
      if c * d - r == 0 {
        FloorUnique(0, 0, 0, d);
      }
    } else if r == 0 {
      Gap(c, 0, d);
      FloorUnique(c * d, c, 0, d);
    } else {
      Gap(c, 0, d);
      FloorUnique(c * d - r, c - 1, d - r, d);
    }
  }

  lemma {:induction false} NotPositive(c: int, d: Pos)
    requires c <= 0
    ensures c * d <= 0 && (c * d == 0 ==> c == 0)
  {
    if c < 0 {
      Gap(0, c, d);
    }
  }

  /** Where a positional file starts to read: the next multiple of the duration, or so it is meant. */
  function AlignUp(t: int, d: Pos): int {
    if TMod(t, d) != 0 then (TDiv(t, d) + 1) * d else t
  }

  /** For times before zero that are not multiples the alignment goes one duration too far. */
  lemma {:induction false} AlignExact(t: int, d: Pos)
    ensures AlignUp(t, d) == if t >= 0 || Short(t, d) == 0 then Ceil(t, d) * d else (Ceil(t, d) + 1) * d
  {
    var c, r := Ceil(t, d), Short(t, d);
    CeilSpec(t, d);
    TDivCut(c, r, d);
    assert (c - 1) * d == c * d - d;
    if t >= 0 && c <= 0 {
      NotPositive(c, d);
    }
    if t < 0 && c > 0 {
      Gap(c, 0, d);
    }
  }

  /** Comparing with a multiple is comparing the rounded-up quotient. */
  lemma {:induction false} CeilCompare(x: int, c: int, d: Pos)
    ensures x <= c * d <==> Ceil(x, d) <= c
    ensures x < c * d <==> Ceil(x, d) < c || (Ceil(x, d) == c && Short(x, d) > 0)
  {
    CeilSpec(x, d);
    if Ceil(x, d) > c {
      Gap(Ceil(x, d), c, d);
    } else if Ceil(x, d) < c {
      Gap(c, Ceil(x, d), d);
    }
  }

  lemma {:induction false} ShortIsRemainder(x: int, d: Pos)
    ensures Short(x, d) == 0 <==> x % d == 0
  {
    CeilSpec(x, d);
    if Short(x, d) == 0 {
      FloorUnique(x, Ceil(x, d), 0, d);
    }
    if x % d == 0 {
      CeilUnique(x, x / d, 0, d);
    }
  }

  lemma {:induction false} TModZero(a: int, d: Pos)
    requires TMod(a, d) == 0
    ensures a == TDiv(a, d) * d
  {
  }

  lemma {:induction false} TDivExact(c: int, d: Pos)
    ensures TDiv(c * d, d) == c && TMod(c * d, d) == 0
  {
    TDivCut(c, 0, d);
  }

  lemma {:induction false} ZeroIsAligned(d: Pos)
    ensures TDiv(0, d) == 0 && AlignUp(0, d) == 0
  {
    FloorUnique(0, 0, 0, d);
  }
}

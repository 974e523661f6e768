/** Percentages as the services report them: `Math.round(100 * part / whole)`,
    computed exactly on integers. `Math.round` rounds halves upwards. */
module Percent {

  /** The whole percentage nearest to 100 * part / whole, halves rounded up:
      `r - 1/2 <= 100 * part / whole < r + 1/2`. */
  function RoundedPercent(part: nat, whole: nat): (r: nat)
    requires whole > 0
    ensures r * (2 * whole) <= 200 * part + whole < (r + 1) * (2 * whole)
    ensures part <= whole ==> r <= 100
  {
    var r := (200 * part + whole) / (2 * whole);
    DivisionBounds(200 * part + whole, 2 * whole);
    if part <= whole then AtMostHundred(part, whole, r); r else r
  }

  /** Euclidean division brackets the dividend between two multiples. */
  lemma DivisionBounds(a: nat, b: nat)
    requires b > 0
    ensures (a / b) * b <= a < (a / b + 1) * b
  {
  }

  lemma AtMostHundred(part: nat, whole: nat, r: nat)
    requires 0 < whole && part <= whole
    requires r * (2 * whole) <= 200 * part + whole
    ensures r <= 100
  {
    if r > 100 {
      MulLeft(101, r, 2 * whole);
    }
  }

  /** The progress percentage used by the course and overview reports: 0 for
      an empty course instead of a division by zero. */
  function ProgressPercentage(completed: nat, total: nat): (r: nat)
    ensures total == 0 ==> r == 0
    ensures completed <= total ==> r <= 100
    ensures completed == 0 ==> r == 0
    ensures 0 < total == completed ==> r == 100
    ensures total > 0 ==> r == RoundedPercent(completed, total)
  {
    if total > 0 then
      var r := RoundedPercent(completed, total);
      assert completed == 0 ==> r == 0 by {
        if completed == 0 && r > 0 {
          MulLeft(1, r, 2 * total);
        }
      }
      assert completed == total ==> r == 100 by {
        if completed == total && r < 100 {
          MulLeft(r + 1, 100, 2 * total);
        }
      }
      r
    else
      0
  }

  lemma MulLeft(a: nat, b: nat, c: nat)
    requires a <= b
    ensures a * c <= b * c
  {
  }

  /** Rounding is monotone: more correct answers never give a lower percentage. */
  lemma {:induction false} RoundedPercentMonotone(a: nat, b: nat, whole: nat)
    requires whole > 0 && a <= b
    ensures RoundedPercent(a, whole) <= RoundedPercent(b, whole)
  {
    var ra, rb := RoundedPercent(a, whole), RoundedPercent(b, whole);
    if ra > rb {
      MulLeft(rb + 1, ra, 2 * whole);
    }
  }

  /** 3 of 4 lessons done reads as 75 percent; an empty course reads as 0. */
  lemma ThreeOfFourIsSeventyFive()
    ensures ProgressPercentage(3, 4) == 75
    ensures ProgressPercentage(0, 0) == 0
  {
  }

  /** Halves round up: 1 of 8 is 12.5 percent, reported as 13. */
  lemma HalfRoundsUp()
    ensures RoundedPercent(1, 8) == 13
    ensures RoundedPercent(1, 3) == 33
    ensures RoundedPercent(2, 3) == 67
  {
  }
}

/**
 The arrow-key arithmetic of the combobox: the keyboard-highlighted row
 moves one step down or up through whichever list is displayed, wrapping
 around at both ends.
 */
module Navigation {

  /** A JavaScript number, as far as the index arithmetic produces one:
      an integer, or NaN. */
  datatype Number = Finite(v: int) | NaN

  const ArrowDown: string := "ArrowDown"
  const ArrowUp: string := "ArrowUp"

  predicate IsArrow(key: string) {
    key == ArrowDown || key == ArrowUp
  }

  /** JavaScript's `%` on a non-negative divisor: the remainder truncates
      toward zero, so it takes the sign of the dividend, and `x % 0` is NaN. */
  function JsRemainder(a: int, n: nat): (r: Number)
    ensures r.NaN? <==> n == 0
    ensures r.Finite? ==> -(n as int) < r.v < n && (a - r.v) % n == 0
    ensures r.Finite? && a >= 0 ==> r.v >= 0
    ensures r.Finite? && a <= 0 ==> r.v <= 0
  {
    if n == 0 then NaN
    else if a >= 0 then
      MultipleModZero(a / n, n);
      Finite(a % n)
    else
      var m := (-a) % n;
      var q := (-a) / n;
      assert a + m == n * -q;
      MultipleModZero(-q, n);
      Finite(-m)
  }

  /** A multiple of `n` leaves no remainder. */
  lemma MultipleModZero(k: int, n: nat)
    requires n > 0
    ensures (n * k) % n == 0
  {
    var q := (n * k) / n;
    var r := (n * k) % n;
    assert n * k == n * q + r;
    assert r == n * (k - q);
    if k - q >= 1 {
      assert false;
    } else if k - q <= -1 {
      assert false;
    }
  }

  /** The new `focusedIndex` of `handleKeyDown` as the code computes it, for
      a displayed list of length `n`: one step down or up with wraparound,
      NaN when the displayed list is empty, and 0 for any other key. */
  function NextIndexAsWritten(key: string, focusedIndex: int, n: nat): (r: Number)
    ensures !IsArrow(key) ==> r == Finite(0)
    ensures IsArrow(key) ==> (r.NaN? <==> n == 0)
    ensures IsArrow(key) && n > 0 && focusedIndex >= -1 ==> 0 <= r.v < n
  {
    if key == ArrowDown then JsRemainder(focusedIndex + 1, n)
    else if key == ArrowUp then JsRemainder(focusedIndex + n - 1, n)
    else Finite(0)
  }

  /** The corrected `handleKeyDown` arithmetic: the same as the code on a
      non-empty displayed list, and no move at all on an empty one. */
  function NextIndex(key: string, focusedIndex: int, n: nat): (r: int)
    ensures !IsArrow(key) ==> r == 0
    ensures IsArrow(key) && n == 0 ==> r == focusedIndex
    ensures IsArrow(key) && n > 0 && focusedIndex >= -1 ==> 0 <= r < n
    ensures n > 0 ==> NextIndexAsWritten(key, focusedIndex, n) == Finite(r)
  {
    if IsArrow(key) && n == 0 then focusedIndex
    else NextIndexAsWritten(key, focusedIndex, n).v
  }

  /** Arrow-down from any row or from "nothing highlighted" lands on the
      next row, Euclidean-modulo `n`; from the last row it wraps to 0. */
  lemma ArrowDownWraps(focusedIndex: int, n: nat)
    requires n > 0 && -1 <= focusedIndex < n
    ensures NextIndex(ArrowDown, focusedIndex, n) == (focusedIndex + 1) % n
    ensures focusedIndex == n - 1 ==> NextIndex(ArrowDown, focusedIndex, n) == 0
    ensures focusedIndex < n - 1 ==> NextIndex(ArrowDown, focusedIndex, n) == focusedIndex + 1
  {
  }

  /** Arrow-up from any row lands on the previous row; from row 0 it wraps
      to the last row. */
  lemma ArrowUpWraps(focusedIndex: int, n: nat)
    requires 0 <= focusedIndex < n
    ensures NextIndex(ArrowUp, focusedIndex, n) == (focusedIndex + n - 1) % n
    ensures focusedIndex == 0 ==> NextIndex(ArrowUp, focusedIndex, n) == n - 1
    ensures focusedIndex > 0 ==> NextIndex(ArrowUp, focusedIndex, n) == focusedIndex - 1
  {
    if focusedIndex == 0 {
      assert (n - 1) % n == n - 1;
    } else {
      assert (focusedIndex - 1 + n) % n == focusedIndex - 1;
    }
  }

  /** Arrow-up with nothing highlighted skips the last row: it lands on the
      second-to-last one (on row 0 when there is a single row, where the
      code's `-1 % 1` is `-0`). */
  lemma ArrowUpFromNothing(n: nat)
    requires n > 0
    ensures NextIndex(ArrowUp, -1, n) == if n >= 2 then n - 2 else 0
  {
    if n >= 2 {
      assert (n - 2) % n == n - 2;
    }
  }

  /** Up undoes down and down undoes up on every row. */
  lemma {:induction false} UpDownInverse(i: int, n: nat)
    requires 0 <= i < n
    ensures NextIndex(ArrowUp, NextIndex(ArrowDown, i, n), n) == i
    ensures NextIndex(ArrowDown, NextIndex(ArrowUp, i, n), n) == i
  {
    ArrowDownWraps(i, n);
    ArrowUpWraps(i, n);
    var d := NextIndex(ArrowDown, i, n);
    var u := NextIndex(ArrowUp, i, n);
    ArrowUpWraps(d, n);
    ArrowDownWraps(u, n);
  }

  /** On an empty displayed list the code's arithmetic produces NaN, where
      the corrected one leaves the highlighted row where it was. */
  lemma EmptyListGivesNaN(key: string, focusedIndex: int)
    requires IsArrow(key)
    ensures NextIndexAsWritten(key, focusedIndex, 0) == NaN
    ensures NextIndex(key, focusedIndex, 0) == focusedIndex
  {
  }
}

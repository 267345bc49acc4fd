/** Facts about Dafny's Euclidean `%` that the cursor proofs rely on: a
    residue is determined by any quotient/remainder decomposition, and
    residues can be taken before or after a shift. */
module Residues {

  /** A value already in `[0, n)` is its own residue. */
  lemma ModOfSmall(a: int, n: int)
    requires 0 <= a < n
    ensures a % n == a
  {
  }

  /** Any decomposition `a == q * n + r` with `0 <= r < n` is the one `/`
      and `%` compute. */
  lemma ModUnique(a: int, n: int, q: int, r: int)
    requires n > 0 && 0 <= r < n && a == q * n + r
    ensures a % n == r && a / n == q
  {
    var q0 := a / n;
    var r0 := a % n;
    assert a == q0 * n + r0;
    var d := q - q0;
    assert d * n == r0 - r;
  }

  /** In `[0, n)` the successor residue steps up by one, wrapping from
      `n - 1` to 0. */
  lemma SuccessorResidue(i: int, n: int)
    requires n > 0
    ensures 0 <= i < n ==> (i + 1) % n == (if i + 1 == n then 0 else i + 1)
  {
    if 0 <= i && i + 1 < n {
      ModOfSmall(i + 1, n);
    } else if i + 1 == n {
      ModUnique(n, n, 1, 0);
    }
  }

  /** In `[0, n)` the predecessor residue steps down by one, wrapping from
      0 to `n - 1`. */
  lemma PredecessorResidue(i: int, n: int)
    requires n > 0
    ensures 0 <= i < n ==> (i - 1) % n == (if i == 0 then n - 1 else i - 1)
  {
    if i == 0 {
      ModUnique(-1, n, -1, n - 1);
    } else if 0 < i < n {
      ModOfSmall(i - 1, n);
    }
  }

  /** Taking a residue first does not change the residue of a successor. */
  lemma ModSucc(a: int, n: int)
    requires n > 0
    ensures (a % n + 1) % n == (a + 1) % n
  {
    var q := a / n;
    var r := a % n;
    assert a == q * n + r;
    if r + 1 < n {
      ModUnique(a + 1, n, q, r + 1);
      ModOfSmall(r + 1, n);
    } else {
      ModUnique(a + 1, n, q + 1, 0);
      ModUnique(r + 1, n, 1, 0);
    }
  }

  /** Taking a residue first does not change the residue of a predecessor. */
  lemma ModPred(a: int, n: int)
    requires n > 0
    ensures (a % n - 1) % n == (a - 1) % n
  {
    var q := a / n;
    var r := a % n;
    assert a == q * n + r;
    if r > 0 {
      ModUnique(a - 1, n, q, r - 1);
      ModOfSmall(r - 1, n);
    } else {
      ModUnique(a - 1, n, q - 1, n - 1);
      ModUnique(r - 1, n, -1, n - 1);
    }
  }

  /** Adding a residue of `d` to `i` lands where adding `d` does. */
  lemma ModShift(i: int, d: int, n: int)
    requires n > 0
    ensures (i + d % n) % n == (i + d) % n
  {
    var q := d / n;
    var r := d % n;
    assert d == q * n + r;
    var s := (i + r) / n;
    var t := (i + r) % n;
    assert i + r == s * n + t;
    assert i + d == (q + s) * n + t;
    ModUnique(i + d, n, q + s, t);
  }

  /** Shifting a residue by `d` and then by `-d` gives it back. */
  lemma ShiftThenUnshift(i: int, d: int, n: int)
    requires 0 <= i < n
    ensures ((i + d) % n - d) % n == i
  {
    ModShift(-d, i + d, n);
    assert -d + (i + d) == i;
    ModOfSmall(i, n);
  }

  /** Shifting a residue by `-d` and then by `d` gives it back. */
  lemma UnshiftThenShift(i: int, d: int, n: int)
    requires 0 <= i < n
    ensures ((i - d) % n + d) % n == i
  {
    ModShift(d, i - d, n);
    assert d + (i - d) == i;
    ModOfSmall(i, n);
  }

  /** Reducing the left summand first does not change the residue of a sum. */
  lemma ModAddLeft(a: int, c: int, n: int)
    requires n > 0
    ensures (a % n + c) % n == (a + c) % n
  {
    ModShift(c, a, n);
    assert c + a % n == a % n + c;
    assert c + a == a + c;
  }

  /** Shifting `i` by the residue of `j - i` lands on `j`. */
  lemma ShiftByDistance(i: int, j: int, n: int)
    requires 0 <= i < n && 0 <= j < n
    ensures (i + (j - i) % n) % n == j
  {
    ModShift(i, j - i, n);
    assert i + (j - i) == j;
    ModOfSmall(j, n);
  }

  /** A shift by a non-multiple of `n` moves every residue. */
  lemma ShiftMoves(i: int, d: int, n: int)
    requires 0 <= i < n
    requires 0 < d < n || -n < d < 0
    ensures (i + d) % n != i
  {
    if 0 <= i + d < n {
      ModOfSmall(i + d, n);
    } else if i + d >= n {
      ModUnique(i + d, n, 1, i + d - n);
    } else {
      ModUnique(i + d, n, -1, i + d + n);
    }
  }

  /** The residue of `j - i` is zero exactly when `j == i`. */
  lemma DistanceResidue(i: int, j: int, n: int)
    requires 0 <= i < n && 0 <= j < n
    ensures 0 <= (j - i) % n < n
    ensures (j - i) % n == 0 <==> i == j
  {
    if j - i >= 0 {
      ModOfSmall(j - i, n);
    } else {
      ModUnique(j - i, n, -1, j - i + n);
    }
  }

  /** A shift by `n` either way leaves a residue in place. */
  lemma FullTurn(i: int, n: int)
    requires 0 <= i < n
    ensures (i + n) % n == i
    ensures (i - n) % n == i
  {
    ModUnique(i + n, n, 1, i);
    ModUnique(i - n, n, -1, i);
  }
}

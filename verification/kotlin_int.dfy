/** Kotlin's `Int`: a 32-bit two's-complement integer whose `+` and `-`
    wrap around and whose `%` truncates toward zero. */
module KotlinInt {
  import opened Residues

  const MIN_VALUE: int := -0x8000_0000
  const MAX_VALUE: int := 0x7fff_ffff

  /** The modulus of 32-bit wrap-around. */
  const WORD: int := 0x1_0000_0000

  type Int32 = x: int | MIN_VALUE <= x <= MAX_VALUE

  /** Reduces the exact sum or difference of two Ints to the Int the JVM
      produces for it: a result past either end comes back one word away. */
  function Wrap(x: int): (r: Int32)
    requires MIN_VALUE - WORD <= x <= MAX_VALUE + WORD
    ensures MIN_VALUE <= x <= MAX_VALUE ==> r == x
    ensures x == MAX_VALUE + 1 ==> r == MIN_VALUE
    ensures x == MIN_VALUE - 1 ==> r == MAX_VALUE
    ensures (r - x) % WORD == 0
  {
    if x > MAX_VALUE then x - WORD
    else if x < MIN_VALUE then x + WORD
    else x
  }

  /** Kotlin `a + b` on Int. */
  function Plus(a: Int32, b: Int32): (r: Int32)
    ensures MIN_VALUE <= a + b <= MAX_VALUE ==> r == a + b
    ensures (r - (a + b)) % WORD == 0
  {
    Wrap(a + b)
  }

  /** Kotlin `a - b` on Int. */
  function Minus(a: Int32, b: Int32): (r: Int32)
    ensures MIN_VALUE <= a - b <= MAX_VALUE ==> r == a - b
    ensures (r - (a - b)) % WORD == 0
  {
    Wrap(a - b)
  }

  /** Remainder truncated toward zero, the JVM's `irem`: its sign is the
      dividend's, unlike Dafny's Euclidean `%`, and the dividend minus it
      is a multiple of the divisor. */
  function TruncRem(a: int, b: int): (r: int)
    requires b > 0
    ensures 0 <= a ==> 0 <= r < b && r == a % b
    ensures a < 0 ==> -b < r <= 0 && r == -((-a) % b)
    ensures (a - r) % b == 0
  {
    if a >= 0 then
      ModUnique(a - a % b, b, a / b, 0);
      a % b
    else
      ModUnique(a + (-a) % b, b, -((-a) / b), 0);
      -((-a) % b)
  }

  /** Kotlin `a % b` on Int for a positive divisor: the Euclidean residue
      for a non-negative dividend, the negated residue of `-a` for a
      negative one, and in both cases `a` minus a multiple of `b`. */
  function Rem(a: Int32, b: Int32): (r: Int32)
    requires b > 0
    ensures 0 <= a ==> 0 <= r < b && r == a % b
    ensures a < 0 ==> -b < r <= 0 && r as int == -((-(a as int)) % (b as int))
    ensures ((a as int) - (r as int)) % (b as int) == 0
  {
    TruncRem(a, b)
  }
}

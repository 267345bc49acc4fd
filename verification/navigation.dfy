/** The navigation cursor: the Int index of the question on screen, moved
    by the Previous and Next buttons with circular wrap-around. */
module Navigation {
  import opened KotlinInt
  import opened Questions
  import opened Residues

  /** The range invariant that makes `questionBank[currentIndex]` safe. */
  predicate ValidIndex(bank: Bank, i: int) {
    0 <= i < |bank|
  }

  /** The index the cursor starts at: `mutableStateOf(0)`. */
  function Initial(bank: Bank): (i: Int32)
    ensures ValidIndex(bank, i)
    ensures Get(bank, i) == Found(bank[0])
  {
    0
  }

  /** The Next button: `(currentIndex + 1) % questionBank.size`, with Kotlin's
      Int addition and remainder, for every Int the index can hold. On a
      valid index it is the successor modulo the size. */
  function Next(bank: Bank, i: Int32): (j: Int32)
    ensures ValidIndex(bank, i) ==> ValidIndex(bank, j)
    ensures ValidIndex(bank, i) ==> j == (if i == LastIndex(bank) then 0 else i + 1)
    ensures ValidIndex(bank, i) ==> j == (i + 1) % |bank|
  {
    SuccessorResidue(i, |bank|);
    Rem(Plus(i, 1), Size(bank))
  }

  /** The Previous button: 0 jumps to `lastIndex`, anything else steps down
      by one with Kotlin's Int subtraction. On a valid index it is the
      predecessor modulo the size. */
  function Prev(bank: Bank, i: Int32): (j: Int32)
    ensures ValidIndex(bank, i) ==> ValidIndex(bank, j)
    ensures ValidIndex(bank, i) ==> j == (if i == 0 then LastIndex(bank) else i - 1)
    ensures ValidIndex(bank, i) ==> j == (i - 1) % |bank|
  {
    PredecessorResidue(i, |bank|);
    if i == 0 then LastIndex(bank) else Minus(i, 1)
  }

  /** Outside the valid range the wrap-around is no repair in general:
      Next brings any index from -1 up (short of `Int.MAX_VALUE`) back
      into range, but a more negative index stays at or below 0, because
      Kotlin's remainder keeps the sign of the dividend. */
  lemma NextOutsideRange(bank: Bank, i: Int32)
    ensures -1 <= i < MAX_VALUE ==> ValidIndex(bank, Next(bank, i))
    ensures i < -1 ==> Next(bank, i) <= 0
  {
  }

  /** Previous undoes Next and Next undoes Previous on every valid index. */
  lemma NextPrevInverse(bank: Bank, i: Int32)
    requires ValidIndex(bank, i)
    ensures Prev(bank, Next(bank, i)) == i
    ensures Next(bank, Prev(bank, i)) == i
  {
  }

  /** Next is injective on valid indices, so it permutes them. */
  lemma NextInjective(bank: Bank, i: Int32, j: Int32)
    requires ValidIndex(bank, i) && ValidIndex(bank, j)
    ensures Next(bank, i) == Next(bank, j) <==> i == j
  {
    NextPrevInverse(bank, i);
    NextPrevInverse(bank, j);
  }

  /** The index after `k` presses of Next. */
  function NextN(bank: Bank, i: Int32, k: nat): Int32
  {
    if k == 0 then i else Next(bank, NextN(bank, i, k - 1))
  }

  /** The index after `k` presses of Previous. */
  function PrevN(bank: Bank, i: Int32, k: nat): Int32
  {
    if k == 0 then i else Prev(bank, PrevN(bank, i, k - 1))
  }

  /** Next on the residue of `a` is the residue of `a + 1`. */
  lemma NextOfResidue(bank: Bank, p: Int32, a: int)
    requires ValidIndex(bank, p) && p == a % |bank|
    ensures Next(bank, p) == (a + 1) % |bank|
  {
    ModSucc(a, |bank|);
  }

  /** Prev on the residue of `a` is the residue of `a - 1`. */
  lemma PrevOfResidue(bank: Bank, p: Int32, a: int)
    requires ValidIndex(bank, p) && p == a % |bank|
    ensures Prev(bank, p) == (a - 1) % |bank|
  {
    ModPred(a, |bank|);
  }

  /** `k` presses of Next advance the cursor by `k` modulo the size. */
  lemma {:induction false} NextNAdvances(bank: Bank, i: Int32, k: nat)
    requires ValidIndex(bank, i)
    ensures ValidIndex(bank, NextN(bank, i, k))
    ensures NextN(bank, i, k) == (i + k) % |bank|
  {
    if k == 0 {
      ModOfSmall(i, |bank|);
    } else {
      NextNAdvances(bank, i, k - 1);
      NextOfResidue(bank, NextN(bank, i, k - 1), i + k - 1);
    }
  }

  /** `k` presses of Previous move the cursor back by `k` modulo the size. */
  lemma {:induction false} PrevNRetreats(bank: Bank, i: Int32, k: nat)
    requires ValidIndex(bank, i)
    ensures ValidIndex(bank, PrevN(bank, i, k))
    ensures PrevN(bank, i, k) == (i - k) % |bank|
  {
    if k == 0 {
      ModOfSmall(i, |bank|);
    } else {
      PrevNRetreats(bank, i, k - 1);
      PrevOfResidue(bank, PrevN(bank, i, k - 1), i - (k - 1));
    }
  }

  /** Fewer than `|bank|` presses of Next, but at least one, never return
      to the starting question. */
  lemma NextNotSooner(bank: Bank, i: Int32, k: nat)
    requires ValidIndex(bank, i) && 0 < k < |bank|
    ensures NextN(bank, i, k) != i
  {
    NextNAdvances(bank, i, k);
    ShiftMoves(i, k, |bank|);
  }

  /** Fewer than `|bank|` presses of Previous, but at least one, never
      return to the starting question. */
  lemma PrevNotSooner(bank: Bank, i: Int32, k: nat)
    requires ValidIndex(bank, i) && 0 < k < |bank|
    ensures PrevN(bank, i, k) != i
  {
    PrevNRetreats(bank, i, k);
    ShiftMoves(i, -(k as int), |bank|);
  }

  /** Next has period exactly the size of the bank: `|bank|` presses return
      to the start, and no smaller positive number of presses does. */
  lemma NextCycle(bank: Bank, i: Int32)
    requires ValidIndex(bank, i)
    ensures NextN(bank, i, |bank|) == i
    ensures forall k: nat :: 0 < k < |bank| ==> NextN(bank, i, k) != i
  {
    NextNAdvances(bank, i, |bank|);
    FullTurn(i, |bank|);
    forall k: nat | 0 < k < |bank|
      ensures NextN(bank, i, k) != i
    {
      NextNotSooner(bank, i, k);
    }
  }

  /** Previous has the same period. */
  lemma PrevCycle(bank: Bank, i: Int32)
    requires ValidIndex(bank, i)
    ensures PrevN(bank, i, |bank|) == i
    ensures forall k: nat :: 0 < k < |bank| ==> PrevN(bank, i, k) != i
  {
    PrevNRetreats(bank, i, |bank|);
    FullTurn(i, |bank|);
    forall k: nat | 0 < k < |bank|
      ensures PrevN(bank, i, k) != i
    {
      PrevNotSooner(bank, i, k);
    }
  }

  /** How many presses of Next lead from index `i` to index `j`. */
  function Distance(bank: Bank, i: Int32, j: Int32): (k: nat)
    requires ValidIndex(bank, i) && ValidIndex(bank, j)
    ensures k < |bank|
    ensures k == 0 <==> i == j
  {
    DistanceResidue(i, j, |bank|);
    (j - i) % |bank|
  }

  /** From any question, fewer than `|bank|` presses of Next reach any other
      question: the cursor visits the whole bank. */
  lemma NextReachesEvery(bank: Bank, i: Int32, j: Int32)
    requires ValidIndex(bank, i) && ValidIndex(bank, j)
    ensures NextN(bank, i, Distance(bank, i, j)) == j
  {
    var k := Distance(bank, i, j);
    NextNAdvances(bank, i, k);
    ShiftByDistance(i, j, |bank|);
  }

  /** `k` presses of Previous undo `k` presses of Next. */
  lemma PrevNUndoesNextN(bank: Bank, i: Int32, k: nat)
    requires ValidIndex(bank, i)
    ensures PrevN(bank, NextN(bank, i, k), k) == i
  {
    var n := |bank|;
    NextNAdvances(bank, i, k);
    var f := NextN(bank, i, k);
    PrevNRetreats(bank, f, k);
    ShiftThenUnshift(i, k, n);
  }

  /** `k` presses of Next undo `k` presses of Previous. */
  lemma NextNUndoesPrevN(bank: Bank, i: Int32, k: nat)
    requires ValidIndex(bank, i)
    ensures NextN(bank, PrevN(bank, i, k), k) == i
  {
    var n := |bank|;
    PrevNRetreats(bank, i, k);
    var b := PrevN(bank, i, k);
    NextNAdvances(bank, b, k);
    UnshiftThenShift(i, k, n);
  }
}

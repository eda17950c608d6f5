/** The arithmetic of the frontend's visualizations page: its own copy of
    the primality test, the 1..100 prime grid, the modular-clock remainder
    and the step counter of the RSA walkthrough. */
module Visualizations {
  import opened Wrappers
  import opened Numbers

  /** The number of entries in `rsaSteps`. */
  const RsaStepCount := 7

  /** The number of cells in the prime grid. */
  const GridSize := 100

  /** The class a grid cell is drawn with. */
  datatype CellClass = PrimeCell | CompositeCell

  /** `checkIsPrime`, the frontend's copy of the backend's 6k±1 trial
      division. The grid passes it only positive operands of `%`. */
  method CheckIsPrime(num: int) returns (b: bool)
    ensures b <==> Prime(num)
  {
    if num <= 1 {
      return false;
    }
    if num <= 3 {
      return true;
    }
    if num % 2 == 0 || num % 3 == 0 {
      assert Divides(2, num) || Divides(3, num);
      return false;
    }
    var i := 5;
    ghost var j := 0;
    while i * i <= num
      invariant i == 6 * j + 5 && j >= 0
      invariant forall k :: 2 <= k < i ==> !Divides(k, num)
    {
      if num % i == 0 || num % (i + 2) == 0 {
        BelowSquare(i, num);
        assert Divides(i, num) || Divides(i + 2, num);
        return false;
      }
      WheelStep(num, i, j);
      i, j := i + 6, j + 1;
    }
    NoDivisorBelowRoot(num, i);
    return true;
  }

  /** The prime-testing grid: cell i shows the number i + 1, classed prime
      exactly when `checkIsPrime` holds of it, with 1 forced to composite. */
  method NumberGrid() returns (cells: seq<CellClass>)
    ensures |cells| == GridSize
    ensures forall i :: 0 <= i < GridSize ==> (cells[i] == PrimeCell <==> Prime(i + 1))
    ensures cells[0] == CompositeCell
  {
    cells := [];
    var i := 0;
    while i < GridSize
      invariant 0 <= i <= GridSize && |cells| == i
      invariant forall j :: 0 <= j < i ==> (cells[j] == PrimeCell <==> Prime(j + 1))
      invariant i > 0 ==> cells[0] == CompositeCell
    {
      var num := i + 1;
      var isNumPrime := CheckIsPrime(num);
      var cellClass := if num == 1 then CompositeCell else if isNumPrime then PrimeCell else CompositeCell;
      cells := cells + [cellClass];
      i := i + 1;
    }
  }

  /** The clock's remainder `((number % modulus) + modulus) % modulus` with
      JavaScript's truncating `%`, or None (the source's NaN) when the
      modulus is not positive. It is Dafny's Euclidean remainder: in
      [0, modulus) and congruent to the number, negative numbers included. */
  function ClockRemainder(number: int, modulus: int): (r: Option<int>)
    ensures r.Some? <==> modulus > 0
    ensures r.Some? ==> 0 <= r.value < modulus && (number - r.value) % modulus == 0
    ensures r.Some? ==> r.value == number % modulus
  {
    if modulus > 0 then
      ClockRemainderIsEuclidean(number, modulus);
      Some(JsRem(JsRem(number, modulus) + modulus, modulus))
    else
      None
  }

  lemma ClockRemainderIsEuclidean(number: int, modulus: int)
    requires modulus > 0
    ensures JsRem(JsRem(number, modulus) + modulus, modulus) == number % modulus
    ensures (number - number % modulus) % modulus == 0
  {
    var t := JsRem(number, modulus);
    var u := t + modulus;
    assert u >= 1;
    var k := (number - t) / modulus;
    assert number - t == k * modulus;
    assert number == (k - 1) * modulus + u;
    ModAddMultiple(k - 1, u, modulus);
    var q := number / modulus;
    assert number - number % modulus == q * modulus;
    ModOfMultiple(q, modulus);
  }

  /** The RSA walkthrough's `currentStep` state with its Previous and Next
      buttons and the selector button that restarts it. */
  class StepWalkthrough {
    var currentStep: int

    ghost predicate Valid()
      reads this
    {
      0 <= currentStep < RsaStepCount
    }

    constructor ()
      ensures Valid() && currentStep == 0
    {
      currentStep := 0;
    }

    /** The Previous button is disabled on the first step. */
    predicate PreviousDisabled()
      reads this
    {
      currentStep == 0
    }

    /** The Next button is disabled on the last step. */
    predicate NextDisabled()
      reads this
    {
      currentStep == RsaStepCount - 1
    }

    /** Previous: one step back, saturating at the first step. */
    method Previous()
      requires Valid()
      modifies this
      ensures Valid()
      ensures currentStep == if old(currentStep) == 0 then 0 else old(currentStep) - 1
      ensures currentStep == old(currentStep) <==> old(PreviousDisabled())
    {
      currentStep := if currentStep - 1 > 0 then currentStep - 1 else 0;
    }

    /** Next: one step forward, saturating at the last step. */
    method Next()
      requires Valid()
      modifies this
      ensures Valid()
      ensures currentStep == if old(currentStep) == RsaStepCount - 1 then RsaStepCount - 1 else old(currentStep) + 1
      ensures currentStep == old(currentStep) <==> old(NextDisabled())
    {
      currentStep := if RsaStepCount - 1 < currentStep + 1 then RsaStepCount - 1 else currentStep + 1;
    }

    /** Selecting the RSA visualization goes back to the first step. */
    method Restart()
      modifies this
      ensures Valid() && currentStep == 0
    {
      currentStep := 0;
    }
  }
}

/** The admissibility filter: the three rules a candidate bitting must pass. */
module Filter {
  import opened Seqs
  import opened Alphabet

  function Abs(x: int): nat {
    if x < 0 then -x else x
  }

  /** Absolute RPL step between pin `i - 1` and pin `i`. */
  function Delta(pins: seq<char>, comb: Candidate, i: int): nat
    requires Over(pins, comb)
    requires 1 <= i < |comb|
  {
    Abs(Rpl(pins, comb[i]) - Rpl(pins, comb[i - 1]))
  }

  /** Sum of the absolute RPL steps between adjacent pins of `comb`. */
  function Variation(pins: seq<char>, comb: Candidate): nat
    requires Over(pins, comb)
    decreases |comb|
  {
    if |comb| < 2 then 0
    else Variation(pins, comb[..|comb| - 1]) + Delta(pins, comb, |comb| - 1)
  }

  /** Rule 1 (maximum adjacent cut specification). The scan compares the first pin with
      itself before any real pair, so a negative `macs` rejects even that zero step. */
  predicate WithinMacs(pins: seq<char>, macs: int, comb: Candidate)
    requires Over(pins, comb)
  {
    && 0 <= macs
    && forall i :: 1 <= i < |comb| ==> Delta(pins, comb, i) <= macs
  }

  /** Rule 2: the total RPL variation reaches the required aggressiveness. */
  predicate AggressiveEnough(pins: seq<char>, aggressiveness: int, comb: Candidate)
    requires Over(pins, comb)
  {
    Variation(pins, comb) >= aggressiveness
  }

  /** Rule 3, for more than two pins: the last pin is shorter than the second-to-last
      by at least `macs`. */
  predicate TailBiased(pins: seq<char>, macs: int, comb: Candidate)
    requires Over(pins, comb)
  {
    |comb| > 2 ==> Rpl(pins, comb[|comb| - 1]) <= Rpl(pins, comb[|comb| - 2]) - macs
  }

  /** The admissible candidates: those passing all three rules. */
  predicate Admissible(pins: seq<char>, macs: int, aggressiveness: int, comb: Candidate)
    requires Over(pins, comb)
  {
    && WithinMacs(pins, macs, comb)
    && AggressiveEnough(pins, aggressiveness, comb)
    && TailBiased(pins, macs, comb)
  }

  /** The filter as the program runs it: one left-to-right scan that rejects on the first
      step above `macs` while summing the steps, then the aggressiveness test, then the
      tail test. */
  method ValidCombination(pins: seq<char>, macs: int, aggressiveness: int, comb: Candidate)
    returns (ok: bool)
    requires |comb| >= 1
    requires Over(pins, comb)
    ensures ok <==> Admissible(pins, macs, aggressiveness, comb)
  {
    var within, total := ScanSteps(pins, macs, comb);
    if !within {
      return false;
    }
    if total < aggressiveness {
      return false;
    }
    if |comb| > 2 {
      if Rpl(pins, comb[|comb| - 1]) > Rpl(pins, comb[|comb| - 2]) - macs {
        return false;
      }
    }
    return true;
  }

  /** The scan of rule 1: walks the pins left to right, starting by comparing the first pin
      with itself, and stops at the first step above `macs`. When it gets through, the
      running sum is the candidate's variation. */
  method ScanSteps(pins: seq<char>, macs: int, comb: Candidate) returns (within: bool, total: int)
    requires |comb| >= 1
    requires Over(pins, comb)
    ensures within <==> WithinMacs(pins, macs, comb)
    ensures within ==> total == Variation(pins, comb)
  {
    var last: int := Rpl(pins, comb[0]);
    total := 0;
    var i := 0;
    while i < |comb|
      invariant 0 <= i <= |comb|
      invariant last == Rpl(pins, comb[if i == 0 then 0 else i - 1])
      invariant i >= 1 ==> 0 <= macs
      invariant forall k :: 1 <= k < i ==> Delta(pins, comb, k) <= macs
      invariant total == Variation(pins, comb[..i])
    {
      var r: int := Rpl(pins, comb[i]);
      var delta := Abs(r - last);
      if delta > macs {
        assert !WithinMacs(pins, macs, comb) by {
          if i >= 1 {
            assert Delta(pins, comb, i) == delta;
          }
        }
        return false, total;
      }
      if i >= 1 {
        VariationStep(pins, comb, i);
      }
      total := total + delta;
      last := r;
      i := i + 1;
    }
    assert comb[..|comb|] == comb;
    return true, total;
  }

  /** Extending a prefix by one pin adds that pin's step to the variation. */
  lemma VariationStep(pins: seq<char>, comb: Candidate, i: int)
    requires Over(pins, comb)
    requires 1 <= i < |comb|
    ensures Variation(pins, comb[..i + 1]) == Variation(pins, comb[..i]) + Delta(pins, comb, i)
  {
    assert comb[..i + 1][..i] == comb[..i];
  }

  /** Every pin of `comb` carries the same symbol. */
  predicate Constant(comb: Candidate) {
    forall i :: 0 <= i < |comb| ==> comb[i] == comb[0]
  }

  /** Rule 1 caps the final step at `macs` and rule 3 floors it at `macs`, so in every
      admissible candidate of more than two pins the last pin is exactly `macs` shorter
      than the second-to-last. */
  lemma TailStepIsMacs(pins: seq<char>, macs: int, aggressiveness: int, comb: Candidate)
    requires Over(pins, comb)
    requires |comb| > 2
    requires Admissible(pins, macs, aggressiveness, comb)
    ensures Rpl(pins, comb[|comb| - 2]) - Rpl(pins, comb[|comb| - 1]) == macs
  {
    assert Delta(pins, comb, |comb| - 1) <= macs;
  }

  /** With `macs` at least the alphabet size no candidate of more than two pins is
      admissible: no two RPLs are that far apart. */
  lemma LargeMacsRejectsAll(pins: seq<char>, macs: int, aggressiveness: int, comb: Candidate)
    requires Over(pins, comb)
    requires |comb| > 2
    requires macs >= |pins|
    ensures !Admissible(pins, macs, aggressiveness, comb)
  {
    if Admissible(pins, macs, aggressiveness, comb) {
      TailStepIsMacs(pins, macs, aggressiveness, comb);
      assert false;
    }
  }

  /** A constant candidate has no variation. */
  lemma {:induction false} ConstantVariation(pins: seq<char>, comb: Candidate)
    requires Over(pins, comb)
    requires Constant(comb)
    ensures Variation(pins, comb) == 0
    decreases |comb|
  {
    if |comb| >= 2 {
      var init := comb[..|comb| - 1];
      assert Constant(init) by {
        forall i | 0 <= i < |init| ensures init[i] == init[0] {
          assert init[i] == comb[i];
        }
      }
      ConstantVariation(pins, init);
      assert comb[|comb| - 1] == comb[|comb| - 2];
    }
  }

  /** If no adjacent step changes the RPL, pin `i` repeats pin 0. */
  lemma {:induction false} ZeroStepsReach(pins: seq<char>, comb: Candidate, i: int)
    requires Over(pins, comb)
    requires forall k :: 1 <= k < |comb| ==> Delta(pins, comb, k) == 0
    requires 0 <= i < |comb|
    ensures comb[i] == comb[0]
    decreases i
  {
    if i > 0 {
      ZeroStepsReach(pins, comb, i - 1);
      assert Delta(pins, comb, i) == 0;
      RplInjective(pins, comb[i], comb[i - 1]);
    }
  }

  /** With `macs == 0` a candidate is admissible exactly when it is constant and no
      aggressiveness is required. */
  lemma ZeroMacsConstant(pins: seq<char>, aggressiveness: int, comb: Candidate)
    requires Over(pins, comb)
    requires |comb| >= 1
    ensures Admissible(pins, 0, aggressiveness, comb) <==> Constant(comb) && aggressiveness <= 0
  {
    if Admissible(pins, 0, aggressiveness, comb) {
      forall i | 0 <= i < |comb| ensures comb[i] == comb[0] {
        ZeroStepsReach(pins, comb, i);
      }
      ConstantVariation(pins, comb);
    }
    if Constant(comb) && aggressiveness <= 0 {
      ConstantVariation(pins, comb);
      forall i | 1 <= i < |comb| ensures Delta(pins, comb, i) <= 0 {
        assert comb[i] == comb[i - 1];
      }
      if |comb| > 2 {
        assert comb[|comb| - 1] == comb[|comb| - 2];
      }
    }
  }

  /** A single pin has no real adjacent pair and no tail: it is admissible exactly when
      `macs` is not negative and no aggressiveness is required. */
  lemma SinglePin(pins: seq<char>, macs: int, aggressiveness: int, comb: Candidate)
    requires Over(pins, comb)
    requires |comb| == 1
    ensures Admissible(pins, macs, aggressiveness, comb) <==> 0 <= macs && aggressiveness <= 0
  {
  }

  /** Requiring more aggressiveness never admits a candidate that was rejected. */
  lemma AggressivenessMonotone(pins: seq<char>, macs: int, low: int, high: int, comb: Candidate)
    requires Over(pins, comb)
    requires low <= high
    requires Admissible(pins, macs, high, comb)
    ensures Admissible(pins, macs, low, comb)
  {
  }

  /** Raising `macs` is not monotone: rule 3 gets stricter. Over the alphabet "012" the
      bitting "010" is admissible with `macs` 1 and rejected with `macs` 2. */
  lemma MacsNotMonotone()
    ensures Over("012", "010")
    ensures Admissible("012", 1, 0, "010")
    ensures !Admissible("012", 2, 0, "010")
  {
    var pins, c := "012", "010";
    assert pins[0] == '0' && pins[1] == '1';
    RplAt(pins, 0);
    RplAt(pins, 1);
    assert c[..2] == "01" && "01"[..1] == "0";
    assert Variation(pins, "01") == 1;
    assert Variation(pins, c) == 2;
  }

  /** Rule 3 reads the RPLs of the last two symbols: over "0123456789" with `macs` 7 the
      bitting "13579" is rejected, since 9 > 7 - 7. */
  lemma DecimalTailRejected()
    ensures Over("0123456789", "13579")
    ensures !Admissible("0123456789", 7, 0, "13579")
  {
    var pins := "0123456789";
    assert pins[7] == '7' && pins[9] == '9';
    RplAt(pins, 7);
    RplAt(pins, 9);
    assert !TailBiased(pins, 7, "13579");
  }

  /** Over "01234" with `macs` 4 the bitting "040" is admissible: steps 4 and 4, and the
      last pin 0 is at most 4 - 4. */
  lemma FullSwingAdmitted()
    ensures Over("01234", "040")
    ensures Admissible("01234", 4, 0, "040")
  {
    var pins, c := "01234", "040";
    assert pins[0] == '0' && pins[4] == '4';
    RplAt(pins, 0);
    RplAt(pins, 4);
    assert c[..2] == "04" && "04"[..1] == "0";
    assert Variation(pins, "04") == 4;
    assert Variation(pins, c) == 8;
  }
}

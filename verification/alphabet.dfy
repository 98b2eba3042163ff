/** The bitting alphabet and the relative pin length (RPL) of its symbols. */
module Alphabet {
  import opened Seqs

  /** One candidate bitting: a sequence of alphabet symbols, one per pin. */
  type Candidate = seq<char>

  /** Every symbol of `comb` belongs to the alphabet `pins`. */
  predicate Over(pins: seq<char>, comb: Candidate) {
    forall i :: 0 <= i < |comb| ==> comb[i] in pins
  }

  /** Relative pin length of `pin`: the position of its FIRST occurrence in the alphabet,
      as a list lookup by value returns it. Asking for a symbol outside the alphabet is an
      error in the program, so membership is required. */
  function Rpl(pins: seq<char>, pin: char): (r: nat)
    requires pin in pins
    ensures r < |pins| && pins[r] == pin
    ensures forall k :: 0 <= k < r ==> pins[k] != pin
    decreases |pins|
  {
    if pins[0] == pin then 0 else 1 + Rpl(pins[1..], pin)
  }

  /** In an alphabet without repeated symbols the RPL of the symbol at position `i` is `i`. */
  lemma RplOfIndex(pins: seq<char>, i: int)
    requires NoDup(pins)
    requires 0 <= i < |pins|
    ensures Rpl(pins, pins[i]) == i
  {
  }

  /** Two alphabet symbols with the same RPL are the same symbol. */
  lemma RplInjective(pins: seq<char>, p: char, q: char)
    requires p in pins && q in pins
    ensures Rpl(pins, p) == Rpl(pins, q) <==> p == q
  {
  }

  /** A symbol with no earlier occurrence has its own position as RPL. */
  lemma RplAt(pins: seq<char>, i: int)
    requires 0 <= i < |pins|
    requires forall k :: 0 <= k < i ==> pins[k] != pins[i]
    ensures Rpl(pins, pins[i]) == i
  {
  }
}

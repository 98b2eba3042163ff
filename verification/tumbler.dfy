/** The generator as a whole: validated settings in, admissible bittings and report body out. */
module Tumbler {
  import opened Wrappers
  import opened Seqs
  import opened Alphabet
  import opened Filter
  import opened Enumerator
  import opened Report
  import opened Validators

  /** The generator's configuration once every argument has passed its validator. */
  datatype Settings = Settings(pins: string, numPins: nat, macs: nat, aggressiveness: nat, columns: nat)

  /** What generation and writing rely on: a non-empty alphabet without repeated symbols
      or spaces, at least one pin, and at least one column. */
  predicate WellFormed(s: Settings) {
    && s.pins != [] && NoDup(s.pins) && ' ' !in s.pins
    && s.numPins >= 1 && s.columns >= 1
  }

  /** Passes each already-parsed argument through its validator: the alphabet through the
      alphabet validator, the pin count and column count with bound 1, and `macs` and the
      aggressiveness with bound 0. */
  function Configure(pins: string, numPins: int, macs: int, aggressiveness: int, columns: int)
    : (r: Result<Settings, ValueError>)
    ensures r.Success? <==>
      && ValidatePins(pins).Success?
      && numPins >= 1 && macs >= 0 && aggressiveness >= 0 && columns >= 1
    ensures r.Success? ==>
      && WellFormed(r.value)
      && r.value == Settings(ValidatePins(pins).value, numPins, macs, aggressiveness, columns)
  {
    var p :- ValidatePins(pins);
    var n :- ValidateNumGte(1, numPins);
    var m :- ValidateNumGte(0, macs);
    var a :- ValidateNumGte(0, aggressiveness);
    var c :- ValidateNumGte(1, columns);
    Success(Settings(p, n, m, a, c))
  }

  /** Bittings over an alphabet without spaces contain no spaces. */
  lemma OverSpaceless(pins: string, combs: seq<Candidate>)
    requires ' ' !in pins
    requires forall c :: c in combs ==> Over(pins, c)
    ensures Spaceless(combs)
  {
    forall i | 0 <= i < |combs| ensures ' ' !in combs[i] {
      assert combs[i] in combs;
    }
  }

  /** Generates the admissible bittings and lays them out as the report body: the text
      of each row is its entries, each followed by one space, and then a newline. Each row
      holds at most `columns` bittings, every row but the last exactly `columns`, and
      reading the body back gives the generated bittings, each of `numPins` admissible
      pins, in odometer order and without repeats. */
  method Run(s: Settings) returns (combinations: seq<Candidate>, lines: seq<string>)
    requires WellFormed(s)
    ensures lines == Body(combinations, s.columns)
    ensures (|lines| - 1) * s.columns < |combinations| <= |lines| * s.columns
    ensures ReadRows(lines) == Rows(combinations, s.columns)
    ensures ReadBack(lines) == combinations
    ensures Sorted(s.pins, combinations) && NoDup(combinations)
    ensures forall c :: c in combinations <==>
      |c| == s.numPins && Over(s.pins, c) && Admissible(s.pins, s.macs, s.aggressiveness, c)
  {
    combinations := Generate(s.pins, s.numPins, s.macs, s.aggressiveness);
    lines := Body(combinations, s.columns);
    OverSpaceless(s.pins, combinations);
    BodyRoundTrip(combinations, s.columns);
  }
}

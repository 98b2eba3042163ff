/** The enumerator: the Cartesian power of the alphabet in odometer order, filtered in order. */
module Enumerator {
  import opened Seqs
  import opened Alphabet
  import opened Filter

  function Pow(b: nat, e: nat): nat
    decreases e
  {
    if e == 0 then 1 else b * Pow(b, e - 1)
  }

  /** `[p] + t` for every `t` of `tails`, in order. */
  function Prefix(p: char, tails: seq<Candidate>): seq<Candidate> {
    seq(|tails|, i requires 0 <= i < |tails| => [p] + tails[i])
  }

  /** For each head in order, that head put in front of every tail in order. */
  function Extend(heads: seq<char>, tails: seq<Candidate>): seq<Candidate>
    decreases |heads|
  {
    if heads == [] then [] else Prefix(heads[0], tails) + Extend(heads[1..], tails)
  }

  /** All `n`-pin bittings over `pins`, the first pin varying slowest and the last fastest,
      as a product of the alphabet with itself `n` times enumerates them. */
  function Product(pins: seq<char>, n: nat): seq<Candidate>
    decreases n
  {
    if n == 0 then [[]] else Extend(pins, Product(pins, n - 1))
  }

  /** Odometer order: at the first pin where `a` and `b` differ, `a` has the smaller RPL. */
  predicate Before(pins: seq<char>, a: Candidate, b: Candidate)
    decreases |a|
  {
    && |a| > 0 && |b| > 0 && a[0] in pins && b[0] in pins
    && (Rpl(pins, a[0]) < Rpl(pins, b[0]) || (a[0] == b[0] && Before(pins, a[1..], b[1..])))
  }

  /** Strictly increasing in odometer order. */
  predicate Sorted(pins: seq<char>, s: seq<Candidate>) {
    forall i, j :: 0 <= i < j < |s| ==> Before(pins, s[i], s[j])
  }

  predicate AllOver(pins: seq<char>, cands: seq<Candidate>) {
    forall i :: 0 <= i < |cands| ==> Over(pins, cands[i])
  }

  /** The admissible members of `cands`, in the order they occur. */
  function Admitted(pins: seq<char>, macs: int, aggressiveness: int, cands: seq<Candidate>): seq<Candidate>
    requires AllOver(pins, cands)
    decreases |cands|
  {
    if cands == [] then []
    else
      var init := Admitted(pins, macs, aggressiveness, cands[..|cands| - 1]);
      var last := cands[|cands| - 1];
      if Admissible(pins, macs, aggressiveness, last) then init + [last] else init
  }

  // ---- The product ----

  lemma {:induction false} ExtendLength(heads: seq<char>, tails: seq<Candidate>)
    ensures |Extend(heads, tails)| == |heads| * |tails|
    decreases |heads|
  {
    if heads != [] {
      ExtendLength(heads[1..], tails);
    }
  }

  /** The product of `n` copies of the alphabet has `|pins|^n` entries. */
  lemma {:induction false} ProductLength(pins: seq<char>, n: nat)
    ensures |Product(pins, n)| == Pow(|pins|, n)
    decreases n
  {
    if n > 0 {
      ProductLength(pins, n - 1);
      ExtendLength(pins, Product(pins, n - 1));
    }
  }

  lemma PrefixMember(p: char, tails: seq<Candidate>, c: Candidate)
    ensures c in Prefix(p, tails) <==> |c| >= 1 && c[0] == p && c[1..] in tails
  {
    var s := Prefix(p, tails);
    if c in s {
      var i :| 0 <= i < |s| && s[i] == c;
      assert c[1..] == tails[i];
    }
    if |c| >= 1 && c[0] == p && c[1..] in tails {
      var i :| 0 <= i < |tails| && tails[i] == c[1..];
      assert s[i] == c;
    }
  }

  lemma {:induction false} ExtendMember(heads: seq<char>, tails: seq<Candidate>, c: Candidate)
    ensures c in Extend(heads, tails) <==> |c| >= 1 && c[0] in heads && c[1..] in tails
    decreases |heads|
  {
    if heads != [] {
      PrefixMember(heads[0], tails, c);
      ExtendMember(heads[1..], tails, c);
      assert heads == [heads[0]] + heads[1..];
    }
  }

  lemma {:induction false} ProductMember(pins: seq<char>, n: nat, c: Candidate)
    ensures c in Product(pins, n) <==> |c| == n && Over(pins, c)
    decreases n
  {
    if n > 0 {
      ExtendMember(pins, Product(pins, n - 1), c);
      if |c| >= 1 {
        ProductMember(pins, n - 1, c[1..]);
        assert forall i :: 1 <= i < |c| ==> c[i] == c[1..][i - 1];
      }
    }
  }

  /** The product holds exactly the bittings of `n` pins over the alphabet. */
  lemma ProductMembers(pins: seq<char>, n: nat)
    ensures forall c :: c in Product(pins, n) <==> |c| == n && Over(pins, c)
  {
    forall c ensures c in Product(pins, n) <==> |c| == n && Over(pins, c) {
      ProductMember(pins, n, c);
    }
  }

  lemma ProductOver(pins: seq<char>, n: nat)
    ensures AllOver(pins, Product(pins, n))
    ensures forall i :: 0 <= i < |Product(pins, n)| ==> |Product(pins, n)[i]| == n
  {
    ProductMembers(pins, n);
    var s := Product(pins, n);
    assert forall i :: 0 <= i < |s| ==> s[i] in s;
  }

  lemma {:induction false} BeforeIrreflexive(pins: seq<char>, a: Candidate)
    ensures !Before(pins, a, a)
    decreases |a|
  {
    if |a| > 0 {
      BeforeIrreflexive(pins, a[1..]);
    }
  }

  /** A strictly increasing sequence repeats nothing. */
  lemma SortedNoDup(pins: seq<char>, s: seq<Candidate>)
    requires Sorted(pins, s)
    ensures NoDup(s)
  {
    forall i, j | 0 <= i < j < |s| ensures s[i] != s[j] {
      BeforeIrreflexive(pins, s[i]);
    }
  }

  lemma PrefixSorted(pins: seq<char>, p: char, tails: seq<Candidate>)
    requires p in pins
    requires Sorted(pins, tails)
    ensures Sorted(pins, Prefix(p, tails))
  {
    var s := Prefix(p, tails);
    forall i, j | 0 <= i < j < |s| ensures Before(pins, s[i], s[j]) {
      assert s[i][1..] == tails[i] && s[j][1..] == tails[j];
    }
  }

  /** Every bitting built from the heads `pins[k..]` starts with a symbol of RPL at least `k`. */
  lemma ExtendHeadsFrom(pins: seq<char>, k: nat, tails: seq<Candidate>, c: Candidate)
    requires NoDup(pins)
    requires k <= |pins|
    requires c in Extend(pins[k..], tails)
    ensures |c| >= 1 && c[0] in pins && Rpl(pins, c[0]) >= k
  {
    ExtendMember(pins[k..], tails, c);
    var m :| 0 <= m < |pins[k..]| && pins[k..][m] == c[0];
    RplOfIndex(pins, k + m);
  }

  lemma {:induction false} ExtendSorted(pins: seq<char>, k: nat, tails: seq<Candidate>)
    requires NoDup(pins)
    requires k <= |pins|
    requires Sorted(pins, tails)
    ensures Sorted(pins, Extend(pins[k..], tails))
    decreases |pins| - k
  {
    if k < |pins| {
      var a := Prefix(pins[k], tails);
      var b := Extend(pins[k + 1..], tails);
      assert pins[k..][1..] == pins[k + 1..];
      assert Extend(pins[k..], tails) == a + b;
      PrefixSorted(pins, pins[k], tails);
      ExtendSorted(pins, k + 1, tails);
      RplOfIndex(pins, k);
      var s := a + b;
      forall i, j | 0 <= i < j < |s| ensures Before(pins, s[i], s[j]) {
        if j >= |a| {
          if i < |a| {
            assert s[i] in a;
            PrefixMember(pins[k], tails, s[i]);
            assert s[j] == b[j - |a|];
            ExtendHeadsFrom(pins, k + 1, tails, s[j]);
          } else {
            assert s[i] == b[i - |a|] && s[j] == b[j - |a|];
          }
        }
      }
    }
  }

  /** Over an alphabet without repeated symbols the product is strictly increasing in
      odometer order, and so repeats no bitting. */
  lemma {:induction false} ProductSorted(pins: seq<char>, n: nat)
    requires NoDup(pins)
    ensures Sorted(pins, Product(pins, n))
    ensures NoDup(Product(pins, n))
    decreases n
  {
    if n > 0 {
      ProductSorted(pins, n - 1);
      ExtendSorted(pins, 0, Product(pins, n - 1));
      assert pins[0..] == pins;
    }
    SortedNoDup(pins, Product(pins, n));
  }

  // ---- The ordered filter ----

  lemma {:induction false} AdmittedMembers(pins: seq<char>, macs: int, aggressiveness: int, cands: seq<Candidate>)
    requires AllOver(pins, cands)
    ensures forall c :: c in Admitted(pins, macs, aggressiveness, cands) <==>
      c in cands && Over(pins, c) && Admissible(pins, macs, aggressiveness, c)
    decreases |cands|
  {
    if cands != [] {
      var init := cands[..|cands| - 1];
      AdmittedMembers(pins, macs, aggressiveness, init);
      assert cands == init + [cands[|cands| - 1]];
    }
  }

  /** The filter keeps its survivors in their original order. */
  lemma {:induction false} AdmittedSubsequence(pins: seq<char>, macs: int, aggressiveness: int, cands: seq<Candidate>)
    requires AllOver(pins, cands)
    ensures IsSubsequence(Admitted(pins, macs, aggressiveness, cands), cands)
    decreases |cands|
  {
    if cands != [] {
      var init := cands[..|cands| - 1];
      var r := Admitted(pins, macs, aggressiveness, cands);
      var ri := Admitted(pins, macs, aggressiveness, init);
      AdmittedSubsequence(pins, macs, aggressiveness, init);
      if Admissible(pins, macs, aggressiveness, cands[|cands| - 1]) {
        assert r[..|r| - 1] == ri;
      }
    }
  }

  lemma {:induction false} AdmittedSorted(pins: seq<char>, macs: int, aggressiveness: int, cands: seq<Candidate>)
    requires AllOver(pins, cands)
    requires Sorted(pins, cands)
    ensures Sorted(pins, Admitted(pins, macs, aggressiveness, cands))
    decreases |cands|
  {
    if cands != [] {
      var init := cands[..|cands| - 1];
      var last := cands[|cands| - 1];
      var ri := Admitted(pins, macs, aggressiveness, init);
      AdmittedSorted(pins, macs, aggressiveness, init);
      if Admissible(pins, macs, aggressiveness, last) {
        AdmittedMembers(pins, macs, aggressiveness, init);
        var r := ri + [last];
        forall i, j | 0 <= i < j < |r| ensures Before(pins, r[i], r[j]) {
          if j == |r| - 1 {
            assert r[i] in init;
            var k :| 0 <= k < |init| && init[k] == r[i];
          } else {
            assert r[i] == ri[i] && r[j] == ri[j];
          }
        }
      }
    }
  }

  /** Raising the required aggressiveness keeps a subsequence of the former output. */
  lemma {:induction false} AdmittedAggressivenessMonotone(pins: seq<char>, macs: int, low: int, high: int, cands: seq<Candidate>)
    requires AllOver(pins, cands)
    requires low <= high
    ensures IsSubsequence(Admitted(pins, macs, high, cands), Admitted(pins, macs, low, cands))
    decreases |cands|
  {
    if cands != [] {
      var init := cands[..|cands| - 1];
      var last := cands[|cands| - 1];
      var h := Admitted(pins, macs, high, cands);
      var l := Admitted(pins, macs, low, cands);
      var hi := Admitted(pins, macs, high, init);
      var li := Admitted(pins, macs, low, init);
      AdmittedAggressivenessMonotone(pins, macs, low, high, init);
      if Admissible(pins, macs, high, last) {
        AggressivenessMonotone(pins, macs, low, high, last);
        assert h[..|h| - 1] == hi && l[..|l| - 1] == li;
      } else if Admissible(pins, macs, low, last) {
        assert l[..|l| - 1] == li;
      }
    }
  }

  lemma {:induction false} AdmittedAll(pins: seq<char>, macs: int, aggressiveness: int, cands: seq<Candidate>)
    requires AllOver(pins, cands)
    requires forall i :: 0 <= i < |cands| ==> Admissible(pins, macs, aggressiveness, cands[i])
    ensures Admitted(pins, macs, aggressiveness, cands) == cands
    decreases |cands|
  {
    if cands != [] {
      var init := cands[..|cands| - 1];
      AdmittedAll(pins, macs, aggressiveness, init);
      assert cands == init + [cands[|cands| - 1]];
    }
  }

  lemma AdmittedNone(pins: seq<char>, macs: int, aggressiveness: int, cands: seq<Candidate>)
    requires AllOver(pins, cands)
    requires forall i :: 0 <= i < |cands| ==> !Admissible(pins, macs, aggressiveness, cands[i])
    ensures Admitted(pins, macs, aggressiveness, cands) == []
  {
    AdmittedMembers(pins, macs, aggressiveness, cands);
  }

  // ---- Generation ----

  /** The admissible bittings of `numPins` pins, in odometer order. */
  function Generated(pins: seq<char>, numPins: nat, macs: int, aggressiveness: int): seq<Candidate> {
    ProductOver(pins, numPins);
    Admitted(pins, macs, aggressiveness, Product(pins, numPins))
  }

  /** The distinct admissible bittings of `numPins` pins. */
  function AdmissibleSet(pins: seq<char>, numPins: nat, macs: int, aggressiveness: int): set<Candidate> {
    set c | c in Product(pins, numPins) && Over(pins, c) && Admissible(pins, macs, aggressiveness, c)
  }

  /** Walks the product in order and keeps the candidates the filter accepts. The result
      is the ordered subsequence of the product made of exactly the admissible bittings of
      `numPins` pins; over an alphabet without repeats it is strictly increasing in odometer
      order, repeats nothing, and its length is the number of admissible bittings. */
  method Generate(pins: seq<char>, numPins: nat, macs: int, aggressiveness: int)
    returns (combinations: seq<Candidate>)
    requires numPins >= 1
    ensures combinations == Generated(pins, numPins, macs, aggressiveness)
    ensures IsSubsequence(combinations, Product(pins, numPins))
    ensures forall c :: c in combinations <==>
      |c| == numPins && Over(pins, c) && Admissible(pins, macs, aggressiveness, c)
    ensures NoDup(pins) ==> Sorted(pins, combinations) && NoDup(combinations)
    ensures NoDup(pins) ==> |combinations| == |AdmissibleSet(pins, numPins, macs, aggressiveness)|
  {
    var candidates := Product(pins, numPins);
    ProductOver(pins, numPins);
    combinations := [];
    var i := 0;
    while i < |candidates|
      invariant 0 <= i <= |candidates|
      invariant AllOver(pins, candidates[..i])
      invariant combinations == Admitted(pins, macs, aggressiveness, candidates[..i])
    {
      assert candidates[..i + 1][..i] == candidates[..i];
      var ok := ValidCombination(pins, macs, aggressiveness, candidates[i]);
      if ok {
        combinations := combinations + [candidates[i]];
      }
      i := i + 1;
    }
    assert candidates[..|candidates|] == candidates;
    AdmittedSubsequence(pins, macs, aggressiveness, candidates);
    AdmittedMembers(pins, macs, aggressiveness, candidates);
    ProductMembers(pins, numPins);
    if NoDup(pins) {
      ProductSorted(pins, numPins);
      AdmittedSorted(pins, macs, aggressiveness, candidates);
      SortedNoDup(pins, combinations);
      assert Elements(combinations) == AdmissibleSet(pins, numPins, macs, aggressiveness);
      ElementsCount(combinations);
    }
  }

  // ---- Consequences for the generated list ----

  /** With `macs` at least the alphabet size and more than two pins nothing is generated:
      the filter silently rejects every bitting. */
  lemma GenerateLargeMacsEmpty(pins: seq<char>, numPins: nat, macs: int, aggressiveness: int)
    requires numPins > 2
    requires macs >= |pins|
    ensures Generated(pins, numPins, macs, aggressiveness) == []
  {
    var p := Product(pins, numPins);
    ProductOver(pins, numPins);
    forall i | 0 <= i < |p| ensures !Admissible(pins, macs, aggressiveness, p[i]) {
      LargeMacsRejectsAll(pins, macs, aggressiveness, p[i]);
    }
    AdmittedNone(pins, macs, aggressiveness, p);
  }

  /** Requiring more aggressiveness drops bittings from the output and never adds one;
      the survivors keep their order. */
  lemma GenerateAggressivenessMonotone(pins: seq<char>, numPins: nat, macs: int, low: int, high: int)
    requires low <= high
    ensures IsSubsequence(Generated(pins, numPins, macs, high), Generated(pins, numPins, macs, low))
  {
    ProductOver(pins, numPins);
    AdmittedAggressivenessMonotone(pins, macs, low, high, Product(pins, numPins));
  }

  /** Every one-pin bitting, in alphabet order. */
  function Singletons(pins: seq<char>): seq<Candidate> {
    seq(|pins|, i requires 0 <= i < |pins| => [pins[i]])
  }

  lemma {:induction false} ExtendEmptyTail(heads: seq<char>)
    ensures Extend(heads, [[]]) == Singletons(heads)
    decreases |heads|
  {
    if heads != [] {
      ExtendEmptyTail(heads[1..]);
      var s := Singletons(heads);
      var e: seq<Candidate> := [[]];
      var q := Prefix(heads[0], e);
      assert |q| == 1;
      assert q[0] == [heads[0]] + e[0] == [heads[0]];
      assert q == [[heads[0]]];
      assert s == [[heads[0]]] + Singletons(heads[1..]);
    }
  }

  /** With one pin the output is the whole alphabet as one-pin bittings when `macs` is not
      negative and no aggressiveness is required, and empty otherwise. */
  lemma GenerateSinglePin(pins: seq<char>, macs: int, aggressiveness: int)
    ensures Generated(pins, 1, macs, aggressiveness) ==
      if 0 <= macs && aggressiveness <= 0 then Singletons(pins) else []
  {
    var p := Product(pins, 1);
    ProductOver(pins, 1);
    ExtendEmptyTail(pins);
    forall i | 0 <= i < |p|
      ensures Admissible(pins, macs, aggressiveness, p[i]) <==> 0 <= macs && aggressiveness <= 0
    {
      SinglePin(pins, macs, aggressiveness, p[i]);
    }
    if 0 <= macs && aggressiveness <= 0 {
      AdmittedAll(pins, macs, aggressiveness, p);
    } else {
      AdmittedNone(pins, macs, aggressiveness, p);
    }
  }

  /** The `n`-pin bitting that repeats `p`. */
  function Repeat(p: char, n: nat): Candidate {
    seq(n, _ => p)
  }

  /** The constant bittings, one per alphabet symbol, in alphabet order. */
  function Constants(pins: seq<char>, n: nat): seq<Candidate> {
    seq(|pins|, i requires 0 <= i < |pins| => Repeat(pins[i], n))
  }

  lemma ConstantsNoDup(pins: seq<char>, n: nat)
    requires NoDup(pins)
    requires n >= 1
    ensures NoDup(Constants(pins, n))
  {
    var s := Constants(pins, n);
    forall i, j | 0 <= i < j < |s| ensures s[i] != s[j] {
      assert s[i][0] == pins[i] && s[j][0] == pins[j];
    }
  }

  lemma GeneratedNoDup(pins: seq<char>, numPins: nat, macs: int, aggressiveness: int)
    requires NoDup(pins)
    ensures NoDup(Generated(pins, numPins, macs, aggressiveness))
  {
    ProductOver(pins, numPins);
    ProductSorted(pins, numPins);
    AdmittedSorted(pins, macs, aggressiveness, Product(pins, numPins));
    SortedNoDup(pins, Generated(pins, numPins, macs, aggressiveness));
  }

  lemma ZeroMacsMember(pins: seq<char>, numPins: nat, aggressiveness: int, c: Candidate)
    requires numPins >= 1
    ensures c in Generated(pins, numPins, 0, aggressiveness) <==>
      aggressiveness <= 0 && c in Constants(pins, numPins)
  {
    var k := Constants(pins, numPins);
    ProductOver(pins, numPins);
    ProductMember(pins, numPins, c);
    AdmittedMembers(pins, 0, aggressiveness, Product(pins, numPins));
    if |c| == numPins && Over(pins, c) {
      ZeroMacsConstant(pins, aggressiveness, c);
      if Constant(c) {
        var r := Rpl(pins, c[0]);
        assert c == Repeat(pins[r], numPins);
        assert k[r] == c;
      }
    }
    if c in k {
      var i :| 0 <= i < |k| && k[i] == c;
      assert Constant(c) && |c| == numPins && Over(pins, c);
      ZeroMacsConstant(pins, aggressiveness, c);
    }
  }

  /** With `macs == 0` the output holds exactly the constant bittings, one per alphabet
      symbol, when no aggressiveness is required, and nothing otherwise. */
  lemma GenerateZeroMacs(pins: seq<char>, numPins: nat, aggressiveness: int)
    requires NoDup(pins)
    requires numPins >= 1
    ensures Elements(Generated(pins, numPins, 0, aggressiveness)) ==
      if aggressiveness <= 0 then Elements(Constants(pins, numPins)) else {}
    ensures |Generated(pins, numPins, 0, aggressiveness)| ==
      if aggressiveness <= 0 then |pins| else 0
  {
    var g := Generated(pins, numPins, 0, aggressiveness);
    var k := Constants(pins, numPins);
    forall c ensures c in g <==> aggressiveness <= 0 && c in k {
      ZeroMacsMember(pins, numPins, aggressiveness, c);
    }
    GeneratedNoDup(pins, numPins, 0, aggressiveness);
    if aggressiveness <= 0 {
      ConstantsNoDup(pins, numPins);
      assert Elements(g) == Elements(k);
      SameElementsSameLength(g, k);
    } else {
      assert Elements(g) == {};
      ElementsCount(g);
    }
  }
}

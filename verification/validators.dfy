/** The argument validators: the bitting alphabet and the lower-bounded integers. */
module Validators {
  import opened Wrappers
  import opened Seqs

  /** The errors the validators raise; the message text is not modelled. */
  datatype ValueError =
    | EmptyOrNotUnique      // the cleaned alphabet is empty or repeats a symbol
    | BelowMinimum(min: int) // a number is smaller than the validator's bound

  /** The characters Python's `str.strip` and `str.isspace` treat as whitespace. */
  predicate IsSpace(c: char) {
    || ('\t' <= c <= '\r')
    || ('\U{1C}' <= c <= ' ')
    || c == '\U{85}' || c == '\U{A0}' || c == '\U{1680}'
    || ('\U{2000}' <= c <= '\U{200A}')
    || c == '\U{2028}' || c == '\U{2029}' || c == '\U{202F}' || c == '\U{205F}'
    || c == '\U{3000}'
  }

  /** Length of the run of whitespace that starts `s`. */
  function LeadingSpaces(s: string): (n: nat)
    ensures n <= |s|
    ensures forall j :: 0 <= j < n ==> IsSpace(s[j])
    ensures n == |s| || !IsSpace(s[n])
    decreases |s|
  {
    if s != [] && IsSpace(s[0]) then 1 + LeadingSpaces(s[1..]) else 0
  }

  /** Length of the run of whitespace that ends `s`. */
  function TrailingSpaces(s: string): (n: nat)
    ensures n <= |s|
    ensures forall j :: |s| - n <= j < |s| ==> IsSpace(s[j])
    ensures n == |s| || !IsSpace(s[|s| - n - 1])
    decreases |s|
  {
    if s != [] && IsSpace(s[|s| - 1]) then 1 + TrailingSpaces(s[..|s| - 1]) else 0
  }

  /** `r` is the slice of `s` starting at `i`, and everything of `s` outside it is
      whitespace. */
  predicate Window(s: string, r: string, i: int) {
    && 0 <= i <= |s| - |r|
    && r == s[i..i + |r|]
    && (forall j :: 0 <= j < i ==> IsSpace(s[j]))
    && (forall j :: i + |r| <= j < |s| ==> IsSpace(s[j]))
  }

  /** Strips whitespace at both ends, the leading run first and then the trailing run of
      what is left: the result is a slice of `s` with only whitespace outside it and no
      whitespace at its ends. */
  function Strip(s: string): (r: string)
    ensures r == [] || (!IsSpace(r[0]) && !IsSpace(r[|r| - 1]))
    ensures exists i :: Window(s, r, i)
  {
    var i := LeadingSpaces(s);
    var t := s[i..];
    var r := t[..|t| - TrailingSpaces(t)];
    assert r == s[i..i + |r|];
    assert forall j :: i + |r| <= j < |s| ==> s[j] == t[j - i];
    assert Window(s, r, i);
    r
  }

  /** Deletes every space character, keeping everything else in order. */
  function RemoveSpaces(s: string): (r: string)
    ensures ' ' !in r
    ensures IsSubsequence(r, s)
    ensures forall c :: c != ' ' ==> multiset(r)[c] == multiset(s)[c]
    decreases |s|
  {
    if s == [] then []
    else
      var init := s[..|s| - 1];
      var last := s[|s| - 1];
      var r0 := RemoveSpaces(init);
      assert s == init + [last];
      if last == ' ' then
        assert IsSubsequence(r0, s) by { SubsequenceOfInit(r0, s); }
        r0
      else
        var r := r0 + [last];
        assert r[..|r| - 1] == r0;
        r
  }

  /** A string without spaces is left as it is. */
  lemma {:induction false} RemoveSpacesNoSpace(s: string)
    requires ' ' !in s
    ensures RemoveSpaces(s) == s
    decreases |s|
  {
    if s != [] {
      assert s[|s| - 1] in s;
      RemoveSpacesNoSpace(s[..|s| - 1]);
    }
  }

  lemma SubsequenceOfInit(a: string, s: string)
    requires s != []
    requires IsSubsequence(a, s[..|s| - 1])
    ensures IsSubsequence(a, s)
  {
  }

  /** The alphabet validator: strip, delete spaces, and accept the result exactly when it
      is non-empty and has as many distinct characters as characters. */
  function ValidatePins(value: string): (r: Result<string, ValueError>)
    ensures var v := RemoveSpaces(Strip(value));
      (r.Success? <==> v != [] && NoDup(v))
      && (r.Success? ==> r.value == v)
      && (r.Failure? ==> r.error == EmptyOrNotUnique)
  {
    var v := RemoveSpaces(Strip(value));
    ElementsCount(v);
    if |v| == 0 || |Elements(v)| != |v| then Failure(EmptyOrNotUnique) else Success(v)
  }

  /** The integer validator for bound `min`: accepts `num` exactly when it is at least `min`. */
  function ValidateNumGte(min: int, num: int): (r: Result<int, ValueError>)
    ensures r.Success? <==> num >= min
    ensures r.Success? ==> r.value == num
    ensures r.Failure? ==> r.error == BelowMinimum(min)
  {
    if num < min then Failure(BelowMinimum(min)) else Success(num)
  }

  lemma ValidatePinsOutcome(value: string, v: string)
    requires RemoveSpaces(Strip(value)) == v
    ensures v != [] && NoDup(v) ==> ValidatePins(value) == Success(v)
    ensures !(v != [] && NoDup(v)) ==> ValidatePins(value) == Failure(EmptyOrNotUnique)
  {
  }
}

/** Worked inputs for the alphabet validator. */
module ValidatorExamples {
  import opened Wrappers
  import opened Seqs
  import opened Validators

  lemma StripCleans()
    ensures Strip(" 01 23\n") == "01 23"
  {
    assert " 01 23\n"[1..] == "01 23\n";
    assert LeadingSpaces(" 01 23\n") == 1;
    assert "01 23\n"[..5] == "01 23";
    assert TrailingSpaces("01 23\n") == 1;
  }

  lemma RemoveSpacesCleans()
    ensures RemoveSpaces("01 23") == "0123"
  {
    assert "01 23"[..4] == "01 2";
    assert "01 2"[..3] == "01 ";
    assert "01 "[..2] == "01";
    assert "01"[..1] == "0";
    assert "0"[..0] == "";
  }

  /** Surrounding whitespace and inner spaces are dropped: " 01 23" followed by a newline
      is accepted as the alphabet "0123". */
  lemma ValidatePinsCleans()
    ensures ValidatePins(" 01 23\n") == Success("0123")
  {
    StripCleans();
    RemoveSpacesCleans();
    assert NoDup("0123");
    ValidatePinsOutcome(" 01 23\n", "0123");
  }

  lemma StripRepeat()
    ensures Strip("0110") == "0110"
  {
    assert LeadingSpaces("0110") == 0;
    assert TrailingSpaces("0110") == 0;
  }

  lemma KeepsRepeat()
    ensures RemoveSpaces(Strip("0110")) == "0110"
  {
    StripRepeat();
    RemoveSpacesNoSpace("0110");
  }

  /** An alphabet that repeats a symbol is refused. */
  lemma ValidatePinsRepeat()
    ensures ValidatePins("0110") == Failure(EmptyOrNotUnique)
  {
    KeepsRepeat();
    assert "0110"[1] == "0110"[2];
    ValidatePinsOutcome("0110", "0110");
  }

  /** An alphabet of whitespace only is refused. */
  lemma ValidatePinsBlank()
    ensures ValidatePins(" \t ") == Failure(EmptyOrNotUnique)
  {
    assert " \t "[1..] == "\t ";
    assert "\t "[1..] == " ";
    assert " "[1..] == "";
    assert LeadingSpaces(" \t ") == 3;
    ValidatePinsOutcome(" \t ", "");
  }
}

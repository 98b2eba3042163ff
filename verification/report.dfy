/** The body of the written report: the admissible bittings laid out in rows. */
module Report {
  import opened Seqs
  import opened Alphabet

  function Min(a: int, b: int): int {
    if a < b then a else b
  }

  /** Cuts `combs` into consecutive rows of `columns` bittings; only the last row may be
      shorter, and no row is empty. The bounds on the row count say it is the number of
      bittings divided by `columns`, rounded up, so an empty list gives no row at all. */
  function Rows(combs: seq<Candidate>, columns: nat): (rows: seq<seq<Candidate>>)
    requires columns >= 1
    ensures (|rows| - 1) * columns < |combs| <= |rows| * columns
    ensures forall i :: 0 <= i < |rows| ==> 1 <= |rows[i]| <= columns
    ensures forall i :: 0 <= i < |rows| - 1 ==> |rows[i]| == columns
    ensures Flatten(rows) == combs
    decreases |combs|
  {
    if |combs| == 0 then []
    else
      var k := Min(columns, |combs|);
      var rest := Rows(combs[k..], columns);
      var rows := [combs[..k]] + rest;
      assert rows[1..] == rest;
      assert combs[..k] + combs[k..] == combs;
      assert forall i :: 1 <= i < |rows| ==> rows[i] == rest[i - 1];
      RowCountStep(|combs|, k, |rest|, columns);
      rows
  }

  /** One more full row, or a last short one, keeps the row count at the rounded-up quotient. */
  lemma RowCountStep(n: int, k: int, m: int, columns: int)
    requires 1 <= k <= n && k <= columns
    requires k == columns || (k == n && m == 0)
    requires (m - 1) * columns < n - k <= m * columns
    ensures m * columns < n <= (m + 1) * columns
  {
    assert (m + 1) * columns == m * columns + columns;
    assert (m - 1) * columns == m * columns - columns;
  }

  /** One bitting as written: its symbols with no separator, then one space. */
  function Entry(comb: Candidate): string {
    comb + " "
  }

  /** The entries of one row, in order. */
  function Entries(row: seq<Candidate>): string
    decreases |row|
  {
    if row == [] then [] else Entry(row[0]) + Entries(row[1..])
  }

  /** The report body: the text written for each row, closed by a newline. A symbol may
      itself be a line break, so one row's text can span several lines of the file. */
  function Body(combs: seq<Candidate>, columns: nat): (lines: seq<string>)
    requires columns >= 1
    ensures (|lines| - 1) * columns < |combs| <= |lines| * columns
    ensures forall i :: 0 <= i < |lines| ==> |lines[i]| >= 1 && lines[i][|lines[i]| - 1] == '\n'
  {
    var rows := Rows(combs, columns);
    seq(|rows|, i requires 0 <= i < |rows| => Entries(rows[i]) + "\n")
  }

  /** Position of the first space in `s`, or `|s|` when there is none. */
  function FirstSpace(s: string): (k: nat)
    ensures k <= |s|
    ensures k < |s| ==> s[k] == ' '
    ensures forall j :: 0 <= j < k ==> s[j] != ' '
    decreases |s|
  {
    if s == [] then 0 else if s[0] == ' ' then 0 else 1 + FirstSpace(s[1..])
  }

  /** Reads back the space-terminated entries of one line (without its newline). */
  function Decode(s: string): seq<Candidate>
    decreases |s|
  {
    if s == [] then []
    else
      var k := FirstSpace(s);
      if k == |s| then [s] else [s[..k]] + Decode(s[k + 1..])
  }

  /** No bitting contains a space. */
  predicate Spaceless(combs: seq<Candidate>) {
    forall i :: 0 <= i < |combs| ==> ' ' !in combs[i]
  }

  /** Decoding a row's entries gives back the row, provided no bitting contains a space. */
  lemma {:induction false} DecodeEntries(row: seq<Candidate>)
    requires Spaceless(row)
    ensures Decode(Entries(row)) == row
    decreases |row|
  {
    if row != [] {
      var s := Entries(row);
      var e := row[0];
      assert s == e + [' '] + Entries(row[1..]);
      var k := FirstSpace(s);
      assert s[|e|] == ' ';
      assert k == |e|;
      assert s[..k] == e;
      assert s[k + 1..] == Entries(row[1..]);
      DecodeEntries(row[1..]);
    }
  }

  /** The bittings written on one line: the line without its final newline, decoded. */
  function LineEntries(line: string): seq<Candidate> {
    if line == [] then [] else Decode(line[..|line| - 1])
  }

  /** The bittings of every line, one group per line. */
  function ReadRows(lines: seq<string>): seq<seq<Candidate>> {
    seq(|lines|, i requires 0 <= i < |lines| => LineEntries(lines[i]))
  }

  /** Reads a body back: the entries of every line, all in order. */
  function ReadBack(lines: seq<string>): seq<Candidate> {
    Flatten(ReadRows(lines))
  }

  /** Line `i` of the body holds exactly row `i`: between 1 and `columns` bittings, and
      exactly `columns` on every line but the last. Reading all lines back in order
      reproduces the list of bittings. */
  lemma BodyRoundTrip(combs: seq<Candidate>, columns: nat)
    requires columns >= 1
    requires Spaceless(combs)
    ensures ReadRows(Body(combs, columns)) == Rows(combs, columns)
    ensures var lines := Body(combs, columns);
      forall i :: 0 <= i < |lines| ==> 1 <= |LineEntries(lines[i])| <= columns
    ensures var lines := Body(combs, columns);
      forall i :: 0 <= i < |lines| - 1 ==> |LineEntries(lines[i])| == columns
    ensures ReadBack(Body(combs, columns)) == combs
  {
    var rows := Rows(combs, columns);
    var lines := Body(combs, columns);
    var decoded := ReadRows(lines);
    forall i | 0 <= i < |rows| ensures decoded[i] == rows[i] {
      assert lines[i][..|lines[i]| - 1] == Entries(rows[i]);
      RowsSpaceless(combs, columns, rows, i);
      DecodeEntries(rows[i]);
    }
    assert decoded == rows;
  }

  /** Every row of a list without spaced bittings is itself without them. */
  lemma RowsSpaceless(combs: seq<Candidate>, columns: nat, rows: seq<seq<Candidate>>, i: int)
    requires columns >= 1
    requires Spaceless(combs)
    requires rows == Rows(combs, columns)
    requires 0 <= i < |rows|
    ensures Spaceless(rows[i])
  {
    FlattenMembers(rows, i);
    forall j | 0 <= j < |rows[i]| ensures ' ' !in rows[i][j] {
      assert rows[i][j] in combs;
    }
  }

  lemma {:induction false} FlattenMembers<T>(ss: seq<seq<T>>, i: int)
    requires 0 <= i < |ss|
    ensures forall x :: x in ss[i] ==> x in Flatten(ss)
    decreases |ss|
  {
    if i > 0 {
      FlattenMembers(ss[1..], i - 1);
    }
  }
}

# secure-pin-tumbler, modelled in Dafny

The program lists every "secure" bitting for a pin-tumbler lock. It takes a bitting
alphabet, such as `0123456789`, a pin count, a MACS (maximum adjacent cut
specification) and a minimum aggressiveness. It walks through every sequence of that
many alphabet symbols, the first pin varying slowest. It keeps the sequences that pass
three rules and writes them to a report in rows.

A symbol's relative pin length (RPL) is its position in the alphabet. A candidate is
admissible when it passes three rules:

1. no two adjacent pins differ in RPL by more than `macs`;
2. the sum of those adjacent differences is at least `aggressiveness`;
3. with more than two pins, the last pin's RPL is at most the second-to-last's minus `macs`.

The modules follow the program's parts:

- `Alphabet` holds the RPL lookup (`rpl`).
- `Filter` holds the three rules as a reference predicate `Admissible`, and
  `ValidCombination`, the left-to-right scan the program runs, proved equal to it.
- `Enumerator` holds the Cartesian power `Product` (the program's product of the alphabet
  with itself), the ordered filter `Admitted`, and `Generate`, the loop that collects the
  survivors.
- `Report` holds the row layout of the report body, with a decoder that reads it back.
- `Validators` holds the alphabet and integer argument validators. `ValidatorExamples`
  holds worked inputs for them.
- `Tumbler` chains the validators into a configuration and runs generation and layout.
- `Seqs` and `Wrappers` are shared helpers.

Symbols are `char`, that is Unicode scalar values; lone surrogates, which a Python `str` can hold (for example an argument decoded with `surrogateescape`), are out of the model. A candidate is a `seq<char>`. Integers are unbounded, like Python's.

## Model

| member | source | states |
|---|---|---|
| Alphabet.Rpl | secure-pin-tumbler.py:18-19 | the RPL is a position of the symbol in the alphabet, and no earlier position holds it (a list lookup returns the first match) |
| Alphabet.RplOfIndex | secure-pin-tumbler.py:18-19 | in an alphabet without repeats, the symbol at position `i` has RPL `i` |
| Alphabet.RplInjective | secure-pin-tumbler.py:18-19 | two alphabet symbols have the same RPL exactly when they are the same symbol |
| Alphabet.RplAt | secure-pin-tumbler.py:18-19 | a symbol with no earlier occurrence has its own position as RPL |
| Filter.ScanSteps | secure-pin-tumbler.py:22-31 | the scan gets through exactly when `macs` is not negative and every adjacent step is at most `macs`; when it gets through, the running sum is the total adjacent variation |
| Filter.ValidCombination | secure-pin-tumbler.py:21-42 | the filter accepts exactly the candidates satisfying rule 1, rule 2 and rule 3 |
| Filter.VariationStep | secure-pin-tumbler.py:26-31 | adding one pin adds its adjacent step to the running variation |
| Filter.TailStepIsMacs | secure-pin-tumbler.py:26-41 | in every admissible candidate of more than two pins, the second-to-last RPL minus the last RPL is exactly `macs` |
| Filter.LargeMacsRejectsAll | secure-pin-tumbler.py:26-41 | with `macs` at least the alphabet size, no candidate of more than two pins is admissible |
| Filter.ZeroMacsConstant | secure-pin-tumbler.py:22-41 | with `macs` 0, a candidate is admissible exactly when all its pins are equal and the required aggressiveness is at most 0 |
| Filter.SinglePin | secure-pin-tumbler.py:22-41 | a one-pin candidate is admissible exactly when `macs` is not negative and the required aggressiveness is at most 0 |
| Filter.AggressivenessMonotone | secure-pin-tumbler.py:33-35 | a candidate admissible at some aggressiveness stays admissible at any lower one |
| Filter.MacsNotMonotone | secure-pin-tumbler.py:37-41 | raising `macs` can reject a candidate: over "012", "010" passes with `macs` 1 and fails with `macs` 2 |
| Filter.DecimalTailRejected | secure-pin-tumbler.py:39-41 | over "0123456789" with `macs` 7, "13579" is rejected by rule 3 |
| Filter.FullSwingAdmitted | secure-pin-tumbler.py:21-42 | over "01234" with `macs` 4, "040" is admissible |
| Enumerator.ProductLength | secure-pin-tumbler.py:46 | the product of `n` copies of the alphabet has `|pins|^n` entries |
| Enumerator.ProductMember | secure-pin-tumbler.py:46 | a sequence is in the product exactly when it has `n` symbols, all from the alphabet |
| Enumerator.ProductMembers | secure-pin-tumbler.py:46 | the product holds exactly the length-`n` sequences over the alphabet |
| Enumerator.ProductSorted | secure-pin-tumbler.py:46 | over an alphabet without repeats, the product is strictly increasing in odometer order (the first differing pin has the smaller RPL), so it has no repeats |
| Enumerator.ExtendSorted | secure-pin-tumbler.py:46 | putting the heads `pins[k..]` in order in front of a sorted list of tails gives a sorted list |
| Enumerator.AdmittedMembers | secure-pin-tumbler.py:46-48 | an entry survives the filter exactly when it is a candidate and admissible |
| Enumerator.AdmittedSubsequence | secure-pin-tumbler.py:46-48 | the survivors keep the order of the candidates |
| Enumerator.AdmittedSorted | secure-pin-tumbler.py:46-48 | filtering a sorted list gives a sorted list |
| Enumerator.AdmittedAggressivenessMonotone | secure-pin-tumbler.py:33-48 | the survivors at a higher aggressiveness are a subsequence of the survivors at a lower one |
| Enumerator.Generate | secure-pin-tumbler.py:44-50 | the result is a subsequence of the product; it holds exactly the admissible `numPins`-pin bittings; over an alphabet without repeats it is in odometer order, has no repeats, and its length is the number of admissible bittings |
| Enumerator.GenerateLargeMacsEmpty | secure-pin-tumbler.py:39-48 | with more than two pins and `macs` at least the alphabet size, nothing is generated |
| Enumerator.GenerateAggressivenessMonotone | secure-pin-tumbler.py:33-48 | raising the aggressiveness only removes bittings from the output and keeps the order of the rest |
| Enumerator.GenerateSinglePin | secure-pin-tumbler.py:22-48 | with one pin, the output is every alphabet symbol in order when `macs` is not negative and the aggressiveness is at most 0, and empty otherwise |
| Enumerator.GenerateZeroMacs | secure-pin-tumbler.py:22-48 | with `macs` 0, the output holds exactly the constant bittings, one per symbol, when the aggressiveness is at most 0, and nothing otherwise |
| Enumerator.ExtendEmptyTail | secure-pin-tumbler.py:46 | the one-pin product is the alphabet's symbols, each as a one-pin bitting, in order |
| Report.Rows | secure-pin-tumbler.py:60-65 | the rows concatenate back to the list; each holds 1 to `columns` bittings; all but the last hold exactly `columns`; their count is the list length divided by `columns`, rounded up (no row for an empty list) |
| Report.Body | secure-pin-tumbler.py:60-65 | one newline-terminated text per row, so the number of row texts is the list length divided by `columns`, rounded up |
| Report.DecodeEntries | secure-pin-tumbler.py:62-63 | decoding a row written as "symbols then one space" per bitting gives back the row, when no bitting contains a space |
| Report.BodyRoundTrip | secure-pin-tumbler.py:60-65 | decoding the body line by line gives exactly the rows, so line `i` holds row `i`: 1 to `columns` bittings, exactly `columns` on every line but the last; reading all lines back reproduces the list of bittings in order |
| Validators.LeadingSpaces | secure-pin-tumbler.py:68 | the result is the length of the whitespace run at the start |
| Validators.TrailingSpaces | secure-pin-tumbler.py:68 | the result is the length of the whitespace run at the end |
| Validators.Strip | secure-pin-tumbler.py:68 | the result is a slice of the input with only whitespace outside it and none at its ends |
| Validators.RemoveSpaces | secure-pin-tumbler.py:68 | the result has no space; it is a subsequence of the input; it keeps every other character's count |
| Validators.RemoveSpacesNoSpace | secure-pin-tumbler.py:68 | a string without spaces is unchanged |
| Validators.ValidatePins | secure-pin-tumbler.py:67-72 | the cleaned alphabet is accepted exactly when it is non-empty and has no repeated character; otherwise the error is raised |
| Validators.ValidateNumGte | secure-pin-tumbler.py:74-80 | a number is accepted unchanged exactly when it is at least the bound; otherwise the error names the bound |
| ValidatorExamples.ValidatePinsCleans | secure-pin-tumbler.py:67-72 | " 01 23" followed by a newline is accepted as "0123" |
| ValidatorExamples.ValidatePinsRepeat | secure-pin-tumbler.py:67-72 | "0110" is refused |
| ValidatorExamples.ValidatePinsBlank | secure-pin-tumbler.py:67-72 | a whitespace-only alphabet is refused |
| Tumbler.Configure | secure-pin-tumbler.py:86-111 | configuration succeeds exactly when every argument passes its validator, and then the settings meet what generation and layout need |
| Tumbler.Run | secure-pin-tumbler.py:114-117 | for valid settings, the output is exactly the admissible bittings in odometer order without repeats; the body is exactly the report text, each entry followed by one space and each row by a newline; the row texts number the rounded-up quotient, row text `i` decodes to row `i` of the list, each holds 1 to `columns` bittings (exactly `columns` on all but the last), and the body reads back to the output |

## Left out

- The report header (lines 54-58) is not modelled. It is fixed text plus Python integer formatting.
- The total printed by `generate` (line 50) and the final "Done" (line 119) are not modelled. They are console output.
- All file writing is not modelled. The model returns the body lines instead.
- Argument parsing is not modelled: `argparse`, `int(value)` and opening the output file. `Configure` takes arguments that are already parsed integers and strings. It does not model which error argparse reports first when several arguments are bad. A caller with no `-c` passes 20, the default.
- Alphabet.Rpl: requires the symbol to be in the alphabet. The lookup raises an error otherwise. Every symbol the filter sees comes from the alphabet, so this error cannot happen there.
- Filter.ValidCombination: requires a candidate of at least one pin. The program reads `comb[0]` and fails on an empty tuple. The pin-count validator rules that out.
- Enumerator.Generate: requires at least one pin, for the same reason.
- Report.Rows: requires at least one column. With 0 columns and at least one bitting, the loop never ends. The column validator forbids 0.
- Validators.ValidatePins: the uniqueness test compares the size of the set of characters with the length, as the program does. The error message text is not modelled; the error is `EmptyOrNotUnique`.
- Validators.ValidateNumGte: the error message text is not modelled; the error is `BelowMinimum(min)`.
- Enumerator.GenerateZeroMacs: states the set of outputs and their count, not their order. The order comes from `Generate`.
- Report.Body: a "line" of the body is the text written for one row. The alphabet validator strips only the ends and removes only spaces, so a symbol may be an inner line break (the alphabet `"0\n1"` is accepted). The file can then hold more lines than rows; the row counts stated here are counts of row texts.
- Nothing guards against the size of the search space (`|pins|^numPins`). `Product` is an eager sequence.

## Behaviour worth knowing

- Raising `macs` can shrink the output. Rule 3 gets stricter as `macs` grows. `Filter.MacsNotMonotone` gives an example.
- With one pin, rule 2 still applies, so the output is empty when the aggressiveness is above 0. See `Enumerator.GenerateSinglePin`.
- Every entry is followed by a space, including the last one in a row. See `Report.Entry`.

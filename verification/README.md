# ESP32 ADC characterization: the operator loop, modelled in Dafny

The host script `ESP32_ADC_Characterization/main.py` runs a measurement
session. It repeatedly asks the operator for a voltage measured by hand.
It reads one voltage from the ESP32 over the serial port and stores a
comparison record. When the operator types `end`, it requests export of
the records. This project models two parts of that script.

- **The voltage prompt** (`get_measured_voltage`). One typed line is
  stripped, lower-cased and classified in four stages:
  - the keyword `end`;
  - the character-composition check: at most five characters and, once
    every `.` and `-` is deleted, a non-empty run of digits;
  - Python's `float()`, which raises `ValueError` on text like `1-2`;
  - the range check [0, 999].

  Module `Text` holds `str.strip`, `str.lower`, `str.replace` and
  `str.isdigit`. Module `Decimal` holds the part of `float()` reachable
  over the alphabet `0-9 . -`. Module `VoltageEntry` holds the
  classifier and the re-prompting loop.
- **The session loop** (`main`). Module `Session` is a state machine. Its
  state is the phase (prompting or terminated), an append-only store of
  records, and an "export requested" flag. Each step takes one answer
  from the prompt, plus the serial reader's outcome and a clock reading
  as inputs.

Each operation has a partner it is checked against:
- `Text.Strip` against padding, in both directions (`Text.StripPadded`,
  `Text.StripDecomposes`);
- `Text.Without` against concatenation (`Text.WithoutAppend`);
- `VoltageEntry.Normalize` against itself (`VoltageEntry.NormalizeIdempotent`);
- `Decimal.Parse` against `Decimal.Render`, in both directions, and
  against the character grammar `Decimal.Grammar`;
- `Decimal.Value` against the positional reading of all its digits
  (`Decimal.ScaledMagnitude`);
- `VoltageEntry.Judge` against the acceptance definition
  `VoltageEntry.Accepts`, and against one characterisation per rejection
  reason;
- `Session.Run` against the reference `Session.Harvest` of the answers
  before the keyword;
- the loop method `Session.Drive` against the fold `Session.Run`.

The prompt text (`main.py:15`) and the comment above the check
(`main.py:20`) call an entry a "3-digit number". The check itself
(`main.py:21`) tests only the length and the character set, and the model
follows the check. So `12.34` and `0.001` are accepted. `99999` passes the
composition check and is then refused by the range check. `123.456` is
refused because it is longer than five characters
(`VoltageEntry.ExampleTooLong`).

## Model

| member | source | states |
|---|---|---|
| Text.IsSpace | ESP32_ADC_Characterization/main.py:15 | The set of characters `strip()` removes, which is Python's `str.isspace()`: space, tab through carriage return, the four separators U+001C to U+001F, and the Unicode spaces U+0085, U+00A0, U+1680, U+2000 to U+200A, U+2028, U+2029, U+202F, U+205F and U+3000. |
| Text.LeadingSpaces | ESP32_ADC_Characterization/main.py:15 | The count of leading whitespace characters that `strip()` removes. Every character before the count is whitespace, and the one at the count is not. |
| Text.TrailingSpaces | ESP32_ADC_Characterization/main.py:15 | Same as LeadingSpaces, for the trailing whitespace. |
| Text.Strip | ESP32_ADC_Characterization/main.py:15 | `strip()`: the result neither starts nor ends with whitespace, and every character in it comes from the input. |
| Text.StripPadded | ESP32_ADC_Characterization/main.py:15 | Stripping whitespace padding on both sides recovers exactly the word that had no whitespace at its ends. |
| Text.StripDecomposes | ESP32_ADC_Characterization/main.py:15 | The converse of StripPadded: every input is its stripped text with whitespace before and after it, so `strip()` removes nothing but whitespace, and only at the two ends. |
| Text.Lower | ESP32_ADC_Characterization/main.py:15 | `lower()`: the same length, and each character is lower-cased on its own. |
| Text.Without | ESP32_ADC_Characterization/main.py:21 | `replace(c, '')`: the result is no longer than the input and holds exactly the input's characters other than `c`. WithoutCounts adds their multiplicities and WithoutAppend their order. |
| Text.WithoutCounts | ESP32_ADC_Characterization/main.py:21 | Each character other than `c` occurs in the result as many times as in the input, and `c` does not occur. |
| Text.WithoutAppend | ESP32_ADC_Characterization/main.py:21 | Deleting `c` from a concatenation is concatenating the deletions, so the remaining characters keep their order. |
| Text.IsDigits | ESP32_ADC_Characterization/main.py:21 | `isdigit()` over ASCII: true exactly when the text is non-empty and every character is a decimal digit. |
| VoltageEntry.Normalize | ESP32_ADC_Characterization/main.py:15 | `.strip().lower()`: the line as compared. NormalizeShape and NormalizeIdempotent state its properties. |
| VoltageEntry.NormalizeShape | ESP32_ADC_Characterization/main.py:15 | The line as compared is no longer than the one typed, starts and ends with non-whitespace, and holds no upper-case letter. |
| VoltageEntry.NormalizeIdempotent | ESP32_ADC_Characterization/main.py:15 | Normalizing a normalized line changes nothing. |
| VoltageEntry.Composed | ESP32_ADC_Characterization/main.py:21 | The composition check: at most five characters, and after deleting every `.` and then every `-`, the remaining text is a non-empty run of digits. |
| VoltageEntry.ComposedIff | ESP32_ADC_Characterization/main.py:21 | The composition check (`len <= 5` and `replace('.','').replace('-','').isdigit()`) holds exactly when the text has at most five characters, all from `0-9 . -`, including at least one digit. |
| VoltageEntry.KeywordOutsideAlphabet | ESP32_ADC_Characterization/main.py:17-21 | The keyword `end` never passes the composition check. |
| Decimal.Find | ESP32_ADC_Characterization/main.py:22 | The first position of a character: `None` exactly when it is absent; otherwise it is there and nowhere earlier. |
| Decimal.SplitAtPoint | ESP32_ADC_Characterization/main.py:22 | Splitting at the first decimal point: the part before has no point, and the pieces spell the input back. |
| Decimal.SplitAtPointUnique | ESP32_ADC_Characterization/main.py:22 | The split of a point-free prefix, a point and a rest gives back exactly those pieces. |
| Decimal.Scan | ESP32_ADC_Characterization/main.py:22 | Reading sign, whole part and fraction from text: when the pieces are well formed they render back to the text. |
| Decimal.Parse | ESP32_ADC_Characterization/main.py:22 | `float()` on text over `0-9 . -`: a successful parse is a well-formed numeral whose text is the input. `None` is the `ValueError` case. |
| Decimal.ParseRender | ESP32_ADC_Characterization/main.py:22 | Round trip: parsing the text of any well-formed numeral gives that numeral back. |
| Decimal.RenderSign | ESP32_ADC_Characterization/main.py:22 | A numeral's text is non-empty and starts with `-` exactly when the numeral is negative. |
| Decimal.RenderGrammar | ESP32_ADC_Characterization/main.py:22 | The text of every well-formed numeral is in the grammar: an optional leading minus, digits, at most one point, and at least one digit. |
| Decimal.UnsignedParses | ESP32_ADC_Characterization/main.py:22 | Unsigned text of digits and at most one point, with a digit somewhere, splits into a well-formed numeral. |
| Decimal.GrammarParses | ESP32_ADC_Characterization/main.py:22 | Every string in the grammar parses. |
| Decimal.ParseIffGrammar | ESP32_ADC_Characterization/main.py:22-31 | `float()` succeeds on text over `0-9 . -` exactly when the text is in the grammar. Both directions are proved. |
| Decimal.ScanIffGrammar | ESP32_ADC_Characterization/main.py:22 | The scanned numeral is well formed exactly when the text is in the grammar. |
| Decimal.PrefixValueBound | ESP32_ADC_Characterization/main.py:22 | `k` decimal digits are worth less than ten to the `k`. |
| Decimal.FractionValue | ESP32_ADC_Characterization/main.py:22 | The digits after the point, read as a whole number over ten to their count, lie in [0, 1). |
| Decimal.Magnitude | ESP32_ADC_Characterization/main.py:22 | A numeral's magnitude lies between its whole part and the whole part plus one. |
| Decimal.Value | ESP32_ADC_Characterization/main.py:22-23 | A negative numeral has a value of at most 0, and a positive one at least 0. |
| Decimal.DigitsValueAppend | ESP32_ADC_Characterization/main.py:22 | Digit strings compose positionally: the digits of `a` then `b` are worth `a` times ten to the length of `b`, plus `b`. |
| Decimal.ScaledMagnitude | ESP32_ADC_Characterization/main.py:22 | The decimal reading `float()` implements: a numeral's magnitude times ten to the number of fraction digits is the whole number spelled by all its digits with the point removed. |
| VoltageEntry.Classify | ESP32_ADC_Characterization/main.py:11-34 | One typed line: it is the keyword exactly when the stripped, lower-cased line is `end`. An accepted voltage has at most five characters from `0-9 . -` and lies in [0, 999]. |
| VoltageEntry.Judge | ESP32_ADC_Characterization/main.py:17-31 | The decision on normalized text: the keyword exactly for `end`; the composition rejection exactly when the text is not the keyword and fails the composition check; an accepted voltage is short, over the alphabet, and in range. |
| VoltageEntry.ReadVoltage | ESP32_ADC_Characterization/main.py:22-31 | `float()` then the range check: the `ValueError` rejection exactly for ill-formed numerals; otherwise the numeral's value, or a rejection; never the keyword. |
| VoltageEntry.VoltageIffAccepts | ESP32_ADC_Characterization/main.py:21-24 | Text is accepted as voltage `v` exactly when it has at most five characters, all in the alphabet and in the number grammar, and its value `v` lies in [0, 999]. |
| VoltageEntry.NotANumberIff | ESP32_ADC_Characterization/main.py:21-31 | The `ValueError` rejection happens exactly for text that passes the composition check but is not in the number grammar. |
| VoltageEntry.OutOfRangeIff | ESP32_ADC_Characterization/main.py:22-26 | The range rejection happens exactly for composed, grammatical text whose value is outside [0, 999]. |
| VoltageEntry.ForeignTextRejected | ESP32_ADC_Characterization/main.py:21-28 | Empty text, and text with any character other than digits, `.` and `-` (the keyword aside), get the composition rejection. |
| VoltageEntry.NegativeAcceptedOnlyAsZero | ESP32_ADC_Characterization/main.py:22-24 | An accepted entry that starts with `-` has value 0: only negative zero passes `0 <= voltage`. |
| VoltageEntry.EndInAnyCase | ESP32_ADC_Characterization/main.py:15-18 | Any casing of `end`, padded on either side by whitespace, ends the session. |
| VoltageEntry.NormalizeBare | ESP32_ADC_Characterization/main.py:15 | Text with non-space ends and no upper-case letters is unchanged by strip-and-lower. |
| VoltageEntry.ClassifyInAlphabet | ESP32_ADC_Characterization/main.py:15 | Non-empty text over `0-9 . -` is judged exactly as typed. |
| VoltageEntry.EndExamplesBare | ESP32_ADC_Characterization/main.py:15-18 | `end` and `END` end the session. |
| VoltageEntry.EndExamplesPadded | ESP32_ADC_Characterization/main.py:15-18 | ` End ` and a tab/CR/LF-padded `end` end the session. |
| VoltageEntry.RenderAccepts | ESP32_ADC_Characterization/main.py:21-24 | The text of a well-formed numeral of at most five characters with value in [0, 999] meets the acceptance definition. |
| VoltageEntry.NumeralJudged | ESP32_ADC_Characterization/main.py:17-24 | Judged, such a numeral's text is accepted as exactly its value. |
| VoltageEntry.NumeralAccepted | ESP32_ADC_Characterization/main.py:15-24 | Typed as written, such a numeral is accepted as exactly its value. |
| VoltageEntry.BareNumeral | ESP32_ADC_Characterization/main.py:15 | A numeral's text has nothing to strip or lower-case. |
| VoltageEntry.InnerMinusIsNotANumber | ESP32_ADC_Characterization/main.py:21-31 | Composed text with a `-` anywhere but first is rejected through the `ValueError` path. |
| VoltageEntry.SecondPointIsNotANumber | ESP32_ADC_Characterization/main.py:21-31 | Composed text with two decimal points is rejected through the `ValueError` path. |
| VoltageEntry.NumeralOutOfRange | ESP32_ADC_Characterization/main.py:22-26 | A well-formed numeral of at most five characters with value outside [0, 999] gets the range rejection. |
| VoltageEntry.ExampleAccepted | ESP32_ADC_Characterization/main.py:15-24 | `3.30` is accepted as 3.3 volts. |
| VoltageEntry.ExampleNegativeZero | ESP32_ADC_Characterization/main.py:22-24 | `-0` is accepted, as 0 volts. |
| VoltageEntry.ExampleTrailingPoint | ESP32_ADC_Characterization/main.py:22-24 | `5.` is accepted as 5 volts. |
| VoltageEntry.ExampleLeadingPoint | ESP32_ADC_Characterization/main.py:22-24 | `.5` is accepted as 0.5 volts. |
| VoltageEntry.ExampleNegative | ESP32_ADC_Characterization/main.py:22-26 | `-5` gets the range rejection. |
| VoltageEntry.ExampleThousand | ESP32_ADC_Characterization/main.py:22-26 | `1000` gets the range rejection. |
| VoltageEntry.ExampleInnerMinus | ESP32_ADC_Characterization/main.py:21-31 | `1-2` passes the composition check and is then refused by `float()`. |
| VoltageEntry.ExampleTwoPoints | ESP32_ADC_Characterization/main.py:21-31 | `1.2.3` passes the composition check and is then refused by `float()`. |
| VoltageEntry.TwoPointsRejected | ESP32_ADC_Characterization/main.py:21-31 | Any line of at most five characters over `0-9 . -` that starts with a digit and has two decimal points is refused by `float()`. |
| VoltageEntry.ExampleNotComposed | ESP32_ADC_Characterization/main.py:21-28 | The empty line and `abc` get the composition rejection. |
| VoltageEntry.ExampleTooLong | ESP32_ADC_Characterization/main.py:21-28 | `123.456`, a valid number seven characters long, gets the composition rejection. |
| VoltageEntry.PromptForVoltage | ESP32_ADC_Characterization/main.py:13-31 | The re-prompting loop: every line before the answer was rejected, and the answer is the classification of the first line not rejected. If the lines run out first, there is no answer. |
| Session.Measurement | ESP32_ADC_Characterization/main.py:67-73 | A record exists exactly when the read returned a value with the success flag set. It carries the clock reading, both voltages, and difference = serial − measured. |
| Session.Step | ESP32_ADC_Characterization/main.py:53-78 | One pass of the loop. The store is append-only and grows by at most one record, and it grows exactly when prompting, the answer is a voltage and the read succeeded. The new record holds that voltage and the serial value. The phase becomes terminated exactly on the keyword, and export is then requested exactly when the store is non-empty. A terminated session is unchanged. The session invariant is kept. |
| Session.Run | ESP32_ADC_Characterization/main.py:45-78 | Over any sequence of passes the store only grows, the invariant is kept, and a terminated session stays put. |
| Session.UntilEnd | ESP32_ADC_Characterization/main.py:53-60 | The passes the loop acts on form a prefix of the input. All of them are voltages, and the first pass not taken is the keyword. |
| Session.Yield | ESP32_ADC_Characterization/main.py:66-78 | One answer contributes exactly one record when it is a voltage with a successful read, and none otherwise. Each record it contributes is consistent. |
| Session.Harvest | ESP32_ADC_Characterization/main.py:66-78 | Reference store: no more records than passes, every record consistent. |
| Session.RunAppend | ESP32_ADC_Characterization/main.py:47 | Running two sequences of passes in turn is running their concatenation. |
| Session.RunCollects | ESP32_ADC_Characterization/main.py:45-78 | While prompting, the store grows by exactly the reference harvest of the passes before the keyword, in insertion order. |
| Session.RunTerminates | ESP32_ADC_Characterization/main.py:53-60 | The session is terminated after a sequence of passes exactly when one of them is the keyword. |
| Session.AnswersAfterEndIgnored | ESP32_ADC_Characterization/main.py:59-60 | Once the keyword is entered the loop has left: later passes have no effect. |
| Session.SessionOutcome | ESP32_ADC_Characterization/main.py:45-78 | A whole session: it terminates exactly when the keyword is entered; the store is the reference harvest; export is requested exactly when the session is over and the store is non-empty; every record has difference = serial − measured and a measured voltage in [0, 999]. |
| Session.Drive | ESP32_ADC_Characterization/main.py:47-60 | `main`'s loop as a method: the session it leaves equals the fold `Run` over all passes and is valid. It breaks right after the first keyword, having consumed exactly the voltages before it. If there is no keyword, it consumes every pass. |
| Session.FirstKeyword | ESP32_ADC_Characterization/main.py:53-60 | When every pass before position `m` is a voltage and the pass at `m` is the keyword, the passes the loop acts on are exactly the first `m`. |

## Left out

- Serial I/O: `read_serial_data` in `ESP32_ADC_Characterization/src/utils.py`
  opens the port, busy-polls, decodes bytes and parses with the full
  `float()`. It is not part of this model. Its result enters `Session.Step`
  as an input (`ReadOutcome`): `NoResult` stands for a falsy result, and
  `Returned(value, success)` for the pair it returns.
- CSV export: `save_to_csv` writes a file through the `csv` library with
  `%.3f` formatting. It is not part of this model. The session records
  only that export of the whole store was requested (`exported`).
- Wall-clock timestamps: the `HH:MM:SS` reading is an opaque string
  passed in with each pass (`Turn.clock`).
- Console messages, banners and the three different rejection messages:
  they are not modelled as output. The three messages are told apart by
  the `Rejection` reason instead.
- `KeyboardInterrupt`: Ctrl+C exits the prompt or leaves the loop without
  saving. Signals are outside the model.
- The catch-all `except Exception` of the loop: it is modelled only where
  the loop can reach it. A reader pair `(None, True)` makes the
  subtraction raise `TypeError`, and the pass then stores nothing.
- End of input: `input()` raising `EOFError` is not modelled.
  `PromptForVoltage` simply returns no answer when the finite list of
  lines runs out.
- VoltageEntry.PromptForVoltage: lines are paired with answers only
  through this method. `Session.Drive` takes the sequence of answers the
  prompt produced rather than re-running the prompt on raw lines.
- Unicode: `str.isdigit` also accepts non-ASCII digits (for example
  Arabic-Indic digits), and `float()` may accept them too. The model's
  alphabet is ASCII `0-9 . -` only. Text.Lower lower-cases ASCII letters
  only; that suffices for the keyword `end` and for the numeric alphabet.
  `Text.IsSpace` follows Python's `str.isspace` set.
- Floating point: voltages are exact `real`s. Python's `float()` rounds,
  and `serial - measured` is an IEEE subtraction. The range check is
  unaffected: 0 and 999 are exact doubles, and rounding a decimal of at
  most five characters to the nearest double never moves it across
  either bound. `-0` is accepted in both, and in the model it
  is the same value as `0`.
- Decimal.Value: gives the exact decimal value rather than the nearest
  binary double.
- The ESP32 firmware `esp32 code/main.cpp` (ADC sampling and printing over
  serial) is not part of this model.

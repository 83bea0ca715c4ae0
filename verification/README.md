# Gophers LATAM bot: content lookups and the time-zone table

This project models the HTTP-facing service layer of the Gophers LATAM Discord bot
(`bot/service_http.go`) in Dafny and proves properties of the model.

- **Lookups** (`Lookup`): `GetChallenge`, `GetFact`, `GetEvents` and `GetCommand`.
  The store's answer is a parameter: either an error carrying whatever rows were
  filled in, or the rows themselves. The random index drawn by `intnCrypt` is a
  `Draw` supplied by the caller: an index and an optional entropy error.
  Challenges and facts pick the drawn row. Events return every row. A command
  returns the first row. A store error or an empty result returns the zero value
  of the record with an error, except in `GetEvents`, which returns its own slice;
  a failed draw returns the drawn row with the draw's error.
- **Time table** (`Hours`): `GetHours(hour, country)`, step by step.
  1. It splits the time on `:` (`Text.Split`, like Go's `strings.Split`).
  2. It parses both pieces with `strconv.Atoi` (`Numbers.Atoi`, 64-bit range).
  3. It normalises the country and looks it up in the static time-zone table.
  4. It loads the reference zone.
  5. It gathers the table's keys in map order (`CollectKeys`, any order).
  6. It sorts them byte-wise (`Order.SortStrings`, in place on an array).
  7. It writes the reference line, then one line per other country whose zone
     loads (`WriteLines`).

  `GetHours` is an imperative method. It is proved equal to the function
  `Hours.Hours`, and the lemmas state what `Hours.Hours` promises. The output is
  the reference line first, then every other loadable country exactly once, in
  strictly ascending order. Each bad input gets its own error, and the errors are
  checked in a fixed order. Out-of-range times such as `25:99` are accepted.

The collaborators that GetHours calls are fields of an `Env` value:
- `zones`: the contents of `chg.TimeZones`;
- `wordCase`: the country normalisation;
- `loads`: whether `time.LoadLocation` resolves a zone name;
- `clock(h, m, fromZone, toZone)`: the rendered `15:04` wall-clock text of the
  instant built from today's UTC date, `h:m` in `fromZone`, seen from `toZone`. It
  folds together `time.Now`, `time.Date`, `Time.In` and `Time.Format`.

Behaviour of the code worth knowing:
- The three time errors have distinct messages: `invalid time format. Please use HH:MM format`,
  `invalid hour format` and `invalid minute format`.
- `strconv.Atoi` also fails on values outside the 64-bit range, so `"99999999999999999999:00"`
  is refused as an invalid hour although it is all digits.
- When the store call fails, `GetEvents` returns its own partially filled slice with the error.
- When `intnCrypt` fails, `GetChallenge`/`GetFact` still return `res[i]` for the
  drawn index, together with the error.
- Every output line of `GetHours` ends in a newline, the last one included.

## Model

| member | source | states |
|---|---|---|
| Lookup.DrawFits | bot/service_http.go:25-30 | the drawn index is a position of a row whenever the store found rows, the range `intnCrypt(l)` draws from |
| Lookup.GetChallenge | bot/service_http.go:17-33 | a store error is passed through with the zero value; no rows gives ErrNoRows with the zero value; otherwise the drawn row is returned together with the draw's error, and it is one of the rows |
| Lookup.GetFact | bot/service_http.go:35-51 | the same three cases as GetChallenge over the unfiltered fact rows |
| Lookup.GetEvents | bot/service_http.go:53-67 | a store error is returned with the partial rows; otherwise all rows unchanged; the error is nil exactly when the store succeeded with at least one row |
| Lookup.GetCommand | bot/service_http.go:69-83 | a store error or no rows gives the zero value and an error; otherwise the first row with no error |
| Lookup.RandomLookupSucceeds | bot/service_http.go:20-32 | a random lookup reports no error exactly when the store succeeded, found rows and the draw succeeded |
| Lookup.SingleRowIsDeterministic | bot/service_http.go:25-32 | with one row, every valid draw returns that row |
| Lookup.CommandIgnoresLaterRows | bot/service_http.go:77-82 | GetCommand depends only on the first row of a non-empty result |
| Lookup.FailureReturnsPlaceholder | bot/service_http.go:20-28 | on a store error or an empty result the random and keyed lookups return the zero value with a non-nil error |
| Text.Split | bot/service_http.go:87 | strings.Split on ":" always yields at least one piece |
| Text.SplitCount | bot/service_http.go:87-88 | the number of pieces is one more than the number of colons |
| Text.SplitPiecesHaveNoColon | bot/service_http.go:87 | no piece contains the separator |
| Text.JoinSplit | bot/service_http.go:87 | joining the pieces with ":" gives back the input |
| Text.SplitJoin | bot/service_http.go:87 | splitting a join of colon-free pieces gives back those pieces |
| Text.TwoPieces | bot/service_http.go:87-88 | `a:b` with colon-free `a`, `b` splits into exactly `[a, b]` |
| Text.TwoPiecesIffOneColon | bot/service_http.go:87-88 | the split has exactly two pieces if and only if the time contains exactly one colon |
| Numbers.Atoi | bot/service_http.go:92-99 | a parsed value lies in the 64-bit range, comes from an optional sign followed by at least one digit, and is negative only after a '-' |
| Numbers.NatDigitsValue | bot/service_http.go:92-99 | the decimal digits of n read back as n |
| Numbers.AtoiOfDigits | bot/service_http.go:92-99 | an optionally signed digit string within range parses to its value |
| Numbers.AtoiItoa | bot/service_http.go:92-99 | every 64-bit integer survives formatting and parsing |
| Numbers.ItoaHasNoColon | bot/service_http.go:87 | a formatted integer never contains the separator |
| Numbers.AtoiAcceptsOutOfRange | bot/service_http.go:92-99 | "25" and "99" parse as 25 and 99: there is no clock-range check |
| Numbers.AtoiAcceptsSignsAndZeros | bot/service_http.go:92-99 | leading zeros and a leading sign are accepted |
| Numbers.AtoiRefusesNoDigits | bot/service_http.go:92-99 | a string with no digit after its sign is refused |
| Numbers.AtoiRefusesNonDigit | bot/service_http.go:92-99 | any non-digit after the sign is refused |
| Numbers.AtoiRefusesBareSign | bot/service_http.go:92-99 | the empty string and a lone '+' or '-' are refused |
| Numbers.AtoiRefusesDoubleSign | bot/service_http.go:92-99 | a second sign after the first is refused, whatever follows |
| Numbers.AtoiRefusesStrayCharacters | bot/service_http.go:92-99 | letters, blanks and underscores between digits are refused |
| Numbers.AtoiRefusesOutOfRange | bot/service_http.go:92-99 | every signed digit string whose value lies outside the 64-bit range is refused |
| Numbers.AtoiRefusesOverflow | bot/service_http.go:92-99 | one past the largest 64-bit integer is refused |
| Order.LexLessEq | bot/service_http.go:120 | Go's `<=` on strings: byte-wise lexicographic, a proper prefix sorts first |
| Order.LexLess | bot/service_http.go:120 | Go's `<` on strings: `<=` and different |
| Order.LexReflexive | bot/service_http.go:120 | byte-wise string order is reflexive |
| Order.LexTotal | bot/service_http.go:120 | byte-wise string order is total |
| Order.LexAntisymmetric | bot/service_http.go:120 | byte-wise string order is antisymmetric |
| Order.LexTransitive | bot/service_http.go:120 | byte-wise string order is transitive |
| Order.AscendingUnique | bot/service_http.go:116-120 | two strictly ascending sequences with the same elements are equal |
| Order.LeastExists | bot/service_http.go:120 | every non-empty set of strings has a least element |
| Order.SortedKeys | bot/service_http.go:116-120 | the sorted keys are strictly ascending and hold exactly the table's keys |
| Order.SortedPairwise | bot/service_http.go:120 | an adjacently sorted sequence is sorted between any two positions |
| Order.RepeatCounted | bot/service_http.go:120 | an element at two positions is counted at least twice |
| Order.DistinctCountedOnce | bot/service_http.go:116-119 | in a sequence without repeats every string is counted at most once |
| Order.SortedPermutationIsSortedKeys | bot/service_http.go:116-120 | sorting any arrangement of the distinct keys yields SortedKeys, so the map's iteration order does not matter |
| Order.SortStrings | bot/service_http.go:120 | sort.Strings leaves the slice sorted and a permutation of its old contents |
| Order.InsertLast | bot/service_http.go:120 | one insertion step extends the sorted prefix by one, leaves the elements after it untouched and keeps the contents |
| Hours.Message | bot/service_http.go:89-109 | the text of each of the five errors GetHours returns |
| Hours.MessagesDistinct | bot/service_http.go:89-109 | different errors have different messages |
| Hours.Validate | bot/service_http.go:87-110 | an accepted request has a two-piece time whose pieces both parse to its hour and minute, a known normalised country and a loadable zone |
| Hours.Format | bot/service_http.go:132 | one line of the table: the clock glyph, flag, bold country and code-marked time, ending in a newline |
| Hours.Render | bot/service_http.go:122-135 | the buffer holds the lines one after another; it is empty for no lines and ends in a newline otherwise |
| Hours.LineFor | bot/service_http.go:127-132 | a country's line uses its own flag and the reference instant seen from its zone |
| Hours.Shown | bot/service_http.go:124-130 | a key gets a line when it is not the reference country and its zone loads |
| Hours.Selected | bot/service_http.go:123-130 | a key gets a line exactly when it is a walked key, differs from the reference and its zone loads |
| Hours.LinesFor | bot/service_http.go:122-133 | one line per country, in the same order |
| Hours.CollectKeys | bot/service_http.go:116-119 | the gathered keys are exactly the table's keys, each once |
| Hours.WriteLines | bot/service_http.go:122-133 | the loop writes the reference line and then one line for each selected key, in the walked order |
| Hours.HoursLines | bot/service_http.go:116-133 | the lines written on success: the reference country, then the shown keys in sorted order |
| Hours.Written | bot/service_http.go:122-133 | the buffer after the walk has reached a given prefix of the sorted keys |
| Hours.Hours | bot/service_http.go:85-136 | the error is nil exactly when validation passes, and the text is empty whenever there is an error |
| Hours.GetHours | bot/service_http.go:85-136 | returns exactly Hours.Hours: an error with empty text on a failed check, else the rendered lines of the reference and the sorted loadable countries |
| Hours.MalformedTimeFails | bot/service_http.go:87-90 | a time without exactly one colon fails with the time-format error |
| Hours.MalformedTimeExamples | bot/service_http.go:87-90 | "10" and "1:2:3" fail with the time-format error |
| Hours.ValidationOrder | bot/service_http.go:87-110 | each error is returned exactly when every earlier check passed and its own check failed |
| Hours.TimeErrorsComeFirst | bot/service_http.go:87-99 | a bad time fails with a time error whatever the country and the table |
| Hours.NoRangeCheck | bot/service_http.go:92-99 | any 64-bit hour and minute, formatted as `h:m`, are accepted as they are |
| Hours.ParsedTimeAccepted | bot/service_http.go:87-99 | a time whose two pieces parse is never rejected by the time checks |
| Hours.OutOfRangeTimeSplits | bot/service_http.go:87 | "25:99" splits into "25" and "99" |
| Hours.OutOfRangeTimeAccepted | bot/service_http.go:92-110 | "25:99" for a known country with a loadable zone passes validation with hour 25 and minute 99 |
| Hours.SameWordCaseSameResult | bot/service_http.go:101-105 | two spellings that normalise to the same key give the same result |
| Hours.SelectedAscending | bot/service_http.go:123-130 | skipping countries keeps a strictly ascending walk strictly ascending |
| Hours.ShownAmongStep | bot/service_http.go:123-130 | the shown keys of a walk are those of its prefix plus its last key if shown |
| Hours.SelectedCount | bot/service_http.go:123-130 | of distinct keys, exactly the shown ones get a line |
| Hours.ReferenceLineFirst | bot/service_http.go:122 | the lines of a validated request are non-empty and the first is the reference country's flag, name and time in its own zone |
| Hours.LinesAfterReference | bot/service_http.go:122-133 | the lines after the first name the selected sorted keys, one each, in order |
| Hours.LinesAfterFirst | bot/service_http.go:122-133 | after the first line, the lines name the remaining walked keys one each, in order |
| Hours.OtherLinesAscending | bot/service_http.go:116-133 | the lines after the first are in strictly ascending country order and never repeat the reference |
| Hours.OtherLinesComplete | bot/service_http.go:123-133 | a country has a line after the first exactly when it is in the table, differs from the reference and its zone loads |
| Hours.LineCount | bot/service_http.go:122-133 | there is one line more than there are shown countries |
| Hours.CountriesOfLines | bot/service_http.go:122-133 | the countries named by the lines are the countries passed in |
| Hours.CountriesOfHoursLines | bot/service_http.go:116-133 | the lines of a validated request name the reference country, then the selected sorted keys |
| Hours.ThreeSorted | bot/service_http.go:116-120 | three keys a < b < c are distinct and sort to [a, b, c] |
| Hours.ThreeTable | bot/service_http.go:116-120 | a table of exactly three ascending keys sorts to those keys |
| Hours.Kept | bot/service_http.go:127-130 | a key is kept exactly when its zone loads |
| Hours.ThreeSelected | bot/service_http.go:123-130 | walking [a, b, c] with c as the reference: a and then b are shown, each exactly when its zone loads |
| Hours.ThreeKeys | bot/service_http.go:116-133 | a table of keys a < b < c asked about c names c, then a, then b, each of a and b exactly when its zone loads |
| Hours.ThreeCountryExample | bot/service_http.go:116-133 | Argentina, Chile and Mexico asked about Mexico: Mexico, then Argentina, then Chile, each of the last two exactly when its zone loads |

## Left out

- The store queries (`storage.Get().Find` and their column filters) are not modelled. The store's answer is an input to each lookup.
- `intnCrypt`'s uniform, cryptographically secure draw is not modelled. The index and its error are an input. When rows exist, the index is required to be in range, which is the selector's own contract.
- Lookup.GetChallenge, Lookup.GetFact: errors other than "no rows" are an untyped `Failure(message)`. The store's real error values are not modelled.
- Go returns pointers into `res`. The model returns values, so aliasing of the returned record with the slice is not captured.
- `time.Now`, `time.Date`, `Time.In` and `Time.Format` are modelled by the `clock` parameter. So the carry of out-of-range hours and minutes into the next hour or day (e.g. `25:99`) is the clock's business and is not computed here.
- `time.LoadLocation` and the time-zone database are modelled by the `loads` predicate. The zone rules themselves are not modelled.
- `wordCase` is a parameter, so its capitalisation rules are not modelled. The contents of `chg.TimeZones` are also a parameter: the `zones` map.
- Numbers.Atoi: models `strconv.Atoi` on a 64-bit platform only. The 32-bit range is not modelled.
- Go's map iteration order is modelled as an arbitrary choice in `CollectKeys`. `Order.SortedPermutationIsSortedKeys` proves that it cannot change the output.
- The `bytes.Buffer` is a string that the loop appends to. Its growth and allocation are not modelled.

# Flight schedule display — a Dafny model

A console program keeps a list of flights (ID, airline, origin, destination,
departure date) and a list of airline names. It prints the flights as a
fixed-width text table and lets the user add airlines, add flights and
change a flight's date. This project models the parts of that program that
compute rather than converse, and proves what they guarantee.

- **Table rendering** (`src/flightScheduleDisplay.js`): the five columns
  (widths 9, 15, 20, 20, 14) and their headings, `createTableHeader`,
  `createLineInColumn` and `createFlightEntry`. Module `ScheduleDisplay`,
  file `display.dfy`.
- **Word wrapping** (`wrapString`): greedy wrapping to a width, with
  over-long words broken across lines with a trailing hyphen. Module
  `LineWrap`, file `wrap.dfy`. The cases the unit tests check are in
  module `WrapExamples`, file `wrap_examples.dfy`.
- **Validators** (`isValidDateString`, `generateFlightId`): DD/MM/YYYY
  dates, and flight IDs made from the first two visible characters of the
  airline name, upper-cased. Module `Validation`, file `validation.dfy`.
  The unit tests' cases are in module `ValidationExamples`, file
  `validation_examples.dfy`.
- **Menu updates** (`src/index.js`): `addAirline`, the loop that offers
  names until one is added, the case-insensitive flight-ID lookup, and the
  date change. Module `Flights`, file `flights.dfy`.
- **Shared string operations** (`trim`, `toLowerCase`/`toUpperCase`,
  `split`/`join` on one character, `repeat`). Module `Strings`, file
  `strings.dfy`.

Everything is pure functions over immutable values. A JavaScript
`RangeError` is modelled as `None`. That error comes from
`" ".repeat(n)` with a negative count, which happens when a cell's text is
wider than its column. The `undefined` that `generateFlightId` returns is
also `None`.

`src/utilities.js` is not part of this model. `wrapString`,
`isValidDateString` and `generateFlightId` are modelled on the outputs
that `tests/utilities.test.js` expects. Where those outputs leave a choice
open, the model makes one, and "## Left out" lists each such choice.

- **Wrapping.** Words are placed greedily. A word that does not fit after
  the current line and a space starts a new line. A word wider than the
  width is broken into pieces of width − 1 characters, each followed by a
  hyphen. Its first piece continues a non-empty current line when a
  space, at least one character and the hyphen still fit. The tests'
  `"ex se-"` and `"bbb c-"` lines show this. Otherwise the word starts on
  a fresh line. What is left of a broken word after its last piece becomes
  the current line, so the next word can follow it. In `"bbb c-"`, the
  `c` word's first piece follows the `b` word's rest `"bbb"`. A text that
  fits is printed with its words joined by single spaces. Wrapping an
  already wrapped text again at the same width leaves it unchanged
  (module `Rewrap`, file `rewrap.dfy`).
- **Dates.** A valid date splits at `/` into exactly three parts of two,
  two and four decimal digits, with day 1–31, month 1–12 and year ≥ 1.
- **Flight IDs.** The first two non-whitespace characters, upper-cased,
  then a suffix. The suffix is whatever the program appends; here it is a
  parameter.
  A name with fewer than two such characters gives no ID.

## Model

| member | source | states |
|---|---|---|
| ScheduleDisplay.HeaderLength | src/flightScheduleDisplay.js:6-32 | the heading line built from the five column widths and headings is 94 characters: a leading bar and, per column, a space, the heading padded to the wider of width and heading, a space and a bar |
| ScheduleDisplay.HeaderCellsLength | src/flightScheduleDisplay.js:22-32 | the cells the header loop appends are as long as the columns' spans added up |
| ScheduleDisplay.TableHeaderLines | src/flightScheduleDisplay.js:19-37 | the header is exactly two lines, the heading line and a divider of '=' of the same length (94), with no line feed inside the heading line |
| ScheduleDisplay.LineInColumnSpec | src/flightScheduleDisplay.js:47-60 | a cell exists iff the shown text fits the column width; it is then width + 3 long, starts with the text, is space-padded to the width and ends in space, bar, space (a blank cell past the end of the content) |
| ScheduleDisplay.CellsSpec | src/flightScheduleDisplay.js:88-93 | a row's five cells exist iff every column's line fits, and cell m is exactly column m's `createLineInColumn` result |
| ScheduleDisplay.RowDefined | src/flightScheduleDisplay.js:87-94 | building row line i throws (None) exactly when some column's line i is wider than that column |
| ScheduleDisplay.RowLayout | src/flightScheduleDisplay.js:88-93 | a built row line is 95 characters, starts with a bar and a space and ends with space, bar, space |
| ScheduleDisplay.RowColumns | src/flightScheduleDisplay.js:88-93 | column m's cell sits at its fixed offset in the row line (after the leading bar, a space and the earlier columns' cells) |
| ScheduleDisplay.CellStartValues | src/flightScheduleDisplay.js:6 | the cells start at offsets 0, 12, 30, 53 and 76 of the row body, which ends at 93 |
| ScheduleDisplay.RowHasNoLineFeed | src/flightScheduleDisplay.js:88-93 | when every column's line fits and holds no line feed, the row line exists, is 95 long and holds no line feed |
| ScheduleDisplay.TrimRow | src/flightScheduleDisplay.js:96-97 | trimming a row line drops exactly its one trailing space, leaving its first 94 characters |
| ScheduleDisplay.RowLinesSpec | src/flightScheduleDisplay.js:85-94 | the first n row lines all exist iff each does, and then the i-th built line is row line i |
| ScheduleDisplay.MaxLines | src/flightScheduleDisplay.js:77-83 | the row count is an upper bound on every column's line count and is reached by some column (0 for no columns) |
| ScheduleDisplay.ColumnLines | src/flightScheduleDisplay.js:69-75 | each column holds its field wrapped to the column width and split at line feeds: at least one line, none wider than the column, none with a line feed |
| ScheduleDisplay.FlightWellWrapped | src/flightScheduleDisplay.js:69-75 | every flight's wrapped columns meet the layout's precondition (every line fits, no line feeds) |
| ScheduleDisplay.EntryLayoutOf | src/flightScheduleDisplay.js:85-99 | for any contents the wrapper can produce, the entry exists and splits into as many rows as the longest column has lines, each row line trimmed to 94 characters, then a divider of 95 '-' |
| ScheduleDisplay.EntryLines | src/flightScheduleDisplay.js:96-99 | the entry's lines are exactly the trimmed row lines followed by the divider of 95 '-' |
| ScheduleDisplay.EntryLayout | src/flightScheduleDisplay.js:67-100 | `createFlightEntry` never throws for any flight, and its lines are the rows of the longest wrapped field, each trimmed to 94 characters, then 95 '-' |
| ScheduleDisplay.EntryRowCount | src/flightScheduleDisplay.js:69-83 | the entry has as many rows as the field that wraps to the most lines, and no field wraps to more |
| ScheduleDisplay.SingleRowIffFieldsFit | src/flightScheduleDisplay.js:69-87 | an entry is one row iff every field, with its whitespace collapsed, fits its column |
| ScheduleDisplay.HeadingRow | src/flightScheduleDisplay.js:88-93 | a row built from the headings themselves is the heading line plus one space |
| ScheduleDisplay.HeaderIsHeadingRow | src/flightScheduleDisplay.js:20-31 | the header line is that heading row trimmed, so header and entries line up column for column |
| LineWrap.WrapLinesFit | tests/utilities.test.js:10-54 | wrapping gives at least one line; no printed line (hyphen included) is wider than the width, a hyphenated line fills it exactly, and no line has stray whitespace |
| LineWrap.WrapStringLines | tests/utilities.test.js:10-54 | the wrapped string splits at line feeds into exactly the printed wrapped lines, each at most the width |
| LineWrap.WrapLinesRejoins | tests/utilities.test.js:20-54 | removing the break hyphens and joining the lines gives back the text's words separated by single spaces |
| LineWrap.WrapKeepsWords | tests/utilities.test.js:20-54 | wrapping neither loses, adds nor reorders words |
| LineWrap.WrapLinesGreedy | tests/utilities.test.js:15-25 | a line ends at a word boundary only when the next line's first word would not fit after a space, and, when that word is broken from a fresh line, not even one character and a hyphen would have fitted |
| LineWrap.PlaceUnbroken | tests/utilities.test.js:10-18 | placing a word leaves no hyphenated line iff the word is no wider than the width |
| LineWrap.WrapFromUnbroken | tests/utilities.test.js:10-18 | wrapping a word list from any current line hyphenates no line iff every word fits the width |
| LineWrap.ShortWordsUnbroken | tests/utilities.test.js:10-18 | no printed line is hyphenated iff every word of the text fits the width ("Too long" at 4 against "Long" at 3); texts that also hold an over-long word are covered by `LineWrap.OnlyLongWordsBroken` |
| LineWrap.ChopSplitsLong | tests/utilities.test.js:27-54 | each piece of a chopped word is followed by a further piece, and the last piece and the rest together are wider than the width |
| LineWrap.PlaceSplitsLong | tests/utilities.test.js:10-25 | a placement hyphenates a line only inside its word when that word is wider than the width, and the pieces on either side of each hyphen add up to more than the width unless the word goes on |
| LineWrap.WrapFromSplitsLong | tests/utilities.test.js:10-25 | wrapping a word list from any current line keeps every hyphen inside a word wider than the width |
| LineWrap.OnlyLongWordsBroken | tests/utilities.test.js:10-25 | for every text, including one that mixes short and over-long words ("is a", "to be" beside "compl-ex"), the last line is not hyphenated and every hyphenated line splits a word wider than the width: the piece before the hyphen and the piece after it are wider than the width, or the word continues onto a further hyphenated line; so a word that fits is never broken |
| WrapExamples.ShortWordSplitExcluded | tests/utilities.test.js:15-18 | lines that hyphenate a 4-letter word at width 6 beside an 8-letter one break that rule, so the wrapper never prints them |
| LineWrap.OneLineIffFits | tests/utilities.test.js:15-18 | the text wraps to one line iff its words joined by single spaces fit the width, and that line is then the joined words |
| LineWrap.ShortTextOneLine | tests/utilities.test.js:15-18 | a text no longer than the width stays on one line |
| LineWrap.NoBreakWhileFitting | tests/utilities.test.js:15-25 | while the current line and the remaining words fit, no line is broken |
| LineWrap.ChopSpec | tests/utilities.test.js:10-13 | a word is broken into hyphenated pieces of width − 1 characters and a rest of at most the width; the pieces and the rest rejoin to the word, and there are no pieces iff the word fits |
| LineWrap.PlaceGreedy | tests/utilities.test.js:20-25 | placing one word closes only lines the word could not have joined |
| LineWrap.WordOfExactWidth | tests/utilities.test.js:27-54 | a word exactly as wide as the width is one line and is not broken |
| LineWrap.WordOverWidthByOne | tests/utilities.test.js:10-13 | a word one longer than the width becomes width − 1 characters plus a hyphen, then the last two characters |
| LineWrap.WrapSplitsBack | tests/utilities.test.js:10-54 | lines without line feeds, joined with line feeds, split back into themselves |
| LineWrap.UnwordsNoLonger | tests/utilities.test.js:15-18 | collapsing whitespace between words never makes a text longer |
| Rewrap.NormalUnwords | tests/utilities.test.js:15-18 | a tidy, single-spaced text is its own words joined by single spaces |
| Rewrap.PrintedSettled | tests/utilities.test.js:10-54 | the printed lines of a wrap are tidy, single-spaced and within the width; none is empty unless it is the only one; none could take the next line's first word after a space |
| Rewrap.WrapSettled | tests/utilities.test.js:10-54 | lines of that kind, joined by line feeds, wrap back to themselves, one unbroken line each |
| Rewrap.RewrapLines | tests/utilities.test.js:10-54 | re-wrapping a wrapped string at the same width gives each of its printed lines back as one unbroken line |
| Rewrap.WrapIdempotent | tests/utilities.test.js:10-54 | wrapping is idempotent: wrapping the wrapped string again at the same width gives the same string |
| WrapExamples.WrapLong | tests/utilities.test.js:10-13 | "Long" wrapped to 3 is "Lo-\nng" |
| WrapExamples.WrapTooLong | tests/utilities.test.js:15-18 | "Too long" wrapped to 4 is "Too\nlong" |
| WrapExamples.TwoWordsString | tests/utilities.test.js:15-18 | two words that each fit but not together go on two lines with no hyphen |
| WrapExamples.SentenceText | tests/utilities.test.js:20-25 | any ten words with the lengths of the sentence in the unit test print at width 6 as the ten lines the test expects, hyphens and all |
| WrapExamples.LongWordsText | tests/utilities.test.js:27-54 | words of 35, 28 and 27 repeated characters print at width 6 as the eighteen lines the test expects |
| Validation.NumberOfDigits | tests/utilities.test.js:68-84 | a number below 10^count written with count digits reads back as itself |
| Validation.DigitsOfNumber | tests/utilities.test.js:68-84 | a digit string is its own value written back with as many digits |
| Validation.ParseParts | tests/utilities.test.js:62-114 | text made of three slash-free parts is a date iff the parts have 2, 2 and 4 digits and the day, month and year are in range |
| Validation.ParseFormat | tests/utilities.test.js:56-120 | every in-range date with a year of at most four digits, written DD/MM/YYYY, is accepted and read back as itself |
| Validation.FormatParse | tests/utilities.test.js:56-120 | every accepted string is an in-range date written exactly DD/MM/YYYY |
| Validation.ValidIffFormatted | tests/utilities.test.js:56-120 | a string is a valid date iff it is some in-range date written DD/MM/YYYY |
| Validation.FirstVisible | tests/utilities.test.js:199-212 | the first non-whitespace position of a non-blank name, with only whitespace before it |
| Validation.FlightIdSpec | tests/utilities.test.js:122-212 | no ID iff the name has no two non-whitespace characters; otherwise the ID is those first two, upper-cased, then the suffix |
| Validation.LeadingLetters | tests/utilities.test.js:143-167 | a name starting with two visible characters gives those two, upper-cased, then the suffix |
| Validation.FlightIdPrefixUpper | tests/utilities.test.js:169-191 | every generated ID starts with two characters that upper-casing leaves unchanged |
| Validation.FlightIdIgnoresCase | tests/utilities.test.js:158-197 | names equal ignoring case give the same ID |
| Validation.NonBlankIgnoringCase | tests/utilities.test.js:158-197 | names equal ignoring case keep the same visible characters, ignoring case |
| ValidationExamples.TwelfthOfDecember2012 | tests/utilities.test.js:116-120 | "12/12/2012" is valid and is 12 December 2012 |
| ValidationExamples.NotADate | tests/utilities.test.js:58-60 | "notavaliddate" is rejected |
| ValidationExamples.FourSegments | tests/utilities.test.js:63-66 | a date with four segments is rejected |
| ValidationExamples.OneDigitDay | tests/utilities.test.js:69-72 | a one-digit day is rejected |
| ValidationExamples.OneDigitMonth | tests/utilities.test.js:75-78 | a one-digit month is rejected |
| ValidationExamples.ThreeDigitYear | tests/utilities.test.js:81-84 | a three-digit year is rejected |
| ValidationExamples.DayAboveThirtyOne | tests/utilities.test.js:87-90 | "32/81/2812", the test's string, is rejected |
| ValidationExamples.DayThirtyTwo | tests/utilities.test.js:87-90 | day 32 is rejected in an otherwise valid date, "32/12/2012" |
| ValidationExamples.MonthAboveTwelve | tests/utilities.test.js:93-96 | month 13 is rejected |
| ValidationExamples.DayZero | tests/utilities.test.js:99-102 | day 00 is rejected |
| ValidationExamples.MonthZero | tests/utilities.test.js:105-108 | month 00 is rejected |
| ValidationExamples.YearZero | tests/utilities.test.js:111-114 | year 0000 is rejected |
| ValidationExamples.QantasPrefix | tests/utilities.test.js:126-162 | "Qantas", "qantas" and "qAnTas" give IDs starting "QA" |
| ValidationExamples.JetstarPrefix | tests/utilities.test.js:148-152 | "Jetstar" and "jetStar" give IDs starting "JE" |
| ValidationExamples.VirginPrefix | tests/utilities.test.js:153-167 | "Virgin" and "VIRGIN" give IDs starting "VI" |
| ValidationExamples.MixedCasePrefix | tests/utilities.test.js:182-191 | "aIrLiNe" gives an ID starting "AI" |
| ValidationExamples.NoPrefix | tests/utilities.test.js:130-140 | "", "   \n", "A" and " A " give no ID |
| Flights.AddAirlineSpec | src/index.js:232-252 | the list grows iff the name is neither blank nor equal, ignoring case, to a listed airline; it then gains exactly that name at the end, and is otherwise unchanged |
| Flights.AddAirlineKeeps | src/index.js:232-252 | the listed airlines keep their places, the list grows by at most one, and a non-blank name is listed afterwards |
| Flights.AddAirlinePreservesGood | src/index.js:232-252 | a list with no blank names and no duplicates ignoring case keeps both properties |
| Flights.AddAirlineIdempotent | src/index.js:232-252 | adding the same name twice is adding it once |
| Flights.InitialAirlinesGood | src/index.js:27 | the initial airlines have no blanks and no duplicates ignoring case |
| Flights.OfferAirline | src/index.js:156-157 | one attempt grows the list iff `addAirline` accepts the name, by exactly that name at the end, and otherwise leaves it unchanged |
| Flights.AddUntilAccepted | src/index.js:149-158 | offering names in turn stops at the first one `addAirline` takes, which is then appended; when none is taken, the list is unchanged and all names were offered |
| Flights.OneLetterAirline | src/index.js:156-173 | a new one-letter airline name is added, yet no flight ID can be generated from it |
| Flights.FlightIndexFromSpec | src/index.js:105-110 | the lookup gives the first flight whose ID matches ignoring case, or -1 iff none matches |
| Flights.FindFlight | src/index.js:96-116 | the scan returns the first flight whose ID matches ignoring case, or -1 exactly when none does |
| Flights.FlightIndexIgnoresCase | src/index.js:105-106 | IDs equal ignoring case find the same flight |
| Flights.ChangeDateOnly | src/index.js:123-124 | the date update sets the selected flight's date and changes nothing else |
| Flights.ChangeDateKeepsLookup | src/index.js:105-124 | after a date change the same ID finds the same flight |
| Flights.ChangeDateKeepsDatesValid | src/index.js:123-124 | when every date is valid and the new date passes the date prompt's check, every date stays valid |
| Strings.TrimEmptyIffBlank | src/index.js:233 | a name trims to "" iff it is all whitespace |
| Strings.SplitJoin | src/flightScheduleDisplay.js:69-98 | splitting at a character undoes joining with it when no part contains it |

## Left out

- Console input and output are left out: the menus, `readline-sync`
  prompts, `console.log`/`console.clear`, `printScheduleTable`,
  `logWrapped` and `logSeparated`. The values the prompts supply are
  parameters.
- `src/utilities.js` is not part of this model. Its three functions are
  modelled on the outputs their unit tests expect. The choices below are
  the model's own, because no test decides them.
- `LineWrap.Words`: any whitespace separates words, and runs of it
  collapse to one space. That includes tab, carriage return and line feed.
  So a line feed in a field does not force a line break: `"Gold\nCoast"`
  at width 15 prints as `"Gold Coast"`. The tests only use single spaces.
  `ScheduleDisplay.SingleRowIffFieldsFit` ("with its whitespace
  collapsed") and `Rewrap.WrapIdempotent` depend on this choice.
- `LineWrap.Place`: after the last piece of a broken word, a following
  word that fits joins that line. For example, `"Lengt a"` at width 4
  prints as `"Len-\ngt a"`. The tests show this only where the following
  word is itself broken (`"bbb c-"`), not for a following word that fits
  whole.
- `Validation.GenerateFlightId`: the two characters are the first two
  non-whitespace ones wherever they stand, even with whitespace between
  them, so `"A B"` gives `"AB"` and then the suffix. The tests only cover
  whitespace around a single visible character (`" A "`, no ID).
- Lengths are counted in Unicode code points, one per `char`. JavaScript's
  `.length` counts UTF-16 code units instead. The program uses it for the
  padding in `createLineInColumn` (`src/flightScheduleDisplay.js:52`), the
  heading padding (`src/flightScheduleDisplay.js:26`), the header's `=`
  divider (`src/flightScheduleDisplay.js:34`) and the entry's `-` divider
  (`src/flightScheduleDisplay.js:99`). So for text with
  characters outside the Basic Multilingual Plane, such as emoji, the
  program pads and draws one column per code unit, while the model counts
  one per character. The two agree on all other text.
- `generateFlightId`'s suffix is a parameter `rest`. `src/utilities.js` is
  not part of this model, so how the program chooses the suffix is not shown;
  only the literal IDs at `src/index.js:31`, `:38` and `:45` show three digits.
- Adding a new flight (`src/index.js:162-179`) is left out. It only builds
  a record from prompt answers and `generateFlightId`, and appends it.
- `LineWrap.WrapLines` requires a width of at least 2. Below that a broken
  piece plus its hyphen cannot fit. The visible calls
  (`src/flightScheduleDisplay.js:69-75`) use the column widths 9, 15, 20, 20
  and 14. The prompts at `src/index.js:73`, `:102`, `:128`, `:153`, `:163`,
  `:166`, `:186` and `:210` call `wrapString` without a width, so they use a
  default that is not shown here.
- `Validation.ParseDate` checks each part's range separately, as the tests
  do. It does not reject 31 April or 29 February in a non-leap year.
- `Validation.ParseFormat` and `Validation.ValidIffFormatted` cover years of
  at most 9999 only, because the format has exactly four year digits.
- `trim`, `toLowerCase` and `toUpperCase` act on ASCII whitespace and
  letters only. Other Unicode characters are kept as they are.
- `ScheduleDisplay.LineInColumn` requires a column index below 5. The
  program only calls it with 0–4, and past that `columnDimensions` gives
  `undefined`.
- `Flights.AddUntilAccepted` models a finite list of attempts. The program
  prompts until a name is taken, which may be never. The flight-ID lookup's
  re-prompt loop (`src/index.js:99-116`) is modelled by one scan,
  `Flights.FindFlight`, per entered ID.
- `addAirline` pushes onto the caller's array and returns the same array.
  The model returns the new list instead, which is the value the caller
  assigns back.
- `WrapExamples.SentenceText` and `WrapExamples.LongWordsText` are stated
  for any words of the lengths the unit tests use, not for the literal strings.
  `WrapExamples.WrapTooLong` writes its input as `"Too" + " " + "long"`.
- The divider under an entry is 95 '-', one longer than the trimmed rows
  above it. `ScheduleDisplay.EntryLayoutOf` states this as the program
  behaves and does not correct it.
- A one-letter airline name is accepted but gives no flight ID, so the
  program would then store an `undefined` ID (`src/index.js:171-178`).
  Every later search that reaches that flight would then throw at
  `src/index.js:106`, which calls `toLowerCase` on the ID.
  `Flights.OneLetterAirline` records this, and the flight-adding path that
  stores it is left out.

# KarinPulse validators and history aggregation in Dafny

KarinPulse is a mobile app for daily mood check-ins. This project models two
parts of it in Dafny and proves properties about them.

- **Form validators** (`src/utils/validators.ts`), in module `Validators` (`validators.dfy`):
  - `validateRUT`: cleans a Chilean national ID (RUT), rejects it on length or on a
    non-digit body, recomputes the modulo-11 check character and, when the RUT is
    valid, builds the display form `12.345.678-5`.
  - `formatRUT`: the second formatter. It is gated only on the cleaned length.
  - `validateEmail`: the regular-expression shape check.
  - `validatePassword`: the ordered list of password-rule violations.
- **History aggregation** (`src/screens/HistoryScreen.tsx`), in module `History` (`history.dfy`):
  - the 30-slot calendar;
  - its rows of seven days;
  - the weekly tally per mood;
  - the predominant mood and the figures of the summary card.

The code that works by changing things step by step stays imperative:
- the weighted-sum loop of `validateRUT` (`Validators.ValidateRut`);
- the pushes of `validatePassword`;
- the calendar loop, the stride-7 slicing loop and the tally loop.

Each of these is a method whose postcondition ties its result to a specification
function. Lemmas then prove what the source promises about those functions.

Regular expressions are modelled by what they match:
- `[.\s-]` is `IsSeparator`.
- `\B(?=(\d{3})+(?!\d))` is `DotBefore`: a word-boundary test plus a look-ahead over
  groups of three digits. `GroupsAheadIsRun` proves the look-ahead equivalent to "the
  digit run here is a positive multiple of three". `InsertDotsGroups` proves the
  replacement equal to a reference grouping (`Group`, a dot before every third digit
  from the right) on digit strings.
- The e-mail pattern is `ValidateEmail`: some '@' and some later '.' split the string
  into three non-empty runs without whitespace or '@'.

`\s` is the full ECMAScript WhiteSpace and LineTerminator set. The `\w`/`\B` test of
the grouping regular expression counts only ASCII letters, digits and `_` as word
characters, as JavaScript does without the `u` flag.

A JavaScript string's `.length` counts UTF-16 code units, so a character above U+FFFF
counts twice. `Utf16Length` models it:
- the password length rule and the gate of `formatRUT` use it;
- the length gate of `validateRUT` counts characters in the model. The two counts
  differ only on a cleaned RUT with a character above U+FFFF. `RutRejectsAstral`
  proves that such a RUT is rejected and echoed, as the source is, at its length
  gate or its digit test: the first half of the character's surrogate pair always
  lands in the body. The two gates can stop at different tests, but the outcome is
  the same. `RutRejectsUtf16Length` proves that every cleaned RUT
  whose UTF-16 length is outside 8..9 is rejected and echoed.

Dates are abstracted:
- an entry's `created_at` is an integer instant, in milliseconds since the epoch (UTC);
- the date part of its ISO text is `DayOf`, the instant divided by the number of
  milliseconds in a day;
- the calendar's `today` and the weekly cutoff `sevenDaysAgo` are parameters.

## Model

| member | source | states |
|---|---|---|
| `Validators.Clean` | src/utils/validators.ts:16 | the cleaned RUT is no longer than the input and contains no `.`, `-`, whitespace or lower-case letter |
| `Validators.CleanKeepsOthers` | src/utils/validators.ts:16 | for all strings `a`, `b` and every character `c`, cleaning `a`, `c`, `b` gives the cleaned `a`, then nothing if `c` is `.`, `-` or whitespace and `c` upper-cased otherwise, then the cleaned `b` |
| `Validators.CleanIdempotent` | src/utils/validators.ts:16 | cleaning twice gives the same result as cleaning once |
| `Validators.CleanIgnoresCase` | src/utils/validators.ts:16 | inputs that differ only in ASCII letter case clean to the same string |
| `Validators.CheckCharMod11` | src/utils/validators.ts:50-55 | the expected check character is a digit or `K`, and it is the only check character that makes the weighted sum plus its value (`K` = 10) a multiple of 11 |
| `Validators.ValidateRut` | src/utils/validators.ts:10-69 | the method (clean, the two early rejections, the reverse loop with multipliers 2..7 cycling, the check-character comparison, formatting) returns exactly `RutOutcome(rut)` |
| `Validators.RutClean` | src/utils/validators.ts:16-68 | every path returns `clean` equal to the cleaned input, and cleaning `clean` again changes nothing |
| `Validators.RutRejectsLength` | src/utils/validators.ts:19-25 | a cleaned length below 8 or above 9 gives `isValid = false` and `formatted` equal to the raw input |
| `Validators.RutRejectsNonDigitBody` | src/utils/validators.ts:28-38 | a non-digit anywhere in the body (all but the last cleaned character) gives `isValid = false` and `formatted` equal to the raw input |
| `Validators.RutRejectsAstral` | src/utils/validators.ts:19-38 | a cleaned character above U+FFFF (two UTF-16 units in JavaScript) gives `isValid = false` and `formatted` equal to the raw input |
| `Validators.RutRejectsUtf16Length` | src/utils/validators.ts:19-25 | a cleaned `.length` below 8 or above 9 counted in UTF-16 units gives `isValid = false` and `formatted` equal to the raw input |
| `Validators.RutValidIff` | src/utils/validators.ts:41-57 | `isValid` holds iff the cleaned length is 8 or 9, the body is all digits, and the last character is a check character that brings the weighted sum to a multiple of 11 |
| `Validators.RutFormattedShape` | src/utils/validators.ts:60-62 | a valid RUT is displayed as its body with a `.` before every third digit from the right, then `-` and the check character |
| `Validators.RutFormattedRoundTrip` | src/utils/validators.ts:60-62 | cleaning the display form of a valid RUT gives back `clean` |
| `Validators.RutDependsOnClean` | src/utils/validators.ts:16-68 | inputs with the same cleaned form get the same `isValid` and `clean`, and the same `formatted` when valid |
| `Validators.RutIgnoresCase` | src/utils/validators.ts:16 | inputs that differ only in letter case get the same `isValid` and `clean` |
| `Validators.Rut12345678` | src/utils/validators.ts:16-62 | for the body `12345678` and any non-separator check character, `clean` is the body and the upper-cased character; the RUT is valid iff that character is `5`; then it is displayed as `"12.345.678-5"`, otherwise echoed |
| `Validators.RutExampleValid` | src/utils/validators.ts:41-62 | `"12345678-5"` is valid, with display form `"12.345.678-5"` and clean form `"123456785"` |
| `Validators.RutExampleOnes` | src/utils/validators.ts:41-62 | `"11.111.111-1"` is valid, with clean form `"111111111"` |
| `Validators.RutExampleShort` | src/utils/validators.ts:19-25 | `"1-9"` is rejected and echoed unchanged |
| `Validators.RutExampleCase` | src/utils/validators.ts:16 | `"12345678-k"` and `"12345678-K"` have the same clean form `"12345678K"` and the same verdict |
| `Validators.GroupsAheadIsRun` | src/utils/validators.ts:61 | the look-ahead `(?=(\d{3})+(?!\d))` holds at a position iff the digit run starting there is a positive multiple of three long |
| `Validators.DotBeforeDigits` | src/utils/validators.ts:61 | on a digit string a `.` is inserted exactly before the non-first positions whose distance to the end is a multiple of three |
| `Validators.InsertDotsGroups` | src/utils/validators.ts:61 | on a digit string the replacement equals the reference grouping that puts a `.` before every third digit from the right |
| `Validators.CleanInsertDots` | src/utils/validators.ts:61 | cleaning undoes the thousands separators |
| `Validators.Utf16Length` | src/utils/validators.ts:76 | `.length` lies between the number of characters and twice it, and equals the number of characters when none is above U+FFFF |
| `Validators.FormatRutShort` | src/utils/validators.ts:74-76 | `formatRUT` returns its input unchanged when the cleaned length, in UTF-16 units, is below 8 |
| `Validators.FormatRutLong` | src/utils/validators.ts:74-81 | from 8 cleaned UTF-16 units on, `formatRUT` displays the cleaned input split before its last character, whatever the body and check character are |
| `Validators.FormatRutRoundTrip` | src/utils/validators.ts:74-81 | from 8 cleaned UTF-16 units on, with no upper bound and no validity check, cleaning the result of `formatRUT` gives back the cleaned input |
| `Validators.FormattersCompared` | src/utils/validators.ts:74-81 | on every input that `validateRUT` accepts the two formatters return the same string; `validateRUT` echoes the raw input on every rejection; below 8 cleaned UTF-16 units both return the raw input |
| `Validators.FormattersDifferTooLong` | src/utils/validators.ts:74-81 | on the 10-character `"123456789-0"` `validateRUT` echoes the input while `formatRUT` returns `"123.456.789-0"` |
| `Validators.FormattersDifferWrongCheck` | src/utils/validators.ts:74-81 | on `"12345678-4"` (wrong check character) `validateRUT` echoes the input while `formatRUT` returns `"12.345.678-4"` |
| `Validators.ValidateEmailIff` | src/utils/validators.ts:86-89 | the e-mail pattern matches iff the string has no whitespace, exactly one `@`, something before it, and after it a `.` that is neither the first nor the last character of the domain |
| `Validators.EmailExampleValid` | src/utils/validators.ts:86-89 | `"ana@karin.cl"` is accepted |
| `Validators.EmailExampleTwoAts` | src/utils/validators.ts:86-89 | `"ana@@karin.cl"` is rejected |
| `Validators.EmailExampleNoDot` | src/utils/validators.ts:86-89 | `"ana@karincl"` is rejected |
| `Validators.EmailExampleSpace` | src/utils/validators.ts:86-89 | `"ana @karin.cl"` is rejected |
| `Validators.BrokenMembers` | src/utils/validators.ts:99-112 | a rule is reported exactly when it is in the rule list and the password violates it |
| `Validators.ValidatePassword` | src/utils/validators.ts:95-118 | the method's `errors` are the messages of the broken rules, in rule order, and `isValid` holds iff `errors` is empty; the length rule counts UTF-16 units |
| `Validators.BrokenOrdered` | src/utils/validators.ts:99-112 | the broken rules keep the order of the rule list |
| `Validators.PasswordRulesHold` | src/utils/validators.ts:95-118 | no rule is broken iff the password's `.length` is at least 8 UTF-16 units and it has an upper-case letter, a lower-case letter and a digit; each rule appears iff violated, in the order length, upper case, lower case, digit; there are at most 4 errors |
| `Validators.PasswordAstralLength` | src/utils/validators.ts:101 | the six-character password `Abc1😀😀` has `.length` 8 |
| `Validators.PasswordExampleAstral` | src/utils/validators.ts:99-112 | `Abc1😀😀` breaks no rule |
| `History.FirstOn` | src/screens/HistoryScreen.tsx:95-97 | the lookup returns the first entry, in list order, whose date part is the given day, or nothing when no entry has that day |
| `History.MoodOnIsLatest` | src/screens/HistoryScreen.tsx:95-102 | on a newest-first history a slot shows the mood of the latest entry of its day, and no mood iff no entry has that day |
| `History.GenerateCalendar` | src/screens/HistoryScreen.tsx:86-107 | the calendar has exactly 30 slots, oldest first, for the days `today - 29` to `today`, each with the mood found for its day |
| `History.OrganizeIntoWeeks` | src/screens/HistoryScreen.tsx:110-116 | concatenating the rows gives back the input; there are ceil(n/7) rows; every row but the last has 7 elements and the last has 1 to 7 |
| `History.ConcatLength` | src/screens/HistoryScreen.tsx:110-116 | rows that are all full weeks except the last hold 7 elements per full week plus the last row's length |
| `History.CalendarWeeks` | src/screens/HistoryScreen.tsx:118-120 | the screen's calendar comes out as 5 rows: four of 7 days and a last one of 2, laid end to end giving the 30 slots |
| `History.InWindow` | src/screens/HistoryScreen.tsx:66-68 | the weekly subset holds exactly the history entries at or after the cutoff |
| `History.InWindowMultiplicity` | src/screens/HistoryScreen.tsx:66-68 | the weekly subset holds every copy of an entry at or after the cutoff and no copy of any other entry |
| `History.CountsAddUp` | src/screens/HistoryScreen.tsx:78-80 | each entry is counted under exactly one mood, so the five counts add up to the number of entries |
| `History.GetWeeklyStats` | src/screens/HistoryScreen.tsx:62-83 | the tally has all five moods; each count is the number of in-window entries with that mood; the counts sum to the number of in-window entries |
| `History.Reduce` | src/screens/HistoryScreen.tsx:123-125 | the left fold returns one of the keys, and its count is at least every key's count |
| `History.ReduceIsLastMaximum` | src/screens/HistoryScreen.tsx:123-125 | because the fold keeps the current key only on a strictly greater count, some occurrence of the result is followed only by keys with strictly smaller counts |
| `History.PredominantIsLastMaximum` | src/screens/HistoryScreen.tsx:123-125 | the predominant mood has the largest count, and among tied maxima it is the last in the order muy_mal, mal, neutral, bien, excelente |
| `History.EmptyWeekIsExcelente` | src/screens/HistoryScreen.tsx:123-125 | when every count is 0 the predominant mood is excelente |
| `History.WeeklySummary` | src/screens/HistoryScreen.tsx:153-165 | "Registros" is the length of the whole loaded history; "Días Positivos" is the week's bien count plus its excelente count; the predominant mood's weekly count is the largest, later moods strictly smaller |

## Left out

- Unicode case mapping: `toUpperCase` is modelled on ASCII letters only. Other letters, and mappings that change the length (such as `ß`), are not modelled.
- Validators.FormatRut: when the last cleaned character is above U+FFFF, `slice(0, -1)` and `slice(-1)` in the source split its surrogate pair. The body then ends in a lone high surrogate and the check character is the lone low surrogate. A Dafny `char` cannot hold a lone surrogate, so the model splits before the whole character.
- Strings holding a lone surrogate: a Dafny `char` is a Unicode scalar value, so a JavaScript string with an unpaired surrogate has no counterpart in the model.
- Clock and time zones:
  - `new Date()`, `setDate`, `toISOString` and local-time arithmetic are not modelled.
  - The calendar's days are `today - 29` to `today` as integer day keys.
  - An entry's date part is its UTC day.
  - The weekly cutoff is an instant supplied by the caller.
- The `date` field of a calendar slot (`date.getDate()`, the day of the month in local time) is not modelled; the slot keeps its day key (`fullDate`) and its mood.
- `loadMoodHistory` and the other backend calls (`src/services/authService.ts`, `src/services/moodService.ts`): remote I/O. The model takes the loaded history as a parameter.
- React state, rendering, `MOOD_CONFIG` colours and emoji, navigation, theming and the auth and preferences contexts: UI, with no logic beyond what is modelled here.
- The submit handlers of `src/screens/auth/RegisterScreen.tsx` and `src/screens/auth/LoginScreen.tsx`: UI glue that calls the validators and sets component state.

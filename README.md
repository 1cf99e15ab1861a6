# essnapshot retention decision, in Dafny

essnapshot keeps an Elasticsearch snapshot repository trimmed. Each run lists the
snapshots, refuses to act while a snapshot operation is still running, and deletes
the snapshots older than a configured retention time such as `7D`. This project
models the three functions of `essnapshot/helpers.py` that make that decision,
and proves what they promise:

- `time_in_seconds` becomes `Helpers.TimeInSeconds`. It matches the pattern
  `^\d+[a-zA-Z]?$`, upper-cases the unit, and looks it up in the table
  S=1, M=60, H=3600, D=86400. A missing unit means seconds. The two `ValueError`s
  the source raises become the error variants `UnableToParse` and
  `UnsupportedTimeUnit`. The pattern is stated twice: once as the match the
  function computes (`MatchTime`), once as a declarative grammar
  (`MatchesTimePattern`), and the two are proved equal.
- `check_snapshots_in_progress` becomes `Helpers.CheckSnapshotsInProgress`. It
  is built, like the source, from the list of ids whose status is `IN_PROGRESS`.
- `find_delete_eligible_snapshots` becomes the method
  `Helpers.FindDeleteEligibleSnapshots`. Its loop builds the list of eligible
  ids step by step and re-parses the retention time for every snapshot, as the
  source does. It is proved against the specification function
  `Helpers.DeleteEligibleIds`, whose ordering, exactness and boundary
  properties are lemmas.

`Decimal` holds ASCII digit strings: `Value` is Python's `int()` on a run of
digits, and `Render` is `str()` of a natural number, both without the
interpreter's limit on the number of digits (see "Left out"). Within that
model the two are proved inverse.

Time is modelled with integers. `end_epoch` is a whole second since the Unix
epoch. The reference instant `fromTime` is an explicit parameter, in microseconds
since the epoch (UTC), which is the resolution of Python's `datetime`. A
snapshot's age is the difference truncated toward zero to whole seconds
(`WholeSeconds`), as `int(timedelta.total_seconds())` does.

`find_delete_eligible_snapshots` does not look at a record's status. It reads
`end_epoch` from every record, `IN_PROGRESS` ones included, and compares its age
like any other record. The model does the same and has no invalid-record error.

## Model

| member | source | states |
|---|---|---|
| `Decimal.Value` | essnapshot/helpers.py:26 | `int()` of a run of ASCII digits, most significant first, leading zeros allowed; a string of n digits is worth less than 10^n |
| `Decimal.ValueOfRender` | essnapshot/helpers.py:26 | `int()` of the decimal spelling of any natural `v` is `v` again (unbounded conversions, see "Left out") |
| `Decimal.RenderOfValue` | essnapshot/helpers.py:26 | a digit string without leading zeros is exactly the spelling of its value, so the two conversions are inverse |
| `Helpers.Upper` | essnapshot/helpers.py:16 | upper-casing maps every ASCII letter to an upper-case letter; it keeps upper-case letters and moves lower-case ones by the same offset in the alphabet |
| `Helpers.MatchTime` | essnapshot/helpers.py:10-11 | a successful match splits the string into a non-empty ASCII digit group followed by at most one letter, and the groups rebuild the whole string |
| `Helpers.MatchTimeIsPattern` | essnapshot/helpers.py:10-12 | the match succeeds exactly on the strings of `MatchesTimePattern`, the regex of line 10 stated as a grammar: "one or more digits, then at most one letter" |
| `Helpers.TimeInSeconds` | essnapshot/helpers.py:8-28 | the parse error is returned exactly when the string does not match the grammar; the unsupported-unit error carries the upper-cased final letter, and that letter is not in the table |
| `Helpers.TimeInSecondsSucceeds` | essnapshot/helpers.py:10-28 | parsing succeeds if and only if the string matches the grammar and its unit letter, if any, is S, M, H or D after upper-casing |
| `Helpers.TimeInSecondsWithUnit` | essnapshot/helpers.py:15-26 | digits followed by a supported unit, in either case, give the digits' value times that unit's multiplier |
| `Helpers.UnitRoundTrip` | essnapshot/helpers.py:19-26 | for every natural `v` and every unit letter in `SsMmHhDd`, `str(v)` plus the letter parses to `v` times 1, 60, 3600 or 86400 |
| `Helpers.BareDigitsAreSeconds` | essnapshot/helpers.py:17-18 | a bare run of digits parses to its value, in seconds |
| `Helpers.BareRoundTrip` | essnapshot/helpers.py:17-26 | `str(v)` alone parses back to `v` seconds |
| `Helpers.UnsupportedUnit` | essnapshot/helpers.py:25-28 | digits followed by a letter outside S, M, H, D after upper-casing fail with the unsupported-unit error for that upper-cased letter, not with the parse error |
| `Helpers.RejectsNonDigitBeforeLast` | essnapshot/helpers.py:10-14 | any character other than a digit before the last position (a sign, a space, a point, a first unit letter) gives the parse error |
| `Helpers.RejectsBadLastChar` | essnapshot/helpers.py:10-14 | the empty string, and a string ending in neither a digit nor a letter, give the parse error |
| `Helpers.TimeInSecondsBareExample` | essnapshot/helpers.py:17-26 | "30" is 30 seconds |
| `Helpers.TimeInSecondsCaseExample` | essnapshot/helpers.py:15-26 | "5M" and "5m" are both 300 seconds: the unit is case-insensitive |
| `Helpers.TimeInSecondsUnitExamples` | essnapshot/helpers.py:19-26 | "2H" is 7200 and "1D" is 86400 seconds |
| `Helpers.TimeInSecondsErrorExamples` | essnapshot/helpers.py:10-28 | "5X" has an unsupported unit; "5 M", "-5M", "", "1.5" and "5MM" do not parse |
| `Helpers.InProgressIds` | essnapshot/helpers.py:71 | the comprehension is no longer than the listing and holds exactly the ids of the snapshots whose status is `IN_PROGRESS` |
| `Helpers.CheckSnapshotsInProgress` | essnapshot/helpers.py:69-74 | the guard is true if and only if some snapshot's status is `IN_PROGRESS` |
| `Helpers.InProgressDependsOnlyOnStatus` | essnapshot/helpers.py:71 | two listings whose statuses agree position by position get the same answer, whatever their ids and end times |
| `Helpers.CheckSnapshotsInProgressExamples` | essnapshot/helpers.py:69-74 | an empty listing and a listing of SUCCESS and FAILED snapshots give false; a listing with an `IN_PROGRESS` snapshot gives true |
| `Helpers.WholeSeconds` | essnapshot/helpers.py:85-86 | a span in microseconds becomes whole seconds truncated toward zero: for a non-negative span the result times one second is at most the span, and one second more exceeds it, and the mirror image holds for a negative span |
| `Helpers.SnapshotAgeSeconds` | essnapshot/helpers.py:83-85 | the age is the number of whole seconds from `end_epoch` to the reference instant: for a snapshot that ended before it, `end_epoch + age` seconds is at most the reference instant and one second more is past it; for one that ends after it, the age is truncated toward zero the other way |
| `Helpers.DeleteEligibleIds` | essnapshot/helpers.py:81-90 | the list of eligible ids is never longer than the listing |
| `Helpers.FindDeleteEligibleSnapshots` | essnapshot/helpers.py:77-90 | an empty listing gives an empty list, whatever the retention time; for a non-empty listing a retention time that fails to parse gives that same error, and otherwise the result is the eligible ids of `DeleteEligibleIds` |
| `Helpers.EligibleBoundary` | essnapshot/helpers.py:83-86 | `IsDeleteEligible`, the strict `>` test of line 86, holds of a snapshot if and only if the reference instant is at least retention + 1 whole seconds after its `end_epoch`: an age equal to the retention is not enough |
| `Helpers.EligibleBoundaryExample` | essnapshot/helpers.py:85-86 | with a one-hour retention, a snapshot that ended exactly 3600 s earlier is kept and one that ended 3601 s earlier is eligible |
| `Helpers.DeleteEligibleIdsAppend` | essnapshot/helpers.py:81-90 | the ids chosen from a concatenation of two listings are those chosen from the first followed by those chosen from the second, so input order is preserved |
| `Helpers.DeleteEligibleIdsExact` | essnapshot/helpers.py:81-90 | the result is exactly the subsequence of eligible ids: its k-th id belongs to the k-th eligible position, the positions increase, and a position is chosen if and only if its snapshot is eligible |
| `Helpers.DeleteEligibleIdsMembership` | essnapshot/helpers.py:82-87 | an id is returned if and only if some snapshot of the listing with that id is eligible, so no id from outside the listing is returned |

## Left out

- `open_configfile` (essnapshot/helpers.py:31-59) reads a file, parses YAML and exits the process on failure. That is I/O, and its key check works on an untyped YAML dictionary.
- `snapshot_name` (essnapshot/helpers.py:62-66) reads the wall clock and formats it with `strftime`, so it has no stable result to state.
- The `print` of each id marked for deletion (essnapshot/helpers.py:88-89) is logging and does not affect the returned list.
- The default `from_time=datetime.utcnow()` is left out. Python evaluates it once, when the function is defined, and it is a naive datetime. Subtracting the timezone-aware timestamp from it would raise a `TypeError`. The model always takes the reference instant as a parameter.
- `datetime` and `timezone` objects are modelled as integers, and `total_seconds()` as exact integer arithmetic. Floating-point rounding of very large spans is not modelled.
- `int(snapshot['end_epoch'])` converts a string from the storage API. The model takes `end_epoch` as an integer field, so a missing field (`KeyError`) or a non-numeric value is not modelled.
- A snapshot record is a datatype that always has `id`, `status` and `end_epoch`. A record missing `status` (`KeyError` at essnapshot/helpers.py:71), or missing `id` where it is read (an `IN_PROGRESS` record at line 71, an eligible one at line 87), is not modelled, and neither is the error `datetime.fromtimestamp` raises for an `end_epoch` outside its range (essnapshot/helpers.py:83).
- Decimal.Value: the interpreter's limit on integer/string conversion (`sys.get_int_max_str_digits()`, 4300 digits by default in CPython 3.11 and later and in recent security releases of 3.7 to 3.10) is not modelled, so `Value`, `Decimal.Render` and the round-trip lemmas `Decimal.ValueOfRender`, `Decimal.RenderOfValue`, `Helpers.UnitRoundTrip`, `Helpers.BareRoundTrip` and `Helpers.TimeInSecondsSucceeds` treat the conversions as unbounded, as on interpreters without the limit. On such an interpreter `time_in_seconds` raises a third `ValueError` for a digit run longer than the limit, where the model returns a value.
- The pattern is modelled over ASCII digits only. Python's `\d` also accepts other Unicode decimal digits, and `$` also matches before a trailing newline; neither is modelled.
- Both parser errors are `ValueError` in the source and differ only in their message. The model gives them two error variants, each carrying the value the message names.

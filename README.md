# Fox Village schedule parser, modelled in Dafny

`parser.js` builds a horse-show schedule for a list of riders. It fetches the
show's roster, picks the roster entries that match the configured rider
names, fetches the class table, then fetches each matched rider's page and
turns every entry into a row `{rider_name, rider_id, class, ring, day, time}`.
This project models the deterministic logic between the fetches and proves
its properties:

- the two HTML extractors (`>([^<]+)<` and `>(\d+)<`), written as explicit
  leftmost scans instead of a regex engine;
- the ring alias and the weekday table;
- rider matching by containment in either direction;
- the class lookup table;
- the two-tier class label;
- per-rider row extraction;
- the run of `parseRiders`, with every fetch outcome given as an input.

Modules, one file each:

- `Wrappers` (`wrappers.dfy`): the `Option` type.
- `Strings` (`strings.dfy`): `Contains`, the model of JavaScript's `String.prototype.includes`.
- `TextNormalizers` (`normalizers.dfy`): `extractRiderName`, `extractClassNumber`,
  `normalizeRingName` and the `dayMap` step of `getFrenchDay`.
- `ClassResolver` (`class_resolver.dfy`): `buildClassLookup` and `formatClassString`.
- `RiderMatcher` (`rider_matcher.dfy`): `findRidersByNames`.
- `ScheduleAssembler` (`schedule_assembler.dfy`): `extractRiderSchedule`, the
  accumulation loop of `parseRiders`, and `parseRiders` itself.

The loops of the source are methods with loop invariants:

- `FindRidersByNames`
- `BuildClassLookup`
- `FormatClassString`, including its `break`
- `ExtractRiderSchedule`
- `AssembleSchedules`

Each of these methods is proved equal to a specification function, such as
`Matches`, `ClassLookupOf`, `FormatClass`, `RidersRows` or `Assembled`. The
lemmas state what the source promises about those functions.
`ParseRiders` has no loop of its own. It makes the early returns of
`parseRiders`, then calls `FindRidersByNames`, `BuildClassLookup` and
`AssembleSchedules`. Its outcome is stated in terms of `Matches`, `LookupFrom`
and `Assembled`.

Two facts about the code are worth stating plainly:

- `rider_name` in a row is the configured target name (`originalName`), not
  the cleaned roster name (parser.js:196).
- `parseRiders` takes no parameters (parser.js:210). The rider names the
  command line passes to it (parser.js:275, 286) therefore have no effect.
  Names come only from the configuration. The comment at parser.js:277
  calls the configured names "default rider names", so command-line names
  were evidently meant to override them, but `parseRiders` never receives
  them.

## Model

| member | source | states |
|---|---|---|
| Strings.ContainsIffOccurs | parser.js:100 | `Contains(s, sub)` holds exactly when `sub` occurs at some index of `s`, as `includes` promises |
| Strings.NoContainsWithoutFirstChar | parser.js:100 | a non-empty string whose first character is missing from `s` does not occur in `s` |
| Strings.NoContainsWhenLonger | parser.js:100 | a string longer than `s` does not occur in `s` |
| TextNormalizers.RunEnd | parser.js:23 | the end of the maximal run of class characters from `j`: everything before it is in the class, the character at it is not |
| TextNormalizers.MatchEndsRun | parser.js:23 | a match of `>(C+)<` at `i` must end exactly where the class run after `i` ends |
| TextNormalizers.FindMatchSpec | parser.js:23 | the scan returns a match at or after `from` with no match before it, and `None` exactly when there is no match at all |
| TextNormalizers.ExtractFirstSpec | parser.js:22-25 | for either regex shape: with no match the input is returned unchanged; otherwise the leftmost match's group, which is non-empty, inside the class and found in the input as `>` + group + `<` |
| TextNormalizers.ExtractFirstUnmatched | parser.js:24 | with no match the input comes back unchanged |
| TextNormalizers.ExtractFirstMatched | parser.js:23-24 | with a match the result is the group of the leftmost match |
| TextNormalizers.BodyFacts | parser.js:23 | any captured group is non-empty, inside the class, and occurs in the input between `>` and `<` |
| TextNormalizers.ExtractRiderNameSpec | parser.js:22-25 | `extractRiderName` returns the leftmost `>name<` body, with the three properties above: non-empty, free of `<`, and found in the input as `>name<`; with no such body it returns the input |
| TextNormalizers.ExtractClassNumberSpec | parser.js:54-57 | `extractClassNumber` returns the leftmost `>digits<` body, a non-empty run of ASCII digits; with no such body it returns the input |
| TextNormalizers.NormalizeRingNameSpec | parser.js:46-51 | "Combine Obstacle" becomes "Combiné", every other name is unchanged, and normalising is idempotent |
| TextNormalizers.FrenchDaySpec | parser.js:30-36 | Friday, Saturday and Sunday become Vendredi, Samedi and Dimanche; a name is left unchanged exactly when it is not one of those three |
| ClassResolver.ClassLookupSpec | parser.js:133-143 | the keys of the lookup are exactly the record IDs, and each key maps to the last record with that ID |
| ClassResolver.BuildClassLookup | parser.js:133-143 | a missing or non-array payload gives `{}`; otherwise the loop's lookup is the in-order fold `ClassLookupOf` |
| ClassResolver.FirstMapping | parser.js:161-167 | the first mapping entry whose pattern occurs in the name, or `None` exactly when no pattern occurs |
| ClassResolver.FirstMappingFrom | parser.js:162-166 | a scan that stops at the first matching entry, or passes all of them, agrees with `FirstMapping` |
| ClassResolver.FormatClassTiers | parser.js:146-183 | when the replacement of the first pattern found in `fullTestName` differs from `fullTestName`, it is the label; when no pattern occurs, or the replacement equals `fullTestName`, the label is the class ID, then " - " + class name if non-empty, then " - " + test if non-empty; an empty mapping always gives that fallback |
| ClassResolver.LaterPatternsIgnored | parser.js:162-166 | once a pattern of the mapping occurs in `fullTestName`, entries after it in the mapping never change the label |
| ClassResolver.FormatClassString | parser.js:146-184 | the imperative scan with `break` and the `mappedName !== fullTestName` test computes `FormatClass` |
| ClassResolver.MappedLabelIgnoresLookup | parser.js:155-172 | with a non-empty test, a first matching pattern whose replacement differs from the test decides the label whatever the class lookup holds |
| RiderMatcher.FindInRoster | parser.js:98-101 | the first roster index whose cleaned name contains the target or is contained in it; `None` exactly when no entry is related |
| RiderMatcher.ResolveSpec | parser.js:98-108 | a target finds a rider exactly when some entry is related to it, and then gets the ID and cleaned name of the first related entry, with the target as `originalName` |
| RiderMatcher.FindRidersByNames | parser.js:89-116 | a missing roster or a non-array `riderData` gives `[]`; otherwise the loop computes `Matches` |
| RiderMatcher.MatchesCharacterized | parser.js:97-113 | the output lists, in increasing target order, one rider for each target that found an entry, namely that target's first related entry, and no other rider; targets that found none are dropped |
| RiderMatcher.MatchesAppend | parser.js:97-113 | matching two target lists one after the other gives the two results one after the other, so repeated targets are not merged |
| RiderMatcher.MatchesLength | parser.js:97-113 | the output has at most one rider per target name |
| RiderMatcher.MatchesSubsequence | parser.js:104-108 | the `originalName` values of the output, in order, form a subsequence of the target names |
| RiderMatcher.EmptyNameMatchesEveryTarget | parser.js:99-100 | a roster entry with an empty name is related to every target |
| RiderMatcher.MatchesJaneExample | parser.js:98-108 | the roster entry ">Jane Doe<" is cleaned to "Jane Doe" and matched by the target "Jane", which is kept as `originalName` |
| RiderMatcher.MatchesZedExample | parser.js:98-112 | a target unrelated to every roster name is dropped |
| ScheduleAssembler.ExtractRiderSchedule | parser.js:187-207 | the loop computes `RidersRows`, which is `[]` for a page without a `riderPageData` array (see `RidersRowsSpec`) |
| ScheduleAssembler.RowsOfSpec | parser.js:191-203 | one row per raw entry, in source order: row `i` is the row of entry `i` |
| ScheduleAssembler.RidersRowsSpec | parser.js:187-207 | row `i` carries the target name, the rider ID, the class label of entry `i`'s class number and test, the normalised ring, the French weekday and the `HH:MM` time |
| ScheduleAssembler.AssembleSchedules | parser.js:243-265 | the accumulation loop computes `Assembled`: each rider's rows, in matched-rider order, with nothing from a rider whose fetch failed |
| ScheduleAssembler.AssembledStep | parser.js:252-259 | one iteration appends exactly that rider's contribution |
| ScheduleAssembler.AssembledAppend | parser.js:245-263 | the rows for two consecutive groups of riders are the first group's rows followed by the second's |
| ScheduleAssembler.FailureIsolation | parser.js:252-259 | a rider whose fetch failed adds no rows, and the riders before and after it contribute exactly as they would without it |
| ScheduleAssembler.AssembledRowsFromSucceededRiders | parser.js:245-256 | every output row carries the target name and ID of a matched rider whose fetch succeeded |
| ScheduleAssembler.ParseRiders | parser.js:210-270 | no rider names give `[]`; a failed roster fetch aborts the run; otherwise the result is the assembled rows of the matched riders, built with an empty lookup when the class fetch failed (and `[]` when no rider matched) |

## Left out

- Network fetches (`fetchUrl`, `fetchRiderData`, `fetchClassData`, parser.js:5-19, 75-130) are HTTPS I/O and JSON parsing, so they are inputs. The roster response is `RosterFailed` or a payload. The class payload is an `Option`. Each rider page is an `Option<RiderPage>`, one per matched rider.
- A rider page of `None` stands for a fetch that threw, and also for any exception raised while processing the page (a `null` body, a non-string `classText`). The loop catches both the same way.
- `loadConfig` (parser.js:60-72) reads the filesystem. The configuration is the value `Config`.
- `showId` and its default appear only in fetch URLs, so they are not modelled.
- The 500 ms pause between rider fetches (parser.js:262) only affects timing.
- All `console` output is left out.
- The command-line block and the writes of `schedule.json` (parser.js:274-306) are process and filesystem I/O.
- `getFrenchDay` and `formatTime` (parser.js:28-43) depend on JavaScript `Date` parsing, the local time zone and `toLocaleDateString`.
  - The English weekday name and the `HH:MM` string are the opaque functions of `DateRendering`.
  - Only the `dayMap` step is modelled (`FrenchDay`), over the weekday names and "Invalid Date" that `Date` can produce.
  - A weekday name equal to an inherited object key (such as "constructor") is not a case of `FrenchDay`.
- `Object.entries` lists integer-like keys first (parser.js:162). `classMapping` is taken as the ordered sequence of entries that call yields.
- Lookup keys are coerced to strings (parser.js:138, 150), so the lookup is a `map` from strings. Keys that JavaScript objects treat specially (`__proto__`, inherited names) are outside the model.
- Record and roster entries are assumed to be objects whose fields are strings, with `riderID` an integer.
  - A field of another type would make `match` or `includes` raise a `TypeError`. That is not modelled, except inside a rider page, where the catch described above applies.
  - A malformed element, such as a `null` entry in `riderData.riderData` (parser.js:99) or `classData.classData` (parser.js:138), throws. The error is rethrown at parser.js:267-269 and aborts the whole run. This is not modelled.
- An absent `test` is the empty string, which the code's truthiness tests treat the same way.
- Strings are sequences of `char`. JavaScript strings are UTF-16 code units, which differ only for characters outside the Basic Multilingual Plane.

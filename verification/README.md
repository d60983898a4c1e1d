# Verified models of the fleet, membership, schedule and payout logic

These Dafny modules model the parts of the application whose correctness is more than a matter of
types, and prove what the code and its comments promise about them. Each module follows one source
file, in that file's own form: loops over mutable state are methods proved against specification
functions, concurrent jobs are state machines over their database statements, and pure code is
functions with lemmas.

* **Frozen Unicode names** (`CanonicalOrder`, `FrozenNfc`, `ObservedName`, `NameClosure`). Canonical equivalence is
  defined without any algorithm (starters keep their order, marks of one class keep theirs, no mark
  crosses a starter). The in-place reordering finds the only ordered sequence equivalent to its input,
  the composing pass is undone exactly by decomposition and reordering, and so NFC (UAX #15; sections
  3.11 and 3.12 of the Unicode Standard) is a normal form of canonical equivalence: idempotent, and
  fully composed. Normalising a name twice is normalising it once, although decomposition brings refused
  markup to light in between. The tables are parameters; what they must satisfy is stated in
  `FrozenNfc.Reversible`, `FrozenNfc.PrimaryComposites`, `NameClosure.RefusalClosed` and
  `NameClosure.TrimClosed`.
* **JSON admission** (`JsonNumber`, `JsonGrammar`, `JsonScan`, `JsonTexts`, `DtoGuard`). The iterative token scan
  accepts a JSON text (section 2 of RFC 8259) exactly when no object repeats an unescaped name and every
  number is integral and finite. The explicit-stack walk refuses exactly the object graphs in which a
  cycle or an own `__proto__` key can be reached.
* **Wire dates and encodings** (`Calendar`, `IsoDate`, `Base64Url`). String order on accepted timestamps
  is time order; the trailing-character patterns accept exactly the canonical base64url spellings
  (sections 3.5 and 5 of RFC 4648).
* **Schedules** (`CronText`, `CronGrammar`, `CronFire`, `CronCadence`, `CronLabel`, `CronShown`, `RunHealth`).
  Which expressions are accepted and what they mean is stated from their spelling alone; the parser, the
  minute scan, the human label and the lateness verdict are shown to agree, and two expressions shown alike
  fire alike.
* **Membership** (`Affiliation`, `Membership`). The bisecting resolver loses no id; overlapping runs with
  database-clock tokens are interleaved statement by statement.
* **Automatic consent and candidates** (`Consent`, `Candidate`). Whole histories of consent changes and
  whole lives of candidate rows.
* **Structure alerts** (`StructureEvents`). Overlapping runs, failed posts, lost replies and crashes.
* **Payouts** (`Money`, `Payout`). Exact conservation and the size of the rounding dust.

`PlainText` holds what these share about white space and decimal numerals, `Wrappers` the rest.

Three statements one would expect turn out not to hold everywhere; each has a concrete counterexample, a
whole behaviour where states are involved, and the exact condition:

* a tier move demands what the main row it locks says, except when another run with the **same token** has
  stamped a later incarnation of that row (`Membership.EqualTokensCanMislead`, once for a written row and
  once for a flagged one); exactly when the move then contradicts the row is `Membership.MoveContradictsIff`,
  and runs with tokens of their own are never misled (`Membership.OwnTokenMoveIsDemanded`);
* every pending structure alert is one that runs of the last designated corporation select, except when a
  designation after the **removal** of the holder's character turns to another corporation with alerts still
  pending (`StructureEvents.RemovalCanStrandAlerts`), or when a run that had read another corporation commits
  a new alert. The latter takes a designation that **overtakes** the run between its check and its commit
  (`StructureEvents.LateInsertionCanStrandAlerts`) or two designations of one character that share a
  **millisecond** (`StructureEvents.EqualStampsCanStrandAlerts`, a limit `src/services/structures.ts`
  accepts), as `StructureEvents.StrandingInsertionIsLateOrShared` shows. These are all there is when a
  designation, its sweep and its write, is one atomic step (`StructureEvents.ReachableIffNothingStrands`); at
  the database's default isolation a run can also commit between the two, which the model does not show. An
  alert is never posted for another corporation than its own (`StructureEvents.PostedForItsCorporation`);
* a payout adds up to its total, except with **repeated participants** whose shares earn a cent or more
  (`Payout.RepetitionLosesMoney`; the condition is `Payout.WholeSplitWithRepetition`).

## Model

| member | source | states |
|---|---|---|
| CanonicalOrder.MoveMark | src/core/fleet-combat-profile.ts:126-134 | a mark may pass marks of other classes without changing canonical equivalence |
| CanonicalOrder.OrderedIsUnique | src/core/fleet-combat-profile.ts:120-121 | two ordered, canonically equivalent sequences are the same sequence |
| CanonicalOrder.ReorderIsCanonical | src/core/fleet-combat-profile.ts:122-136 | the reordering is ordered and canonically equivalent to its input, for every input |
| CanonicalOrder.ReorderCharacterised | src/core/fleet-combat-profile.ts:122-136 | the reordering is the one ordered, equivalent sequence, and nothing else is |
| CanonicalOrder.EquivalentReorderAlike | src/core/fleet-combat-profile.ts:122-136 | two texts reorder alike exactly when equivalent; reordering again changes nothing |
| CanonicalOrder.ReorderKeepsStarters | src/core/fleet-combat-profile.ts:120-121 | it is a permutation in which every class-zero scalar keeps its index |
| CanonicalOrder.SinkMark | src/core/fleet-combat-profile.ts:126-134 | the in-place inner loop inserts one mark stably and leaves the rest of the array alone |
| CanonicalOrder.ReorderInPlace | src/core/fleet-combat-profile.ts:122-136 | the in-place loop leaves exactly the reordering of the array's old contents |
| FrozenNfc.DecomposeIsFull | src/core/fleet-combat-profile.ts:79-94 | what decomposition yields decomposes no further |
| FrozenNfc.ComposePairInverts | src/core/fleet-combat-profile.ts:96-115 | composing a Hangul or tabulated pair is inverted by full decomposition |
| FrozenNfc.PassStepKeepsMeaning | src/core/fleet-combat-profile.ts:141-156 | one round of the composing loop keeps the canonical meaning of emitted and remaining text |
| FrozenNfc.ComposeIsUndone | src/core/fleet-combat-profile.ts:137-157 | decomposing and reordering a composed text gives back exactly the decomposition it came from |
| FrozenNfc.NfcKeepsMeaning | src/core/fleet-combat-profile.ts:117-158 | normalised text decomposes like the text it came from |
| FrozenNfc.NfcIsNormalForm | src/core/fleet-combat-profile.ts:117-158 | texts normalise alike exactly when canonically equivalent; normalising twice is normalising once |
| FrozenNfc.ConsumedBlocksLower | src/core/fleet-combat-profile.ts:148-150 | a starter that consumed a mark composes with no mark of a lower class, so not updating `lastClass` is right |
| FrozenNfc.NfcIsFullyComposed | src/core/fleet-combat-profile.ts:144-155 | no starter of the result composes with a later scalar that is not blocked from it |
| FrozenNfc.FullyComposedIsNotUnique | src/core/fleet-combat-profile.ts:144-155 | two different texts of plain scalars and composites, ordered and fully composed, can decompose alike, so the normal form is not determined by being fully composed |
| FrozenNfc.HangulNormalForm | src/core/fleet-combat-profile.ts:96-112 | a Hangul syllable is its own normal form and that of its jamo, for every lead, vowel and tail, in code points |
| FrozenNfc.CompositeIsNormal | src/core/fleet-combat-profile.ts:113-115 | what a tabulated pair composes to is its own normal form whenever the first of the pair is |
| FrozenNfc.UntouchedText | src/core/fleet-combat-profile.ts:117-158 | text without marks, decompositions, Hangul and composable neighbours is returned as it is |
| ObservedName.Normalizer.DecomposeInto | src/core/fleet-combat-profile.ts:79-94 | the recursive push appends exactly the full decomposition of the scalar |
| ObservedName.Normalizer.ComposeLoop | src/core/fleet-combat-profile.ts:138-157 | the mutable composing loop computes the specified composition |
| ObservedName.Normalizer.Normalize | src/core/fleet-combat-profile.ts:117-158 | the three loops together compute NFC |
| ObservedName.Forbidden | src/core/fleet-combat-profile.ts:52-63 | binary search decides membership in the sorted ranges exactly |
| ObservedName.SkipStart | src/core/fleet-combat-profile.ts:178-180 | the first loop drops exactly the leading trim scalars |
| ObservedName.SkipEnd | src/core/fleet-combat-profile.ts:181 | the second loop drops exactly the trailing trim scalars of what is left |
| ObservedName.NormalizeObservedName | src/core/fleet-combat-profile.ts:164-187 | the bounded normaliser refuses and returns what the specification does |
| ObservedName.AcceptedNames | src/core/fleet-combat-profile.ts:190-192 | the validator accepts exactly the admissible, trimmed, normalised names within the bounds |
| ObservedName.NormalizedNameIsCanonical | src/core/fleet-combat-profile.ts:160-192 | on any reversible tables, a normalised name means what its trimmed input meant, is a fixed point of NFC, and is accepted iff clean and trimmed |
| ObservedName.SurroundedName | src/core/fleet-combat-profile.ts:164-187 | the result is the normal form of what the outer trim scalars surround, refused exactly for markup, forbidden scalars, a bound exceeded or nothing left |
| ObservedName.Utf8LengthIs | src/core/fleet-combat-profile.ts:177 | the byte bound counts the bytes of the UTF-8 encoding |
| NameClosure.DecomposeAllGuarded | src/core/fleet-combat-profile.ts:79-94 | decomposition brings refused scalars to light only right before the mark that composes them away |
| NameClosure.LeastMarkStays | src/core/fleet-combat-profile.ts:126-134 | the reordering keeps a mark of the least class right behind its starter |
| NameClosure.StepStaysGuarded | src/core/fleet-combat-profile.ts:141-156 | a round of the composing loop leaves a refused scalar only as the last starter, with its mark next |
| NameClosure.NfcOfAdmitted | src/core/fleet-combat-profile.ts:175-182 | text without markup and forbidden scalars normalises to such text |
| NameClosure.NfcOfTrimmed | src/core/fleet-combat-profile.ts:178-182 | trimmed text normalises to trimmed text |
| NameClosure.NormalizedNameIsAccepted | src/core/fleet-combat-profile.ts:160-192 | whatever the normaliser returns it returns unchanged, so the validator accepts it |
| JsonNumber.TrailingZeros | src/lib/fleet-api-v2.ts:48-52 | digits after the last nonzero one contribute a power of ten |
| JsonNumber.IntegralIffExponentLargeEnough | src/lib/fleet-api-v2.ts:38-42 | a nonzero decimal is an integer iff exponent >= fraction digits minus trailing zeros, at any length |
| JsonNumber.IsIntegralParts | src/lib/fleet-api-v2.ts:47-57 | the scan for the last nonzero digit and its comparison decide integrality of the exact value |
| JsonNumber.HasIntegralJsonValue | src/lib/fleet-api-v2.ts:43-58 | the lexeme test is true iff the lexeme's exact decimal value is an integer |
| JsonNumber.DecimalDigits | src/lib/fleet-api-v2.ts:46-57 | digits in a lexeme have their decimal value |
| JsonNumber.BoundIsMidpoint | src/lib/fleet-api-v2.ts:94 | the finiteness bound is the midpoint between the largest double and 2^1024 |
| JsonGrammar.UnicodeEscape | src/lib/fleet-api-v2.ts:79 | a backslash, u and the four hexadecimal digits of a code unit stand for it, in any letter case |
| JsonGrammar.ShortEscape | src/lib/fleet-api-v2.ts:79 | the eight two-character escapes stand for their units |
| JsonGrammar.PlainUnit | src/lib/fleet-api-v2.ts:79 | any other unit from the space on stands for itself, and control characters, quote and backslash for nothing |
| JsonGrammar.UnescapeConcat | src/lib/fleet-api-v2.ts:79 | bodies unescape piece by piece |
| JsonGrammar.FirstPiece | src/lib/fleet-api-v2.ts:79 | every accepted body starts with such a piece |
| JsonGrammar.JsonSpaces | src/lib/fleet-api-v2.ts:77 | white space is tab, line feed, carriage return and space |
| JsonTexts.LexemeIsToken | src/lib/fleet-api-v2.ts:45 | every lexeme of the pattern without a superfluous zero is a number of the grammar |
| JsonTexts.NumberSpelling | src/lib/fleet-api-v2.ts:45 | how a number of the grammar is written, character by character, and its exponent |
| JsonTexts.RepetitionByEscape | src/lib/fleet-api-v2.ts:78-83 | `{"A":1,"\u0041":2}` is JSON and is refused |
| JsonTexts.LiteralsAreAdmitted | src/lib/fleet-api-v2.ts:60-100 | an array of literals and a number with white space is JSON and is admitted |
| JsonScan.ParseLexemeOver | src/lib/fleet-api-v2.ts:45 | the lexeme pattern reads a grammatical number as the grammar does |
| JsonScan.LexemeOkIffAdmissible | src/lib/fleet-api-v2.ts:90-95 | on grammatical numbers the two lexeme checks decide integrality and finiteness |
| JsonScan.ScanValue | src/lib/fleet-api-v2.ts:66-100 | scanning any value in any context accepts it iff admissible and continues behind it |
| JsonScan.ScanMembers | src/lib/fleet-api-v2.ts:78-83 | the key sets on the stack refuse exactly repeated unescaped names |
| JsonScan.ScanDecides | src/lib/fleet-api-v2.ts:60-100 | on every JSON document the scan accepts iff names are distinct and numbers integral and finite |
| JsonScan.AdmittedTexts | src/lib/fleet-api-v2.ts:106-116 | a text passes scan and grammar iff it is the text of an admissible document, whichever way it is read |
| JsonScan.SkipBody | src/lib/fleet-api-v2.ts:71-75 | the string loop stops at the closing quote, or past the end exactly when there is none |
| JsonScan.StringToken | src/lib/fleet-api-v2.ts:70-83 | one string token is registered or refused as the recursive scan does |
| JsonScan.NumberToken | src/lib/fleet-api-v2.ts:90-95 | one number token is consumed and judged as the recursive scan does |
| JsonScan.CheckJsonTokens | src/lib/fleet-api-v2.ts:66-100 | the cursor-and-stack loop accepts exactly what the recursive scan accepts |
| DtoGuard.EnterKeepsInv | src/core/fleet-v2-validation.ts:34-36 | entering an object extends the active ancestor path and keeps the stack invariant |
| DtoGuard.ExitKeepsInv | src/core/fleet-v2-validation.ts:20-24 | an exit frame finishes the innermost active object, all of whose children are finished |
| DtoGuard.PathDescends | src/core/fleet-v2-validation.ts:25 | from a completed object only earlier completed ones can be reached |
| DtoGuard.Admit | src/core/fleet-v2-validation.ts:13-38 | the walk ends, expands each object at most once, and reaches the schema iff no cycle and no own `__proto__` is reachable |
| PlainText.SpacesListed | src/core/payout-split.ts:10 | white space is twenty-five listed characters |
| PlainText.TrimIs | src/core/payout-split.ts:10 | trimming takes away exactly the white space around a text |
| PlainText.ToNumberConcat | src/core/payout-split.ts:16 | numerals count in powers of ten |
| PlainText.DigitValues | src/core/payout-split.ts:16 | the ten digits have their values |
| PlainText.PadStart2Is | src/core/schedules.ts:108-110 | padding puts zeros in front up to two characters |
| Calendar.DayNumberOrder | src/core/fleet-api-v2.ts:81-91 | day numbers order calendar dates |
| Calendar.CivilOfDayNumber | src/core/fleet-api-v2.ts:88 | a calendar date is recovered from its day number |
| Calendar.MonthLengths | src/core/fleet-api-v2.ts:88 | the length of each month, with the leap rule for February |
| Calendar.NextDay | src/core/fleet-api-v2.ts:88 | day zero is 1970-01-01, and each day has the date after the one before |
| IsoDate.ReadWrite | src/core/fleet-api-v2.ts:83-88 | a written timestamp matches the pattern and reads back as the same fields |
| IsoDate.AcceptedIffCalendarDate | src/core/fleet-api-v2.ts:81-91 | the round-trip test accepts exactly the spellings of real dates and times of the years 1 to 9999 |
| IsoDate.StringOrderIsTimeOrder | src/core/fleet-automatic.ts:289 | on accepted timestamps, string order is chronological order and equal strings are equal instants |
| IsoDate.AcceptedSpelling | src/core/fleet-api-v2.ts:81-91 | an instant has an accepted spelling iff it lies in those years, and that spelling denotes it |
| IsoDate.CheckedDateAddExact | src/core/fleet-api-v2.ts:123-132 | the addition succeeds iff the sum stays in those years, denotes exactly the sum, and moves the string the same way |
| IsoDate.SafeIntegers | src/core/fleet-api-v2.ts:123-132 | the safe integers are those below 2^53 in magnitude |
| IsoDate.AdditionRefused | src/core/fleet-api-v2.ts:123-132 | what the addition refuses, in numbers |
| IsoDate.AddingADay | src/core/fleet-api-v2.ts:123-132 | adding a day moves the date to the next of the calendar and keeps the time |
| IsoDate.PatternText | src/core/fleet-api-v2.ts:83 | seven digit runs with their separators match the pattern and are read in order |
| IsoDate.OnlyPatternText | src/core/fleet-api-v2.ts:83 | nothing else matches the pattern |
| IsoDate.LessIsLexicographic | src/core/fleet-automatic.ts:289 | string order is decided by the first difference |
| Base64Url.CanonicalIffReencodes | src/core/fleet-api-v2.ts:378-389 | decoding and re-encoding reproduces a string iff its trailing-character rule holds |
| Base64Url.DecodeEncode | src/lib/fleet-recovery-proof.ts:33-40 | decoding undoes encoding for every byte string |
| Base64Url.TokenIsCanonical | src/core/fleet-api-v2.ts:78-80 | the token pattern is `canonicalBase64url` at length 43, and yields 32 bytes |
| Base64Url.SignatureIsCanonical | src/core/fleet-api-v2.ts:389 | the signature pattern is `canonicalBase64url` at length 86, and yields 64 bytes |
| Base64Url.SpkiIsCanonical | src/core/fleet-api-v2.ts:378-388 | the key schema accepts exactly the canonical spellings of up to 120 characters |
| Base64Url.EveryByteStringHasOneSpelling | src/core/fleet-api-v2.ts:78-80 | every byte string of the right size has exactly one accepted spelling |
| Base64Url.AcceptedDecodeInjectively | src/core/fleet-api-v2.ts:78-80 | accepted strings that decode alike are the same string |
| Base64Url.RepackMasks | src/lib/fleet-recovery-proof.ts:38 | decoding and re-encoding clears exactly what lies beyond the last whole byte, for every string |
| Base64Url.LenientDecodingCollapses | src/core/fleet-api-v2.ts:78-79 | without the rule, strings decode alike iff they agree up to what lies beyond the last whole byte |
| Base64Url.AlphabetInOrder | src/core/fleet-api-v2.ts:78-80 | the letter of each value |
| Base64Url.GroupIsOneNumber | src/lib/fleet-recovery-proof.ts:33-40 | four letters and the three bytes they decode to are one number to the bases 64 and 256 |
| CronText.AddSteps | src/core/schedules.ts:288 | the step loop adds exactly the values of the part |
| CronText.ReadPart | src/core/schedules.ts:259-288 | one part is refused or read by the checks on its step, spelling and range |
| CronText.ReadField | src/core/schedules.ts:254-292 | the loop over the parts computes the field's set, or refuses with the parser |
| CronText.AcceptedFieldsAreValid | src/core/schedules.ts:336-338 | no field of an accepted expression is empty or leaves its range |
| CronGrammar.ItemReads | src/core/schedules.ts:259-288 | a star, value or range, with or without a step, is accepted iff it fits its range, and reads as the values it means |
| CronGrammar.PartIsItem | src/core/schedules.ts:259-288 | no other part is accepted |
| CronGrammar.ListReads | src/core/schedules.ts:254-292 | a comma list is accepted iff each part fits, and reads as the union of its parts |
| CronGrammar.NumeralReads | src/core/schedules.ts:274-278 | a numeral within the range reads as exactly its value, any other is refused |
| CronGrammar.AcceptedExpressions | src/core/schedules.ts:302-309 | an expression is accepted iff it has five words, each such a list within its range |
| CronGrammar.AcceptedValues | src/core/schedules.ts:302-309 | the fields of an accepted expression hold exactly what its five lists mean |
| CronGrammar.WordsAre | src/core/schedules.ts:303 | words are what white space separates, whatever surrounds them |
| CronFire.HasMatchingDay | src/core/schedules.ts:340-354 | the day probe finds a matching day iff one lies in its window |
| CronFire.FindNext | src/core/schedules.ts:366-391 | the minute scan returns the specified next firing |
| CronFire.NextIsLeast | src/core/schedules.ts:356-391 | "at" is the least firing minute strictly after the instant and is found iff in the window; "beyond" means a later firing exists |
| CronFire.AnyDateAlwaysAt | src/core/schedules.ts:361-364 | with unrestricted day of month and month the result is always "at" |
| CronFire.RegularGap | src/core/schedules.ts:366-391 | an expression firing in one residue class is always found, and fires next exactly one gap later |
| CronFire.FiresOnDate | src/core/schedules.ts:374-382 | on the Gregorian calendar an expression fires at a date and time iff each field holds the one it is named after |
| CronFire.Weekdays | src/core/schedules.ts:380 | the days of the week follow each other, from a Thursday in 1970 to a Monday in 2024 |
| CronFire.WindowIsEightDays | src/core/schedules.ts:311-391 | the scan finds a firing iff there is one in the next eight days; otherwise a day matching within the next 1464 decides |
| CronCadence.EvenlySpacedMinutes | src/core/schedules.ts:162-179 | the gap loop decides even spacing as specified |
| CronCadence.EvenlySpacedSet | src/core/schedules.ts:137-160 | an accepted list is one residue class of its gap around the hour |
| CronCadence.LabelIsExact | src/core/schedules.ts:188-216 | every class of label that is not an echo has the exact interval and phase in which the expression fires |
| CronCadence.ConsecutiveFirings | src/core/schedules.ts:112-136 | consecutive firings of a labelled expression are exactly the labelled interval apart, across hour and day wraps |
| CronLabel.EqualTextsEqualPromises | src/core/schedules.ts:188-216 | equal sentences promise the same interval and the same minute within it |
| CronLabel.SentenceHasFewWords | src/core/schedules.ts:302-306 | no sentence has five words, so none is an expression |
| CronLabel.ClassifiedIsSayable | src/core/schedules.ts:188-216 | everything but the echo is rendered as a sentence |
| CronLabel.EqualTextsFireAlike | src/core/schedules.ts:181-187 | two accepted expressions that are shown alike, echoed or not, fire in exactly the same minutes |
| CronShown.DailyRuns | src/core/schedules.ts:206-208 | every daily expression in range is accepted, shown with its time in two digits each, and fires then |
| CronShown.WeeklyRuns | src/core/schedules.ts:212-214 | every weekly one likewise, with the name of its day |
| CronShown.HourlyRuns | src/core/schedules.ts:201 | every hourly one likewise |
| CronShown.StepRuns | src/core/schedules.ts:194-200 | every step that divides the hour likewise |
| CronShown.SpacedRuns | src/core/schedules.ts:162-203 | every even spread of comma minutes over the hour likewise |
| CronShown.PurgeRuns | src/core/schedules.ts:17 | the purge job is shown as "daily 03:30 UTC" and runs in exactly those minutes |
| RunHealth.LateIffMissed | src/core/run-health.ts:134-137 | lateness by the next firing is lateness by any firing the window reaches |
| RunHealth.OverdueIffMissed | src/core/run-health.ts:154-159 | overdue iff a firing lies strictly after the anchor and more than the grace before now |
| RunHealth.CadenceAgreesWithLabel | src/core/run-health.ts:101-113 | the cadence read back from two firings is the labelled interval |
| RunHealth.StuckExactly | src/core/run-health.ts:200-210 | stuck iff in flight for more than three labelled intervals and more than the floor |
| RunHealth.VerdictOnSchedule | src/core/run-health.ts:161-228 | the verdict of a scheduled job is a missed firing, its absence, or an expression that cannot be judged |
| RunHealth.LabelledOnTheCalendar | src/core/run-health.ts:92-113 | on the Gregorian calendar, firings and cadence read back are the labelled interval |
| RunHealth.OverdueOnTheCalendar | src/core/run-health.ts:139-159 | on the Gregorian calendar, overdue iff a firing was missed |
| RunHealth.PlainVerdicts | src/core/run-health.ts:178-228 | when a row is failing, degraded, in flight or stuck, or judged without a schedule |
| RunHealth.GraceIsFiveMinutes | src/core/run-health.ts:135-137 | late is more than five minutes after the due time |
| RunHealth.UnreadableIsUnknown | src/core/run-health.ts:120-132 | unknown iff the expression is outside the grammar or can never fire |
| RunHealth.StuckBeyond | src/core/run-health.ts:199-209 | stuck iff beyond a quarter of an hour and beyond three intervals, where one can be read |
| RunHealth.CadenceRead | src/core/run-health.ts:101-113 | the cadence is the distance between the next two firings, or at least eight days, or unreadable |
| Affiliation.Resolver.TakeRows | src/core/affiliation.ts:33-44 | the row loop keeps the first row of each requested id and ignores every other row |
| Affiliation.Resolver.KeepUnresolved | src/core/affiliation.ts:45 | requested ids without a row become unresolved, in order |
| Affiliation.Resolver.Resolve | src/core/affiliation.ts:25-61 | one chunk adds to the shared accumulators exactly what its tree of answers contributes |
| Affiliation.Resolver.Bisect | src/core/affiliation.ts:54-57 | a rejected chunk contributes what its two halves contribute, one after the other |
| Affiliation.ChunkItems | src/core/chunk.ts:1-8 | the chunking loop computes the specified chunks |
| Affiliation.ChunksConcat | src/core/chunk.ts:6 | chunking loses, repeats and reorders nothing, and no chunk is empty or too long |
| Affiliation.ResolveAffiliations | src/core/affiliation.ts:14-23 | the whole resolution yields the maps and lists of its run, after that many posts |
| Affiliation.ResolvedIds | src/core/affiliation.ts:36-39 | only requested ids are resolved, each once |
| Affiliation.EveryIdEndsOnce | src/core/affiliation.ts:4-10 | for distinct ids and any answers, resolved, invalid and unresolved together are exactly the ids |
| Affiliation.OnePlacePerId | src/core/affiliation.ts:4-10 | every id ends in exactly one of the three places, and no other id in any |
| Affiliation.ChunkCost | src/core/affiliation.ts:47-58 | against an honest upstream a chunk of n ids with k bad ones costs at most 1 + 2k * ceil(log2 n) posts |
| Affiliation.HonestUpstreamIsExact | src/core/affiliation.ts:14-61 | against an honest upstream invalid is exactly the bad ids and every other id gets its row |
| Affiliation.HonestPosts | src/core/affiliation.ts:12-61 | one post for every five hundred ids or part of them, and eighteen for each bad id |
| Affiliation.CleanPosts | src/core/affiliation.ts:12-23 | without bad ids, exactly one post for every five hundred ids or part of them |
| Affiliation.FirstRowIs | src/core/affiliation.ts:35-44 | the row that counts for an id is the first that bears it |
| Affiliation.EveryPlaceIsExplained | src/core/affiliation.ts:46-60 | an id is invalid only if refused alone, unresolved only after another failure or an answer without it, resolved only to the first row answered |
| Membership.DecisionIsDemanded | src/core/tier.ts:12-25 | a tier is decided iff unlocked, confirmed and different from the demanded one, never away from pending outside the alliance |
| Membership.StampsNeverDecrease | src/jobs/membership.ts:127-152 | in every interleaving, a living row's stamp never moves back |
| Membership.RunsRespectLocks | src/jobs/membership.ts:47-67 | no step of a run changes a locked account, or anything but the tier of an account it moves |
| Membership.MovedRowHasStamper | src/jobs/membership.ts:38-46 | the row a move locks was stamped by the moving run, or is a later incarnation stamped by another run of its token |
| Membership.MoveContradictsIff | src/jobs/membership.ts:36-79 | a move contradicts the main row it locks iff another run of the same token wrote or flagged that row and it stands on the other side of the alliance |
| Membership.RelinkedIffOtherStamper | src/jobs/membership.ts:41-46 | the locked row is another incarnation than the run wrote iff another run of its token stamped it |
| Membership.MoveIsDemanded | src/jobs/membership.ts:36-79 | a move on the incarnation the run wrote sets the tier the locked main row demands at that instant |
| Membership.OwnTokenMoveIsDemanded | src/jobs/membership.ts:100-109 | with one token per run every move does so, without further condition |
| Membership.EqualTokensCanMislead | src/jobs/membership.ts:41-46 | with equal tokens and a relinked character a move contradicts the row it locks, whether that was written or flagged |
| Membership.PendingNeverBecomesAlumni | src/core/tier.ts:19-22 | no run moves a pending account to anything but member |
| Membership.DecisionMeans | src/jobs/membership.ts:200-215 | a run decides on member or alumni only for an unlocked account whose main it resolved and confirmed, by that main's alliance |
| Membership.MoveGoesThrough | src/jobs/membership.ts:38-63 | a move changes the account iff every re-check of the transaction holds on the rows as they are, and then only its tier |
| Membership.StampedRow | src/jobs/membership.ts:131-185 | what a won write and a won flagging leave, field by field, and when they win |
| Membership.StampTellsFlag | src/jobs/membership.ts:139-185 | in every behaviour, a row showing a run's write bears no flag and that run's affiliation, a row showing its flagging bears the flag |
| Membership.ReadsAccounts | src/jobs/membership.ts:186-197 | a run reads the unlocked accounts that have a main, as they are |
| Membership.Database.WriteAffiliation | src/jobs/membership.ts:139-152 | the guarded write wins iff the row exists with no stamp or an older one, and changes that row only |
| Membership.Database.FlagInvalid | src/jobs/membership.ts:153-184 | the flagging transaction's three outcomes, and when it audits |
| Membership.Database.ApplyTierTransition | src/jobs/membership.ts:27-81 | the re-checking transaction applies iff stamp, lock, tier and main still agree |
| Membership.Database.WritePhase | src/jobs/membership.ts:129-152 | the write loop confirms exactly the won rows and counts the rest as stale |
| Membership.Database.SettleAccount | src/jobs/membership.ts:200-224 | one round of the tier loop leaves the account at its demanded tier, or untouched |
| Membership.Database.TierPass | src/jobs/membership.ts:186-225 | the tier loop settles every account it read and counts promotions and demotions |
| Membership.SettledMeans | src/jobs/membership.ts:186-225 | where a run on its own leaves an account: by the alliance of its confirmed main |
| Consent.ReceiptOrder | src/core/fleet-automatic.ts:539-569 | the receipt comparison is a partial order up to the letter case of the device id |
| Consent.ReceiptTimesAreChronological | src/core/fleet-automatic.ts:602-617 | the string and millisecond checks together are plain chronology |
| Consent.HistoryIsSound | src/core/fleet-automatic.ts:258-294 | along any history consents stay valid, the revision counts the changes, and an enabled consent has room for its Off |
| Consent.OnRefusedOnlyAtTheEnd | src/core/fleet-api-v2.ts:102-120 | turning on is refused exactly at the last usable revision |
| Consent.EarlierReceiptsStayAcceptable | src/core/fleet-automatic.ts:550-569 | a recorded consent is acceptable against another of the same history iff it is not later |
| Consent.ReceiptIsAChange | src/core/fleet-automatic.ts:618-652 | a valid receipt records an On, or an Off of the consent its command named |
| Consent.ReceiptExtendsHistory | src/core/fleet-automatic.ts:618-652 | a receipt naming the last counters extends the history and agrees with every earlier consent |
| Consent.CounterAdd | src/core/fleet-api-v2.ts:103-120 | the checked addition succeeds iff nothing is negative or unsafe and the sum stays within the ceiling |
| Consent.ValidMeans | src/core/fleet-automatic.ts:258-295 | a valid consent is the initial one, or approved and either open with a revision to spare or closed no earlier than approved |
| Consent.FollowsReceipt | src/core/fleet-automatic.ts:550-569 | a consent follows a recorded one iff it is the same, its closing, or ahead in both counters |
| Consent.SameUuidMeans | src/core/fleet-automatic.ts:535-536 | device ids are compared letter by letter without the case of A to Z |
| Consent.ChangeHasReceipt | src/core/fleet-automatic.ts:618-652 | every change accepted in time has a valid receipt |
| Candidate.RetryDominates | src/core/fleet-automatic.ts:207-249 | the next attempt is not earlier than any of its lower bounds nor later than the latest of them, and how failures count within 0 to 6 |
| Candidate.StepFollows | src/core/fleet-automatic.ts:139-163 | no single step lowers a generation, reuses it for another binding or moves an attempt earlier |
| Candidate.LifeFollows | src/core/fleet-automatic.ts:137-163 | along any mix of steps a generation never falls and never stands for two bindings |
| Candidate.ReturningIsDistinguishable | src/core/fleet-automatic.ts:137-163 | leaving a binding and returning to it raises the generation |
| Candidate.ExhaustedStaysOut | src/core/fleet-automatic.ts:166-182 | a row at the counter ceiling is never admissible again |
| Candidate.RebindBinds | src/core/fleet-automatic.ts:139-163 | rebinding reaches the requested binding iff the generation is not exhausted, with no callback left over |
| Candidate.SuspensionOutlivesConsent | src/core/fleet-automatic.ts:120-138 | no sequence of consent generations lifts a suspension |
| Candidate.AdmissibleMeans | src/core/fleet-automatic.ts:166-182 | when a row is admissible, column by column |
| Candidate.RebindExactly | src/core/fleet-automatic.ts:139-163 | what rebinding refuses, keeps, drops and sets, column by column |
| Candidate.NextAttemptIsEarliest | src/core/fleet-automatic.ts:207-249 | the next attempt is the earliest instant that respects every bound, with the waits in numbers |
| Candidate.SettledRow | src/core/fleet-automatic.ts:207-249 | a settled attempt drops the callbacks, records its outcome and paces the next |
| StructureEvents.RowStep | src/jobs/structure-events.ts:335-351 | one step changes a row only from pending to sent by its flip, or to abandoned by a change of corporation |
| StructureEvents.NewRow | src/jobs/structure-events.ts:180-198 | a row appears only by an insertion of a run whose check passed, under the corporation it read, seeded or pending as the run is silent or not |
| StructureEvents.SettledForGood | src/jobs/structure-events.ts:182-196 | a row that left pending keeps its status for good |
| StructureEvents.FlippedOnce | src/jobs/structure-events.ts:335-351 | no row is flipped, and so none counted, by two runs |
| StructureEvents.SentOnlyAfterPost | src/jobs/structure-events.ts:48-57 | a row is sent only after a successful post of it, in every interleaving |
| StructureEvents.PendingIsNeverLost | src/jobs/structure-events.ts:48-57 | a pending row stays pending under its corporation until posted and flipped, or retired by a change of corporation |
| StructureEvents.AlertsAreConserved | src/jobs/structure-events.ts:335-351 | counted alerts and uncounted flips always add up to the rows sent |
| StructureEvents.ReportedAlertsAreRowsSent | src/jobs/structure-events.ts:335-351 | when no run crashes or loses its answer after a flip, the reported alerts are the rows sent |
| StructureEvents.FailuresAccountForPending | src/jobs/structure-events.ts:352-356 | the rows a run went through that are still pending never exceed its failures |
| StructureEvents.OkRunLeavesNothingPending | src/jobs/structure-events.ts:374-381 | a run without failures leaves none of the rows it went through pending |
| StructureEvents.PostedForItsCorporation | src/db/schema.ts:691-693 | in every interleaving, a row is posted only by a run that read the corporation it was recorded for |
| StructureEvents.HoldersAreDesignated | src/services/structures.ts:67-92 | the live holder and every holder a run has read were designated with that corporation and stamp |
| StructureEvents.SelectingWasLive | src/jobs/structure-events.ts:221 | a run that selects or posts re-checked its designation, which was live then, and is not silent |
| StructureEvents.SeedingMarks | src/services/structures.ts:67-92 | a designation starts unseeded; only an insertion of a run that read it so marks the live one |
| StructureEvents.InsertionCounts | src/jobs/structure-events.ts:183-209 | an insertion counts the rows that were new, all as seeded or none |
| StructureEvents.RecordedTime | src/jobs/structure-events.ts:183-196 | a row is recorded with the time of its first notice |
| StructureEvents.StepCounts | src/jobs/structure-events.ts:319-356 | a failed post and an unanswered update count as failures, an answered update of a pending row as an alert |
| StructureEvents.DesignationStrands | src/services/structures.ts:94-102 | exactly when a designation leaves a pending row outside the corporation it pins: after a removal, turning to another corporation, with alerts pending |
| StructureEvents.InsertionStrands | src/jobs/structure-events.ts:180-198 | exactly when an insertion does: its check passed, it had read another corporation than the last designated one, and an alert is new |
| StructureEvents.ReachableIffNothingStrands | src/services/structures.ts:48-66 | along any behaviour of atomic designations and two-part insertions, every pending row has always belonged to the last designated corporation iff neither ever happened |
| StructureEvents.StrandingInsertionIsLateOrShared | src/services/structures.ts:118-150 | a stranding insertion was overtaken by a designation between its check and its commit, or two designations of one character share a stamp |
| StructureEvents.RunSelectsAllPending | src/jobs/structure-events.ts:225-243 | while nothing strands, a run that read the last designated corporation selects exactly what is pending, oldest first, any other run nothing |
| StructureEvents.RemovalCanStrandAlerts | src/services/structures.ts:94-102 | from the empty table: an alert outlives its holder, and the next holder's runs never select it |
| StructureEvents.EqualStampsCanStrandAlerts | src/services/structures.ts:136-138 | from the empty table: a run records an alert for a corporation that its stamp no longer pins |
| StructureEvents.LateInsertionCanStrandAlerts | src/jobs/structure-events.ts:180-198 | from the empty table: a designation overtakes a run between its check and its commit, and the alert it records is left behind |
| StructureEvents.EventTable.InsertNotices | src/jobs/structure-events.ts:183-199 | the insertion loop adds the unknown notices and counts exactly those |
| StructureEvents.EventTable.PostPending | src/jobs/structure-events.ts:291-371 | with every outcome of post and reply, and anything the others do in between, the loop leaves the table and counts of its rounds |
| StructureEvents.RoundIsPostAndFlip | src/jobs/structure-events.ts:319-356 | a round is a post and an update of the state machine, with anything in between |
| StructureEvents.CountsAreBacked | src/jobs/structure-events.ts:335-351 | if the others move the tables the rounds reach forward, the loop never counts more alerts than there are newly sent rows |
| StructureEvents.CountsAreBackedInBehaviour | src/jobs/structure-events.ts:335-351 | so with any stretch of a behaviour between the post and the update of every round |
| StructureEvents.UndisturbedRounds | src/jobs/structure-events.ts:291-371 | undisturbed, the loop sends exactly the pending rows it posted and updated, and counts every answered flip |
| Money.ParsePrint | src/core/payout-split.ts:8-28 | parsing a printed amount gives back its cents, for every integer |
| Money.PrintIsCanonical | src/core/payout-split.ts:20-28 | a printed amount is a canonical spelling: two decimals, no superfluous zero, no negative zero |
| Money.PrintParse | src/core/payout-split.ts:8-28 | a canonical spelling is reproduced exactly |
| Money.UniqueCanonicalSpelling | src/core/payout-split.ts:8-28 | the printed form is the only canonical spelling among all spellings of an amount |
| Money.CentsAreTheDecimal | src/core/payout-split.ts:9-18 | the cents are exactly the decimal written, with its sign, wherever spaces surround it |
| Money.AmountsAccepted | src/core/payout-split.ts:9-18 | digits with an optional minus and up to two decimals, spaces around, are accepted as their hundredths |
| Money.OnlyAmounts | src/core/payout-split.ts:10-11 | nothing else is accepted |
| Payout.ComputeSplit | src/core/payout-split.ts:46-80 | the loops compute the specified split, with the source's errors in the source's order |
| Payout.Distribute | src/core/payout-split.ts:70-76 | the accumulating loop fills the amounts and sums what it hands out |
| Payout.SplitConserves | src/core/payout-split.ts:78 | for distinct participants the parts add up to the total exactly, whatever the shares |
| Payout.IncludedAreTheRest | src/core/payout-split.ts:64 | the included participants are exactly those not excluded |
| Payout.EntriesParse | src/core/payout-split.ts:65 | shares are parsed one by one, and one bad spelling refuses the split |
| Payout.EntryAt | src/core/payout-split.ts:65 | each included participant has its own entry, in order, with its parsed shares |
| Payout.TotalIsConserved | src/core/payout-split.ts:46-80 | whenever the split succeeds for distinct included participants, all amounts add up to the total exactly |
| Payout.RepeatedParticipants | src/core/payout-split.ts:65-76 | with repeated entries the parts fall short of the total, unless the shares of each repeated id earn less than a cent |
| Payout.WholeSplitWithRepetition | src/core/payout-split.ts:46-80 | the same for the whole computation and its participants: the parts add up iff every participant listed twice earns less than a cent |
| Payout.RepetitionLosesMoney | src/core/payout-split.ts:65-76 | a participant listed twice is charged to the corporation twice and paid once |
| Payout.FairAmounts | src/core/payout-split.ts:68-76 | nobody is paid a negative amount, and a larger share is never paid less |
| Payout.NeverAboveProRata | src/core/payout-split.ts:68-76 | nobody receives more than the exact pro-rata share of the pool |
| Payout.CorporationKeepsTheRest | src/core/payout-split.ts:78 | the corporation receives exactly what is not paid out |
| Payout.DustIsSmall | src/core/payout-split.ts:68-78 | the dust is non-negative and 100 * dust < total share hundredths + 99 * participants; without shares the pool stays |
| Payout.WholeSplitIsFair | src/core/payout-split.ts:46-80 | for the participants themselves: at most the exact pro-rata share, never negative, monotone in shares, and the dust bound |
| Payout.OutcomeIs | src/core/payout-split.ts:46-65 | the split succeeds iff the total is not negative, the rate is 0 to 100 percent and every included share parses; otherwise the first fault is reported |
| Payout.LastShareStands | src/core/payout-split.ts:65 | of several entries for an id the last share stands |
| Payout.QuotientTruncates | src/core/payout-split.ts:61-73 | division truncates towards zero |

## Left out

- CanonicalOrder, FrozenNfc: the contents of the profile's tables; they are parameters, and the hypotheses on them are stated as predicates.
- ObservedName, NameClosure: strings are sequences of scalars, so lone surrogates and UTF-16 decoding are not modelled; `observedNameKey` (case folding and its table) is left out.
- JsonScan.AdmittedTexts: `JSON.parse` is represented by the grammar of RFC 8259 and UTF-8 decoding and the byte bound are not modelled; literals, numbers and strings are those of the grammar, with lone escaped surrogates allowed as code units.
- JsonNumber.HasIntegralJsonValue: the exponent is an unbounded integer, as the source's comment argues its own conversion may be read; `Number.isFinite(Number(lexeme))` is the exact comparison with the rounding threshold of binary64.
- DtoGuard.Admit: objects are nodes of a finite heap with their own enumerable values; getters, proxies and the schema that runs afterwards are not part of this model.
- IsoDate: instants are integers in the range of a JavaScript date, whose date and spelling are specified as the only ones that denote them, not by the platform's algorithm; the spelling of years outside four digits is left out because the pattern never accepts it.
- CronFire: the JavaScript date getters are a parameter with stated ranges, instantiated by the Gregorian calendar (`CronFire.Gregorian`); instants outside the range of a JavaScript date, where the source would scan an invalid date, are not modelled. Nothing is claimed about "unsatisfiable" beyond the probe: the day probe covers a bounded window, so an intersection of date and weekday can recur later.
- CronCadence, CronLabel: numerals are unbounded, where the source's `Number` rounds beyond 2^53 before the range check refuses them.
- RunHealth: the clock is a parameter, as in the source.
- Affiliation: the upstream is an arbitrary function of the batch and of how many posts came before; numbers of ids beyond memory and thrown errors other than the 400 are one `Failure`.
- Membership: audit rows, the outbox, fleet lifecycle side effects and the account filter of a targeted run are not modelled; characters and accounts may be linked, unlinked, created, changed and deleted by arbitrary environment steps between any two statements, except that no step writes pending over another tier, which only the insertion of a new account writes (`src/services/accounts.ts:309`).
- Consent: the format of device ids; device ids are compared without letter case, ASCII only. Source Stop receipts, status views and browser replies are not part of this model.
- Candidate: the claiming and committing services appear only as steps that may set the callback columns to anything; the jitter is any function of the row into 0 to 3000 milliseconds.
- StructureEvents.ReachableIffNothingStrands: a designation (its read, its write and its sweep) is one atomic step, where the source runs it at the database's default isolation; the check and the commit of an insertion are two steps. A designation's sweep is not interleaved with its commit, and two designations do not overlap.
- StructureEvents: the gates before the insertion (missing character, scope, token, failed read), the rendering of an embed, roster and name lookups, and the read-state row are left out; a failure to render is a failed post.
- Money: amounts are unbounded integers, like the source's; the largest value of the database column is not checked.
- Payout: the texts of the error messages are left out.
- Webhooks, Discord, ESI and Wanderer clients, cryptography, configuration, routing and pages are not part of this model.

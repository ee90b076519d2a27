# Western course scraper: a verified model of its extraction core

This project models the scraper of the uwo-course-app repository. The scraper reads
Western University's academic calendar and master timetable and turns their pages
into course records and course-offering records. Network, file and timing calls
are not modelled. The model covers the logic those calls wrap:

- the weekday bitmask codec (`shared/weekdayList.ts`): bit *i* of a mask stands
  for `WEEKDAYS[i]`, where the tokens are M, Tu, W, Th and F;
- the string helpers `toCamelCase` and `firstWord` (`scraper/src/stringUtils.ts`),
  which work over the maximal runs of `\w`, i.e. ASCII `[A-Za-z0-9_]`;
- the course-information extraction of the academic calendar
  (`scraper/src/academicCalendar.ts`). It covers the header parser and its suffix
  letters, the three requisite patterns (one of them behind a negative
  lookbehind), the bolded and small-label readers, the breadth category,
  campus locations taken from calendar links, and the link collector keyed by
  course id;
- the offering extraction of the master timetable (`scraper/src/westernTimetable.ts`).
  It covers the day cells, the eleven-column row cursor, the table rows, the
  sibling scan, the offering header and the header loop;
- the subject mapping (`scraper/src/subjectCodes.ts`): lookups over an immutable
  mapping, and the loop that builds the mapping from the `<option>`s of the
  subject drop-down;
- the older copies of the same logic in `scraper/src/main.ts`. Each is modelled
  once and cited against both files. Where the copy differs, the difference is
  modelled: the main-campus-only link list, and the record without `link` and
  `locations`.

The DOM is the datatype `Dom.Node` (`Text | Comment | Elem`). Each CSS selector
result is given as a `seq<Node>` in document order, and `.text()` is the
concatenated text of the descendant text nodes. Every regular expression has
its own scanner that follows JavaScript's leftmost-first matching. Each scanner
is proved against an independent relation saying what a match is and which
match is preferred. Every `throw` of the core is an `Error` constructor carried
in a `Result`. JavaScript's `null` is `Option.None`.

Some behaviour of the source worth knowing before reading the model:

- suffix letters are listed with repeats, because every capital of the suffix
  group is pushed;
- the encoder ignores tokens that are not weekdays instead of rejecting them;
- the course weight is kept as the raw label text;
- the offering pipeline of the timetable (`Timetable.RowOf` up to
  `Timetable.OfferingsFor`) is modelled with the corrections of the second and
  third Findings applied: day masks use the documented encoder, and the sibling
  scan stops at the last sibling, so `ScheduleTableNotFound` is returned where
  the program as written never returns. The as-written encoder and scan are
  modelled beside them, with the lemmas that show the difference.

Modules, leaves first: `Results`, `Chars`, `Dom`, `OrderedMaps`, `WeekdayList`,
`StringUtils`, `SubjectCodes`, `CourseHeader`, `Requisites`, `Labels`,
`CalendarLinks`, `CourseInformation`, `Timetable`.

## Model

| member | source | states |
|---|---|---|
| `WeekdayList.EncodeAsWritten` | shared/weekdayList.ts:26-41 | throws exactly when the list has more than five items; otherwise returns the mask the `for...in` loop builds: for each key "0".."4" found in the list, the bit at the key's first position in the list |
| `WeekdayList.EncodedAsWrittenUpTo` | shared/weekdayList.ts:30-40 | the as-written mask is always in [0,31], because each bit it sets is a position in a list of at most five items |
| `WeekdayList.KeyIsNoWeekday` | shared/weekdayList.ts:34-35 | none of the `for...in` keys "0".."4" equals a weekday token |
| `WeekdayList.EncodeAsWrittenIgnoresWeekdays` | shared/weekdayList.ts:34-38 | as written, any list of at most five items made only of M/Tu/W/Th/F encodes to 0 |
| `WeekdayList.EncodeAsWrittenWithoutKeys` | shared/weekdayList.ts:34-38 | as written, any list of at most five items that holds none of the strings "0".."4" encodes to 0 |
| `WeekdayList.EncodeAsWrittenExample` | shared/weekdayList.ts:23-24 | as written, `["M","F"]` encodes to 0, not the documented 17 |
| `WeekdayList.FindIndex` | shared/weekdayList.ts:35 | `findIndex` with `===`: -1 exactly when the item is absent, otherwise the position of its first occurrence |
| `WeekdayList.EncodeIntended` | shared/weekdayList.ts:14-25 | the documented encoder: throws exactly when the list has more than five items; otherwise returns the mask in which bit i is set iff `WEEKDAYS[i]` occurs in the list |
| `WeekdayList.EncodedUpTo` | shared/weekdayList.ts:14-25 | the documented mask is in [0,31], and bit i is set iff `WEEKDAYS[i]` is in the list |
| `WeekdayList.EncodeExample` | shared/weekdayList.ts:23-24 | the documented example `encode(["M","F"]) = 17` holds for the documented encoder |
| `WeekdayList.DecodeWeekdayList` | shared/weekdayList.ts:50-58 | the counted loop returns exactly the decoded list below |
| `WeekdayList.DecodedUpTo` | shared/weekdayList.ts:52-56 | the decoded list has at most five items, each a weekday, and `WEEKDAYS[i]` is in it iff bit i is set |
| `WeekdayList.DecodedInOrder` | shared/weekdayList.ts:52-56 | the decoded tokens are the weekdays at the set bits in increasing bit order, so they come Monday to Friday with no duplicates |
| `WeekdayList.DecodeIgnoresHighBits` | shared/weekdayList.ts:52-53 | bits 5 and up do not affect decoding |
| `WeekdayList.DecodeExamples` | shared/weekdayList.ts:43-49 | decode(0) = [] and decode(17) = ["M","F"] |
| `WeekdayList.DecodeEncode` | shared/weekdayList.ts:19-25 | round trip over lists: decoding the documented encoding of any list gives its weekdays in Monday-to-Friday order, each once, whatever the input order |
| `WeekdayList.EncodeDecode` | shared/weekdayList.ts:43-58 | round trip over masks: every mask in [0,31] is the documented encoding of its decoding |
| `WeekdayList.WeekdaysDistinct` | shared/weekdayList.ts:1-12 | the five weekday tokens are pairwise different |
| `StringUtils.Words` | scraper/src/stringUtils.ts:6 | `match(/\w+/g)`: non-empty runs of ASCII word characters whose concatenation is exactly the word characters of the input |
| `StringUtils.ToCamelCase` | scraper/src/stringUtils.ts:4-16 | throws iff the input has no word character; otherwise the result is made of word characters only and equals the input's word characters up to letter case. The words array is rewritten in place (first run lowercased, later runs capitalised) and joined. The same holds for `stringToCamelCase` at scraper/src/main.ts:59-71 |
| `StringUtils.CamelCaseProperties` | scraper/src/stringUtils.ts:6-15 | the camelCase key has exactly as many characters as the input has word characters; spaces and punctuation are dropped |
| `StringUtils.FirstWord` | scraper/src/stringUtils.ts:23-29 | throws iff the input has no word character; otherwise returns the leftmost maximal word run, a non-empty substring of the input. The same holds for `stripValue` at scraper/src/main.ts:78-84 |
| `StringUtils.FirstWordIsFirstRun` | scraper/src/stringUtils.ts:24 | `firstWord` is the first of the runs that `toCamelCase` splits into |
| `StringUtils.FirstWordIdempotent` | scraper/src/stringUtils.ts:23-29 | firstWord(firstWord(s)) = firstWord(s) |
| `SubjectCodes.Get` | scraper/src/subjectCodes.ts:55-57 | returns the mapping's code exactly when `has` holds (an own key), and null otherwise |
| `SubjectCodes.FromNameAgree` | scraper/src/subjectCodes.ts:51-61 | `hasFromName` and `getFromName` throw exactly when the name has no word character; otherwise `hasFromName` is true iff `getFromName` returns a code |
| `SubjectCodes.GetFromNameExample` | scraper/src/subjectCodes.ts:59-61 | "Computer Science" and "Computer  Science!" both look up the key "computerScience" |
| `SubjectCodes.AllKeys` | scraper/src/subjectCodes.ts:66-68 | returns each key of the mapping exactly once, and nothing else |
| `SubjectCodes.OptionEntrySpec` | scraper/src/subjectCodes.ts:32-42 | one option contributes nothing iff its `value` is missing or empty; otherwise it throws "no first child" iff it has no child node, "no data" iff that child is an element, the camelCase error iff the child's text has no word character, the `firstWord` error iff only the value has none (the key is computed first); otherwise the pair is (camelCase of the child's text, first word of the value) |
| `SubjectCodes.ReadOption` | scraper/src/subjectCodes.ts:32-42 | one pass of the loop body returns exactly the option's entry or error, as `OptionEntrySpec` states them |
| `SubjectCodes.GenerateSubjectMapping` | scraper/src/subjectCodes.ts:24-45 | the counted loop over the options builds exactly the mapping of the option entries in order, or throws the first error; also scraper/src/main.ts:91-112 |
| `SubjectCodes.GeneratedLookup` | scraper/src/subjectCodes.ts:38 | a key of the generated mapping gives the code of the LAST option with that key: later options overwrite earlier ones |
| `SubjectCodes.GeneratedFails` | scraper/src/subjectCodes.ts:34-41 | the build throws exactly when some option throws on its own, and then with the error of the first such option |
| `OrderedMaps.Insert` | scraper/src/subjectCodes.ts:38 | setting a key replaces its value; a new key goes last in key order, an existing one keeps its place |
| `OrderedMaps.KeyCount` | scraper/src/subjectCodes.ts:66-68 | the ordered key list has as many entries as the map has keys |
| `CourseHeader.SuffixGroupEnd` | scraper/src/academicCalendar.ts:150 | the greedy `((?:[A-Z]\/?)+)?` stops at a non-capital; what it takes starts with a capital, and every slash in it follows a capital |
| `CourseHeader.SuffixGroupMaximal` | scraper/src/academicCalendar.ts:150 | no string that `(?:[A-Z]\/?)+` can match from a position reaches past the end of the greedy group |
| `CourseHeader.NameWithCodeMatchDetermined` | scraper/src/academicCalendar.ts:150 | any match of `\w+\s+(\d+)((?:[A-Z]\/?)+)?` at a start has the word and whitespace runs of the attempt there, and no longer a digit run or suffix group |
| `CourseHeader.NumberIsDigitRun` | scraper/src/academicCalendar.ts:150 | the number capture of a match is a non-empty run of digits |
| `CourseHeader.NameWithCodeAtSpec` | scraper/src/academicCalendar.ts:150 | the attempt at a start succeeds iff the pattern can match there (word run, whitespace run, digit run, optional slash list), and then it takes the longest digit run and the longest suffix group |
| `CourseHeader.FirstNameWithCodeSpec` | scraper/src/academicCalendar.ts:150-162 | there is no header match iff the pattern matches nowhere; otherwise the groups are those of a match that starts no later than any other and, at its start, has the longest number and suffix group |
| `CourseHeader.NoDigitNoMatch` | scraper/src/academicCalendar.ts:155-162 | a header text without a digit has no match, so the header error is thrown |
| `CourseHeader.WordSpaceDigitsMatch` | scraper/src/academicCalendar.ts:150-179 | every text made of a word, whitespace and digits matches, with all the digits as the number and no suffix group |
| `CourseHeader.FirstMatchPosition` | scraper/src/academicCalendar.ts:155-162 | the leftmost match: no match starts before it, and when none starts there it is the end of the text |
| `CourseHeader.ExtractSuffixes` | scraper/src/academicCalendar.ts:164-175 | the `matchAll` loop pushes every capital of the suffix group in order, dropping slashes and keeping repeats; also scraper/src/main.ts:246-257 |
| `CourseHeader.ParseCourseHeader` | scraper/src/academicCalendar.ts:150-179 | throws exactly when the header text has no match; otherwise takes the digit capture and the capitals of the suffix group (none when the group is absent) of the leftmost match; also scraper/src/main.ts:232-261 |
| `CourseHeader.HeaderExampleWithSuffixes` | scraper/src/academicCalendar.ts:150-179 | "CALC 1000A/B" gives number "1000" and suffixes ["A","B"] |
| `CourseHeader.HeaderExampleWithoutSuffixes` | scraper/src/academicCalendar.ts:177-179 | "MATH 1225" gives number "1225" and no suffixes |
| `CourseHeader.HeaderExampleLaterWord` | scraper/src/academicCalendar.ts:155-162 | in "Applied Calculus 1000A" the match starts at the second word and the number is "1000" |
| `Requisites.LazyEnd` | scraper/src/academicCalendar.ts:204-206 | the lazy `(.+?)` ends at the earliest position where a stop label or the end of the text follows, never crossing a line terminator |
| `Requisites.TryWidths` | scraper/src/academicCalendar.ts:204-206 | the greedy `\s+` is tried widest first; the match found is the preferred one at that start (widest whitespace, then shortest capture), or none exists |
| `Requisites.ClauseMatchAt` | scraper/src/academicCalendar.ts:204-206 | the attempt at one start returns exactly the preferred match there, and none iff nothing matches there; it includes the `(?<!Pre-or\s+)` guard of the corequisite pattern |
| `Requisites.GetMatchSpec` | scraper/src/academicCalendar.ts:209-214 | `getMatch` is null iff the pattern matches nowhere; otherwise it is the trimmed capture of the leftmost match, with widest whitespace and then shortest capture at that start |
| `Requisites.MatchWithoutLineTerminators` | scraper/src/academicCalendar.ts:203-214 | in text without line terminators, a field is present iff its label (not behind "Pre-or" and whitespace, for corequisites) is followed by whitespace and at least one more character |
| `Requisites.RemoveNewlines` | scraper/src/academicCalendar.ts:189-192 | `replace(/(?:\r?\n)/g, "")` leaves no line feed |
| `Requisites.RemoveNewlinesAppend` | scraper/src/academicCalendar.ts:189-192 | the removal splits over any cut that does not fall inside a "\r\n" pair |
| `Requisites.RemoveCrLf` | scraper/src/academicCalendar.ts:189-192 | a "\r\n" is removed as a whole, and the text around it is kept |
| `Requisites.RemoveLf` | scraper/src/academicCalendar.ts:189-192 | a "\n" not preceded by "\r" is removed, and the text around it is kept |
| `Requisites.KeepLoneCr` | scraper/src/academicCalendar.ts:189-192 | a "\r" not followed by "\n" is kept, so it still stops the lazy `.+?` of the requisite patterns |
| `Requisites.RemoveNewlinesKeepsOtherText` | scraper/src/academicCalendar.ts:189-192 | text without line feeds is left unchanged |
| `Requisites.ExtractRequisiteInformation` | scraper/src/academicCalendar.ts:193-221 | all three fields are null for null or empty text; otherwise each field is null iff its own pattern matches nowhere; also scraper/src/main.ts:275-303 |
| `Requisites.PreOrExample` | scraper/src/academicCalendar.ts:205-206 | "Pre-or Corequisite(s): Q" gives preOr "Q" and no corequisites: the lookbehind rejects the inner "Corequisite(s):" |
| `Requisites.TwoClausesExample` | scraper/src/academicCalendar.ts:204-206 | "Prerequisite(s): A Corequisite(s): B" gives prerequisites "A" (the lazy capture stops at the next label and is trimmed), corequisites "B" and no pre-or-corequisites |
| `Labels.BoldedText` | scraper/src/academicCalendar.ts:181-186 | null exactly for a missing or empty selection; otherwise the selection's text with only leading and trailing whitespace removed; also scraper/src/main.ts:263-268 |
| `Labels.SmallLabelText` | scraper/src/academicCalendar.ts:224-237 | null exactly for an empty selection; throws exactly when the first node has fewer than two children, or when its second child is not a text node; otherwise that text's trimmed data; also scraper/src/main.ts:306-319 |
| `Labels.CategoryAtSpec` | scraper/src/academicCalendar.ts:240 | the attempt of `/Category\s+([ABC])/gi` at one position succeeds exactly when some match starts there, and it returns that match's letter |
| `Labels.BreadthCategoryLetter` | scraper/src/academicCalendar.ts:239-250 | null for null or "" input; the only error is the breadth mismatch; a result is one letter from A/B/C in either case |
| `Labels.BreadthSpec` | scraper/src/academicCalendar.ts:244-249 | on non-empty text it throws iff "Category", whitespace and a category letter occur nowhere (case-insensitively); otherwise the letter is that of the leftmost match; also scraper/src/main.ts:321-332 |
| `Labels.BreadthExampleLowercase` | scraper/src/academicCalendar.ts:240-249 | "category b" gives "b": the `i` flag matches and the letter keeps its case |
| `Labels.BreadthExampleMismatch` | scraper/src/academicCalendar.ts:245-247 | "Category D" throws |
| `CalendarLinks.LocationFromLinkSpec` | scraper/src/academicCalendar.ts:257-265 | `getLocationFromLink` is null iff the location pattern matches nowhere in the link; otherwise it is the capital run of the leftmost match |
| `CalendarLinks.IsLinkOfCorrectTypeSpec` | scraper/src/academicCalendar.ts:63-66 | `isLinkOfCorrectType` accepts a link iff `Courses.cfm?CourseAcadCalendarID=`, a capital run, `_`, at least one character and `&SelectedCalendar=Live&ArchiveID=` occur in it; this is the same language as the location pattern, so a link passes iff it has a location |
| `CalendarLinks.CourseIdFromLink` | scraper/src/academicCalendar.ts:77-88 | the only error is the id mismatch; an id is a non-empty digit run, so the second `\d+` check never throws |
| `CalendarLinks.CourseIdFromLinkSpec` | scraper/src/academicCalendar.ts:78-83 | the id extraction throws iff `[A-Z]+_(\d+)_\d+` matches nowhere; otherwise the id is the first digit run of the leftmost match |
| `CalendarLinks.IdLinkIsOfCorrectType` | scraper/src/academicCalendar.ts:63-83 | every link with a course id passes the loose link test |
| `CalendarLinks.ContainsMoreDetailsSpec` | scraper/src/academicCalendar.ts:71-72 | the anchor-text test holds iff "More", whitespace and "Details" occur in the text, in any letter case |
| `CalendarLinks.AnchorEntry` | scraper/src/academicCalendar.ts:68-73 | an anchor is skipped iff it is not an `a` with a correct-type `href` and a first text child saying "More Details"; an accepted anchor throws iff its link has no course id; otherwise it yields (id, full link) |
| `CalendarLinks.CourseInformationLinks` | scraper/src/academicCalendar.ts:90-100 | the loop sets each accepted anchor's link under its id in a Map and returns the Map's values, or the first id error |
| `CalendarLinks.SetAnchor` | scraper/src/academicCalendar.ts:91-96 | one pass of the loop body does exactly what the anchor's entry says |
| `CalendarLinks.CollectedKeys` | scraper/src/academicCalendar.ts:93-96 | the Map holds one key per course id, in the order the ids were first seen |
| `CalendarLinks.CollectedLookup` | scraper/src/academicCalendar.ts:93-96 | the link kept for an id is that of the last anchor with that id |
| `CalendarLinks.CollectedFails` | scraper/src/academicCalendar.ts:90-98 | the collection throws iff some accepted anchor lacks the `_digits_digits` id shape, and then with the first such error |
| `CalendarLinks.RepeatedEntry` | scraper/src/academicCalendar.ts:93-96 | two anchors with the same id leave one entry, holding the later URL |
| `CalendarLinks.MainCourseInformationLinks` | scraper/src/main.ts:160-182 | the older collector pushes the full link of every `MAIN_` "More Details" anchor, in document order |
| `CalendarLinks.MainLinksFromMainAnchors` | scraper/src/main.ts:174-181 | each link of the older collector comes from a main-campus anchor, at most one per anchor |
| `CalendarLinks.MainLinksInDocumentOrder` | scraper/src/main.ts:174-181 | the k-th link of the older collector is that of the k-th main-campus anchor, and there are exactly as many links as such anchors |
| `CalendarLinks.MainLinksListEachAnchor` | scraper/src/main.ts:174-181 | the link of every main-campus "More Details" anchor is listed |
| `CalendarLinks.MainElementIsOfCorrectType` | scraper/src/main.ts:162-173 | the older anchor test accepts no anchor that the academic-calendar test rejects |
| `CalendarLinks.RepeatedAnchor` | scraper/src/main.ts:174-182 | the same anchor twice: the older list has its link twice, the id-keyed Map once |
| `CourseInformation.OtherLocations` | scraper/src/academicCalendar.ts:266-279 | at most one location per anchor, each a non-empty run of capitals |
| `CourseInformation.GetOtherLocations` | scraper/src/academicCalendar.ts:266-279 | the push loop collects the location of each anchor that has one, in document order |
| `CourseInformation.OtherLocationsListsEachAnchor` | scraper/src/academicCalendar.ts:269-276 | every anchor's location appears in the list |
| `CourseInformation.OtherLocationsFromAnchors` | scraper/src/academicCalendar.ts:269-276 | every listed location comes from some anchor |
| `CourseInformation.DuplicateLocationsKept` | scraper/src/academicCalendar.ts:284 | two anchors with the same location list it twice: there is no deduplication |
| `CourseInformation.RequisiteTextSpec` | scraper/src/academicCalendar.ts:144-148 | the requisite text is null iff the second description div is missing or its trimmed text is empty; otherwise it holds no line feed; the empty test and the `\r?\n` removal are at scraper/src/academicCalendar.ts:181-192 |
| `CourseInformation.PageLabels` | scraper/src/academicCalendar.ts:238-254 | the small labels never throw the header or location error; the subject code is null iff its label is absent; a breadth is one category letter |
| `CourseInformation.PageLabelsBreadthError` | scraper/src/academicCalendar.ts:251-253 | the breadth error is thrown iff the weight and breadth labels are well formed and the breadth text is non-empty and has no "Category X" |
| `CourseInformation.MainCourseInformationOf` | scraper/src/main.ts:189-355 | the older record throws the header error iff the h2 text has no course code, and never the location error |
| `CourseInformation.MainCourseInformationFields` | scraper/src/main.ts:336-355 | the older record holds: a non-empty digit course number from the leftmost header match; the capitals of its suffix group; `courseCode` equal to subject code, space and number ("null NNNN" without a subject label); a one-letter breadth; trimmed name and description |
| `CourseInformation.NoRequisitesWithoutSecondBlock` | scraper/src/academicCalendar.ts:144-148 | without a second description div all three requisite fields are null |
| `CourseInformation.CourseInformationFromPage` | scraper/src/academicCalendar.ts:115-304 | reads the selections in source order, reassigns the requisite text without line breaks, and returns exactly the calendar record or the first error |
| `CourseInformation.CourseInformationFields` | scraper/src/academicCalendar.ts:280-303 | the record carries the given link; `locations[0]` is the campus of that link; the rest are the page anchors' locations in order; each location is a non-empty capital run |
| `CourseInformation.CourseInformationErrors` | scraper/src/academicCalendar.ts:158-162 | the header error is thrown iff there is no course code; the breadth error iff earlier checks pass and no "Category X" occurs; the location error iff all else passes and the link matches the location pattern nowhere |
| `CourseInformation.CalendarExtendsMain` | scraper/src/academicCalendar.ts:287-303 | the academic-calendar record is the older main.ts record plus `link` and `locations`, and it can additionally fail only on a link without a location |
| `Timetable.NextElement` | scraper/src/westernTimetable.ts:73 | `.next()` selects the first element sibling from the given position, or the empty selection |
| `Timetable.DaysOfWeekInformation` | scraper/src/westernTimetable.ts:57-69 | the push loop keeps, in cell order, each trimmed cell text containing a weekday token and encodes the list, with the documented encoder |
| `Timetable.DayTextsMembers` | scraper/src/westernTimetable.ts:60-66 | a text is kept iff it contains M/Tu/W/Th/F as a substring and is one of the cell texts |
| `Timetable.DayTextsAreTokenPositions` | scraper/src/westernTimetable.ts:60-66 | the kept texts are the cell texts at the positions with a weekday token, in increasing order |
| `Timetable.TokenPositionsComplete` | scraper/src/westernTimetable.ts:60-66 | every cell whose text contains a weekday token is among the token positions: no day cell is skipped |
| `Timetable.DaysOfWeekSpec` | scraper/src/westernTimetable.ts:57-69 | throws iff more than five cells hold a weekday token; otherwise bit i is set iff some cell's trimmed text is exactly `WEEKDAYS[i]` |
| `Timetable.KeyHasNoWeekdayToken` | scraper/src/westernTimetable.ts:62-64 | none of the `for...in` key strings "0".."4" contains a weekday token, so the day collection never keeps one |
| `Timetable.DaysOfWeekAsWritten` | scraper/src/westernTimetable.ts:57-69 | with `encodeWeekdayList` as written, every row with at most five kept day texts gets the mask 0 |
| `Timetable.DaysOfWeekAsWrittenDiffers` | scraper/src/westernTimetable.ts:57-69 | one to five cells that each hold exactly one weekday token give 0 as written, while the documented encoding gives a non-zero mask |
| `Timetable.NoDayCells` | scraper/src/westernTimetable.ts:81 | no day cells (as for a missing days cell) give the mask 0 |
| `Timetable.GetRowInformation` | scraper/src/westernTimetable.ts:51-110 | the cursor walks the cells left to right; the row's eleven fields are the trimmed texts under cursor positions 0-10, with the day mask from position 3; also scraper/src/main.ts:397-456 |
| `Timetable.CursorSteps` | scraper/src/westernTimetable.ts:72-73 | each `nextEntry()` moves to the next element cell with none skipped; past the last cell the cursor stays empty |
| `Timetable.NextOfElementPosition` | scraper/src/westernTimetable.ts:72-73 | `.next()` of the k-th element child is element child k + 1, skipping text and comment nodes, or the empty selection after the last one |
| `Timetable.CursorOfPlainRow` | scraper/src/westernTimetable.ts:71-73 | in a row whose element children are `td` cells, with any text or comment nodes between them, cursor position k is the k-th element child, or the empty selection past the last one |
| `Timetable.PlainRowFields` | scraper/src/westernTimetable.ts:71-109 | such a row yields its element children 0-10 in order, skipping text and comment nodes: trimmed texts, "" for missing cells, the mask from the fourth cell, and 0 when there is no fourth cell |
| `Timetable.GetTimetableDataFromTable` | scraper/src/westernTimetable.ts:47-49 | the loop over `tbody > tr` pushes one record per row in document order, or throws the row's error; also scraper/src/main.ts:393-466 |
| `Timetable.CollectedSpec` | scraper/src/westernTimetable.ts:114-117 | the table throws iff some row throws, and then with the error of the first such row |
| `Timetable.RowsOfTable` | scraper/src/westernTimetable.ts:112-119 | a table that does not throw yields exactly one record per row, each the record of its row |
| `Timetable.NextMatchingSibling` | scraper/src/westernTimetable.ts:122-137 | the documented scan: the first following element sibling with the tag, or null when none has it |
| `Timetable.FirstNamedUnique` | scraper/src/westernTimetable.ts:122-127 | the documented result is determined: it is the first following sibling with the tag |
| `Timetable.AsWrittenNeverNull` | scraper/src/westernTimetable.ts:130-135 | as written, the null result is never produced, because a Cheerio selection is always truthy |
| `Timetable.AsWrittenRunsForever` | scraper/src/westernTimetable.ts:130-132 | as written, when no later sibling matches, the loop is still running after any number of iterations |
| `Timetable.NoTableAfterHeader` | scraper/src/westernTimetable.ts:142-145 | as written, a header without a later `table` sibling never leaves the scan, so the "could not find table" throw is dead |
| `Timetable.AsWrittenFindsFirst` | scraper/src/westernTimetable.ts:128-137 | when a later sibling matches, the as-written scan returns the first such sibling |
| `Timetable.OfferingHeaderAtSpec` | scraper/src/westernTimetable.ts:147 | the attempt of `([A-Za-z]+)\s+(\d+)([A-Z]+)` at a position is a match, and the widest capital run is taken |
| `Timetable.FirstOfferingHeaderSpec` | scraper/src/westernTimetable.ts:147-154 | no header iff the pattern matches nowhere; otherwise the groups are those of the leftmost match, whose capital run cannot be extended |
| `Timetable.SuffixRequired` | scraper/src/westernTimetable.ts:147-153 | a header matches only if a digit is followed by a capital: at least one suffix letter is required |
| `Timetable.SuffixExample` | scraper/src/westernTimetable.ts:155-157 | "Calc 1000A/B" gives subject "Calc", number "1000" and suffixes "A" |
| `Timetable.DescriptionSpec` | scraper/src/westernTimetable.ts:141 | the description is the untrimmed text of the next element sibling when it is a `p`, and "" otherwise |
| `Timetable.OfferingOf` | scraper/src/westernTimetable.ts:139-174 | the only errors are: table not found, header mismatch, or too many weekdays |
| `Timetable.CourseOfferingDataFromHeader` | scraper/src/westernTimetable.ts:139-174 | with the documented sibling scan, the offering is read in source order: description, table, header match, rows; also scraper/src/main.ts:485-520 |
| `Timetable.FirstOfferingHeaderNonEmpty` | scraper/src/westernTimetable.ts:154-157 | subject, number and suffixes of a header match are all non-empty |
| `Timetable.OfferingFields` | scraper/src/westernTimetable.ts:154-173 | an offering carries: the leftmost header's groups; `courseCode` = subject + " " + number; the description; one record per row of the first `table` sibling |
| `Timetable.GetCourseOfferingDataForSubject` | scraper/src/westernTimetable.ts:33-184 | throws "Invalid subject" for a key missing from the mapping; the header loop `break`s after the first push; also scraper/src/main.ts:379-530 |
| `Timetable.OfferingsOfKnownSubject` | scraper/src/westernTimetable.ts:176-181 | for a known subject: no headers give []; otherwise the first header's offering or its error |
| `Timetable.OfferingsSpec` | scraper/src/westernTimetable.ts:36-38 | "Invalid subject" is thrown iff the subject is unknown; a result holds at most one offering, exactly one when there is a header, and it is the first header's |

## Left out

- Fetching (`axios.get`/`axios.post`), the subject checks that only guard a fetch (scraper/src/academicCalendar.ts:38-46, scraper/src/main.ts:118-146), and the fetch-error branch that returns `undefined` (scraper/src/academicCalendar.ts:108-114, scraper/src/main.ts:190-196, scraper/src/westernTimetable.ts:13-27): network I/O. The model starts from the loaded page.
- File I/O: the module-level JSON load of the subject mapping, `initialize*Mapping` in scraper/src/main.ts, `writeFileSync` and all `dump*` functions. The subject mapping is an immutable parameter.
- `sleep`, `promiseTimeout` and the per-subject and per-link loops that only pace requests (`getCourseInformationDataForSubject` at scraper/src/academicCalendar.ts:310-321 and scraper/src/main.ts:362-373): timers and async orchestration.
- Cheerio's selector engine. Each selector result is a given node sequence in document order. `.find(".daysTable > tbody > tr > td")` inside a days cell is the parameter `dayCellsOf`.
- `Number(...)` of the course weight: floating point. The weight is the raw small-label text.
- `courseHeaderRegex` and `antirequisites`: computed but never used.
- scraper/index.js (a superseded prototype) and scraper/src/sleep.ts: not part of this model.
- The order of `Object.keys`: `SubjectCodes.AllKeys` returns the mapping's keys in insertion order. JavaScript would list integer-like keys first; subject keys are camelCase words, so this does not arise.
- `Timetable.GetCourseOfferingDataForSubject`: scraper/src/main.ts:382 tests the subject with `in`, which also sees inherited properties of the object. The model uses the own-key test of `has` for both copies.
- `Timetable.DaysOfWeekInformation`, `Timetable.OfferingOf`: the offering pipeline (`RowOf`, `TableData`, `OfferingOf`, `OfferingsFor` and the methods proved against them) applies both timetable Findings. It encodes the day texts with the documented encoder where scraper/src/westernTimetable.ts:68 calls the as-written one, so a row with cells "M" and "W" gets 5 where the program stores 0. It uses the sibling scan that stops at the last sibling where scraper/src/westernTimetable.ts:128-137 loops forever, so it returns `ScheduleTableNotFound` where the program never returns. The as-written behaviour is stated by `Timetable.DaysOfWeekAsWritten` and `Timetable.NoTableAfterHeader`.
- `WeekdayList.DecodeWeekdayList`: takes the mask as a 32-bit vector; a JavaScript number with bits above 31, or a fraction, is not modelled.
- `Dom.TextContent`: the text of comment nodes is omitted, as Cheerio's `.text()` does. CDATA and script content are not modelled.
- Character classes: `\s` and `trim` use the ECMAScript white-space and line-terminator set. Case-insensitive matching is ASCII case folding. The patterns only involve ASCII letters, so this is exact for them.

## Findings

| source | as written | input that shows it | evidently intended | confidence | as-written member | corrected member |
|---|---|---|---|---|---|---|
| shared/weekdayList.ts:34-38 | `for (const weekday in WEEKDAYS)` iterates the keys "0".."4" and sets the bit at the key's position in the input list | `encodeWeekdayList(["M","F"])` returns 0 | 17, as the doc comment says: bit i set iff `WEEKDAYS[i]` is in the list | high (not executed) | `WeekdayList.EncodeAsWrittenIgnoresWeekdays` | `WeekdayList.EncodeIntended` |
| scraper/src/westernTimetable.ts:57-68 | the day collection hands its list to the as-written encoder, so every day mask of the timetable is 0 | a days table with cells "M" and "W" gives 0 | 5, the mask of Monday and Wednesday | high (not executed) | `Timetable.DaysOfWeekAsWritten` | `Timetable.DaysOfWeekSpec` |
| scraper/src/westernTimetable.ts:128-137 | `while (nextSibling && ...)`: a Cheerio selection is always truthy, so past the last sibling the empty selection keeps the loop running | a course header with no `table` sibling after it never returns | return null at the end of the siblings, so that "Could not find the course offering schedule table" is thrown | high (not executed) | `Timetable.NoTableAfterHeader` | `Timetable.NextMatchingSibling` |

# Exam tracker core in Dafny

A model of the logic behind the university exam tracker widget (`app.js`).
The widget keeps a list of exam records in browser storage. It shows each one
as a card with a live countdown and an urgency colour. The list can be narrowed
by exam type and by a free-text search. Cards are added through a form, and
each card can be edited or deleted. A clear button empties the list.

The model keeps the parts that compute something and drops the browser:

- `Duration`: `diffToParts`, which splits a millisecond delta into days,
  hours, minutes and seconds.
- `Countdown`: `countdownText`, the text a card's countdown shows. The text is
  paired with a parser that reads it back and reads nothing else.
- `Urgency`: `urgencyClass`, the CSS class that colours a card, and the phases
  a card moves through as the clock advances.
- `Html`: `escapeHtml`, the chain of five `replaceAll` calls. It is proved
  equal to a one-pass escape, and that escape is proved to be undone by
  unescaping.
- `Decimal`: decimal rendering of naturals and `pad2`.
- `Strings`: `trim`, ASCII `toLowerCase` and `includes`.
- `Seqs`: subsequences and an order-keeping filter.
- `Exams`: the record, the form's submit handler, the card buttons' click
  handler (`findIndex` then `splice`) and the clear button.
- `Projection`: `getFilteredSortedExams`. This is the stable sort by date,
  then the type filter, then the search.

The clock (`Date.now()`) is the parameter `now`, in milliseconds. The host's
date parser (`new Date(s).getTime()`) is the parameter `parse`, and `None`
stands for NaN. Where a function takes an already-parsed instant, it is an
`Option<int>`. Record ids and creation stamps (`uid()`, `toISOString()`) are
parameters. So is the answer to the clear button's confirmation dialog.
Storage is not modelled: each handler is a function from the stored list
before to the stored list after.

## Model

| member | source | states |
|---|---|---|
| Duration.DiffToParts | app.js:22-32 | The parts are normal (h < 24, m < 60, s < 60). They add up to exactly the whole seconds of the delta clamped at zero. A delta of zero or less gives all zeros. |
| Duration.DiffToPartsOfTotal | app.js:22-32 | The decomposition is unique: any normal parts whose seconds account for a delta are the ones returned for it. |
| Countdown.CountdownOf | app.js:34-46 | Invalid exactly when the date does not parse. Passed exactly when it parses and the delta is at most zero. A days countdown has at least one day and its days/hours/minutes bound the remaining seconds to within a minute. An hours countdown has 1 to 23 hours. Hours and minutes countdowns recompose exactly to the remaining whole seconds. |
| Countdown.CountdownText | app.js:34-46 | The shown text reads back as the countdown for the target at that instant, and it is the only string that does, so the text is fixed by the countdown. It is the invalid text exactly when the date does not parse, and the passed text exactly when the delta is at most zero. |
| Countdown.CountdownFormatByMagnitude | app.js:42-45 | A day or more left shows days. From an hour up to a day shows hours. Under an hour shows minutes. |
| Countdown.ParseText | app.js:39-45 | Every countdown text parses back to the countdown it came from, so the text determines the countdown. |
| Countdown.ParseOnlyTexts | app.js:39-45 | A string that reads as a countdown is exactly that countdown's text. Numbers with a leading zero, stray spaces or trailing characters do not read. |
| Countdown.LeadingZeroRejected | app.js:43 | "01d 1h 1m", a day count padded with a zero, is not a countdown text, since interpolation never pads. |
| Countdown.TextInjective | app.js:39-45 | Distinct countdowns never show the same text. |
| Countdown.CountdownExamples | app.js:39-45 | 1d 1h 1m 1s shows "1d 1h 1m" (seconds dropped). 1h 1m 1s and 1m 1s show all their units. A zero delta shows the passed text. An unparseable date shows the invalid text. |
| Urgency.UrgencyOf | app.js:48-55 | Critical exactly when the delta is positive and the exact hours left, delta / 3 600 000 over the reals, are at most 2. Warning exactly when those hours are above 2 and at most 24. Otherwise calm, including for an unparseable date. |
| Urgency.UrgencyClass | app.js:48-55 | "dangerSoon" exactly when the delta is positive and at most 2 hours. "warn" exactly when it is above 2 and at most 24 hours. "" exactly when the date does not parse, has passed, or is more than 24 hours away. |
| Urgency.UrgencyBoundaries | app.js:50-54 | Exactly 2 h left is "dangerSoon" and a second more is "warn". Exactly 24 h is "warn" and a second more is "". Now and an invalid date give "". |
| Urgency.PhaseMonotone | app.js:40-54 | As the clock advances a card only moves forward: upcoming, warning, critical, passed. |
| Html.EscapeHtml | app.js:57-64 | A missing value or "" gives "". The output holds none of `< > " '`, and every `&` in it starts one of the five entities. Unescaping the output gives back the input. |
| Html.ReplaceChainIsEscape | app.js:58-63 | The five sequential replacements, `&` first, equal the one-pass per-character escape. |
| Html.Escape | app.js:58-63 | The one-pass escape has no markup character, every `&` starts an entity, and unescaping inverts it. |
| Html.ReplaceAll | app.js:59 | Replacing a character that does not occur changes nothing. |
| Decimal.NatToString | app.js:14 | `String(n)` is a non-empty digit string with no leading zero. It is one digit exactly when n < 10. |
| Decimal.ParseNatToString | app.js:14 | Reading the rendered digits back gives n. |
| Decimal.NatToStringOfParse | app.js:14 | A digit string with no leading zero is the rendering of its own value. |
| Decimal.ReadNatInverse | app.js:14 | A number read off the front of a string is a rendered number, followed by a rest that does not start with a digit. |
| Decimal.NatToStringInjective | app.js:14 | Distinct numbers render differently. |
| Decimal.Pad2 | app.js:14 | At least two digits that read back as n. Numbers below 10 get exactly one leading zero. Others are rendered unchanged. |
| Strings.Trim | app.js:100 | The result is no longer than the input and neither starts nor ends with white space. |
| Strings.TrimIsCut | app.js:167 | The result is an infix of the input, and everything cut away on both sides is white space. |
| Strings.TrimOfTrimmed | app.js:207-213 | A string with no white space at either end trims to itself. |
| Strings.Lower | app.js:100 | Lower-casing keeps the length, maps each character on its own, and leaves no upper-case ASCII letter. |
| Strings.Contains | app.js:107-108 | `includes` is true exactly when the needle occurs at some offset. |
| Seqs.Filter | app.js:105-109 | The filtered list is a subsequence of the input. Every passing value occurs in it exactly as many times as in the input, and no other value occurs. If all pass it is the input. |
| Projection.Sort | app.js:103 | The sorted list is ordered by instant and is a permutation of the input. |
| Projection.SortStable | app.js:103 | Records with the same instant keep their stored relative order. |
| Projection.SortIsTheStableSort | app.js:103 | Any arrangement that is ordered by instant and keeps the tie order is exactly the sorted list. |
| Projection.ByType | app.js:105 | A subsequence of the input. Each record of the selected type keeps all its copies, and no other record remains. "all" keeps every record. |
| Projection.BySearch | app.js:100-109 | A subsequence of the input. Each record whose lower-cased course or notes contain the trimmed, lower-cased search keeps all its copies, and no other record remains. An empty search keeps every record. |
| Projection.Project | app.js:98-111 | The list is ordered by instant and is a subsequence of the sorted records. A record is shown exactly when it is stored, its type matches the filter ("all" matches every type), and the trimmed, lower-cased search is empty or occurs in the lower-cased course or notes. A shown record appears as many times as it is stored. With "all" and an empty search, every record is shown. |
| Projection.ProjectKeepsTieOrder | app.js:98-111 | Shown records with the same instant appear in their stored order. |
| Projection.ClearEmptiesList | app.js:225-228 | After a confirmed clear, the list is empty whatever the filters. After a declined clear, it is unchanged. |
| Exams.Submit | app.js:165-181 | A submission whose trimmed course or date is empty changes nothing. An accepted one appends exactly one record, keeps all others in place, and stamps it with the given id and time. The new record holds the trimmed course, seat, building, room and notes and the type and date exactly as entered. Its course and date are non-empty. |
| Exams.SubmitKeepsValid | app.js:165-181 | Submitting under an unused id keeps every record well formed and all ids distinct. |
| Exams.FindIndex | app.js:194-195 | No index exactly when no record has the id. Otherwise the first index holding it. |
| Exams.RemoveFirst | app.js:197-199 | An absent id changes nothing. Otherwise exactly the first record with the id is cut out and the rest keep their order: one fewer record, and the multiset shrinks. |
| Exams.RemoveFirstUnique | app.js:197-199 | With distinct ids, no record with the id remains and every other record does. |
| Exams.RemoveFirstKeepsValid | app.js:197-199 | Removal keeps every record well formed and all ids distinct. |
| Exams.Click | app.js:186-220 | An unknown id or action changes nothing. "del" removes the first record with the id. "edit" removes it too and returns its values for the form, with a missing type shown as "Final". |
| Exams.EditThenResubmit | app.js:204-216 | Editing a record and submitting the form unchanged moves that record to the end under its new id and stamp. Its field values are kept (the type reads "Final" if it was empty) and the other records are untouched. |
| Exams.Clear | app.js:225-227 | Confirmed, the stored list becomes empty. Declined, nothing changes. |

## Left out

- Storage (`loadExams`, `saveExams`, app.js:4-10) is left out. The JSON round trip through `localStorage` is the identity here, and unreadable storage, which loads as an empty list, is not modelled.
- `uid()` (app.js:11-13) and `new Date().toISOString()` (app.js:174) become parameters, because they depend on randomness and the clock.
- `formatDayAndDate` (app.js:16-20) is left out because it depends on the host's local time zone and calendar. Only its helper `pad2` is modelled.
- The theme toggle (app.js:85-96), every DOM access, `render` (app.js:113-150), the one-second refresh timer (app.js:153-160) and `window.scrollTo` are left out. They are I/O; the values they display are the modelled functions.
- `new Date(s).getTime()` is the parameter `parse`, because date-string parsing is host-defined.
- Strings.Lower: lower-cases ASCII letters only. Full Unicode case mapping is table-driven and outside this model.
- Projection.Sort: requires every stored date to parse. With an unparseable date the comparator returns NaN, and JavaScript leaves the resulting order implementation-defined. The code does not move invalid dates to the front.
- Projection.Project: requires every stored date to parse, for the same reason as `Sort`. The filters alone do not need it.
- Urgency.UrgencyOf: the source divides in floating point. The model compares exact integers, and the contract states the comparison over exact reals. Doubles agree with both for every millisecond delta of a real date (below 2^53).
- Exams.FindIndex: `-1` is modelled as `None`.
- Missing fields, and the `|| ""` fallbacks that guard them (app.js:107-108, 207-213), are not modelled: every field of a record is a string. `escapeHtml` of a missing value is modelled as `None`; non-string values and `String(...)` conversion are left out.
- The confirmation dialog of the clear button is its answer, the parameter `confirmed`.

# AgendaAxios commitments screen, in Dafny

AgendaAxios is a React Native screen for a list of commitments. Each
commitment has a title (`titulo`), notes (`anotacoes`), a day (`dia`,
`YYYY-MM-DD`), an hour (`hora`, `HH:MM`, 24-hour) and a status (`pending`,
`scheduled` or `done`), and is stored by a remote service. This project
models the screen's own logic in `App.js` and proves properties about it.

- **The day/hour codec** (`codec.dfy`). `handleEdit` decodes `dia` and
  `hora` into an instant. It anchors `dia` at UTC midnight, then calls
  `setUTCHours(hours, minutes)`. The submit handlers encode the two pickers'
  instants back: the day is `toISOString().split('T')[0]` and the hour is the
  UTC `HH:MM`. `addEventToCalendar` decodes the same way and ends the event
  one hour after it starts.
- **The supporting semantics**:
  - An instant is a JavaScript time value: integer milliseconds since
    1970-01-01T00:00Z. It is limited to the years 0000-9999, the range where
    `toISOString` prints four year digits.
  - Its UTC fields come from explicit proleptic Gregorian arithmetic
    (`calendar.dfy`, `datetime.dfy`).
  - `String.prototype.split` with a one-character separator and decimal
    digit strings are modelled in `text.dfy`.
- **The commitment list effects** (`commitments.dfy`). The screen updates
  its cached list in three ways: append after a create (`[...commitments, r]`),
  replace by id after an update (`map`) and remove by id after a delete
  (`filter`).
- **The screen state machine** (`screen.dfy`). The class `AgendaScreen` has
  one field per `useState` hook and one method per handler. Each handler is
  one atomic step. The outcome of its network call is a parameter: success
  with the response record, or failure. `StatusStyle` models the
  `StatusBadge` lookup with its pending fallback.

Two facts about the code shape the model:

- The record fields have Portuguese names: `titulo`, `anotacoes`, `dia` and
  `hora`. The model keeps them.
- A one-digit `hora` (`9:30`) is accepted, because the code only splits on
  `:`, and it is encoded back zero-padded (`09:30`). So the round trip is not
  exact for every valid `hora`: `Codec.EncodeDecode` proves that `hora` comes
  back as `PaddedHora(hora)`, and `Codec.EncodeDecodePadded` proves that a
  two-digit-hour `HH:MM` comes back unchanged.

## Model

| member | source | states |
|---|---|---|
| Text.Split | App.js:84 | `split` with a one-character separator gives at least one part, and no part contains the separator |
| Text.JoinSplit | App.js:84 | joining the parts of `split` with the separator gives back the original string |
| Text.SplitAtFirst | App.js:96 | splitting `a + sep + b` when `a` has no separator gives `a` as the first part, followed by the parts of `b` |
| Text.SplitNoSeparator | App.js:84 | a string without the separator splits into itself alone |
| Text.NumberValue | App.js:86 | the number a string of decimal digits denotes, as `setUTCHours` coerces the split parts of `hora`; it is below 10 to the power of the string's length, and `Pad2OfNumberValue` and `Pad4OfNumberValue` tie it back to the digits |
| Text.Pad2 | App.js:97 | two-digit zero padding of a number below 100 gives two digits whose value is the number |
| Text.Pad2OfNumberValue | App.js:97 | padding the value of a one- or two-digit string to two digits gives the string back, with a leading zero added to a single digit |
| Text.Pad4OfNumberValue | App.js:96 | padding the value of a four-digit string to four digits gives the string back |
| Calendar.DaysFromCivil | App.js:85 | a date's day number lies within its year's days |
| Calendar.CivilFromDays | App.js:96 | every day number names a valid date whose day number it is |
| Calendar.DaysFromCivilInjective | App.js:85 | distinct valid dates have distinct day numbers |
| Calendar.CivilFromDaysFromCivil | App.js:85 | converting a valid date to its day number and back gives the same date |
| Calendar.NextDayIsNext | App.js:132 | the next calendar day, across a month or year end, is a valid date exactly one day number later |
| DateTime.UtcDate | App.js:96 | the UTC date of an instant is a valid date with a four-digit year, and that date's day number is the instant's day |
| DateTime.UtcInstant | App.js:85 | the instant built from a date and in-range time fields has exactly those UTC fields |
| DateTime.InstantFromFields | App.js:85-86 | an instant is determined by its UTC date, hour, minute, second and millisecond |
| DateTime.SetUTCHoursMinutes | App.js:86 | `setUTCHours(h, m)` sets the UTC hour and minute and keeps the UTC date, seconds and milliseconds |
| DateTime.SetUTCHours | App.js:131 | `setUTCHours(h)` sets the UTC hour and keeps the UTC date, minute, seconds and milliseconds |
| DateTime.SetUTCMinutes | App.js:131 | `setUTCMinutes(m)` sets the UTC minute and keeps the UTC date, hour, seconds and milliseconds |
| DateTime.ToISOString | App.js:96 | `toISOString` is 24 characters long: the UTC date as `YYYY-MM-DD`, then `T` |
| DateTime.AddHour | App.js:132 | one hour later keeps the UTC minute. Before 23:00 it keeps the UTC date and adds one to the hour; at 23:xx it gives hour 0 of the next day |
| Codec.ParseDia | App.js:85 | a valid `dia` names a valid date, and printing that date as `YYYY-MM-DD` gives `dia` back |
| Codec.IsoDateParses | App.js:96 | a printed date is a valid `dia` that parses back to the date |
| Codec.ParseHora | App.js:84 | the hour and minute read from a valid `hora` are in 0-23 and 0-59 |
| Codec.ParseHoraPrints | App.js:84 | printing the parsed hour and minute as `HH:MM` gives `hora` zero-padded |
| Codec.PrintedHoraParses | App.js:97 | every in-range hour and minute printed as `HH:MM` is a valid `hora` that parses back to them |
| Codec.AtUtcMidnight | App.js:85 | `new Date(dia + 'T00:00:00.000Z')` has UTC date `dia` and all time fields zero |
| Codec.Decode | App.js:84-86 | the decoded instant's UTC date is `dia` (unshifted), its UTC hour and minute are those of `hora`, and its seconds and milliseconds are zero |
| Codec.EncodeDay | App.js:96 | the encoded day is a valid `dia` naming the instant's UTC date |
| Codec.EncodeHour | App.js:97 | `toLocaleTimeString` with the 24-hour UTC options gives a valid five-character `hora` holding the instant's UTC hour and minute |
| Codec.EncodeDecode | App.js:107-108 | encoding a decoded pair gives `dia` back exactly and `hora` zero-padded |
| Codec.EncodeDecodePadded | App.js:107-108 | a two-digit-hour `hora` survives the round trip unchanged |
| Codec.DecodeEncode | App.js:96-97 | an instant on a whole minute is recovered by encoding it and decoding the result |
| Codec.EventWindow | App.js:129-132 | the event start, computed with `setUTCHours` then `setUTCMinutes`, equals the decode of `handleEdit`, and the end is exactly 60 minutes later |
| Codec.EventEndFields | App.js:129-132 | the end keeps the start's minute. Before 23:00 it is on `dia` one hour later; from 23:00 it is at hour 0 of the next calendar day |
| Commitments.ReplaceById | App.js:112 | the `map` replace keeps the length, puts the response where the id matches and leaves every other entry as it was |
| Commitments.ReplaceByIdAbsent | App.js:112 | replacing an id no entry has changes nothing |
| Commitments.ReplaceKeepsUnique | App.js:112 | replacing by a record with the same id keeps ids unique and keeps the set of ids |
| Commitments.RemoveById | App.js:119 | the `filter` removes exactly the entries with the id and keeps every other entry, in its original relative order |
| Commitments.RemoveByIdConcat | App.js:119 | removing distributes over concatenation, so order is kept across any split of the list |
| Commitments.RemoveByIdAbsent | App.js:119 | removing an id no entry has changes nothing |
| Commitments.RemoveByIdRemovesOne | App.js:119 | with unique ids, deleting a present id shortens the list by one and leaves no entry with that id |
| Commitments.RemoveKeepsUnique | App.js:119 | removing by id keeps ids unique |
| Commitments.AppendKeepsUnique | App.js:101 | appending a record with a new id keeps ids unique |
| Screen.StatusStyle | App.js:142-143 | the badge for `scheduled` and `done` has their own label; any other status, unknown ones included, gets the Pending label and style |
| Screen.StatusLabelsDistinct | App.js:142 | the three statuses have three different labels |
| Screen.AddEventToCalendar | App.js:126-137 | without calendar permission there is no event. With permission, the event has the commitment's title and notes, starts at the decoded instant and ends one hour later, in UTC |
| Screen.AgendaScreen.constructor | App.js:31-41 | the initial state: empty list, loading, form closed in create mode with no target, empty text, `date` and `time` at their own clock reads, both pickers closed |
| Screen.AgendaScreen.FetchCommitments | App.js:49-59 | on success the list becomes the response; either way loading ends, and nothing else changes |
| Screen.AgendaScreen.OpenCreate | App.js:68-76 | resets to create mode with no target and empty title and annotation, sets `date` and `time` to their own clock reads and opens the form; nothing else changes |
| Screen.AgendaScreen.OpenEdit | App.js:79-90 | edit mode, the commitment as target, its title and notes in the form, both pickers at its decoded instant, form open; nothing else changes |
| Screen.AgendaScreen.CancelModal | App.js:91 | closes the form and clears the target, and nothing else |
| Screen.AgendaScreen.SetTitle | App.js:36 | the title setter changes only the title |
| Screen.AgendaScreen.SetAnnotation | App.js:37 | the annotation setter changes only the annotation |
| Screen.AgendaScreen.OnDateChange | App.js:92 | closes the date picker. Only a `set` event with a selected value changes the date, otherwise the old date stays; nothing else changes |
| Screen.AgendaScreen.OnTimeChange | App.js:93 | as for the date: the time picker closes and only a `set` event with a value changes the time |
| Screen.AgendaScreen.CreateSubmit | App.js:94-104 | an empty title sends nothing and changes nothing. Otherwise the request carries the form, the encoded day and hour and status `scheduled`. On success the response is appended after the unchanged entries and the form closes; on failure nothing changes |
| Screen.AgendaScreen.UpdateSubmit | App.js:105-115 | without a target nothing is sent or changed, and so, by the form invariant, nothing happens while the form is closed or in create mode. Otherwise the request carries the target's id and original status. On success entries with that id are replaced by the response and the form closes; on failure nothing changes |
| Screen.AgendaScreen.ConfirmDelete | App.js:116-125 | on success the list becomes the list without the id's entries; on failure nothing changes; nothing else changes either way |
| Screen.EditAndSave | App.js:79-115 | opening a commitment and saving without touching the pickers sends its own id, text, `dia`, `hora` zero-padded, and status |

`AgendaScreen.Valid()` is the form invariant: there is an editing target
exactly while the form is open in edit mode. The constructor establishes it
and every handler is proved to keep it. `UpdateSubmit` relies on it for its
contract that a submit while the form is closed, or open in create mode,
sends nothing and changes nothing.

## Left out

- Rendering, JSX and styles (`AppHeader`, `renderCommitment`, the list, the stylesheet) have no stateable behaviour. That includes the screen chosen while loading or when the list is empty.
- The modal's body is not present in the source (App.js:185). Only the `setTitle` and `setAnnotation` setters it would call are modelled. Opening the pickers (`setShowDatePicker(true)`) is not modelled.
- The axios calls and the `EXPO_PUBLIC_API_URL` configuration are not modelled. Each call is a `Response` parameter, and the request a handler would send is its result.
- `Alert` dialogs and `console.error` are not modelled beyond their effect, which is that the handler stops without changing state. The delete dialog is modelled only by its confirmed branch; cancelling it changes nothing.
- The Expo calendar APIs are foreign device calls. Requesting permission at start-up, the permission lookup (a `permission` parameter), the default-calendar lookup and `createEventAsync` are not modelled. The event that would be created is returned instead.
- Async interleaving, and the stale `commitments` captured by a handler's closure, are not modelled: each handler is one atomic step on the current state.
- Each `new Date()` is a parameter (`nowDate`, `nowTime`), one per call, so the two reads may differ. The device's local time zone is not modelled.
- The `pt-BR` locale rendering is modelled only for the one call the core makes, which gives the 24-hour UTC `HH:MM`. The date shown in the list (App.js:151) is not modelled.
- Instants are limited to the years 0000-9999. `toISOString`'s six-digit expanded years, dates before year 0 and invalid dates are not modelled. A later event end is a plain integer.
- `Codec.Decode`: a malformed `dia` or `hora` is excluded by a precondition (`ValidDia`, `ValidHora`). This covers JavaScript's lenient number conversion in `setUTCHours`, lenient date parsing, and a `hora` with more than one `:`.
- `Screen.AgendaScreen.OpenEdit`: `date` and `time` are values. In the source, `handleEdit` gives both the same `Date` object, but nothing in the core mutates it afterwards, so the sharing is not observable.
- `Screen.StatusStyle`: the lookup is a map of the three statuses. JavaScript's inherited object keys (a status named `toString`, say) would be found by `statusStyles[status]` in the source but are not modelled.
- `Screen.AgendaScreen.FetchCommitments`: the response body is taken to be a list of commitments. Its shape is not checked, as in the source.

# Showtime selection of the movie booking screen

This project models, in Dafny, the selection logic of the cinema booking
screen `MovieBooking` (`frontend/src/pages/MovieBooking/MovieBooking.tsx`):
the window of ten selectable days, the filter that turns the fetched showtime
catalog into the "HH:mm" slots of the loaded movie on the chosen day, the rule
that disables slots already in the past, the resolution of a day and time
choice to one catalog entry whose id and theater are handed to seat booking,
and the split of the running time into hours and minutes. The screen's
`useState` selection state is a class whose handlers and filter effect
replace it.

Instants are modelled abstractly (`Clock`): a day number stands for what
`format("YYYY-MM-DD")` shows, a minute 0..1439 for what `format("HH:mm")`
shows, and the milliseconds into that minute (which `format` drops but
`isBefore` compares) complete the instant; "today plus n days" is `today + n`.
A slot text read back as an instant has zero seconds and milliseconds, so a
slot is disabled as soon as its minute has begun. The clock is never read: `today`
(a day) and `now` (an instant) are parameters of every operation that uses
them. The "HH:mm" text itself is modelled (`FormatHHmm`, `ParseHHmm`), since
the screen keeps slots as strings, compares them with `===` and parses them
back to decide whether a slot is past.

Files:
- `wrappers.dfy` — `Option`, for the nullable state and a lookup that may fail.
- `clock.dfy` — instants, strict "before", and the "HH:mm" text with its round trip.
- `showtimes.dfy` — movies, catalog entries, the date window, the duration
  split, the slot filter, the past-slot rule and resolution, with their lemmas.
- `booking_screen.dfy` — the screen's state (`Screen.MovieBooking`) and its handlers.

In four places the code does something one might not expect; the model
follows the code:
- the filter matches catalog entries by the preloaded movie's *name*
  (`Movie.MovieName`), while resolution matches by `MovieID`; the two tests
  are kept apart (`ShownFor`, `ResolvesTo`), and `NameMatchWithoutIdMatch`
  shows a slot that is offered but does not resolve;
- the slots are not sorted and duplicates are kept: they are in catalog order,
  one per matching entry;
- choosing another day does not clear the chosen time (`SelectDate` leaves
  `selectedTime` untouched), so a stale time is resolved against the new day;
- an ambiguous resolution (two theaters at the same time) silently takes the
  first entry in catalog order; nothing flags it.

## Model

| member | source | states |
|---|---|---|
| Showtimes.DateWindow | frontend/src/pages/MovieBooking/MovieBooking.tsx:117-120 | the window has exactly ten days, starts today, and each day is one after the previous |
| Showtimes.DateWindowContents | frontend/src/pages/MovieBooking/MovieBooking.tsx:118-120 | entry i is today + i, and a day is offered iff it lies in [today, today + 10) |
| Showtimes.DayOffset | frontend/src/pages/MovieBooking/MovieBooking.tsx:100-102 | `selectedDate \|\| 0`: the chosen index, or 0 when none is set |
| Showtimes.JsRemainder | frontend/src/pages/MovieBooking/MovieBooking.tsx:65 | JavaScript's `%`: a == b * q + r for some whole q, with r in [0, b) for a non-negative dividend and in (-b, 0] for a negative one |
| Showtimes.SplitDuration | frontend/src/pages/MovieBooking/MovieBooking.tsx:63-66 | for d >= 0, 60 * hours + minutes == d with 0 <= minutes < 60; for negative d the remainder keeps the sign and 60 * hours + minutes == d - 60 unless d is a multiple of 60 |
| Showtimes.ShownFor | frontend/src/pages/MovieBooking/MovieBooking.tsx:104-110 | the filter's test (name and date); for an entry it passes, resolution at the entry's own slot time succeeds iff its MovieID is the loaded movie's ID |
| Showtimes.SlotTime | frontend/src/pages/MovieBooking/MovieBooking.tsx:111 | the `map`: an entry's slot text reads back as the entry's minute |
| Showtimes.FilteredTimes | frontend/src/pages/MovieBooking/MovieBooking.tsx:103-111 | every offered time is the "HH:mm" of a catalog entry with the loaded movie's name on the chosen day; there are no more times than entries (one per match: see FilteredTimesPositions) |
| Showtimes.FilteredTimesWellFormed | frontend/src/pages/MovieBooking/MovieBooking.tsx:111 | every offered time is a well-formed "HH:mm" text |
| Showtimes.FilteredTimesPositions | frontend/src/pages/MovieBooking/MovieBooking.tsx:103-111 | the offered times are the slot times of exactly the matching entries, at strictly increasing catalog positions, one per match: filter then map, no sort, no dedup |
| Showtimes.FilteredTimesComplete | frontend/src/pages/MovieBooking/MovieBooking.tsx:104-110 | every matching entry's slot time is offered |
| Showtimes.FilteredTimesAppend | frontend/src/pages/MovieBooking/MovieBooking.tsx:103-111 | filtering a concatenated catalog is concatenating the filtered parts (catalog order is kept) |
| Showtimes.SlotStamp | frontend/src/pages/MovieBooking/MovieBooking.tsx:238-241 | a slot text reads back as an instant iff it is well-formed "HH:mm"; that instant is the chosen day at the minute the text shows, with zero seconds and milliseconds |
| Showtimes.IsPastTime | frontend/src/pages/MovieBooking/MovieBooking.tsx:235-242 | `isPastTime`: a past slot is a well-formed "HH:mm" on a day no later than now's (full iff in SlotPastIff) |
| Showtimes.SlotPastIff | frontend/src/pages/MovieBooking/MovieBooking.tsx:235-249 | a slot is disabled iff its instant (chosen day at its "HH:mm", zero seconds) is strictly before now; it is enabled only up to and including hh:mm:00.000 of its own minute |
| Showtimes.PastOnlyToday | frontend/src/pages/MovieBooking/MovieBooking.tsx:235-242 | on now's day a slot is past iff its minute is earlier than now's, or is now's minute and now is past its first millisecond; on later days none is past; on earlier days all are |
| Showtimes.ResolvesTo | frontend/src/pages/MovieBooking/MovieBooking.tsx:143-146 | the `find` test (date, "HH:mm" text, MovieID): it passes only with a time chosen, and that time reads back as the entry's minute |
| Showtimes.FirstMatch | frontend/src/pages/MovieBooking/MovieBooking.tsx:142-147 | `find`: the position returned matches date, time and MovieID and no earlier entry does; None iff no entry matches |
| Showtimes.Resolve | frontend/src/pages/MovieBooking/MovieBooking.tsx:137-156 | nothing is handed on iff no entry matches; otherwise the first match's ID and TheaterID are handed on with the route's movie id |
| Showtimes.EarliestMatchWins | frontend/src/pages/MovieBooking/MovieBooking.tsx:142-153 | when entry i matches, what is handed on comes from a matching entry at a position no later than i, so of several matches the earliest in catalog order wins |
| Showtimes.OfferedTimeResolves | frontend/src/pages/MovieBooking/MovieBooking.tsx:103-147 | an offered time resolves when every entry with the movie's name also has the movie's id |
| Showtimes.NameMatchWithoutIdMatch | frontend/src/pages/MovieBooking/MovieBooking.tsx:103-147 | an entry with the movie's name but another MovieID is offered by the filter and not found by resolution |
| Showtimes.ExampleSlots | frontend/src/pages/MovieBooking/MovieBooking.tsx:103-111 | with showings at 10:00 and 16:00 on the chosen day the offered slots are ["10:00", "16:00"] |
| Showtimes.ExamplePastSlots | frontend/src/pages/MovieBooking/MovieBooking.tsx:235-249 | at 14:00:30 the 10:00 and 14:00 slots are disabled and the 16:00 slot is not; at 14:00:00.000 the 14:00 slot is enabled |
| Showtimes.ExampleResolution | frontend/src/pages/MovieBooking/MovieBooking.tsx:139-156 | 16:00 resolves to the 16:00 entry's ID and TheaterID; 12:00 resolves to nothing |
| Clock.BeforeIsLexicographic | frontend/src/pages/MovieBooking/MovieBooking.tsx:242 | strictly-before on instants is the lexicographic order on (day, minute, milliseconds) |
| Clock.FormatHHmm | frontend/src/pages/MovieBooking/MovieBooking.tsx:111 | the "HH:mm" text is five characters: two digits, a colon, two digits |
| Clock.ParseHHmm | frontend/src/pages/MovieBooking/MovieBooking.tsx:238-241 | a text that parses to a minute is exactly that minute's "HH:mm" text |
| Clock.ParseFormat | frontend/src/pages/MovieBooking/MovieBooking.tsx:235-241 | parsing a formatted minute gives the minute back |
| Clock.FormatInjective | frontend/src/pages/MovieBooking/MovieBooking.tsx:145 | two "HH:mm" texts are equal iff their minutes are, so comparing slot texts compares times |
| Screen.MovieBooking.SelectedDay | frontend/src/pages/MovieBooking/MovieBooking.tsx:100-102 | the day in use is the date-window entry at `selectedDate \|\| 0`, within the ten-day window |
| Screen.MovieBooking.constructor | frontend/src/pages/MovieBooking/MovieBooking.tsx:42-48 | initial state: day index 0, no time, empty catalog and slots, no movie |
| Screen.MovieBooking.RefreshTimes | frontend/src/pages/MovieBooking/MovieBooking.tsx:98-115 | with a non-empty catalog and a loaded movie the slots become the filter's result for the chosen day; otherwise they are unchanged |
| Screen.MovieBooking.ReceiveShowtimes | frontend/src/pages/MovieBooking/MovieBooking.tsx:85-95 | the catalog is stored and the slots are refreshed as the filter effect does |
| Screen.MovieBooking.ReceiveMovie | frontend/src/pages/MovieBooking/MovieBooking.tsx:55-82 | the movie and its split running time are stored and the slots are refreshed |
| Screen.MovieBooking.SelectDate | frontend/src/pages/MovieBooking/MovieBooking.tsx:211-217 | the chosen index becomes the window entry in use; the slots are refreshed only when the chosen index changes (a re-click of the chosen card leaves them as they were); the chosen time is kept unchanged |
| Screen.MovieBooking.SelectTime | frontend/src/pages/MovieBooking/MovieBooking.tsx:242-249 | a click on a slot that was past at the last render changes nothing; otherwise that slot becomes the chosen time |
| Screen.MovieBooking.SelectSeat | frontend/src/pages/MovieBooking/MovieBooking.tsx:137-160 | the handoff is the first catalog entry matching the day in use, the chosen time and the movie id; none iff nothing matches |

## Left out

- The movie and catalog fetches (`GetMovieById`, `GetShowtimes`), their error handling, `navigate` and `console` logging are I/O: a completed fetch is a call to `ReceiveMovie` or `ReceiveShowtimes`, and `SelectSeat` returns what would be navigated with (`None` where the source only logs an error).
- The `!movieID` early return ("No movie selected.") and the `if (movieID)` guards on the fetches are not modelled: the screen is constructed with a movie id, and the constructor admits 0, which the source treats as falsy (no movie selected, no fetches).
- Calendar and time-zone arithmetic and the day and month labels (`DD`, upper-cased `MMM`) are not modelled: days are consecutive integers.
- `today` and `now` are separate parameters; the model does not require `now` to fall on `today`, as the source reads the clock afresh at each use.
- The duration text "h hr m min" is not built; the model keeps the hours and minutes. Fractional durations are not modelled (durations are integers).
- The random rating, the poster URL, the default display strings, the slider settings and the hover colour changes are presentation only.
- Showtimes.IsPastTime: a text that does not parse as "HH:mm" counts as not past (an invalid instant compares false); lenient date parsing is not reproduced. Only well-formed texts reach it from the screen.
- Screen.MovieBooking.SelectTime: requires the clicked time to be one of the shown slots, since only those are rendered as buttons.
- The `try`/`catch` around `handleSelectSeat` is not modelled: nothing in the modelled resolution throws.

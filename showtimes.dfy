/** The showtime-selection logic of the movie booking screen, as pure
    functions of the fetched catalog, the loaded movie, the chosen day offset,
    the chosen time and the clock (`today`, `now`), which are parameters here. */
module Showtimes {
  import opened Wrappers
  import opened Clock

  /** The fields of a fetched movie that the selection logic reads. */
  datatype Movie = Movie(id: nat, name: string, durationMinutes: int)

  /** One catalog entry: its `ID`, `MovieID`, `TheaterID`, the name of the
      movie it preloads (`Movie.MovieName`) and its `Showdate`. */
  datatype Showtime = Showtime(id: nat, movieId: nat, theaterId: nat, movieName: string, showAt: Stamp)

  /** What the screen hands to seat booking: the movie id it was opened with,
      the chosen showtime's id and its theater. */
  datatype Handoff = Handoff(movieId: nat, showtimeId: nat, theaterId: nat)

  /** A running time shown as "<hours> hr <minutes> min". */
  datatype Duration = Duration(hours: int, minutes: int)

  // ---- date window -------------------------------------------------------

  /** Number of days offered by the day picker. */
  const WindowSize: nat := 10

  /** The selectable days: today and the nine following days, in order. */
  function DateWindow(today: int): (days: seq<int>)
    ensures |days| == WindowSize && days[0] == today
    ensures forall i :: 0 <= i < |days| - 1 ==> days[i + 1] == days[i] + 1
  {
    seq(WindowSize, i => today + i)
  }

  /** Entry i of the window is today + i, and a day is offered exactly when it
      lies within the ten days starting today. */
  lemma DateWindowContents(today: int, day: int)
    ensures forall i :: 0 <= i < WindowSize ==> DateWindow(today)[i] == today + i
    ensures day in DateWindow(today) <==> today <= day < today + WindowSize
  {
    if today <= day < today + WindowSize {
      assert DateWindow(today)[day - today] == day;
    }
  }

  /** The day offset the screen works with: `selectedDate || 0`. */
  function DayOffset(selectedDate: Option<int>): (d: int)
    ensures selectedDate.Some? ==> d == selectedDate.value
    ensures selectedDate.None? ==> d == 0
  {
    selectedDate.GetOr(0)
  }

  // ---- duration ------------------------------------------------------------

  /** JavaScript's `%`: the remainder takes the sign of the dividend. */
  function JsRemainder(a: int, b: int): (r: int)
    requires b > 0
    ensures a >= 0 ==> 0 <= r < b
    ensures a < 0 ==> -b < r <= 0
    ensures exists q :: a == b * q + r
  {
    if a >= 0 then
      assert a == b * (a / b) + a % b;
      a % b
    else
      var q := (-a) / b;
      assert -a == b * q + (-a) % b;
      assert a == b * (-q) + -((-a) % b);
      -((-a) % b)
  }

  /** `Math.floor(d / 60)` hours and `d % 60` minutes. */
  function SplitDuration(d: int): (r: Duration)
    ensures d >= 0 ==> 60 * r.hours + r.minutes == d && 0 <= r.minutes < 60
    ensures d < 0 ==> -60 < r.minutes <= 0 && r.hours < 0
    ensures d < 0 && r.minutes != 0 ==> 60 * r.hours + r.minutes == d - 60
    ensures r.minutes == 0 ==> 60 * r.hours == d
  {
    Duration(d / 60, JsRemainder(d, 60))
  }

  // ---- slot filter ---------------------------------------------------------

  /** The filter's test: the entry's preloaded movie has the loaded movie's
      name, and it is shown on the given day. */
  predicate ShownFor(st: Showtime, movie: Movie, day: int): (shown: bool)
    ensures shown ==>
      (ResolvesTo(st, Some(movie), day, Some(SlotTime(st))) <==> st.movieId == movie.id)
  {
    st.movieName == movie.name && st.showAt.day == day
  }

  /** The "HH:mm" text of an entry. */
  function SlotTime(st: Showtime): (t: string)
    ensures ParseHHmm(t) == Some(st.showAt.minute)
  {
    ParseFormat(st.showAt.minute);
    FormatHHmm(st.showAt.minute)
  }

  /** The times offered for `movie` on `day`: the catalog filtered by
      `ShownFor`, then mapped to `SlotTime`, in catalog order. */
  function FilteredTimes(catalog: seq<Showtime>, movie: Movie, day: int): (times: seq<string>)
    ensures |times| <= |catalog|
    ensures forall t :: t in times ==> exists st :: st in catalog && ShownFor(st, movie, day) && SlotTime(st) == t
  {
    if catalog == [] then []
    else
      (if ShownFor(catalog[0], movie, day) then [SlotTime(catalog[0])] else [])
      + FilteredTimes(catalog[1..], movie, day)
  }

  /** Every offered time is a well-formed "HH:mm" text. */
  lemma FilteredTimesWellFormed(catalog: seq<Showtime>, movie: Movie, day: int)
    ensures forall t :: t in FilteredTimes(catalog, movie, day) ==> WellFormedTime(t)
  {
  }

  /** `pos` lists, in strictly increasing order, exactly the positions at or
      after `from` of the catalog entries shown for `movie` on `day`, and
      `times` holds their slot times in that order. */
  ghost predicate IsMatchPositions(catalog: seq<Showtime>, from: nat, movie: Movie, day: int, times: seq<string>, pos: seq<nat>)
  {
    |pos| == |times|
    && (forall k :: 0 <= k < |pos| ==>
          from <= pos[k] < |catalog| && ShownFor(catalog[pos[k]], movie, day) && times[k] == SlotTime(catalog[pos[k]]))
    && (forall k, l :: 0 <= k < l < |pos| ==> pos[k] < pos[l])
    && (forall i :: from <= i < |catalog| && ShownFor(catalog[i], movie, day) ==> i in pos)
  }

  /** Filter-then-map, exactly: the offered times are the slot times of the
      matching entries, taken at strictly increasing catalog positions, one per
      match and every match included (no sorting, no removal of duplicates). */
  lemma FilteredTimesPositions(catalog: seq<Showtime>, movie: Movie, day: int)
    returns (pos: seq<nat>)
    ensures IsMatchPositions(catalog, 0, movie, day, FilteredTimes(catalog, movie, day), pos)
  {
    assert catalog[0..] == catalog;
    pos := SuffixPositions(catalog, 0, movie, day);
  }

  /** FilteredTimesPositions for the part of the catalog from position `from` on. */
  lemma {:induction false} SuffixPositions(catalog: seq<Showtime>, from: nat, movie: Movie, day: int)
    returns (pos: seq<nat>)
    requires from <= |catalog|
    ensures IsMatchPositions(catalog, from, movie, day, FilteredTimes(catalog[from..], movie, day), pos)
    decreases |catalog| - from
  {
    if from == |catalog| {
      pos := [];
    } else {
      var rest := SuffixPositions(catalog, from + 1, movie, day);
      var tail := FilteredTimes(catalog[from + 1..], movie, day);
      assert catalog[from..][0] == catalog[from] && catalog[from..][1..] == catalog[from + 1..];
      if ShownFor(catalog[from], movie, day) {
        assert FilteredTimes(catalog[from..], movie, day) == [SlotTime(catalog[from])] + tail;
        pos := [from] + rest;
        PositionsTake(catalog, from, movie, day, tail, rest);
      } else {
        assert FilteredTimes(catalog[from..], movie, day) == tail;
        pos := rest;
      }
    }
  }

  /** A shown entry at `from` goes in front of the positions found after it. */
  lemma PositionsTake(catalog: seq<Showtime>, from: nat, movie: Movie, day: int, tail: seq<string>, rest: seq<nat>)
    requires from < |catalog| && ShownFor(catalog[from], movie, day)
    requires IsMatchPositions(catalog, from + 1, movie, day, tail, rest)
    ensures IsMatchPositions(catalog, from, movie, day, [SlotTime(catalog[from])] + tail, [from] + rest)
  {
    var pos := [from] + rest;
    var times := [SlotTime(catalog[from])] + tail;
    assert forall k :: 0 < k < |pos| ==> pos[k] == rest[k - 1] && times[k] == tail[k - 1];
  }

  /** No matching entry is left out: every entry shown for `movie` on `day`
      contributes its slot time. */
  lemma FilteredTimesComplete(catalog: seq<Showtime>, movie: Movie, day: int, i: nat)
    requires i < |catalog| && ShownFor(catalog[i], movie, day)
    ensures SlotTime(catalog[i]) in FilteredTimes(catalog, movie, day)
  {
    var pos := FilteredTimesPositions(catalog, movie, day);
    var k :| 0 <= k < |pos| && pos[k] == i;
    assert FilteredTimes(catalog, movie, day)[k] == SlotTime(catalog[i]);
  }

  /** Filtering a catalog made of two parts is filtering each part in turn. */
  lemma {:induction false} FilteredTimesAppend(a: seq<Showtime>, b: seq<Showtime>, movie: Movie, day: int)
    ensures FilteredTimes(a + b, movie, day) == FilteredTimes(a, movie, day) + FilteredTimes(b, movie, day)
  {
    if a == [] {
      assert a + b == b;
    } else {
      assert (a + b)[0] == a[0];
      assert (a + b)[1..] == a[1..] + b;
      FilteredTimesAppend(a[1..], b, movie, day);
    }
  }

  // ---- past slots ----------------------------------------------------------

  /** The instant a slot text is read back as: `time` on `day`, at zero
      seconds and milliseconds. */
  function SlotStamp(day: int, time: string): (s: Option<Stamp>)
    ensures s.Some? <==> WellFormedTime(time)
    ensures s.Some? ==> s.value.day == day && FormatHHmm(s.value.minute) == time && s.value.millis == 0
  {
    match ParseHHmm(time)
    case None => None
    case Some(m) => Some(Stamp(day, m, 0))
  }

  /** `isPastTime`: the slot `time` on `day`, read back as an instant, is
      strictly before `now`. A text that does not read as a time gives an
      invalid instant, which is never before anything. */
  predicate IsPastTime(day: int, time: string, now: Stamp): (past: bool)
    ensures past ==> WellFormedTime(time) && day <= now.day
  {
    match SlotStamp(day, time)
    case None => false
    case Some(slot) => Before(slot, now)
  }

  /** A slot is disabled exactly when its instant (zero seconds) is strictly
      earlier than now; only at exactly hh:mm:00.000 of its own minute is a
      slot of the current minute still enabled. */
  lemma SlotPastIff(day: int, m: Minute, now: Stamp)
    ensures IsPastTime(day, FormatHHmm(m), now) <==> Instant(Stamp(day, m, 0)) < Instant(now)
    ensures Stamp(day, m, 0) == now ==> !IsPastTime(day, FormatHHmm(m), now)
  {
    ParseFormat(m);
  }

  /** On the current day a slot is past exactly when its minute is earlier
      than the current minute, or is the current minute and any time has
      passed since its start; on a later day no slot is past, on an earlier
      day every slot is. */
  lemma PastOnlyToday(day: int, m: Minute, now: Stamp)
    ensures day == now.day ==>
      (IsPastTime(day, FormatHHmm(m), now) <==> m < now.minute || (m == now.minute && now.millis > 0))
    ensures day > now.day ==> !IsPastTime(day, FormatHHmm(m), now)
    ensures day < now.day ==> IsPastTime(day, FormatHHmm(m), now)
  {
    ParseFormat(m);
  }

  // ---- resolution ----------------------------------------------------------

  /** The resolution test: the entry is shown on `day`, its "HH:mm" text equals
      the selected time and its `MovieID` is the loaded movie's id. With no
      movie loaded or no time selected nothing passes. */
  predicate ResolvesTo(st: Showtime, movie: Option<Movie>, day: int, time: Option<string>): (found: bool)
    ensures found ==> time.Some? && ParseHHmm(time.value) == Some(st.showAt.minute)
  {
    movie.Some? && time.Some?
    && st.showAt.day == day && SlotTime(st) == time.value && st.movieId == movie.value.id
  }

  /** Position of the first entry passing `ResolvesTo` (`Array.prototype.find`). */
  function FirstMatch(catalog: seq<Showtime>, movie: Option<Movie>, day: int, time: Option<string>): (r: Option<nat>)
    ensures r.Some? ==> r.value < |catalog| && ResolvesTo(catalog[r.value], movie, day, time)
    ensures r.Some? ==> forall j :: 0 <= j < r.value ==> !ResolvesTo(catalog[j], movie, day, time)
    ensures r.None? <==> forall j :: 0 <= j < |catalog| ==> !ResolvesTo(catalog[j], movie, day, time)
  {
    if catalog == [] then None
    else if ResolvesTo(catalog[0], movie, day, time) then Some(0)
    else
      match FirstMatch(catalog[1..], movie, day, time)
      case None =>
        assert forall j :: 1 <= j < |catalog| ==> catalog[j] == catalog[1..][j - 1];
        None
      case Some(k) =>
        assert forall j :: 1 <= j <= k ==> catalog[j] == catalog[1..][j - 1];
        Some(k + 1)
  }

  /** `handleSelectSeat`: the first catalog entry matching the selected day,
      time and movie is handed on with its id and theater; when none matches,
      nothing is handed on. */
  function Resolve(catalog: seq<Showtime>, routeMovieId: nat, movie: Option<Movie>, day: int, time: Option<string>)
    : (r: Option<Handoff>)
    ensures r.None? <==> forall st :: st in catalog ==> !ResolvesTo(st, movie, day, time)
    ensures r.Some? ==>
      exists i :: 0 <= i < |catalog| && ResolvesTo(catalog[i], movie, day, time)
        && (forall j :: 0 <= j < i ==> !ResolvesTo(catalog[j], movie, day, time))
        && r.value == Handoff(routeMovieId, catalog[i].id, catalog[i].theaterId)
  {
    match FirstMatch(catalog, movie, day, time)
    case None => None
    case Some(i) => Some(Handoff(routeMovieId, catalog[i].id, catalog[i].theaterId))
  }

  /** When several entries match (the same movie at the same time in two
      theaters), the earliest in catalog order is handed on. */
  lemma EarliestMatchWins(catalog: seq<Showtime>, routeMovieId: nat, movie: Option<Movie>, day: int, time: Option<string>, i: nat)
    requires i < |catalog| && ResolvesTo(catalog[i], movie, day, time)
    ensures
      exists f :: 0 <= f <= i && ResolvesTo(catalog[f], movie, day, time)
        && Resolve(catalog, routeMovieId, movie, day, time) == Some(Handoff(routeMovieId, catalog[f].id, catalog[f].theaterId))
  {
  }

  /** A time offered by the filter resolves, provided every entry carrying the
      loaded movie's name also carries its id (the filter goes by name, the
      resolution by id). */
  lemma OfferedTimeResolves(catalog: seq<Showtime>, routeMovieId: nat, movie: Movie, day: int, t: string)
    requires t in FilteredTimes(catalog, movie, day)
    requires forall st :: st in catalog && st.movieName == movie.name ==> st.movieId == movie.id
    ensures Resolve(catalog, routeMovieId, Some(movie), day, Some(t)).Some?
  {
  }

  /** Without that agreement an offered time can fail to resolve: an entry
      whose preloaded movie has the loaded movie's name but another id is
      offered by the filter and passed over by the resolution. */
  lemma NameMatchWithoutIdMatch()
    ensures var movie := Movie(7, "Dune", 155);
            var st := Showtime(1, 8, 1, "Dune", Stamp(0, 600, 0));
            FilteredTimes([st], movie, 0) == ["10:00"]
            && Resolve([st], 7, Some(movie), 0, Some("10:00")).None?
  {
  }

  /** A worked case: movie 7 shows at 10:00 (entry 1) and 16:00 (entry 2) on
      day 0, in theater 1. */
  function ExampleMovie(): Movie { Movie(7, "Dune", 155) }
  function ExampleCatalog(): seq<Showtime>
  {
    [Showtime(1, 7, 1, "Dune", Stamp(0, 600, 0)), Showtime(2, 7, 1, "Dune", Stamp(0, 960, 0))]
  }

  /** Both slots are offered, in catalog order. */
  lemma ExampleSlots()
    ensures FilteredTimes(ExampleCatalog(), ExampleMovie(), 0) == ["10:00", "16:00"]
  {
    var c := ExampleCatalog();
    assert SlotTime(c[0]) == "10:00" && SlotTime(c[1]) == "16:00";
    assert c[1..][1..] == [];
  }

  /** At 14:00:30 the 10:00 slot is past and the 16:00 slot is not, and a
      14:00 slot is already past; at 14:00:00.000 the 14:00 slot is not. */
  lemma ExamplePastSlots()
    ensures IsPastTime(0, "10:00", Stamp(0, 840, 30000)) && !IsPastTime(0, "16:00", Stamp(0, 840, 30000))
    ensures IsPastTime(0, "14:00", Stamp(0, 840, 30000)) && !IsPastTime(0, "14:00", Stamp(0, 840, 0))
  {
    ParseFormat(600);
    ParseFormat(840);
    ParseFormat(960);
  }

  /** 16:00 resolves to entry 2 in theater 1; 12:00 resolves to nothing. */
  lemma ExampleResolution()
    ensures Resolve(ExampleCatalog(), 7, Some(ExampleMovie()), 0, Some("16:00")) == Some(Handoff(7, 2, 1))
    ensures Resolve(ExampleCatalog(), 7, Some(ExampleMovie()), 0, Some("12:00")).None?
  {
    var c := ExampleCatalog();
    assert SlotTime(c[0]) == "10:00" && SlotTime(c[1]) == "16:00";
    assert FirstMatch(c, Some(ExampleMovie()), 0, Some("16:00")) == Some(1);
  }
}

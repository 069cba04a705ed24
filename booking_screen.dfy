/** The booking screen's selection state and the handlers and effect that
    replace it. Fetching, navigation and logging are outside the model: a
    finished fetch is a call that hands its data in, and `SelectSeat` returns
    what would be navigated with. */
module Screen {
  import opened Wrappers
  import opened Clock
  import opened Showtimes

  class MovieBooking {
    /** The movie id the screen was opened with (the route state). */
    const movieId: nat
    /** Index of the chosen day in the date window; `null` reads as 0. */
    var selectedDate: Option<int>
    /** The chosen "HH:mm" slot, if any. */
    var selectedTime: Option<string>
    /** The fetched catalog. */
    var showtimes: seq<Showtime>
    /** The slots shown for the chosen day. */
    var filteredTimes: seq<string>
    /** The fetched movie, once loaded. */
    var movie: Option<Movie>
    /** The movie's running time, once loaded. */
    var movieDuration: Option<Duration>

    /** The chosen day is a window index, and every shown or chosen slot is a
        well-formed "HH:mm" text. */
    ghost predicate Valid()
      reads this
    {
      (selectedDate.Some? ==> 0 <= selectedDate.value < WindowSize)
      && (forall t :: t in filteredTimes ==> WellFormedTime(t))
      && (selectedTime.Some? ==> WellFormedTime(selectedTime.value))
    }

    /** The day the screen is showing, given today's day number. */
    function SelectedDay(today: int): (day: int)
      reads this
      requires Valid()
      ensures today <= day < today + WindowSize
      ensures day == DateWindow(today)[DayOffset(selectedDate)]
    {
      DateWindowContents(today, today + DayOffset(selectedDate));
      today + DayOffset(selectedDate)
    }

    /** The screen as first rendered: day 0, no time, nothing loaded. */
    constructor (movieId: nat)
      ensures Valid() && this.movieId == movieId
      ensures selectedDate == Some(0) && selectedTime.None?
      ensures showtimes == [] && filteredTimes == [] && movie.None? && movieDuration.None?
    {
      this.movieId := movieId;
      selectedDate := Some(0);
      selectedTime := None;
      showtimes := [];
      filteredTimes := [];
      movie := None;
      movieDuration := None;
    }

    /** The filter effect: with a non-empty catalog and a loaded movie the
        shown slots become the movie's slots on the chosen day; otherwise they
        are left as they were. */
    method RefreshTimes(today: int)
      requires Valid()
      modifies this`filteredTimes
      ensures Valid()
      ensures |showtimes| > 0 && movie.Some? ==>
        filteredTimes == FilteredTimes(showtimes, movie.value, SelectedDay(today))
      ensures !(|showtimes| > 0 && movie.Some?) ==> filteredTimes == old(filteredTimes)
    {
      if |showtimes| > 0 && movie.Some? {
        var day := today + DayOffset(selectedDate);
        filteredTimes := FilteredTimes(showtimes, movie.value, day);
        FilteredTimesWellFormed(showtimes, movie.value, day);
      }
    }

    /** The catalog fetch completes: the catalog is stored and the filter
        effect runs. */
    method ReceiveShowtimes(data: seq<Showtime>, today: int)
      requires Valid()
      modifies this`showtimes, this`filteredTimes
      ensures Valid() && showtimes == data
      ensures |data| > 0 && movie.Some? ==>
        filteredTimes == FilteredTimes(data, movie.value, SelectedDay(today))
      ensures !(|data| > 0 && movie.Some?) ==> filteredTimes == old(filteredTimes)
    {
      showtimes := data;
      RefreshTimes(today);
    }

    /** The movie fetch completes: its running time is split into hours and
        minutes, the movie is stored and the filter effect runs. */
    method ReceiveMovie(m: Movie, today: int)
      requires Valid()
      modifies this`movie, this`movieDuration, this`filteredTimes
      ensures Valid() && movie == Some(m)
      ensures movieDuration == Some(SplitDuration(m.durationMinutes))
      ensures |showtimes| > 0 ==> filteredTimes == FilteredTimes(showtimes, m, SelectedDay(today))
      ensures |showtimes| == 0 ==> filteredTimes == old(filteredTimes)
    {
      movieDuration := Some(SplitDuration(m.durationMinutes));
      movie := Some(m);
      RefreshTimes(today);
    }

    /** A day card is clicked: the day becomes the chosen one. The filter
        effect runs only when that changes the chosen day, since a state
        update to an equal value does not re-run it; clicking the card already
        chosen leaves the shown slots as they were last computed. The chosen
        time is kept, as the screen does not clear it. */
    method SelectDate(index: int, today: int)
      requires Valid() && 0 <= index < WindowSize
      modifies this`selectedDate, this`filteredTimes
      ensures Valid() && selectedDate == Some(index) && selectedTime == old(selectedTime)
      ensures SelectedDay(today) == DateWindow(today)[index]
      ensures old(selectedDate) == Some(index) ==> filteredTimes == old(filteredTimes)
      ensures old(selectedDate) != Some(index) && |showtimes| > 0 && movie.Some? ==>
        filteredTimes == FilteredTimes(showtimes, movie.value, today + index)
      ensures !(|showtimes| > 0 && movie.Some?) ==> filteredTimes == old(filteredTimes)
    {
      if selectedDate != Some(index) {
        selectedDate := Some(index);
        RefreshTimes(today);
      }
      DateWindowContents(today, today + index);
    }

    /** A slot button is clicked. A button whose slot was past when the screen
        last rendered is disabled, so the click changes nothing; otherwise the
        slot is chosen. `now` is the time of that last render, not of the
        click: the screen does not re-render as time passes, so a slot enabled
        then can still be chosen after its minute has begun. */
    method SelectTime(t: string, today: int, now: Stamp)
      requires Valid() && t in filteredTimes
      modifies this`selectedTime
      ensures Valid()
      ensures IsPastTime(SelectedDay(today), t, now) ==> selectedTime == old(selectedTime)
      ensures !IsPastTime(SelectedDay(today), t, now) ==> selectedTime == Some(t)
    {
      if !IsPastTime(today + DayOffset(selectedDate), t, now) {
        selectedTime := Some(t);
      }
    }

    /** "Select seat" is clicked: the selection is resolved against the
        catalog; the handoff is what seat booking receives, and `None` means
        no navigation happens. */
    method SelectSeat(today: int) returns (h: Option<Handoff>)
      requires Valid()
      ensures h.None? <==>
        forall st :: st in showtimes ==> !ResolvesTo(st, movie, SelectedDay(today), selectedTime)
      ensures h.Some? ==>
        exists i :: 0 <= i < |showtimes| && ResolvesTo(showtimes[i], movie, SelectedDay(today), selectedTime)
          && (forall j :: 0 <= j < i ==> !ResolvesTo(showtimes[j], movie, SelectedDay(today), selectedTime))
          && h.value == Handoff(movieId, showtimes[i].id, showtimes[i].theaterId)
    {
      h := Resolve(showtimes, movieId, movie, today + DayOffset(selectedDate), selectedTime);
    }
  }
}

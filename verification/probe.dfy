/**
  check_availability: the verdict drawn from the film page, and the result
  it returns when the film is not listed or when the browser session raises.

  The browser session itself (navigation, cookie banner, clicks, waits) is
  not modelled; its outcome is an input, BrowserOutcome.
*/
module Probe {
  import opened Wrappers
  import Showtimes
  import Keywords

  /** How far the session got before it raised. */
  datatype Progress =
    | Started                        // before the film link was found
    | FilmListed                     // film link found, film page URL not yet read
    | FilmPageOpened(url: string)    // film page URL read

  /** What the browser session produced. */
  datatype BrowserOutcome =
    | FilmNotListed                               // the wait for the film link failed
    | PageLoaded(url: string, bodyText: string)   // the film page's URL and `inner_text("body")`
    | Raised(reached: Progress, timeout: bool, message: string)   // an exception, Playwright timeout or other

  /** The `debug_info` dictionary. */
  datatype DebugInfo = DebugInfo(
    brumathPresent: bool,
    reservationSignal: bool,
    nbHoraires: nat,
    error: Option<string>,
    filmFoundOnCinemaPage: bool,
    filmPageUrl: Option<string>)

  /** `debug_info` as first built. */
  const InitialDebug := DebugInfo(true, false, 0, None, false, None)

  const TimeoutPrefix := "Timeout Playwright: "
  const ScrapingPrefix := "Erreur scraping: "

  /**
    The availability verdict on the film page's text: a reservation keyword
    occurs in the lower-cased text, or some `HH:MM` showtime stands alone.
  */
  function Verdict(bodyText: string): (available: bool)
    ensures available <==>
      || (exists k, j :: k in Keywords.ReservationKeywords && Keywords.OccursAt(Keywords.Lower(bodyText), k, j))
      || (exists p :: Showtimes.MatchAt(bodyText, p))
  {
    Keywords.ReservationSignal(bodyText) || Showtimes.CountTimes(bodyText) > 0
  }

  /** The verdict check_availability returns for a browser outcome. */
  function ProbeAvailable(outcome: BrowserOutcome): bool {
    outcome.PageLoaded? && Verdict(outcome.bodyText)
  }

  /** check_availability, filling `debug_info` step by step. */
  method CheckAvailability(outcome: BrowserOutcome) returns (available: bool, debug: DebugInfo)
    ensures available == ProbeAvailable(outcome)
    ensures available ==> debug.filmFoundOnCinemaPage
    ensures debug.brumathPresent
    // the film is not listed: the initial diagnostics, unchanged
    ensures outcome.FilmNotListed? ==>
      && !available && !debug.filmFoundOnCinemaPage && !debug.reservationSignal
      && debug.nbHoraires == 0 && debug.error == None && debug.filmPageUrl == None
    // any exception: not available, the error recorded, nothing propagated
    ensures outcome.Raised? ==>
      && !available && !debug.reservationSignal && debug.nbHoraires == 0
      && debug.error == Some((if outcome.timeout then TimeoutPrefix else ScrapingPrefix) + outcome.message)
      && debug.filmFoundOnCinemaPage == !outcome.reached.Started?
      && debug.filmPageUrl == (if outcome.reached.FilmPageOpened? then Some(outcome.reached.url) else None)
    // the film page was read: the verdict is the disjunction of the two signals
    ensures outcome.PageLoaded? ==>
      && available == (debug.reservationSignal || debug.nbHoraires > 0)
      && debug.reservationSignal == Keywords.ReservationSignal(outcome.bodyText)
      && debug.nbHoraires == |Showtimes.TimeTokens(outcome.bodyText)|
      && debug.error == None && debug.filmFoundOnCinemaPage
      && debug.filmPageUrl == Some(outcome.url)
  {
    debug := InitialDebug;
    match outcome {
      case FilmNotListed =>
        available := false;
      case Raised(reached, timeout, message) =>
        if !reached.Started? {
          debug := debug.(filmFoundOnCinemaPage := true);
        }
        if reached.FilmPageOpened? {
          debug := debug.(filmPageUrl := Some(reached.url));
        }
        var prefix := if timeout then TimeoutPrefix else ScrapingPrefix;
        debug := debug.(error := Some(prefix + message));
        available := false;
      case PageLoaded(url, bodyText) =>
        debug := debug.(filmFoundOnCinemaPage := true);
        debug := debug.(filmPageUrl := Some(url));
        var reservationSignal := Keywords.ReservationSignal(bodyText);
        debug := debug.(reservationSignal := reservationSignal);
        debug := debug.(nbHoraires := Showtimes.CountTimes(bodyText));
        available := reservationSignal || debug.nbHoraires > 0;
    }
  }
}

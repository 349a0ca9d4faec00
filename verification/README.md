# pathe-alert: the decision logic of check_pathe.py

check_pathe.py watches the Pathé Brumath cinema page for one film and sends
one e-mail when showtimes appear. A run of `main` reads the state file,
probes the site with a headless browser, notifies on the transition from
"unavailable" to "available", and writes the state back.

This project models the logic that decides what happens in a run. The
browser, the filesystem and SMTP are replaced by inputs.

- **Showtimes** (`showtimes.dfy`): the `HH:MM` count. This is
  `re.findall(r"\b(?:[01]\d|2[0-3]):[0-5]\d\b", body_text)` written out as a
  left-to-right scan that resumes after each match. A separate lemma pins
  the scan down: it is the only increasing, non-overlapping sequence of
  matches that leaves no match outside it.
- **Keywords** (`keywords.dfy`): `str.lower()`, substring search, and the
  test for "réserver", "reserver", "e-billet" or "billetterie".
- **Probe** (`probe.dfy`): `check_availability`, written as a method that
  fills `debug_info` step by step. Its input is an abstract browser outcome:
  - the film is not listed;
  - the film page's URL and text;
  - an exception, with how far the session got before it.
- **Notifier** (`notifier.dfy`): the configuration guard of
  `send_email_brevo`. The SMTP session's success is an input.
- **StateStore** (`statestore.dfy`): `read_state` with its default, and
  `write_state` with its three endings:
  - the file is written;
  - `open` fails and the old file stays;
  - `json.dump` fails after `open` has already truncated the file.
- **Orchestrator** (`orchestrator.dfy`): `main` as the method `Run`, with
  specification functions for one run. Lemmas cover sequences of runs:
  - notifications are the rising edges of the verdicts;
  - N consecutive available runs notify once;
  - a drop back to "unavailable" re-arms the notification;
  - failed saves cause repeated notifications.

Facts about check_pathe.py that the model follows:

- The verdict is `reservation_signal or nb_horaires > 0` (check_pathe.py:142).
  Film presence is not a third condition. It comes only from the early
  return at check_pathe.py:115-118 when the film link is missing.
- Showtimes are counted in the page text only, and duplicates are not removed
  (check_pathe.py:131, 139-140).
- Any prior `last_status` other than the string "available" makes the film
  eligible for a new notification (check_pathe.py:192, 197). This includes a
  missing key, `null` and other strings.
- `read_state` falls back to the default state only when the file is missing
  or reading it raises (check_pathe.py:34-40). A file holding valid JSON that
  is not an object is returned as is (see Findings). `Run` reads through the
  corrected `ReadState`.

## Model

| member | source | states |
|---|---|---|
| Showtimes.TimeTokenIsClockTime | check_pathe.py:138 | a counted token is exactly `dd:dd` with hours 00–23 and minutes 00–59, so "24:00" and "12:60" never count |
| Showtimes.MatchAtIsIsolatedToken | check_pathe.py:138 | the pattern matches at a position iff a time token starts there with no word character just before or just after it |
| Showtimes.MatchesFrom | check_pathe.py:139 | every reported position is a match, and any two reported matches are at least five characters apart (no overlap) |
| Showtimes.MatchesFromComplete | check_pathe.py:139 | the scan misses no match: every position where the pattern matches lies inside a reported match |
| Showtimes.ScanIsUnique | check_pathe.py:139 | any sequence of matches that is increasing, non-overlapping and leaves no match uncovered equals the scan's result |
| Showtimes.MatchesCharacterised | check_pathe.py:138-139 | `re.findall`'s positions are exactly the sequence satisfying the three conditions above |
| Showtimes.TimeTokens | check_pathe.py:139 | the returned strings are the five-character slices at the reported positions, each a valid time token |
| Showtimes.MatchesNonEmpty | check_pathe.py:139-140 | at least one match is reported iff the pattern matches somewhere in the text |
| Showtimes.CountTimes | check_pathe.py:139-140 | `nb_horaires` is the number of matches the scan reports, and it is positive iff some isolated valid `HH:MM` token occurs in the text |
| Showtimes.LoneTimeCounts | check_pathe.py:138-140 | "20:30" counts once |
| Showtimes.GluedDigitsDoNotCount | check_pathe.py:138-140 | "123:45" and "12:345" count 0 |
| Showtimes.OutOfRangeDoesNotCount | check_pathe.py:138-140 | "24:00" and "12:60" count 0 |
| Showtimes.OverlapCountsOnce | check_pathe.py:138-140 | "12:34:56" and "12:23:45" count 1: the scan resumes after the first match |
| Showtimes.AccentedLetterIsWordChar | check_pathe.py:138-140 | "à 20:30" counts 1; "à20:30" and "²20:30" count 0 |
| Keywords.LowerChar | check_pathe.py:135 | an ASCII capital or a Latin-1 capital À–Þ (except ×) becomes the small letter 32 code points above it; every other character is unchanged |
| Keywords.Lower | check_pathe.py:135 | lower-casing keeps the length and maps each character on its own |
| Keywords.ContainsFrom | check_pathe.py:135 | the search from index i succeeds iff the needle occurs at some index at or after i |
| Keywords.Contains | check_pathe.py:135 | `needle in hay` iff the needle occurs at some index of hay |
| Keywords.ReservationSignal | check_pathe.py:134-135 | the signal holds iff one of the four keywords occurs in the lower-cased text |
| Keywords.SignalIgnoresCase | check_pathe.py:135 | rewriting any letters of the text as capitals or as small letters (a–z, à–þ and their capitals) leaves the signal unchanged |
| Keywords.LowerIsIdempotent | check_pathe.py:135 | lower-casing twice equals lower-casing once |
| Keywords.CapitalisedKeywordSignals | check_pathe.py:134-135 | "RÉSERVER" gives the signal |
| Probe.Verdict | check_pathe.py:134-142 | the page is available iff a keyword occurs in the lower-cased text or an isolated valid `HH:MM` token occurs in it |
| Probe.CheckAvailability | check_pathe.py:88-157 | not listed: False and the initial diagnostics (film not found, no signal, 0 showtimes, no error). Any exception: False with a "Timeout Playwright: " or "Erreur scraping: " error. Page read: available iff signal or a showtime, with both recorded. Available implies the film was found |
| Notifier.Recipient | check_pathe.py:164 | the default recipient is used only when ALERT_TO_EMAIL is unset; a set value, even empty, is kept |
| Notifier.SendEmailBrevo | check_pathe.py:160-186 | no connection iff a setting is missing or empty; otherwise the send goes from the sender to the recipient and succeeds iff the relay accepts it |
| Notifier.SentNeedsConfigAndRelay | check_pathe.py:166-186 | the function returns True iff all four settings are truthy and the relay accepts the message |
| StateStore.ReadStateAsWritten | check_pathe.py:33-40 | an absent or unreadable file gives `{"last_status": "unavailable", "last_seen_at": None}`; otherwise whatever the file's JSON is |
| StateStore.ReadState | check_pathe.py:33-40 | agrees with read_state whenever that returns an object, and gives the default state otherwise |
| StateStore.WriteState | check_pathe.py:43-48 | a written state reads back unchanged; a failed `open` leaves the file as it was; a failed dump reads back as the default |
| Orchestrator.PriorStatus | check_pathe.py:192 | the stored `last_status`, or "unavailable" when the key is missing |
| Orchestrator.StatusName | check_pathe.py:195 | the new status is "available" when the verdict is True and "unavailable" when it is False |
| Orchestrator.NextState | check_pathe.py:216-217 | the new state has the old keys plus `last_status` and `last_seen_at`, those two set to the new status and the timestamp, every other key unchanged |
| Orchestrator.Run | check_pathe.py:189-218 | a send is attempted iff the verdict is available and the prior status is not "available". The written state is as NextState says, whatever the mail's outcome. The file is then written. The decision and the resulting file are `Notifies` and `Successor`, the steps the run-sequence lemmas below iterate |
| Orchestrator.SavedRunRecordsVerdict | check_pathe.py:216-218 | after a saved run the file reads back with the run's status and timestamp |
| Orchestrator.AttemptsAreRisingEdges | check_pathe.py:192-218 | over consecutive saved runs, the notifications attempted equal the unavailable-to-available steps of the verdicts |
| Orchestrator.RepeatedAvailabilityNotifiesOnce | check_pathe.py:192-197 | N ≥ 1 consecutive available saved runs attempt exactly one notification, or none if the state already says "available" |
| Orchestrator.DropReArmsNotification | check_pathe.py:192-197 | available, unavailable, available: two notifications from a non-"available" state, one from "available" |
| Orchestrator.UnsavedRunsNotifyEveryTime | check_pathe.py:43-48 | if every `open` of the state file fails, each available run from a non-"available" state notifies again |
| Orchestrator.DumpFailureReArmsNotification | check_pathe.py:43-48 | after a failed dump, the next available run notifies |
| Orchestrator.PriorStatusAsWritten | check_pathe.py:192 | `state.get` raises iff the loaded state is not a JSON object |
| Orchestrator.NonObjectStateFileCrashes | check_pathe.py:33-40 | a state file holding `null` or any other non-object JSON makes the run raise at line 192 |
| Orchestrator.CorrectedReadNeverCrashes | check_pathe.py:33-40 | with the corrected read every file yields a prior status, and a non-object file yields "unavailable" |

## Left out

- Browser driving: navigation, `accept_cookies` and its retry loop, clicks and waits (check_pathe.py:51-77, 98-132). The session's outcome is the input `Probe.BrowserOutcome`.
- JSON text, encoding and the filesystem in `read_state` and `write_state` (check_pathe.py:33-48). A file is absent, unreadable or one JSON document. JSON numbers are integers only.
- The SMTP session, TLS, login and MIME message (check_pathe.py:170-186). Its success is the boolean `relayAccepted`.
- Environment lookup (check_pathe.py:161-164). The four values are optional strings.
- Wall-clock time and logging (check_pathe.py:28-30, 210, 217). The timestamp is an opaque string input, so "the new timestamp is later" is not stated.
- The e-mail subject and body text (check_pathe.py:198-211). They are presentation only.
- Showtimes.IsWordChar: approximates Python's Unicode `\w` by its ASCII and Latin-1 part: letters, digits, underscore, U+00C0–U+00FF except × and ÷, and ª ² ³ µ ¹ º ¼ ½ ¾. Alphanumeric characters beyond U+00FF are not word characters here.
- Showtimes.IsDigit: approximates Python's Unicode `\d` by the ASCII digits.
- Keywords.LowerChar: approximates `str.lower()` on ASCII and Latin-1 capitals only. Other scripts and the special cases that change length are not modelled.

## Findings

| source | as written | input that shows it | evidently intended | confidence | as-written member | corrected member |
|---|---|---|---|---|---|---|
| check_pathe.py:33-40, 192 | `read_state` returns whatever `json.load` produced, and `main` calls `state.get` on it | a state.json whose content is `null` (or `[]`, or `3`) | a file that does not hold a state object is treated like a corrupt file: default state, run continues | medium, not executed | Orchestrator.NonObjectStateFileCrashes | StateStore.ReadState |

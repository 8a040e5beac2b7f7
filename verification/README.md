# Verified model of the celebrating-hue-lights score pipeline

The system polls a flashscore.com match page, detects when either side's score
changes, and, when the scoring side is the user's favourite team, waits for a
sync delay and then blinks a Philips Hue light group in the team's colours,
restoring the lights afterwards. This project models the decision logic of that
pipeline in Dafny, with the browser, the threads, the clock and the Hue bridge
replaced by plain values:

- `models.dfy` (`Models`): `Team` and `MatchScore`. They are frozen dataclasses in
  the source. As Dafny datatypes they are immutable, always have both fields
  (a `MatchScore` always has a home and an away team), and compare field by field.
- `common.dfy` (`Common`): `Option` for `None`, `Result` for a call that may
  raise, and `Failure`, one constructor per exception cause the code raises.
  `IsValueError` and `IsRuntimeError` give back the Python exception class.
- `text.dfy` (`Text`): the Python built-ins the extraction relies on:
  `str.split("-")`, `int()` and `str()`. It includes split/join round trips and `int(str(i)) == i`.
- `score_scraper.dfy` (`Scraper`): the match-URL check of `ScoreScraper.__init__`
  and the post-fetch part of `get_current_score`. The URL pattern is stated as
  the set of strings the regular expression matches under `re.match`. A
  backtracking-free decision procedure is proved to accept exactly that set.
- `score_monitor.dfy` (`Monitor`): `notify_if_score_changed` and the `start`
  loop, run over a finite sequence of fetch results. Every spawned notification
  thread is recorded by the team it was given.
- `score_event_handler.dfy` (`EventHandler`): `ScoreChangedEventHandler`. Its
  effects (the sync sleep and the blink) go to a log, and it really calls the
  controller's blink.
- `hue.dfy` (`Hue`): `find_key_in_folder` over a listing of (file name, JSON
  object) pairs, the controller constructor that refuses a team without
  colours, and `blink_lights` over an array of light records. The pass count
  stands in for the wall-clock loop.

Where the code departs from what a reader might expect, the model follows the code:

- A missing page element raises `RuntimeError`. A malformed score text is not
  converted: the `ValueError` from the two-way unpacking or from `int()`
  escapes as it is. There is no single extraction error.
- A URL outside the pattern raises `ValueError`, and a team with no colours
  raises `RuntimeError`. Neither is a dedicated configuration error.
- The colour list is not checked for emptiness. An empty list is accepted, and
  then a blink applies no colour at all.
- The restore step writes back hue, saturation and brightness only. A light's
  `alert` is not written back; in the model, a light record keeps the
  `"select"` that the blink wrote to it.
- Any difference in points triggers a notification, whether it is an
  increase or a decrease.

## Model

| member | source | states |
|---|---|---|
| `Scraper.IsValidMatchUrlCorrect` | src/score_scraper.py:21-24 | The URL check accepts a URL iff it matches the pattern: a prefix without a line feed, `.flashscore.com/match/`, a non-empty ID without `/`, `/#/match-summary/match-summary`, and optionally one final line feed (both directions) |
| `Scraper.ValidUrlMatches` | src/score_scraper.py:21-24 | Every URL the check accepts has a reading against the regular expression |
| `Scraper.MatchingUrlIsValid` | src/score_scraper.py:21-24 | Every URL the regular expression matches passes the check |
| `Scraper.NewScoreScraper` | src/score_scraper.py:18-38 | Construction fails with the URL ValueError iff the URL does not match the pattern, and then creates nothing. On success the new scraper stores the URL unchanged and `prev_fav_score` is `None` |
| `Scraper.ScoreScraper.constructor` | src/score_scraper.py:29-30 | The field set-up after the check: `match_url` as given, `prev_fav_score` empty |
| `Scraper.ExtractScore` | src/score_scraper.py:46-74 | The result is the RuntimeError exactly when an element is missing. It is the unpacking ValueError exactly when all elements are present and the score text's dash count is not one. It is the `int()` ValueError exactly when all elements are present, the text has one `-`, and `int()` rejects a half. A success carries the page's home and away names in that order, and as points the values `int()` reads from the text before and after the dash, both non-negative |
| `Scraper.ExtractScoreRoundTrip` | src/score_scraper.py:63-67 | Score text `str(h) + "-" + str(a)` yields home points h and away points a, with the names passed through home then away |
| `Text.Split` | src/score_scraper.py:63 | `split("-")` yields one more piece than the text has dashes, and no piece contains a dash |
| `Text.JoinSplit` | src/score_scraper.py:63 | Joining the pieces of a split with the separator gives back the text |
| `Text.SplitJoin` | src/score_scraper.py:63 | Splitting a join of separator-free pieces gives back the pieces |
| `Text.SplitPair` | src/score_scraper.py:63 | `a + "-" + b` with dash-free halves splits into exactly `[a, b]` |
| `Text.ParseInt` | src/score_scraper.py:65-66 | A dash-free text never reads as a negative number, so extracted points are non-negative |
| `Text.ParseIntToString` | src/score_scraper.py:65-66 | `int(str(i)) == i` for every integer |
| `Text.ParseIntLeadingSpace` | src/score_scraper.py:65-66 | Leading whitespace does not change what `int()` reads |
| `Text.ParseIntTrailingSpace` | src/score_scraper.py:65-66 | Trailing whitespace does not change what `int()` reads |
| `Text.ParseIntRejectsSeparator` | src/score_scraper.py:65-66 | A text starting with one of the information separators U+001C to U+001F is not stripped and gives the `int()` ValueError |
| `Monitor.Notification` | src/score_monitor.py:43-49 | One slot spawns a notification iff its previous and current points differ. The notification carries the current team, never the previous one, and names play no part |
| `Monitor.PollNotifications` | src/score_monitor.py:33-34 | One poll spawns at most two notifications. It spawns none iff both slots' points are unchanged, and two iff both changed, in the order home then away. A single notification carries the current home team if the home points changed, and the current away team otherwise |
| `Monitor.Dispatched` | src/score_monitor.py:24-35 | A single snapshot (the baseline) spawns nothing. Over n+1 snapshots at most 2n notifications are spawned |
| `Monitor.DispatchedMembers` | src/score_monitor.py:24-35 | A team is among the dispatched notifications iff, at some poll i ≥ 1, it occupies a slot of snapshot i whose points differ from that slot in snapshot i-1 (both directions) |
| `Monitor.RepeatedSnapshotDispatchesNothing` | src/score_monitor.py:33-35 | Polling the same snapshot twice in a row dispatches nothing on the second poll |
| `Monitor.Snapshots` | src/score_monitor.py:25-30 | The run's snapshots are the successful fetches in order, and they stop exactly at the first fetch that raised |
| `Monitor.ScoreChangeMonitor.constructor` | src/score_monitor.py:12-21 | Stores the polling interval, and nothing has been spawned yet |
| `Monitor.ScoreChangeMonitor.NotifyIfScoreChanged` | src/score_monitor.py:43-49 | Appends the current team to the spawned notifications iff the slot's points changed, and appends nothing otherwise |
| `Monitor.ScoreChangeMonitor.Start` | src/score_monitor.py:23-41 | Baseline, then one poll per later snapshot, with the current snapshot becoming the previous one after every poll. The notifications spawned are exactly `Dispatched` of the snapshots obtained. The run ends with the failure of the first fetch that raised |
| `EventHandler.ScoreChangedEventHandler.constructor` | src/score_event_handler.py:9-19 | Stores the favourite name, the controller and the sync delay, sets `_flash_time` to zero, and records no effect yet |
| `EventHandler.ScoreChangedEventHandler.Handle` | src/score_event_handler.py:26-33 | A team whose name differs from the favourite changes nothing: no effect, no colour applied, no group state shown, lights untouched. The favourite's name gives exactly the sync sleep, then one blink: every applied colour, pass after pass, was shown on every light of the group with alert `"select"`, and the lights' colours are restored afterwards. The configuration fields never change |
| `Hue.FindKeyInFolder` | src/hue.py:46-56 | The result is `None` iff no `.json` file in the listing holds the key |
| `Hue.FindKeyInFolderFirstMatch` | src/hue.py:47-54 | When a key is found, the value comes from the first `.json` file in listing order that holds it. Other file names are never consulted |
| `Hue.RepeatLength` | src/hue.py:92-99 | The number of colour applications is the number of whole passes times the number of colours, which may be zero |
| `Hue.RepeatAt` | src/hue.py:92-98 | Within every pass the colours are applied in list order |
| `Hue.NewHueLightController` | src/hue.py:62-80 | Construction fails with the no-colours RuntimeError iff the team's key is absent from every `.json` file or the first holder maps it to `null`. Otherwise the controller holds the group, the duration and exactly the colours found |
| `Hue.HueLightController.constructor` | src/hue.py:66-80 | Stores the group, the blink duration and the converted colours, with nothing applied or shown yet |
| `Hue.HueLightController.BlinkLights` | src/hue.py:82-107 | Colours are applied pass after pass in list order. The group state recorded right after the k-th application has every light of the group in the k-th colour with alert `"select"`. Afterwards every light's hue, saturation and brightness equal the values saved at the start. `alert` is not restored, and the group's lights are the same ones |
| `Hue.HueLightController.ShowColor` | src/hue.py:94-98 | Every light of the group takes the given hue, saturation and brightness, with alert `"select"` |
| `Hue.HueLightController.Restore` | src/hue.py:102-107 | Light i gets back saved colour i, and its alert is left as it was |

## Left out

- `color_to_hsb` (src/hue.py:13-31): floating-point HLS conversion and the web-colour name table. Colours arrive already converted as integer triples (`Hsb`). An unknown colour name is not modelled.
- `MyBridge.assert_can_connect` and the `phue` light property setters: these are network calls to the bridge. Lights are plain records in an array.
- The file reading in `find_key_in_folder` (`os.listdir`, `open`, `json.load`): the listing is given as a sequence of (name, object) pairs. JSON values other than a colour list or `null` are not modelled.
- The Selenium browser and the BeautifulSoup lookups in `get_current_score`: a page is given as the three optional element texts. Creating the Chrome driver is not modelled, so the `driver` field does not exist in the model.
- Text.ParseInt: strips the ASCII whitespace `int()` strips (tab, line feed, vertical tab, form feed, carriage return and space, but not the separators U+001C to U+001F), then reads an optional sign and ASCII digits. Python's `int()` also accepts underscores between digits, non-ASCII decimal digits and non-ASCII whitespace around the literal; the model rejects those texts. CPython 3.11 and later also refuse, with a ValueError, decimal strings of more than 4300 digits; the model has no such limit.
- Text.ParseIntToString: holds for every integer. In CPython 3.11 and later `str()` raises a ValueError on an integer of more than 4300 digits, so there the round trip is only defined below that size.
- Monitor.ScoreChangeMonitor.Start: runs over a finite sequence of fetch results instead of `while True`, so running out of fetches stands for external termination. The sleep between polls is not modelled. Notification threads are recorded in the order they were spawned, not executed, so their concurrent handling is not modelled.
- Monitor.ScoreChangeMonitor.Start: takes the results of the fetches rather than the pages. Each fetch result stands for `Scraper.ExtractScore` of the page loaded at that moment.
- Hue.HueLightController.BlinkLights: the wall-clock condition `datetime.now() - start_time < blink_duration` becomes a given number of whole passes, and the half-second sleeps are not modelled. Each group-wide colour application is recorded once in `applied`, instead of as four property writes per light. The group's state after each application is kept in the ghost field `shown`.
- EventHandler.ScoreChangedEventHandler.Handle: the sync delay is recorded as a `Sleep` effect, not waited for. The blink's pass count is a parameter, because it depends on the clock. Concurrent `handle` calls against the same light group are not modelled.
- `Duration` is a whole number of microseconds. Negative `timedelta` values, for which `sleep` would raise, are not modelled.
- All `print` output, `main.py`, `src/args.py` and `app_setup.py`: argument parsing, YAML configuration and bridge-user registration.

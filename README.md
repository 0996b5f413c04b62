# BarkTracker bark-session tracker, modelled in Dafny

BarkTracker listens to a microphone. Each pass of its main loop classifies a
loudness reading as quiet or a bark. It tracks contiguous noisy periods as
*bark sessions*, tells a feedback device to reward or warn, and decides when to
mail the owner: a first warning, repeats, and an "alert lifted" message. On
interrupt it reports how many sessions there were and their total duration.
Durations are written out in years, months, days, hours, minutes and seconds.

The project models three pieces of `BarkTracker/bin/BarkTracker.py`:

- `bark_sessions.dfy` (module `BarkSessions`): the loop body as a state machine.
  - The script's globals (`bark_alert`, `last_bark`, `last_email`,
    `session_email_sent`, `bark_sessions`) form the `State` value.
  - `Next` is the specification of one iteration, built from one function per
    branch: `OnQuiet`, `OnNewIncident` and `OnPersistent`.
  - The class `BarkTracker` keeps the same globals as mutable fields. Its
    `Step` method is the loop body written imperatively, proved equal to `Next`.
  - The device command is an `Action`; the mail decided is an optional `Notice`.
- `bark_trace.dfy` (module `BarkTrace`): the `while True` loop as a run over a
  sequence of readings, and the properties that span several iterations. These
  cover time order, mail throttling, lifted-mail pairing, the first bark, and
  concrete scenarios.
- `session_summary.dfy` (module `SessionSummary`): the interrupt handler's
  count and total. This includes the dictionary keyed on start time. The
  dictionary is a list of pairs in insertion order. Only the printed details,
  which are not modelled, would depend on that order.
- `duration_format.dfy` (module `DurationFormat`): `timedelta_format`, as a loop
  over the unit table, proved against a recursive decomposition.
- `time.dfy` (module `Time`): the microsecond time scale shared by the others.
- `wrappers.dfy`: an `Option` type.

Representation choices:

- Times are integer microseconds counted from `datetime.min`, which is 0 here.
  Microseconds are the resolution of Python's `datetime`. The thresholds are
  the script's constants: ambient -4 dB, strictness window 40 s, reward window
  15 s, and 20 s for both mail delays.
- Loudness is a `real`. It is only ever compared with the ambient level.
- The script records an open session's end as `-1`. The model uses `End.Open`.
- `Plausible(now)` says that the clock reads more than 40 s after
  `datetime.min`. Every real `datetime.now()` does. Together with the invariant
  `Valid`, it makes `bark_sessions[-1]` defined wherever the loop uses it.
  `Valid` ties an empty session list to `last_bark` still at `datetime.min`.
- Properties about time order (`Chronological`) assume that the clock never
  reads earlier than the last bark. Nothing in the script enforces this.

Several behaviours of the code differ from a natural description. The model
follows the code.

- A session is appended only when the previous bark is more than 40 s old
  (line 164). A re-bark soon after a close therefore reuses the closed session
  and gets the long warning. It also sends a first-warning mail at once if the
  reused session started more than 20 s earlier (lines 185 and 188); otherwise
  it sends no mail. The next close overwrites that session's end. See
  `RebarkAfterCloseReusesSession` and `RebarkSoonAfterStartSendsNoMail`.
- `session_email_sent` is reset only on close (line 156), never on append.
- Warning mails are more than 20 s apart only while no close comes between
  them (`MailSpacing`). A close resets the mail flag, so two warning mails on
  either side of a close can be closer. In `MailsAcrossCloseUnderDelay` they
  are 17 s apart.
- Only a quiet reading closes a session. With readings more than 40 s apart and
  none in between, two sessions can be open at once
  (`SparseReadingsLeaveTwoOpen`). "At most one open session" therefore holds
  only when readings are frequent enough. It is not an invariant of the code.

## Model

| member | source | states |
|---|---|---|
| `BarkSessions.Init` | BarkTracker/bin/BarkTracker.py:73-86 | The initial globals (not alerting, `last_bark` and `last_email` at `datetime.min`, no sessions, no mail sent) satisfy the tracker invariant |
| `BarkSessions.OnQuiet` | BarkTracker/bin/BarkTracker.py:150-160 | A quiet reading never moves `last_bark` or `last_email` and never adds a session. It is a no-op with no action unless alerting and quiet for longer than 15 s. Then it sets the last session's end to now minus 15 s, leaves earlier sessions alone, clears the alert and the mail flag, and rewards. It sends "lifted" iff a mail had been sent this session |
| `BarkSessions.OnNewIncident` | BarkTracker/bin/BarkTracker.py:162-175 | A noisy reading more than 40 s after the last bark appends exactly `[now, open]`. It gives the short warning, never sends a mail, sets the alert and `last_bark := now`, and leaves the mail state alone |
| `BarkSessions.OnPersistent` | BarkTracker/bin/BarkTracker.py:177-208 | A noisy reading within 40 s of the last bark has a non-empty session list and gives the long warning. It sends the first warning iff no mail was sent this session and the last session started more than 20 s ago. It sends a repeat iff a mail was sent and the last one is more than 20 s old. `last_email` moves to now exactly when a mail is sent. The session list is unchanged |
| `BarkSessions.Next` | BarkTracker/bin/BarkTracker.py:145-208 | One iteration keeps the invariant. It appends a session iff the reading is noisy and the last bark is more than 40 s old. It changes no start time and no session but the last. A noisy reading always leaves the tracker alerting with `last_bark` at now. "Lifted" goes out iff the step rewards and a mail had been sent. A warning sent when a mail was already sent is a repeat, more than 20 s after the last one |
| `BarkSessions.StepKeepsChronology` | BarkTracker/bin/BarkTracker.py:150-208 | If the clock is not behind the last bark, one iteration keeps the state in time order. Starts are more than 40 s apart and no later than the last bark, a closed session ends after it starts, and the last mail is no later than the last bark |
| `BarkSessions.BarkTracker.constructor` | BarkTracker/bin/BarkTracker.py:73-86 | The tracker starts in the initial state |
| `BarkSessions.BarkTracker.Step` | BarkTracker/bin/BarkTracker.py:146-208 | The loop body, updating the fields in place, performs exactly the transition `Next` specifies and returns its action and mail, keeping the invariant |
| `BarkTrace.Run` | BarkTracker/bin/BarkTracker.py:133-208 | The loop fed one reading per iteration: every state it reaches is valid, and there is one step per reading |
| `BarkTrace.RunKeepsChronology` | BarkTracker/bin/BarkTracker.py:150-208 | Over readings whose clock never runs backwards, session starts stay strictly increasing (by more than 40 s) and every closed session ends after it starts |
| `BarkTrace.LastMailTime` | BarkTracker/bin/BarkTracker.py:184-201 | After a run, `last_email` is the time of the most recent warning mail |
| `BarkTrace.MailFlag` | BarkTracker/bin/BarkTracker.py:150-201 | After a run, `session_email_sent` holds iff a warning mail went out since the last close. A flag set before the run counts too if the run has no close |
| `BarkTrace.LiftedIffWarned` | BarkTracker/bin/BarkTracker.py:153-154 | The reading after a run sends "Bark alert lifted" iff it closes the session and a warning mail went out since the previous close |
| `BarkTrace.MailSpacing` | BarkTracker/bin/BarkTracker.py:184-201 | Once a warning mail has gone out, the next warning mail, if no close comes first, is a repeat sent more than 20 s later. Across a close the spacing does not hold (see `MailsAcrossCloseUnderDelay`) |
| `BarkTrace.QuietKeepsInit` | BarkTracker/bin/BarkTracker.py:150-160 | Quiet readings before any bark change nothing and command nothing |
| `BarkTrace.FirstBarkOpensSession` | BarkTracker/bin/BarkTracker.py:164-175 | Because `last_bark` starts at `datetime.min`, the first noisy reading of a run opens the first session. It gives the short warning and no mail |
| `BarkTrace.RebarkAfterCloseReusesSession` | BarkTracker/bin/BarkTracker.py:150-208 | Bark at 100 s, quiet at 120 s (close, end 105 s), bark at 130 s, quiet at 150 s. The 130 s bark gives the long warning and an immediate first warning without appending. The 150 s close overwrites the end with 135 s and sends "lifted" |
| `BarkTrace.RebarkSoonAfterStartSendsNoMail` | BarkTracker/bin/BarkTracker.py:150-206 | Bark at 100 s, quiet at 116 s (close, end 101 s), bark at 117 s. The 117 s bark gives the long warning and no mail, because the reused session started only 17 s earlier |
| `BarkTrace.MailsAcrossCloseUnderDelay` | BarkTracker/bin/BarkTracker.py:150-201 | Barks at 100, 110 and 125 s, quiet at 141 s, bark at 142 s. A first warning goes out at 125 s, the close at 141 s sends "lifted", and another first warning goes out at 142 s, less than 20 s after the previous one |
| `BarkTrace.SparseReadingsLeaveTwoOpen` | BarkTracker/bin/BarkTracker.py:164-173 | Two noisy readings 100 s apart with nothing in between leave two open sessions |
| `SessionSummary.Put` | BarkTracker/bin/BarkTracker.py:20 | Dictionary assignment adds the key, keeps keys distinct, and gives the key its new value. For an existing key every other entry stays as it was. A new key is appended, and no entry with another key is added |
| `SessionSummary.Collect` | BarkTracker/bin/BarkTracker.py:20 | The comprehension has one entry per distinct start time, its keys are exactly the sessions' starts, and it has no more entries than sessions. Each entry's value is the duration of the last session with that start, which overwrote earlier ones |
| `SessionSummary.Summarize` | BarkTracker/bin/BarkTracker.py:20-23 | The summary exists iff every session is closed. An open session's `-1` end makes the subtraction fail. The count is the number of sessions. The keys are the distinct starts, each holding the duration of the last session with that start. The total is the sum of the dictionary's values |
| `SessionSummary.Total` | BarkTracker/bin/BarkTracker.py:22 | With no negative duration, the sum of the dictionary's values is not negative and no single value exceeds it |
| `SessionSummary.IncreasingStartsSummary` | BarkTracker/bin/BarkTracker.py:20-22 | With strictly increasing starts, the dictionary has one entry per session in order, and the total is the sum of all session durations |
| `SessionSummary.TotalAtLeastCount` | BarkTracker/bin/BarkTracker.py:22 | If every duration is positive, the total is at least the number of sessions |
| `SessionSummary.ChronologicalSummary` | BarkTracker/bin/BarkTracker.py:20-23 | For a state in time order with every session closed, the summary is the count, one entry per session, and the sum of all durations, which is positive |
| `SessionSummary.DuplicateStartsCollapse` | BarkTracker/bin/BarkTracker.py:20-23 | Two sessions with the same start leave one dictionary entry, the later session's. The count says 2, but the total omits the earlier duration |
| `SessionSummary.OrderedRunSummary` | BarkTracker/bin/BarkTracker.py:20-23 | After any run from the script's start whose clock never runs backwards, an interrupt with all sessions closed reports the sum of every session's duration |
| `DurationFormat.TotalSeconds` | BarkTracker/bin/BarkTracker.py:32 | `int(total_seconds())` gives the whole seconds of the duration, truncated toward zero for either sign |
| `DurationFormat.PeriodsTable` | BarkTracker/bin/BarkTracker.py:33-40 | The unit table has positive, strictly decreasing lengths and ends with the one-second unit |
| `DurationFormat.TimedeltaFormat` | BarkTracker/bin/BarkTracker.py:31-49 | The loop over the table returns the space-joined texts of the parts of the decomposition of the duration's whole seconds |
| `DurationFormat.Decompose` | BarkTracker/bin/BarkTracker.py:43-47 | The loop as written, with `>`: there are no more parts than units, and every part's count is at least one. Unit membership, order and the sum are stated by the lemmas below |
| `DurationFormat.NatToString` | BarkTracker/bin/BarkTracker.py:47 | `%s` of a non-negative int gives decimal digits only, with no leading zero, and reading them back gives the number |
| `DurationFormat.PartText` | BarkTracker/bin/BarkTracker.py:46-47 | A part's text is its count in decimal, a space, the unit name, and an "s" exactly when the count is more than one |
| `DurationFormat.PartTextReadsBack` | BarkTracker/bin/BarkTracker.py:46-47 | The count can be read back from the digits at the start of a part's text |
| `DurationFormat.Join` | BarkTracker/bin/BarkTracker.py:49 | `" ".join` of no strings is empty. Otherwise the result begins with the first string and is as long as all the strings plus one space between each pair of neighbours |
| `DurationFormat.JoinAppend` | BarkTracker/bin/BarkTracker.py:49 | Joining two non-empty lists equals joining each and putting one space between them |
| `DurationFormat.Pluralised` | BarkTracker/bin/BarkTracker.py:46-47 | A part's text ends in "s" iff its count is more than one |
| `DurationFormat.DecomposeUnits` | BarkTracker/bin/BarkTracker.py:43-47 | Every part uses a unit of the table |
| `DurationFormat.DecomposeDescending` | BarkTracker/bin/BarkTracker.py:33-47 | Parts appear in strictly decreasing unit size |
| `DurationFormat.DecomposeSmall` | BarkTracker/bin/BarkTracker.py:43-44 | One second or less (including 0 and negative durations) gives no part, and so the empty string |
| `DurationFormat.DecomposeSum` | BarkTracker/bin/BarkTracker.py:43-47 | The parts' seconds plus what is left over equal the input |
| `DurationFormat.LeftoverAtMostOne` | BarkTracker/bin/BarkTracker.py:43-47 | From a non-negative input at most one second is left over. When one is, no part is in seconds |
| `DurationFormat.RenderedSeconds` | BarkTracker/bin/BarkTracker.py:31-49 | For a non-negative input, the parts add up to the input, or to one second less with no seconds part |
| `DurationFormat.DecomposeExactSum` | BarkTracker/bin/BarkTracker.py:44-45 | With `>=`, the parts' seconds plus the leftover equal the input |
| `DurationFormat.NothingLeftOver` | BarkTracker/bin/BarkTracker.py:44-45 | With `>=`, nothing is left over from a non-negative input, and a positive input yields a part |
| `DurationFormat.ExactSum` | BarkTracker/bin/BarkTracker.py:44-45 | With `>=`, the parts of a non-negative input add up to exactly the input, and a positive duration renders as something |
| `DurationFormat.StrictComparisonDropsASecond` | BarkTracker/bin/BarkTracker.py:44-45 | As written, 61 s decomposes to "1 minute" (60 s) and 60 s to "60 seconds". With `>=` these are "1 minute 1 second" and "1 minute" |

## Left out

- Audio capture and loudness estimation (pyaudio, numpy, `analyse.loudness`). The loudness is an input to each step.
- The feedback device calls `soundbox.reward`, `warn_short` and `warn_long`. They are foreign hardware calls; each step returns the `Action` instead.
- Mail composition and delivery (`send_email`, MIME headers, SMTP) and the `multiprocessing.Process` fork. These are network I/O and concurrency. The model records only which `Notice` was decided.
- Message texts built with `strftime`, and all `print` logging.
- Signal registration, the printed per-session details, and `sys.exit` in the interrupt handler. Only the count, the dictionary and the total are modelled.
- The `debug` flag and the user configuration other than the thresholds. These are constants here.
- The wall clock is a parameter, `now`.
- BarkSessions.Next: `last_bark` is set to the reading time `now`. The script reads the clock a second time at line 208, which can be slightly later.
- DurationFormat.TotalSeconds: works on exact microseconds. `total_seconds()` goes through a float, whose rounding for very large durations is not modelled.

## Findings

| source | as written | input that shows it | evidently intended | confidence | as-written member | corrected member |
|---|---|---|---|---|---|---|
| BarkTracker/bin/BarkTracker.py:44 | `if seconds > period_seconds` uses a unit only when the remainder strictly exceeds its length | 61 s renders "1 minute", dropping a second; 60 s renders "60 seconds"; 1 s renders "" | `>=`, giving "1 minute 1 second", "1 minute" and "1 second", with the parts adding up to the input | high; not executed | `DurationFormat.StrictComparisonDropsASecond` | `DurationFormat.ExactSum` |

`TimedeltaFormat` models the code as written. No other part of the model uses
the rendered text.

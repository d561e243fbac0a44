# Agent tool stubs, modelled in Dafny

The repository wires language-model agents (LangChain, CrewAI) to a handful of
"action" tools. The only logic it owns is in `tools_modulo.py`: four stub tools
that take strings and always answer with a string observation, never raising.

- `send_email_function` rejects a recipient without `@`.
- `create_calendar_event_function` parses start and end with
  `datetime.strptime(..., '%Y-%m-%d %H:%M')`. It reports a format error first,
  then an ordering error when the start is not strictly earlier than the end.
  Otherwise it confirms the event.
- `check_calendar_availability_function` runs the same validation. It then
  splits the attendees on `,`, strips every piece and drops the blank ones. It
  draws once per attendee and names the unavailable attendees, or says that
  everybody is available.
- `post_slack_message_function` rejects a channel that is blank once stripped.

The project has four modules:

- `Wrappers` (`wrappers.dfy`): `Option`.
- `PyText` (`py_text.dfy`): the parts of Python's `str` the tools use.
  - Python's whitespace class, shared by `str.isspace`, `str.strip` and the
    regular-expression class `\s`.
  - `strip()`, `split(',')` and `', '.join(...)`.
- `DateTimes` (`date_times.dfy`): `strptime` with the layout
  `'%Y-%m-%d %H:%M'`.
  - Text is parsed as CPython's regular expression for that layout reads it,
    then checked as `datetime` checks it: year 1..9999 and the day within its
    month, leap years included.
  - Python's comparison of datetimes is proved to be the order of elapsed
    minutes.
- `Tools` (`tools.dfy`): the four tools.
  - Each answer is built with its exact Portuguese text.
  - `Classify` reads the failure kind back from an answer. The contracts use
    it to say which inputs fail, with which error, and with what precedence.

The random draw `random.random() < 0.2` becomes a parameter `draw: nat -> bool`.
`draw(i)` says whether the i-th attendee is unavailable. Once the draw is fixed,
the answer is a function of the inputs.

## Model

| member | source | states |
|---|---|---|
| Tools.SendEmail | tools_modulo.py:10-26 | No contract of its own; `Tools.SendEmailOutcome` states what it answers. |
| Tools.SendEmailOutcome | tools_modulo.py:24-26 | The answer is a failure, namely an invalid address carrying the recipient verbatim, exactly when the recipient has no `@`. Otherwise it is the success text naming subject and recipient. |
| Tools.CheckInterval | tools_modulo.py:51-57 | The validation of event creation, and the same one as the availability check's at tools_modulo.py:73-79. Bad format exactly when some time does not parse. Ordered exactly when both parse and the start is earlier than the end in elapsed minutes. Otherwise the parsed start and end are returned. |
| Tools.CreateCalendarEvent | tools_modulo.py:30-59 | No contract of its own; `Tools.CreateCalendarEventOutcome`, `Tools.CreateCalendarEventClassified` and `Tools.CreateCalendarEventErrorIgnoresDetails` state what it answers. |
| Tools.ScheduledText | tools_modulo.py:59 | No contract of its own; `Tools.ScheduledTextIsNoError` states that it is never a failure. |
| Tools.CreateCalendarEventOutcome | tools_modulo.py:51-59 | Unparsable start or end gives the format error. Both parsing with the start not strictly earlier, equal times included, gives the ordering error. Otherwise the confirmation holds title, start, end and attendees verbatim. |
| Tools.CreateCalendarEventClassified | tools_modulo.py:51-59 | The failure read back from the answer is the format error if either time fails to parse, else the ordering error if the interval is not strictly increasing, else none. |
| Tools.CreateCalendarEventErrorIgnoresDetails | tools_modulo.py:54-57 | A rejected event gives the same answer whatever its title, attendees and description. |
| Tools.ScheduledTextIsNoError | tools_modulo.py:59 | No confirmation text is ever read as a failure. |
| Tools.NonBlankStripped | tools_modulo.py:82 | Every name the comprehension keeps is non-empty and has no whitespace at either end. |
| Tools.AttendeeList | tools_modulo.py:82 | Every attendee in the list is non-empty, has no whitespace at either end and contains no comma. |
| Tools.NonBlankStrippedAppend | tools_modulo.py:82 | Strip-and-drop-blanks works piece by piece, so it keeps the order of the pieces and keeps duplicates. |
| Tools.NonBlankStrippedLacks | tools_modulo.py:82 | Stripping pieces that lack a character gives names that lack it. |
| Tools.AttendeeListAround | tools_modulo.py:82 | A comma splits the attendee list into the lists of the two sides, in order. |
| Tools.AttendeeListOfPiece | tools_modulo.py:82 | Text without a comma, padded with whitespace in front, gives its stripped content as one attendee, or nobody when it is blank. |
| Tools.AttendeeListOfPaddedJoin | tools_modulo.py:82 | Names in attendee form, joined with `", "` after leading whitespace, are read back as the same names. |
| Tools.AttendeeListOfJoin | tools_modulo.py:82 | Names in attendee form, joined with `", "`, are read back as the same names, in order and with duplicates. |
| Tools.Unavailable | tools_modulo.py:83-86 | The unavailable attendees are at most as many as the attendees, and each of them is an attendee. `Tools.UnavailableAtFired` states exactly which. |
| Tools.Fired | tools_modulo.py:84-85 | The attendee positions whose draw fires, strictly increasing, each below the number of attendees, and containing a position exactly when its draw fires. |
| Tools.UnavailableAtFired | tools_modulo.py:83-86 | The unavailable list is the attendees at the fired positions, in attendee order. So it is an order-preserving subsequence of the attendee list. |
| Tools.AllAvailableIffNoDrawFires | tools_modulo.py:83-88 | Nobody is unavailable exactly when no attendee's draw fires. |
| Tools.NoDrawNoneUnavailable | tools_modulo.py:83-86 | With a draw that never fires, the unavailable list is empty. |
| Tools.AlwaysDrawAllUnavailable | tools_modulo.py:83-86 | With a draw that always fires, the unavailable list is the whole attendee list. |
| Tools.CollectUnavailable | tools_modulo.py:83-86 | The loop appends attendee i exactly when draw i fires. Its result is the order-preserving filter `Unavailable`. |
| Tools.CheckCalendarAvailability | tools_modulo.py:73-91 | The same errors, with the same precedence, as event creation, before any attendee processing. On a valid interval, the availability text for the attendees the draw marks unavailable. |
| Tools.AvailabilityText | tools_modulo.py:88-91 | No contract of its own; `Tools.UnavailableNamesReadBack` and `Tools.AvailabilityTextIsNoError` state what it answers. |
| Tools.UnavailableNamesReadBack | tools_modulo.py:82-89 | The names listed in the answer, read back with the attendee tokenizer, are exactly the unavailable attendees. |
| Tools.AvailabilityTextIsNoError | tools_modulo.py:88-91 | Neither availability answer is ever read as a failure. |
| Tools.PostSlackMessage | tools_modulo.py:93-104 | No contract of its own; `Tools.PostSlackMessageOutcome` states what it answers. |
| Tools.PostSlackMessageOutcome | tools_modulo.py:102-104 | A channel that is all whitespace, the empty channel included, gives the empty-channel error. Any other channel gives the success text with `#` and the channel as given. |
| DateTimes.IsLeapYear | tools_modulo.py:52-53 | No contract of its own: the Gregorian leap-year rule that `datetime` applies to 29 February. |
| DateTimes.DaysInMonth | tools_modulo.py:52-53 | A month has 28 to 31 days, and 29 exactly for February of a leap year. |
| DateTimes.Valid | tools_modulo.py:52-53 | No contract of its own: the range checks `datetime` makes (year 1 to 9999, month, day within its month, hour, minute). |
| DateTimes.Before | tools_modulo.py:54 | No contract of its own; `DateTimes.BeforeIsElapsedTime` states that it is the order of elapsed time. |
| DateTimes.Parse | tools_modulo.py:52-53 | Every datetime `strptime` returns is one Python can represent. |
| DateTimes.ParseFields | tools_modulo.py:52-53 | Text in the layout `YYYY-M-D<w>H:M` parses exactly when its field values form a representable datetime, and then to that datetime. Month, hour and minute take one or two digits. The day takes one or two digits, or a space and one digit; `w` is any non-empty run of whitespace. Out-of-range fields, 29 February of a common year, day 31 of a 30-day month and year 0 are rejected. |
| DateTimes.ParseIsLayout | tools_modulo.py:52-53 | The converse as well: a text parses to a datetime exactly when it is in that layout and its fields denote that representable datetime. Any other text, such as one with `T` between date and time, a trailing space or the empty text, is a `ValueError`. |
| DateTimes.ParseFormat | tools_modulo.py:52-53 | Every representable datetime, written zero-padded, parses back to itself. |
| DateTimes.FormatParse | tools_modulo.py:52-53 | A zero-padded text that parses is given back by formatting what it parsed to. |
| DateTimes.BeforeIsElapsedTime | tools_modulo.py:54 | Python's lexicographic `<` on representable datetimes holds exactly when the first is fewer minutes after 0001-01-01 00:00 than the second. |
| PyText.IsSpace | tools_modulo.py:102 | No contract of its own: Python's whitespace set, used by `strip()` here and at line 82, and by `\s+` in `strptime`. |
| PyText.Strip | tools_modulo.py:82 | `strip()` leaves no whitespace at either end. Its result is empty exactly when the text is all whitespace. |
| PyText.StripLacks | tools_modulo.py:82 | `strip()` introduces no character. |
| PyText.StripPadded | tools_modulo.py:82 | `strip()` removes whitespace padding around a text and nothing of the text. |
| PyText.Split | tools_modulo.py:82 | `split(sep)` gives at least one piece, and no piece contains the separator. |
| PyText.Join | tools_modulo.py:89 | No contract of its own; `PyText.JoinSplit` and `PyText.SplitJoin` state that it is the inverse of `Split`. |
| PyText.SplitAround | tools_modulo.py:82 | Splitting at one occurrence of the separator concatenates the splits of the two sides. |
| PyText.JoinSplit | tools_modulo.py:82 | Joining the pieces of a split with the separator gives back the text. |
| PyText.SplitJoin | tools_modulo.py:82 | Splitting a join of separator-free parts gives back the parts. |

## Left out

- The `print` banners of every tool (tools_modulo.py:16-20, 42-48, 67-71, 98-101) are console output and have no effect on the answers.
- The probability of `random.random() < 0.2` (tools_modulo.py:85) is not modelled. The draw is an arbitrary per-attendee oracle, so every property holds for every outcome of the draws.
- The `smtplib` and MIME imports (tools_modulo.py:2-4) are unused. No e-mail, calendar or Slack service is contacted.
- `body`, `description` and `message` affect only the printed banners. They are parameters that the answers ignore, and the default `description = ""` has no counterpart.
- `Parse` accepts only ASCII digits. Python's `\d` and `int()` in `strptime` also accept the other Unicode decimal digits.
- Python strings may hold lone surrogates, which Dafny's `char` cannot.
- The agent scripts (meu_primeiro_agente.py, meu_primeiro_agente_2.py, meu_primeiro_agente_3.py), the CrewAI configuration (agente_social_media.py) and the Chroma index builder (setup_chromadb.py) are not part of this model. They only configure foreign libraries and call network services.
- `query_knowledge_base_function` is not part of this model. meu_primeiro_agente_3.py:22 imports it, but none of the files defines it.
- The `strptime` model follows the regular expression of CPython 3.12. Other versions are not modelled.

# Pod terminator: a verified model of one reaper cycle

`terminator.py` runs a loop that lists pods and force-deletes every pod stuck in
the Terminating state for longer than a threshold. A pod is stuck when its
`deletionTimestamp` is older than `max_seconds`. Under username login, the loop
also renews its OAuth token once half of the token's validity has passed.

This project models one pass of that loop and the settings it depends on:

- **Calendar** (`calendar.dfy`): the proleptic Gregorian arithmetic of Python's
  `datetime`. It covers leap years, month lengths, the ordinal of a date, and
  the instant of a civil time, in seconds since 0001-01-01T00:00:00.
- **Timestamp** (`timestamp.dfy`): the deletion-timestamp parser.
  - `replace("Z", "")` removes every `Z` from the string.
  - `datetime.strptime(..., "%Y-%m-%dT%H:%M:%S")` is modelled as CPython
    compiles it:
    - one regular expression per directive, e.g. `%m` is `1[0-2]|0[1-9]|[1-9]`;
    - the literal `T` matches case-insensitively;
    - trailing text is refused;
    - then `datetime(...)` checks the date.
  - `Format` is the canonical `YYYY-MM-DDTHH:MM:SSZ` writer, used to state the
    round trip.
- **Reaper** (`reaper.dfy`): the per-pod decision.
  - A pod is terminating when its deletion timestamp is present and non-empty.
  - Its stamp is the parse of that timestamp.
  - It is overdue when its age is strictly greater than the threshold.
  - Each overdue pod gets one forced delete: `gracePeriodSeconds` 0 and
    `propagationPolicy` "Background".
  - `Sweep` specifies the pod loop over the listing, including the case where
    an unparsable timestamp raises out of `run()` and stops the cycle.
    `OverdueCommands` is an independent reference: the overdue pods' deletes, in
    listing order.
- **PodTerminator** (`terminator.dfy`):
  - the choice between credential login and the ambient configuration;
  - the `DRY_RUN` switch (`upper()` compared with `TRUE` and `YES`);
  - the half-life renewal rule;
  - a `Terminator` class, whose fields are the object's attributes:
    - its constructor;
    - `Configure`, the start-up assignments;
    - `RenewToken`, which is `_ocp_get_token`;
    - `SweepPods`, the `for pod in pod_list.items` loop, proved against `Sweep`;
    - `RunCycle`, the pod loop followed by the token check.

Everything the cycle takes from outside is a parameter:
- the listing;
- one `utcnow()` reading per listed pod, in microseconds since
  0001-01-01T00:00:00 UTC;
- the `utcnow()` reading of the token check;
- the issue instant and validity the login library reports for a renewed token.

All time arithmetic is exact integers: ages in microseconds, stamps in seconds.
- The overdue test `timediff_s > max_seconds` becomes
  `now - stamp * 10^6 > max_seconds * 10^6`.
- The renewal test `token_age > api_key_expires / 2` becomes
  `2 * token_age > api_key_expires * 10^6`.

The API server writes deletion timestamps in the fixed-width RFC 3339 form
`YYYY-MM-DDTHH:MM:SSZ`. The code's `strptime` is more lenient and also accepts:
- single-digit months, days, hours, minutes and seconds;
- a space-padded day;
- a lower-case `t`.

The model follows the code; `Timestamp.LenientDigitsAndSeparator` and
`Timestamp.LenientSpacePaddedDay` show such inputs being accepted.

## Model

| member | source | states |
|---|---|---|
| Calendar.DaysBeforeYearFormula | terminator.py:79-83 | The day count before a year (the sum of the lengths of the earlier years) equals Python's closed formula `y*365 + y//4 - y//100 + y//400` with `y = year - 1`, for every year from 1 on. |
| Calendar.ToSecondsNonNegative | terminator.py:79 | Every date `datetime` accepts lies at or after 0001-01-01T00:00:00. |
| Calendar.ToSecondsStrictlyIncreasing | terminator.py:83 | `now - deletion_timestamp` respects time order: a civil time strictly before another has a strictly smaller instant. |
| Calendar.ToSecondsInjective | terminator.py:83 | Two valid civil times with the same instant are the same civil time. |
| Timestamp.StripZKeeps | terminator.py:79 | After `replace("Z", "")` no `Z` is left, every other character is kept, and the string is never longer. |
| Timestamp.StripZAppend | terminator.py:79 | Removing `Z` from a concatenation removes it from each part. |
| Timestamp.StripZIdempotent | terminator.py:79 | Removing `Z` a second time changes nothing. |
| Timestamp.Strptime | terminator.py:79 | Whatever the parse accepts is a date `datetime` accepts: year 1..9999, a day that exists in its month, hour ≤ 23, minute and second ≤ 59 (no leap second). |
| Timestamp.StrptimeOfRender | terminator.py:79 | A string made of field texts joined by `-`, `-`, `T` or `t`, `:`, `:` (no text containing the separator after it) parses exactly when every text is a word of its directive's language and the date is valid. It then gives the date those texts denote. |
| Timestamp.StrptimeOnlyRendered | terminator.py:79 | Conversely, every accepted string is such a rendering of well-formed fields: no other separator, no missing field and no trailing text is accepted. |
| Timestamp.ParseTimestampOfRender | terminator.py:79 | A string whose `Z`-free rest renders well-formed fields of a valid date parses to that date's instant. |
| Timestamp.ParseTimestampExactly | terminator.py:79 | Both directions: a deletion timestamp parses to instant `n` exactly when, with its `Z`s removed, it renders well-formed fields of a valid date whose instant is `n`. |
| Timestamp.CanonicalFieldsMean | terminator.py:79 | The zero-padded fields written for a valid date are well-formed, contain no separator and no `Z`, and denote that date. |
| Timestamp.ParseFormatRoundTrip | terminator.py:79 | Round trip: writing a valid date as `YYYY-MM-DDTHH:MM:SSZ` and parsing it gives back the same date and its instant. |
| Timestamp.ParseRejectsTrailingText | terminator.py:79 | Whenever the text left after removing every `Z` is a valid canonical date and time followed by anything more, the parse fails: the extra text is unconverted. |
| Timestamp.ParseRejectsFractionAndOffset | terminator.py:79 | Fractional seconds or a numeric offset after the seconds (`…:05.123Z`, `…:05+00:00`), with or without a closing `Z`, make the parse fail, and so does any text after the closing `Z` that is not all `Z`. |
| Timestamp.LenientDigitsAndSeparator | terminator.py:79 | `2024-1-5t3:4:5` is accepted as 2024-01-05T03:04:05: single-digit fields and a lower-case separator are allowed. |
| Timestamp.LenientSpacePaddedDay | terminator.py:79 | `2024-1- 5T3:4:5` is accepted too: the day may be padded with a space. |
| Reaper.NotTerminatingSkipped | terminator.py:70-71 | A pod whose deletion timestamp is absent or empty gets no stamp: its timestamp is not parsed, and it is never overdue. |
| Reaper.JudgeThreshold | terminator.py:83-95 | A terminating pod with a parsed stamp is overdue exactly when its age is strictly greater than `max_seconds`. An age equal to the threshold, or a deletion stamped in the future under a non-negative threshold, leaves it alone. |
| Reaper.FirstMalformed | terminator.py:69-79 | Gives the position of the first pod whose timestamp does not parse, or none: every earlier pod's timestamp parses or is absent. |
| Reaper.SweepCharacterized | terminator.py:69-100 | The pod loop runs to the end exactly when no terminating pod's timestamp fails to parse. It then issued the reference commands, one forced delete per overdue pod in listing order (none in dry-run mode). Otherwise it stops at the first failing pod, having issued the commands for the overdue pods before it. |
| Reaper.SweepStopsAtAbort | terminator.py:69-79 | Once a timestamp has failed to parse, later pods change nothing: no further deletes happen. |
| Reaper.OverdueCommandsSound | terminator.py:95-100 | Every reference command is the forced delete of an overdue pod of the listing, by that pod's own namespace and name. |
| Reaper.OverdueCommandsComplete | terminator.py:95-100 | Every overdue pod has its forced delete among the reference commands. |
| Reaper.OverdueCommandsCount | terminator.py:95-100 | The reference issues exactly as many commands as there are overdue pods: one each. |
| Reaper.SweepDeletesAreOverdue | terminator.py:95-100 | However the loop ends, in dry-run mode it issued no delete, and every delete it issued is the forced delete of a pod judged overdue. |
| Reaper.SweepDeletesOnlyOverdue | terminator.py:69-100 | Over a real listing, however the loop ends, every delete carries zero grace and background propagation. It targets, by namespace and name, a terminating pod whose timestamp parsed and whose age is strictly greater than the threshold. In dry-run mode there are none. |
| Reaper.StampOfFormatted | terminator.py:70-79 | A pod whose deletion timestamp is the canonical writing of a date is stamped with that date's instant. |
| Reaper.ExampleStamps | terminator.py:70-79 | The example listing reads as two stamps, 10 seconds apart, and one pod that is not terminating. |
| Reaper.ExampleSweep | terminator.py:83-100 | With a 10-second threshold and a clock 15 seconds after the first stamp, only the first pod is force-deleted, and in dry-run mode none. |
| PodTerminator.ChooseClient | terminator.py:55-60 | Credential login exactly when a username is set; the ambient configuration exactly when it is empty. |
| PodTerminator.Upper | terminator.py:131 | `upper()` keeps the length and maps each character on its own: ASCII lower-case letters to upper case, `ſ` to `S`. |
| PodTerminator.DryRunSpellings | terminator.py:131-134 | Dry-run is on exactly for `true` and `yes` in any mix of cases, where `ſ` also counts as an `s`. Every other value leaves it off. |
| PodTerminator.DryRunDefaultOff | terminator.py:122 | The default setting `False` leaves dry-run off. |
| PodTerminator.RenewalAtHalfLife | terminator.py:106-107 | No renewal at exactly half the validity; renewal one microsecond later. |
| PodTerminator.ReadStamp | terminator.py:70-79 | For the pod at a given position of the listing: a pod without a deletion timestamp is skipped before any parsing; otherwise its timestamp is parsed, and the outcome is that position's entry of `StampsOf`, the per-pod stamps the sweep is specified over. |
| PodTerminator.Terminator.constructor | terminator.py:26-36 | The default configuration: dry-run off, no namespace, cycle delay 10, threshold 10. The client is the one `_get_client` picks. Under username login, the first token's issue instant and validity are recorded. |
| PodTerminator.Terminator.Configure | terminator.py:127-134 | Sets the threshold, namespace and cycle delay as given, and sets dry-run exactly when the setting upper-cases to `TRUE` or `YES`. |
| PodTerminator.Terminator.RenewToken | terminator.py:47-50 | A renewal records the new token's issue instant and validity. |
| PodTerminator.Terminator.SweepPods | terminator.py:69-100 | The loop over the listing produces exactly the specified sweep: the same deletes in the same order, and the same stopping point when a timestamp fails to parse. |
| PodTerminator.Terminator.RunCycle | terminator.py:66-111 | The pod loop as specified. The token is renewed exactly when the loop finished, username login is active, and twice the token's age exceeds its validity. A renewal records the new issue instant and validity. Otherwise, and always without a username, the token state is unchanged. |

## Left out

- The Kubernetes and OpenShift clients are not modelled: `DynamicClient`, `OCPLoginConfiguration`, the `get_token()` handshake and the TLS settings (terminator.py:7-13, 36-45, 49, 60, 63). These are foreign library and network calls. The client choice is modelled as the `ClientSource` value only.
- The listing call `v1_pods.get` becomes the input sequence. The delete calls `v1_pods.delete` become the output sequence of delete commands. Exceptions raised by these calls are not modelled.
- The endless `while True` loop and `time.sleep(self.cycle_delay)` are not modelled (terminator.py:65, 111). One cycle is modelled.
- Logging is not modelled, including `make_logger` and every `logger` call. This covers the reference to the `__main__`-only global `MAX_SECONDS` in the log line at terminator.py:94, which would raise `NameError` when the class is used outside `__main__`.
- Reading the environment and converting it with `int()` is not modelled (terminator.py:116-129). `Configure` takes the threshold and delay as integers, and a non-numeric value failing `int()` is not modelled.
- The grace-period formulas that are commented out are not modelled (terminator.py:75-76, 78, 80, 84-85, 88-92).
- Only the pod fields the loop reads are kept: namespace, name and deletion timestamp.
- Reaper.JudgeThreshold: the age is compared in exact integer microseconds. Python compares the float `total_seconds()`, which rounds. Rounding can hide an excess only when it is at most half a float step of the threshold, so the two can disagree only for thresholds of 2^34 seconds (about 540 years) or more.
- PodTerminator.Terminator.RunCycle: the renewal test `2 * age > expires * 10^6` is exact. Python compares the float `total_seconds()` with the float `api_key_expires / 2`, which can round only for validities far beyond any real token lifetime.
- PodTerminator.Terminator.RunCycle: the new token's issue instant and validity are parameters. They are what `utcnow()` and the login library report after `get_token()`, which is not part of this model.
- Timestamp.Strptime: `\d` in Python 3 also matches non-ASCII decimal digits, and those are not modelled. Such timestamps are rejected here, whereas Python would read them.
- PodTerminator.Upper: models `str.upper()` only for ASCII letters and `ſ` (U+017F); other characters map to themselves. The other characters whose upper case contains a letter of `TRUE` or `YES` expand to several characters (`ß` to `SS`, `ﬆ` to `ST`, `ẗ` to `T` with a combining diaeresis), so they can never make up those exact words, and `DryRunEnabled` agrees with the source for every setting.

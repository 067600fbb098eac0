# Certificate-expiry watchlist, modelled in Dafny

This is a model of the logic inside a small certificate-expiry watchlist.
- A web app (`app.py`) keeps a table of watched endpoints in `domains.csv`. Each row holds three fields: `Sub Domains`, `SSL Expiry Date` and `days_until_expiry`.
- Users add and delete endpoints through HTML forms.
- A background task refreshes every row once a day.
- A standalone script (`ssl_1.py`) rewrites the expiry column of the same file.

The model covers these parts:

- **Reading a watched key** (`Inspector.ParseKey`, `ExpiryScript.ScriptEndpoint`). A key is `host` or `host:port`; the port defaults to 443. The key is stripped with Python's Unicode whitespace set. A key with more than one colon makes the tuple unpack raise. The port goes through `int()` (`Text.PyInt`). `int()` skips a smaller whitespace set than `strip()`: the separators U+001C to U+001F make it raise.
- **The DNS gate** (`Inspector.CheckARecord`). It resolves only the text before the first colon.
- **Certificate inspection** (`Inspector.GetSslExpiry`, `ExpiryScript.ScriptExpiry`):
  - The certificate's `notAfter` text (the validity field of RFC 5280 section 4.1.2.5, as OpenSSL prints it) is read by `strptime(..., "%b %d %H:%M:%S %Y %Z")`.
  - The result is written back as `YYYY-MM-DD`.
  - Failures become text that starts with `Error`.
  - The `strptime` directives are modelled with the alternatives Python's `_strptime` regular expressions give them.
- **The countdown** (`Countdown.DaysUntil`):
  - Dates are day numbers, as in Python's `date.toordinal()`.
  - "Now" is a day and the microseconds past midnight.
  - `(expiry - now).days` is the floor of the difference, in whole days.
- **The table** (`Watchlist`):
  - the duplicate check;
  - delete as a filter;
  - add with its gates;
  - one pass of the refresh loop;
  - the countdowns recomputed for display;
  - the script's column update (`ExpiryScript.UpdateExpiryColumn`).
  The table is the `rows` field of class `Watchlist.Watchlist`.

The network and the clock are parameters:
- A `Resolver` (`string -> bool`) stands for the DNS lookup.
- A `Connector` (`(string, int) -> Handshake`) stands for connect, handshake and `getpeercert`.
- A `Clock` is passed per call. Refresh and display read it once per row (`nat -> Clock`), as `datetime.now()` is called once per row.

Where the code and the behaviour a reader would expect from its docstrings (for example "Calculates the number of days until the SSL certificate expires", app.py:68) part ways, the model follows the code:

- **Expiry today counts down to -1, not 0.** `datetime.now()` carries the time of day, so a certificate expiring today gives -1 unless the clock reads exactly midnight. That is the value an error text gets (`Countdown.ExpiringTodayLooksLikeError`).
- **Negative differences round down.** They are not truncated toward zero.
- **Only an empty form value is rejected.** A whitespace-only value is stripped to the empty key and goes on to the DNS gate.
- **A key with two or more colons aborts the whole refresh pass.** The refresh isolates network failures per row, but such a key raises, so nothing is saved (`Watchlist.RefreshRaises`). The web app's inspection also raises for such keys rather than returning its error text.
- **No lock, no atomic save.** The code takes no lock and does not save atomically, so the model has neither.
- **No DNS gate on refresh.** The refresh pass does not consult the DNS gate.

## Model

| member | source | states |
|---|---|---|
| Text.Strip | app.py:52 | the stripped key has no whitespace at either end, is no longer than the input, and is the input itself when that is already stripped |
| Text.StripIsSlice | app.py:52 | `strip()` removes only whitespace and only at the two ends: the result is a contiguous slice of the input |
| Text.StripIdempotent | app.py:137 | stripping an already stripped key changes nothing |
| Text.Split | app.py:53 | `split(':')` yields one more piece than the key has colons, and no piece contains a colon |
| Text.JoinSplit | app.py:53 | joining the pieces of a split with the separator gives back the original text |
| Text.SplitJoin | app.py:53 | splitting a join of separator-free pieces gives back the pieces |
| Text.SplitAtOnly | app.py:53 | a key with exactly one colon splits into the text before it and the text after it |
| Text.BeforeFirst | app.py:44 | `split(':')[0]` has no colon, is a prefix of the key, is the whole key when there is no colon and otherwise stops at a colon |
| Text.NextFieldCons | app.py:60 | a token followed by a whitespace run and more text is read as that token, with the text after the run left over (`\s+` between format fields) |
| Text.NextFieldLast | app.py:60 | a lone token is the last field, with nothing left over |
| Text.StartsWith | app.py:69 | `startswith` holds exactly when the text is the prefix followed by some rest |
| Text.IntSpaceIsSpace | app.py:57 | the whitespace `int()` skips is the `isspace()` set less the separators U+001C to U+001F |
| Text.IntStripIsSlice | app.py:57 | what `int()` reads is a contiguous slice of its input, with only the whitespace it skips around it |
| Text.PyInt | app.py:57 | `int()` accepts only an optional sign followed by digits and underscores that end in a digit, with the whitespace it skips around them; a negative result needs a minus sign |
| Text.PyIntOfDigits | app.py:57 | `int()` of a run of at most 4300 ASCII digits, with whitespace `int()` skips around it, is its decimal value |
| Text.PyIntOfDigitRun | app.py:57 | `int()` of a bare run of at most 4300 ASCII digits is its decimal value |
| Text.PyIntRejects | app.py:57 | `int()` raises when the text between the whitespace it skips holds a character that is not a digit, an underscore or a sign |
| Text.PyIntRejectsSeparator | app.py:57 | `int()` raises for any string holding one of U+001C to U+001F, even at an end, where `strip()` would have removed it |
| Text.PyIntOfBlank | app.py:57 | `int()` raises for an empty or all-whitespace port |
| Text.PyIntTooLong | app.py:57 | `int()` raises for a run of more than 4300 digits |
| Calendar.Ordinal | app.py:74 | `toordinal()` numbers 1 January of year 1 as day 1 and no other date so; each date's number lies within the block of days of its year |
| Calendar.OrdinalIncreasing | app.py:74 | an earlier calendar date has a smaller `toordinal()` |
| Calendar.OrdinalOrder | app.py:74 | ordinals order dates exactly as the calendar does, and two dates share an ordinal only when they are equal |
| Calendar.OrdinalNextDay | app.py:74 | the day after a date has the next ordinal |
| Calendar.FormatIso | app.py:62 | `strftime("%Y-%m-%d")` is ten characters: four digits, a dash, two digits, a dash, two digits |
| Calendar.NumberField | app.py:72 | a numeric `strptime` field is one or two ASCII digits, and its value lies within the directive's range |
| Calendar.DayField | app.py:72 | a `%d` field gives a day from 1 to 31 |
| Calendar.ParseIso | app.py:72 | `strptime(s, "%Y-%m-%d")` only yields dates the `date` constructor accepts |
| Calendar.ParseFormatIso | app.py:72 | parsing what `strftime("%Y-%m-%d")` wrote gives back the same date |
| Calendar.FormatIsIsoDate | app.py:62 | every formatted date is in canonical form: it parses to a date whose formatting is the same text |
| NotAfter.MonthOfAbbreviation | app.py:60 | `%b` gives a month number from 1 to 12 |
| NotAfter.IsZoneName | app.py:60 | a field `%Z` accepts is three characters with no whitespace |
| NotAfter.IsTimeOfDay | app.py:60 | a field `%H:%M:%S` accepts holds exactly two colons, only digits besides them, and 5 to 8 characters |
| NotAfter.ParseNotAfter | app.py:60 | `strptime(notAfter, "%b %d %H:%M:%S %Y %Z")` only yields dates the `datetime` constructor accepts |
| NotAfter.MonthRoundTrip | app.py:60 | every month's C-locale abbreviation is read back as that month |
| NotAfter.TimeRoundTrip | app.py:60 | every valid time of day printed as `HH:MM:SS` matches `%H:%M:%S` |
| NotAfter.DayRoundTrip | app.py:60 | the day of the month as OpenSSL prints it matches `%d` with its value |
| NotAfter.GmtIsZoneName | app.py:60 | the zone `GMT` that OpenSSL prints matches `%Z` |
| NotAfter.FiveFields | app.py:60 | five tokens separated by four non-empty whitespace runs, one at each space of the format, are read as those five fields, with nothing left over |
| NotAfter.RenderFields | app.py:60 | the `notAfter` text for any date and time is read as month, day, time, year and `GMT` fields |
| NotAfter.RenderEnds | app.py:60 | the `notAfter` text has no whitespace at either end |
| NotAfter.ParseOfFields | app.py:60 | five fields that each match their directive and name a valid date are parsed to that date |
| NotAfter.ParseRenderNotAfter | app.py:60 | the `notAfter` text rendered for any valid date and time parses back to that date; from year 1000 on, with whole seconds, that is the text OpenSSL prints |
| Countdown.DaysUntil | app.py:67-75 | an `Error`-prefixed value gives -1; otherwise it raises exactly when the value is not a date `strptime` accepts, and for a date the result is the expiry ordinal minus today's ordinal, less one when the clock is past midnight |
| Countdown.FloorDays | app.py:74-75 | `timedelta.days` of whole days less part of a day is the day count less one, or the day count at exactly midnight |
| Countdown.IsoDateIsNotError | app.py:69 | a canonical date string never starts with `Error` |
| Countdown.WellFormedNeverRaises | app.py:69-72 | both kinds of stored value, error text and canonical date, are read without raising; an error text reads as -1 |
| Countdown.DaysUntilDate | app.py:72-75 | the countdown of a formatted date is the difference of ordinals, less one past midnight |
| Countdown.PastDateNegative | app.py:74-75 | a certificate that expired before today counts down to a negative number |
| Countdown.FutureDateNotNegative | app.py:74-75 | a certificate expiring after today never counts down below zero |
| Countdown.ExpiringTodayLooksLikeError | app.py:69-75 | an expiry of today gives -1 (0 only at exactly midnight), the same value as an error text |
| Countdown.DaysUntilMonotonic | app.py:74-75 | a later expiry date always counts down to more days |
| Inspector.ParseKey | app.py:52-53 | raises exactly when the stripped key has two or more colons; with none, the host is the stripped key and the port is absent; with one, host and port text are colon-free and joined by a colon give back the stripped key |
| Inspector.CheckARecord | app.py:41-48 | the DNS gate asks the resolver about the text before the first colon, or about the whole key when it has no colon |
| Inspector.BeforeFirstIsPrefix | app.py:44 | `split(':')[0]` is exactly the key up to its first colon |
| Inspector.PortNumber | app.py:53-57 | a key without a port connects to 443; a port written as a run of at most 4300 digits is its decimal value |
| Inspector.GetSslExpiry | app.py:50-65 | raises exactly when the stripped key has two or more colons. Otherwise it returns the fixed error text when `int()` rejects the port, when connecting or the handshake fails, and when `strptime` rejects the `notAfter` text. When `strptime` reads a date, it returns that date as `YYYY-MM-DD`. Every value returned is the error text or a canonical date |
| Inspector.SentinelIsError | app.py:65 | the fixed error text starts with `Error` |
| Inspector.GetSslExpiryWellFormed | app.py:50-65 | every returned value is well formed, and the countdown reads it without raising |
| Inspector.GetSslExpiryOfCert | app.py:57-62 | when the endpoint presents a certificate, the stored value is that certificate's expiry date, and `strptime("%Y-%m-%d")` reads it back as that date |
| Inspector.ParseKeyOfEndpoint | app.py:53 | a stripped `host:port` with colon-free parts is read back as that host and port |
| Inspector.BadPortIsError | app.py:57 | a port text `int()` rejects yields the fixed error text, whatever the network does |
| Inspector.GetSslExpiryStripped | app.py:52 | stripping the key before inspection changes nothing |
| Inspector.BeforeFirstOfKey | app.py:44 | the text before the first colon of `host:port` with a colon-free host is that host |
| Inspector.GateOfKey | app.py:41-45 | for a `host:rest` key with a colon-free host, the DNS gate asks the resolver about that host |
| Inspector.GateSeesEndpointHost | app.py:44 | for any stripped key the inspection accepts, the DNS gate resolves the same host the connection goes to |
| Watchlist.DomainExists | app.py:37-39 | true exactly when some row's key is equal, character for character, to the given text |
| Watchlist.Remove | app.py:187 | the filtered table holds exactly the rows whose key differs from the given text, and is no longer than the table |
| Watchlist.RemoveAppend | app.py:187 | the filter distributes over concatenation, so the kept rows keep their relative order |
| Watchlist.RemoveAbsent | app.py:187 | deleting a key that is not in the table leaves the table unchanged |
| Watchlist.RemoveIdempotent | app.py:187 | deleting twice is the same as deleting once |
| Watchlist.RemoveKeepsUnique | app.py:187 | deleting keeps keys unique |
| Watchlist.AddThenRemove | app.py:164 | deleting the key of a row just appended to a table without that key restores the table |
| Watchlist.AppendKeepsUnique | app.py:148-164 | appending a row whose key is not present keeps keys unique |
| Watchlist.AppendKeepsWellFormed | app.py:155-164 | appending a row with a well-formed expiry keeps every stored expiry well formed |
| Watchlist.RefreshRow | app.py:83-87 | one row of the refresh: raises exactly when its key has two or more colons. Otherwise the key stays, the expiry stored is what `get_ssl_expiry` returned for the key (so it is well formed), and the countdown stored is the countdown of that expiry |
| Watchlist.MapRows | app.py:82-88 | a pass over the rows raises exactly when some row raises; otherwise the new table has the same length and row `i` is the step's result for row `i` |
| Watchlist.MapRowsExtend | app.py:82-88 | extending a pass that has not raised by one row either raises on the whole table or appends that row's result |
| Watchlist.RefreshAll | app.py:82-88 | a completed pass has one row per stored row, and row `i` is the refresh of stored row `i` with the clock reading at that row |
| Watchlist.RefreshRaises | app.py:80-91 | a refresh pass is abandoned exactly when some key has two or more colons |
| Watchlist.RefreshKeepsKeys | app.py:82-88 | a completed refresh keeps every key and its position, and keeps keys unique. Each row stores what `get_ssl_expiry` returned for its key, and that value's countdown at the row's clock reading. Every stored expiry is well formed |
| Watchlist.RecountRow | app.py:114 | a displayed row is the stored row with its countdown recomputed; it raises exactly when the countdown raises |
| Watchlist.Recount | app.py:113-114 | the display raises exactly when some stored expiry makes the countdown raise. Otherwise row `i` is stored row `i` with only its countdown replaced, by the countdown of its expiry at that row's clock reading |
| Watchlist.RecountWellFormed | app.py:113-114 | a table of well-formed expiries always displays |
| Watchlist.RecountAfterRefresh | app.py:113-114 | a refreshed table, displayed with the same clock readings, shows exactly the stored countdowns |
| Watchlist.Watchlist.constructor | app.py:27-31 | the table starts as the stored rows |
| Watchlist.Watchlist.Add | app.py:131-166 | cases in order: empty input, no DNS record, duplicate stripped key, raising inspection; each leaves the table unchanged. Otherwise one row is appended at the end, with the stripped key, the inspection result and that result's countdown. Unique keys and well-formed expiries are preserved |
| Watchlist.Watchlist.Delete | app.py:186-188 | the table becomes the filter of the old table by the raw form value; the key is then absent; uniqueness and well-formedness are kept |
| Watchlist.Watchlist.Refresh | app.py:81-91 | completes exactly when the whole pass does not raise, and then stores the refreshed table; otherwise the table is unchanged |
| Watchlist.Watchlist.Display | app.py:109-126 | loads exactly when no stored expiry makes the countdown raise, and then shows the recomputed table; otherwise it shows an empty list |
| ExpiryScript.ScriptEndpoint | ssl_1.py:14-19 | raises exactly for two or more colons or a port `int()` rejects; with no colon, the host is the stripped key and the port is 443; with one, the host and a port text `int()` reads as the port make up the stripped key |
| ExpiryScript.StrptimeMessage | ssl_1.py:26-29 | the message for a rejected `notAfter` quotes the rejected text in full |
| ExpiryScript.ErrorText | ssl_1.py:29 | every failure text starts with `Error` |
| ExpiryScript.ScriptExpiry | ssl_1.py:13-29 | raises exactly when the script's endpoint parse raises. A failed connect or handshake returns `Error: ` and the exception text. A `notAfter` that `strptime` rejects returns `Error: ` and `strptime`'s message. A date `strptime` reads is returned as `YYYY-MM-DD`. Every value is an `Error`-prefixed text or a canonical date |
| ExpiryScript.ScriptRaisesWhereAppRaises | ssl_1.py:15-17 | every key on which the web app's inspection raises makes the script raise too |
| ExpiryScript.ScriptAgreesWithApp | ssl_1.py:21-29 | where the script does not raise, the web app does not either; both store the same date or both store error texts, and the countdown reads them alike |
| ExpiryScript.IsoDateErrorExclusive | ssl_1.py:27-29 | an `Error`-prefixed value is never a canonical date |
| ExpiryScript.ColumnRow | ssl_1.py:32 | a row of the updated column is the old row with only its `SSL Expiry Date` replaced by the script's inspection result |
| ExpiryScript.UpdatedColumn | ssl_1.py:32 | the update raises exactly when the script raises on some row's key. Otherwise row `i` is stored row `i` with only its `SSL Expiry Date` replaced by the script's result for its key |
| ExpiryScript.UpdatedColumnKeepsRows | ssl_1.py:32 | the column update keeps the number and order of rows, every key and every countdown, and stores only well-formed expiries |
| ExpiryScript.UpdatedColumnRaises | ssl_1.py:32 | the column update raises exactly when some key has two or more colons or a port `int()` rejects |
| ExpiryScript.UpdateExpiryColumn | ssl_1.py:32-35 | completes exactly when no row raises, and then stores the updated table; otherwise the table is unchanged |

## Left out

- DNS resolution, TCP connect, the TLS handshake and `getpeercert` are not modelled. They are network I/O, so they are the `Resolver` and `Connector` parameters. The connector receives whatever integer `int()` produced: its 5-second timeout, the trust store, SNI and the socket's rejection of ports outside 0-65535 are its business.
- Reading and writing `domains.csv` through pandas is not modelled. It is file I/O, replaced by the `rows` field. Beyond that, the model does not capture:
  - a missing file giving an empty table;
  - cells that are not strings (an empty cell read as NaN);
  - column type conversions;
  - exceptions from the file itself.
- The FastAPI routes, the Jinja templates and the message texts are presentation. The model keeps only which page outcome each route reaches. The form validation FastAPI may apply to an empty field before the handler runs is not modelled. The `index` and `domain_status` routes are not part of this model.
- The `asyncio` task and the 24-hour sleep are scheduling. `Watchlist.Watchlist.Refresh` is one iteration of the loop body.
- Logging and `print` are not modelled.
- Concurrency is not modelled: the background refresh interleaving with the routes. The code takes no lock, and a lost update between two read-modify-write cycles is outside this sequential model.
- `datetime.now()` is the `Clock` parameter. `pytz.utc.localize` does not change the formatted date and is left out.
- Python accepts non-ASCII decimal digits in `\d` and `int()`, and applies Unicode case folding under `re.IGNORECASE` (for example `ſ` matches `s`). The model accepts ASCII digits and ASCII case only.
- NotAfter.IsZoneName: `%Z` accepts `UTC` and `GMT` only, as on a host whose local zone is UTC. The local zone names of other hosts are not modelled.
- Calendar.FormatIso: `%Y` is always four zero-padded digits. glibc prints years below 1000 with fewer digits, which `%Y` in `strptime` would then reject. That case is not modelled.
- ExpiryScript.StrptimeMessage: only one message for a `notAfter` that `strptime` rejects. The other `ValueError` messages ("unconverted data remains", "day is out of range for month") and the exact `repr` quoting are not modelled. `ExpiryScript.ScriptExpiry` stores `Error: ` followed by this one message.
- ExpiryScript.ScriptEndpoint: the `str()` conversion at ssl_1.py:14 is the identity, because keys are strings here.
- The script's choice of column (`df.columns[0]`, ssl_1.py:10) is taken to be `Sub Domains`, the first column the web app writes.
- Text.PyInt: the 4300-digit limit is the default of CPython 3.11 and later. Earlier versions have no limit, and `sys.set_int_max_str_digits` or the `PYTHONINTMAXSTRDIGITS` environment variable can change it. The model fixes it at 4300.
- NotAfter.RenderNotAfter renders only years from 1000 on and whole seconds. OpenSSL prints earlier years with fewer than four digits and appends any fractional seconds. The round-trip lemmas say nothing about those texts.
- NotAfter.ParseNotAfter: its contract states validity, and the round trip with the text OpenSSL prints. It does not characterise every text `strptime` accepts beyond that.

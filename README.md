# whiffy-tracker, modelled in Dafny

whiffy-tracker is a WiFi tracker built on an ESP8266 running MicroPython.
The device scans for access points and stores each scan as a chunk of text
lines in a data file. It sends those lines out through DNS: every line
becomes one query name under the telemetry domain `mr8266.tk`. The tracker's
own DNS server acknowledges each query with an address in `127.0.0.0/24`,
and it also encodes the current time as an address. On the server side, a
geolocation script reads the access-point lines back.

This project models the following parts of that system and proves
properties about them:

- **`Telemetry`** (`esp/fsroot/telemetry.py`): the `TelemetrySession`
  class.
  - The data file is a byte-sequence field that `store_scan` appends to.
  - `send_telemetry` walks a read cursor through the file one line at a
    time and turns each line into a query name. The cursor advances past
    every line the server acknowledges, and `chunk_id` is counted up on
    each `eom` line.
  - Once the whole file has been sent, the file is truncated and the
    session id and chunk id are saved to RTC memory.
- **`Datastr`** (`esp/fsroot/datastr.py`): `RecentStrings`, a fixed-size
  byte array of null-terminated strings with the newest first. `add`
  shifts the array in place. Membership is a prefix test or a search for
  `\0s\0`.
- **`Dns`** (`dnsserver/mydns.py`): how `DynamicResolver.resolve` matches
  zones and dispatches on the local name, and `time_ip`, which encodes
  seconds as a dotted quad.
- **`Wscan`** (`esp/fsroot/wscan.py`), the device-side helpers:
  - `get_ip` and `dns_is_honest`;
  - the clock decoding in `maybe_set_clock_from_dns`, which inverts
    `time_ip`;
  - choosing an open access point in `search_for_ap`;
  - the older `TelemetrySession`, which sends one chunk per call.
- **`Geolocate`** (`dnsserver/geolocate.py`): `normalise_mac`, plus the
  entry parsing and the status decision of `process_message`.
- **`MiniHttp`** (`esp/fsroot/minihttp.py`), the parsing inside
  `get(url)`:
  - splitting the URL and formatting the request;
  - reading the status code;
  - the header scan that looks for `Location`;
  - the body that `get` returns.

Three shared modules support the rest:

- `Base`: bytes, `Option`/`Result`, and latin-1 text.
- `Text`: Python's `'%d'`, `'%04x'`, `hexlify`, `int()`, `split`, `join`,
  `strip`, `lower` and `upper`.
- `Sorting`: Python's order on `bytes` and `str`, and `sorted(set(...))`.

Everything outside the processor is either a parameter or a value:

- the resolver (`getaddrinfo`), as a function from name to lookup outcome;
- the radio, as the scan result and a "connects" oracle;
- the clock, as seconds, a year and a ticks sequence;
- RTC memory and `os.urandom`, as byte sequences;
- the data file's initial contents;
- the reply block returned by `recv(512)`;
- the geolocation service.

Four facts about the code are easy to miss, and the model follows the code
in each:

- The read cursor of `telemetry.py` does not survive a restart. It is set
  to 0 in the constructor (`esp/fsroot/telemetry.py:51`), so after a reset
  every line still in the file is sent again, including lines that were
  already acknowledged.
- `chunk_id` never wraps. `'%04x'` widens past four digits.
- The decoded time is not checked against any window of years.
- `process_message` writes a position only when the latitude is non-zero
  (`if lat:`).

## Model

| member | source | states |
|---|---|---|
| Telemetry.Checkpoint | esp/fsroot/telemetry.py:67-69 | the RTC blob `session_id,chunk_id` is longer than the session id |
| Telemetry.CheckpointRoundTrip | esp/fsroot/telemetry.py:53-69 | reading back a saved checkpoint gives the same session id and chunk id, for any session id without a comma |
| Telemetry.CheckpointMeaning | esp/fsroot/telemetry.py:57-64 | the RTC blob is ignored exactly when it does not hold exactly one comma (two fields); otherwise its two fields are the session id and the `int` of the chunk id |
| Telemetry.ChunkLabel | esp/fsroot/telemetry.py:120 | `'%04x' % chunk_id` has at least four characters and no dot |
| Telemetry.DomainLabels | esp/fsroot/telemetry.py:8 | the telemetry domain is the two labels `mr8266` and `tk` |
| Telemetry.QueryNameLabels | esp/fsroot/telemetry.py:120 | splitting a query name on dots gives back the info, the session id, the `%04x` chunk id and the two labels of the domain |
| Telemetry.LineEnd | esp/fsroot/telemetry.py:141-142 | `readline()` from `pos` stops just after the first newline, or at the end of the file, and moves on exactly when data remains |
| Telemetry.LinesCover | esp/fsroot/telemetry.py:140-142 | the lines read from the cursor, put back together, are exactly the rest of the file |
| Telemetry.Drain | esp/fsroot/telemetry.py:140-158 | the send loop never moves the cursor backwards or past the end of the file |
| Telemetry.DrainDelivered | esp/fsroot/telemetry.py:149-154 | an acknowledged line moves the cursor past it, and the chunk id goes up by one exactly when the line starts with `eom` |
| Telemetry.DrainDeliversPrefix | esp/fsroot/telemetry.py:139-158 | a send delivers a prefix of the pending lines, in file order and with the chunk id counted by `eom` lines; it stops at the first line that is refused or raises, with the cursor at that line |
| Telemetry.DrainAllAcknowledged | esp/fsroot/telemetry.py:140-158 | against a server that acknowledges everything, the cursor reaches the end of the file and the chunk id grows by the number of `eom` lines |
| Telemetry.AcknowledgingServer | esp/fsroot/telemetry.py:119-129 | a resolver whose first answer always starts with `127.0.0.` makes every `try_to_send` succeed |
| Telemetry.MachineLine | esp/fsroot/telemetry.py:87 | the `machine-` line holds no newline and does not start with `eom` |
| Telemetry.NumberLine | esp/fsroot/telemetry.py:88-90 | the `time-` and `reset-` lines, and any tag without a newline or a leading `e` followed by `'%d'`, hold no newline and do not start with `eom` |
| Telemetry.ApLine | esp/fsroot/telemetry.py:94-96 | an `ap-` line holds no newline and does not start with `eom` |
| Telemetry.ChunkHeader | esp/fsroot/telemetry.py:87-91 | a chunk opens with two lines, or three when the reset cause is recorded |
| Telemetry.ChunkShape | esp/fsroot/telemetry.py:87-97 | a stored chunk has one line per item (the header, one per access point, then `eom`); no line holds a newline; the last line is the only one that starts with `eom` |
| Telemetry.RecordsAppend | esp/fsroot/telemetry.py:82-85 | writing two lists of lines one after the other writes their concatenation |
| Telemetry.LinesOfRecords | esp/fsroot/telemetry.py:82-85 | the lines read back from appended records are exactly those records, each with its newline |
| Telemetry.StoredChunkSent | esp/fsroot/telemetry.py:71-162 | once a stored chunk is all that is pending, a server that acknowledges everything receives the whole chunk, and the chunk id advances by exactly one |
| Telemetry.SendFileLines | esp/fsroot/telemetry.py:140-158 | the `while` loop ends with the cursor, chunk id and reason for stopping that the send specification gives |
| Telemetry.TelemetrySession.constructor | esp/fsroot/telemetry.py:40-65 | the session id holds no comma (so its checkpoint reads back); resumes the session id and chunk id from RTC memory when it holds two fields and a non-empty id; otherwise the id is the hex of four random bytes; reset is set, and the cursor and last scan time are 0 |
| Telemetry.ResumedHasNoComma | esp/fsroot/telemetry.py:60-63 | a session id resumed from RTC memory is the part before the blob's only comma, so it holds no comma |
| Telemetry.HexHasNoComma | esp/fsroot/telemetry.py:45 | a new session id, the hex of random bytes, holds no comma |
| Telemetry.TelemetrySession.SaveToRtcMemory | esp/fsroot/telemetry.py:67-69 | RTC memory becomes `session_id,chunk_id`, which `_init_from_rtcmemory` reads back as the same session id and chunk id; nothing else changes |
| Telemetry.TelemetrySession.TruncateDatafile | esp/fsroot/telemetry.py:164-170 | the file becomes empty and the cursor 0; nothing else changes |
| Telemetry.TelemetrySession.StoreScan | esp/fsroot/telemetry.py:71-99 | within 20 s of the last stored scan, nothing changes; otherwise the existing bytes are kept and exactly one chunk is appended (`machine-`, `time-`, `reset-` only on the first chunk, one `ap-` per entry, `eom`), and reset becomes false |
| Telemetry.TelemetrySession.WriteHeader | esp/fsroot/telemetry.py:87-91 | appends the chunk's header lines, each with its newline |
| Telemetry.TelemetrySession.WriteAccessPoints | esp/fsroot/telemetry.py:93-97 | appends one `ap-` line per scan entry, then `eom` |
| Telemetry.TelemetrySession.WriteLine | esp/fsroot/telemetry.py:82-85 | `store_info` appends the line and a newline |
| Telemetry.TelemetrySession.SendTelemetry | esp/fsroot/telemetry.py:101-162 | with nothing pending, nothing changes; otherwise the cursor and chunk id are where the send stopped; a completed send empties the file, resets the cursor and saves `session_id,chunk_id`, which reads back as the current session id and chunk id; an escaping `IndexError` is reported |
| Telemetry.TelemetrySession.SendPending | esp/fsroot/telemetry.py:131-162 | the same as SendTelemetry, for any `try_to_send` behaviour |
| Datastr.OccursIffSomePosition | esp/fsroot/datastr.py:37 | `needle in hay` holds exactly when the needle sits at some position |
| Datastr.PrefixForm | esp/fsroot/datastr.py:33 | the prefix test of `__contains__` says that the buffer starts with `s` and then a zero byte |
| Datastr.NeedleForm | esp/fsroot/datastr.py:35-37 | `\0s\0` at `i` means a zero byte, then `s`, then a zero byte |
| Datastr.InBufferMeaning | esp/fsroot/datastr.py:30-37 | `s in self` holds exactly when the buffer starts with `s` and a zero byte, or `\0s\0` occurs anywhere in it |
| Datastr.Added | esp/fsroot/datastr.py:16-28 | `add` keeps the buffer's size |
| Datastr.AddedStartsWith | esp/fsroot/datastr.py:16-34 | after `add(s)`, `s` is found; when `s` was new, the buffer starts with `s` and a zero byte |
| Datastr.AddedIdempotent | esp/fsroot/datastr.py:17-18 | a second `add(s)` changes nothing |
| Datastr.AddedShifts | esp/fsroot/datastr.py:23 | adding a new string moves the old contents right by `len(s)+1` and drops the old tail |
| Datastr.AddedKeeps | esp/fsroot/datastr.py:16-37 | a string that was found, and still fits entirely after the shift, is still found |
| Datastr.SloppyBoundary | esp/fsroot/datastr.py:7-9 | the list is sloppy: in a buffer of 4 bytes, adding `ab` then `c` cuts off the terminator of `ab`, which is then no longer found |
| Datastr.RecentStrings.constructor | esp/fsroot/datastr.py:13-14 | a fresh buffer of `size` zero bytes |
| Datastr.RecentStrings.Contains | esp/fsroot/datastr.py:30-37 | raises `IndexError` exactly when `len(s) >= size`; otherwise answers whether `s` is in the buffer |
| Datastr.RecentStrings.Add | esp/fsroot/datastr.py:16-28 | raises exactly when `len(s) >= size` and then changes nothing; otherwise the buffer becomes its state after `add(s)`, still of the same size |
| Dns.LastMatch | dnsserver/mydns.py:29-32 | no origin is found exactly when the name ends in no zone suffix; otherwise the result is the last origin in tuple order whose suffix ends the name |
| Dns.MatchOrigin | dnsserver/mydns.py:28-32 | the loop over `possible_origins` settles on the last matching origin |
| Dns.LocalName | dnsserver/mydns.py:38 | the name is the local name followed by `'.' + origin` |
| Dns.TrackerZone | dnsserver/mydns.py:16-38 | every name under `mr8266.tk.` is taken to be in that zone, and its local name is what precedes the suffix |
| Dns.ForeignName | dnsserver/mydns.py:28-36 | every name that ends in neither `.example.test.` nor `.mr8266.tk.` finds no origin, so it gets SERVFAIL |
| Dns.Octets | dnsserver/mydns.py:66 | `struct.pack('>I', secs)` gives four bytes |
| Dns.TimeIp | dnsserver/mydns.py:60-66 | an address exists exactly for seconds in `0 <= secs < 2^32` |
| Dns.OctetsValue | dnsserver/mydns.py:66 | the four bytes are the big-endian base-256 digits of the seconds |
| Dns.Resolve | dnsserver/mydns.py:24-58 | SERVFAIL outside the zones; `test` and `test1` get `127.0.0.1` with TTL 120; `test2` gets `127.0.0.2` with TTL 120; `time` gets `time_ip()` with TTL 5 (or `struct.error` out of range); any other local name gets NXDOMAIN |
| Wscan.GetIp | esp/fsroot/wscan.py:68-76 | `None` exactly on `OSError` or an empty answer; otherwise the first entry's address |
| Wscan.DnsIsHonest | esp/fsroot/wscan.py:174-179 | honest exactly when the first lookup gives an address and the second gives a different one (or none) |
| Wscan.SameAnswerIsDishonest | esp/fsroot/wscan.py:174-179 | a resolver that gives every name the same answer is judged dishonest |
| Wscan.ParseParts | esp/fsroot/wscan.py:90 | `map(int, ...)` succeeds exactly when every part parses, and gives their values in order |
| Wscan.FoldSeconds | esp/fsroot/wscan.py:92-95 | the accumulator loop computes the base-256 value of the parts |
| Wscan.MaybeSetClockFromDns | esp/fsroot/wscan.py:78-107 | the clock is untouched when the year is already at least 2016 or the lookup gives nothing; otherwise it is set to the decoded seconds, or a part that `int` refuses raises |
| Wscan.ParseDecimals | esp/fsroot/wscan.py:90 | the decimal text of bytes parses back to those bytes |
| Wscan.DecimalsHaveNoDot | esp/fsroot/wscan.py:90 | the decimal text of a byte holds no dot |
| Wscan.FoldFour | esp/fsroot/wscan.py:92-95 | folding four numbers is the base-256 polynomial |
| Wscan.ClockRoundTrip | esp/fsroot/wscan.py:90-95 | for every `0 <= secs < 2^32`, the device decodes the address the server's `time_ip` makes back to the same seconds |
| Wscan.OctetsFold | esp/fsroot/wscan.py:92-95 | folding the server's four bytes gives the seconds back |
| Wscan.BytesOrder | esp/fsroot/wscan.py:56 | the order `sorted` uses on `bytes` is a strict total order |
| Wscan.OpenSsids | esp/fsroot/wscan.py:43-46 | the collected SSIDs are exactly those of scan entries with auth mode 0 |
| Wscan.CandidatesMeaning | esp/fsroot/wscan.py:38-56 | the candidates are strictly increasing (so each open SSID appears once) and are exactly the open SSIDs of the scan |
| Wscan.CollectOpenSsids | esp/fsroot/wscan.py:38-56 | the set-building loop followed by `sorted` gives the candidates |
| Wscan.Planned | esp/fsroot/wscan.py:147-157 | the lines sent are `machine-…`, then `time-…`, then the `ap-` lines, then `eom`; without a stored time, `'%d' % None` raises after the first line |
| Wscan.QueryNameLabels | esp/fsroot/wscan.py:138 | splitting the query name on dots gives the info, the session id, the `%04x` chunk id, `mr8266` and `tk` |
| Wscan.TicksDiff | esp/fsroot/wscan.py:143 | under the rule MicroPython has used since late 2016, `ticks_diff` lies in the signed range of the 2^30 tick period |
| Wscan.TimeoutAsWrittenQuiet | esp/fsroot/wscan.py:143-145 | with `ticks_diff(a, b) = a - b` (MicroPython since late 2016), the check `ticks_diff(t0, now) > 20000` never fires while less than 2^29 ms have passed |
| Wscan.TicksDiffEarly | esp/fsroot/wscan.py:143 | `ticks_diff(old, new)` as documented before late 2016 is `new - old` over the tick period, in `[0, 2^30)` |
| Wscan.TimeoutEarlyFires | esp/fsroot/wscan.py:143-145 | under the earlier `ticks_diff` rule the check is the 20 s deadline: it fires exactly when more than 20000 ms have passed |
| Wscan.SendLines | esp/fsroot/wscan.py:147-157 | the lookups follow the planned lines in order; they stop at the first timeout, and otherwise all are sent |
| Wscan.TelemetrySession.constructor | esp/fsroot/wscan.py:117-122 | the session id is the hex of the random bytes; there is no scan or time yet, and the chunk id is 0 |
| Wscan.TelemetrySession.StoreScan | esp/fsroot/wscan.py:160-170 | the stored scan is the sightings of the entries, and the time is `now`; the session and chunk ids are unchanged |
| Wscan.TelemetrySession.MaybeSendChunk | esp/fsroot/wscan.py:130-158 | the chunk id goes up by exactly one before any send, and every lookup of the call uses it; the lookups are the planned lines in order up to a timeout |
| Wscan.SearchForAp | esp/fsroot/wscan.py:32-66 | a failed scan returns false, tries nothing and stores nothing; otherwise the scan is stored and the candidates are tried in sorted order up to the first that connects; true exactly when one connected |
| Geolocate.NormaliseMac | dnsserver/geolocate.py:15-22 | the loop joins the upper-cased pairs of the address, with its colons removed, using colons |
| Geolocate.NormalisedMacShape | dnsserver/geolocate.py:15-22 | there are `(len - colons)//2` groups; each is two characters with no colon and no lower-case letter; splitting the result at colons gives the groups back |
| Geolocate.NormaliseMacIdempotent | dnsserver/geolocate.py:15-22 | `normalise_mac(normalise_mac(m)) == normalise_mac(m)` |
| Geolocate.EntryKinds | dnsserver/geolocate.py:50-51 | an entry contributes nothing exactly when it is neither `ap` nor starts with `ap-`; a bare `ap` raises |
| Geolocate.FirstField | dnsserver/geolocate.py:50-51 | the first field is `ap` exactly for `ap` and for entries starting with `ap-` |
| Geolocate.ApEntryRoundTrip | dnsserver/geolocate.py:50-55 | `ap-<mac>-<strength>` is read back with the address normalised and the strength recovered, including a negative one (`ap-<mac>--60` gives -60) |
| Geolocate.ApFields | dnsserver/geolocate.py:50 | `split('-', 2)` gives the three fields of an `ap-` line whose address has no `-` |
| Geolocate.DeviceApEntry | dnsserver/geolocate.py:50-55 | every `ap-` line the device writes with `hex_str` is read back |
| Geolocate.StoredApLineReadBack | esp/fsroot/telemetry.py:93-96 | every `ap-` line `store_scan` stores for a scan is read back by the server as that entry's normalised BSSID and strength |
| Geolocate.SentApInfoReadBack | esp/fsroot/wscan.py:150-155 | the `ap-` lines the older session sends from the `(bssid, strength)` pairs `store_scan` kept (wscan.py:167-169) are read back by the server as each scan entry's normalised BSSID and strength |
| Geolocate.CollectError | dnsserver/geolocate.py:49-55 | the loop raises exactly when some entry raises, with the exception of the first such entry |
| Geolocate.FoundMembers | dnsserver/geolocate.py:49-55 | the access points the entry results give are exactly those of the `ap` results |
| Geolocate.CollectMembers | dnsserver/geolocate.py:49-55 | without an exception, the loop collects exactly the list of access points the entries give, one per `ap` entry and in the order of the entries (so two spellings of one address count twice) |
| Geolocate.ApsMeaning | dnsserver/geolocate.py:49-55 | the loop over the sorted entries raises exactly when one entry raises, with the first entry's exception; otherwise it collects, in order, exactly one access point per `ap` entry, and these are exactly the access points the entries give |
| Geolocate.StrOrder | dnsserver/geolocate.py:49 | Python's order on `str` is a strict total order |
| Geolocate.EntriesMeaning | dnsserver/geolocate.py:46-49 | the entries are strictly increasing and are exactly the distinct stripped lines of the raw information |
| Geolocate.StatusRule | dnsserver/geolocate.py:58-71 | the status is `OK` exactly when more than one access point was parsed and a location was found, and `ERROR` otherwise; a position is written only with a location that has a non-zero latitude |
| Geolocate.ProcessMessage | dnsserver/geolocate.py:44-71 | the update or exception of `process_message` is the one the specification function gives |
| Geolocate.ProcessEntries | dnsserver/geolocate.py:49-71 | the entry loop and the status decision, as the specification function gives them |
| Geolocate.SameLinesSameOutcome | dnsserver/geolocate.py:46-49 | line order, repeated lines and surrounding whitespace do not change the outcome |
| Geolocate.TooFewAps | dnsserver/geolocate.py:60 | fewer than two access points give `ERROR` and no position, whatever the service answers |
| MiniHttp.SplitUrlRefuses | esp/fsroot/minihttp.py:9 | the URL is refused exactly when it has fewer than three `/` |
| MiniHttp.SplitUrlRoundTrip | esp/fsroot/minihttp.py:9 | `scheme//host/path` gives back the host and the path, whatever the path contains |
| MiniHttp.RequestLines | esp/fsroot/minihttp.py:13 | the request is exactly the `GET /<path> HTTP/1.0` line, the `Host` line and an empty line, each ended by `\r\n` |
| MiniHttp.IndexFrom | esp/fsroot/minihttp.py:16-17 | `data.index(b, start)` finds that byte at or after `start` |
| MiniHttp.StatusNeedsTwoSpaces | esp/fsroot/minihttp.py:16-17 | a missing space is reported exactly when the reply holds fewer than two spaces |
| MiniHttp.StatusRoundTrip | esp/fsroot/minihttp.py:16-19 | `<version> <code> <rest>` gives its code back |
| MiniHttp.StatusAt | esp/fsroot/minihttp.py:16-19 | bytes that start with a version, a space, digits and a space have the status those digits spell |
| MiniHttp.LowerIsMeaning | esp/fsroot/minihttp.py:33-35 | the byte-wise name test is `str(name).lower() == word` |
| MiniHttp.ColonWalk | esp/fsroot/minihttp.py:32-36 | the header name is what comes before the first colon, and the value is what comes after it |
| MiniHttp.ReadHeaderMeaning | esp/fsroot/minihttp.py:31-39 | a line without a colon ends the scan; an ASCII line with a colon sets the location exactly when its name is `location` in any case |
| MiniHttp.Scan | esp/fsroot/minihttp.py:26-40 | the scan ends at a newline inside the reply |
| MiniHttp.ScanLine | esp/fsroot/minihttp.py:27-40 | a line shorter than 3 bytes ends the scan at its newline; otherwise the scan reads the header and goes on |
| MiniHttp.ScanHeaders | esp/fsroot/minihttp.py:25-40 | the `while True` loop over `linestart`/`lineend` gives the location and the line end that the scan specification gives |
| MiniHttp.LocatedAppend | esp/fsroot/minihttp.py:26-40 | reading one block of headers and then another is the same as reading both together |
| MiniHttp.LocatedNone | esp/fsroot/minihttp.py:35-36 | headers that do not name `location` leave it unchanged |
| MiniHttp.LastLocationWins | esp/fsroot/minihttp.py:35-36 | the last `Location` header wins, whatever came before it |
| MiniHttp.ScanBlock | esp/fsroot/minihttp.py:26-40 | given header lines followed by a short line or a line without a colon, the scan reads every header and stops at the newline after that line |
| MiniHttp.ReplyRead | esp/fsroot/minihttp.py:16-45 | a reply whose status parses and whose header scan ends at `lineend` gives the status, the redirect flag, the location and the bytes after `lineend` |
| MiniHttp.ResponseRoundTrip | esp/fsroot/minihttp.py:16-45 | a well-formed reply gives back its code, whether it is a redirect (`300..399`), the stripped value of its last `Location` header and the body after the line that ends the headers |
| MiniHttp.Get | esp/fsroot/minihttp.py:3-48 | a URL with fewer than three `/` raises before sending; otherwise the request sent is the formatted one, and the outcome is the parse of the reply |
| MiniHttp.FindStatus | esp/fsroot/minihttp.py:16-19 | the status lines give the status specification's result |
| MiniHttp.FindReply | esp/fsroot/minihttp.py:22-45 | the redirect test, the header loop and the slice give the reply specification's result |
| Text.Hexlify | esp/fsroot/telemetry.py:13-14 | `hex_str` gives two lower-case hex digits per byte, with no dot, comma, dash or newline |
| Text.Hex04 | esp/fsroot/telemetry.py:120 | `'%04x'` gives at least four characters, with a sign exactly for negative ids |
| Text.Decimal | esp/fsroot/telemetry.py:88 | `'%d'` gives digits, with a leading `-` for negative numbers, and no newline, space, dot or comma |
| Text.ParseDecimal | esp/fsroot/telemetry.py:64 | `int('%d' % n) == n` for every integer |
| Text.SplitNCount | esp/fsroot/minihttp.py:9 | `split(c, n)` makes one part more than the number of separators, capped by `n` |
| Sorting.SortedSetCorrect | esp/fsroot/wscan.py:56 | `sorted(set(xs))` is strictly increasing and holds exactly the elements of `xs` |

## Left out

- Telemetry.TelemetrySession.constructor: requires that the RTC blob, when it has two comma-separated fields, has an integer second field. On such a blob `int(bits[1])` raises `ValueError`, which the source does not catch, and that crash is not modelled.
- Text.ParseInt: models `int()` as an optional sign followed by ASCII digits. Surrounding whitespace, underscores and non-ASCII digits, all of which Python also accepts, are not modelled.
- Text.Strip: removes the whitespace characters below 256 that CPython's `str.strip()` removes. Unicode whitespace above 255 is not modelled.
- Text.Lower and Text.Upper: map the ASCII letters `A`-`Z` and `a`-`z` only. That is MicroPython's behaviour, which is what the header match of `minihttp.py` runs on. CPython, where `geolocate.py` runs, also maps other letters (`é` to `É`, `ß` to `SS`).
- Geolocate.NormaliseMac: upper-cases ASCII letters only (Text.Upper). On an address with other letters, CPython's `normalise_mac` gives a different result (`éé` becomes `ÉÉ`).
- Geolocate.NormalisedMacShape: holds for the ASCII upper-casing of the model. With CPython's `upper()`, a pair holding `ß` becomes three characters.
- Geolocate.NormaliseMacIdempotent: holds for the ASCII upper-casing of the model. CPython's `normalise_mac` is not idempotent on addresses holding `ß` (`aßcd` gives `ASS:CD`, which then gives `AS:SC`).
- MiniHttp.ReadHeader: models `str(b, 'ascii')` as CPython's ASCII codec, which raises on any byte above 127. MicroPython ignores the codec name and only rejects invalid UTF-8. So on the device, a header whose name or `Location` value is non-ASCII but valid UTF-8 does not end the scan. The `strip()` of the location is MicroPython's (MiniHttp.MicroStrip).
- MiniHttp.Get: the request is kept as text. Its UTF-8 encoding, the socket connection, `getaddrinfo` failures and `recv` are not modelled. The reply is the given block.
- MiniHttp.Get: `max_redirects` is unused by the source, and the redirect and status printing is not modelled.
- Telemetry.TelemetrySession: the file, `seek`, `tell` and `flush`, and the RTC hardware are values. Logging is left out.
- Wscan.TelemetrySession.MaybeSendChunk: the deadline check is the `timedOut` parameter. The literal `ticks_diff(t0, now) > 20000` is modelled separately (`TicksDiff`, `TimeoutAsWrittenQuiet`). `send_chunk`'s catch of `SendTimeout` is only a log line.
- Wscan.TicksDiff: assumes MicroPython's `ticks_diff(a, b) = a - b` rule of late 2016 onward, under which `ticks_diff(t0, ticks_ms()) > 20000` never fires in practice (TimeoutAsWrittenQuiet). The code follows the earlier documented usage `ticks_diff(start, now)`, which meant `now - start`; under that rule the check is a 20 s deadline per chunk (TicksDiffEarly, TimeoutEarlyFires). Which firmware the device runs is not modelled.
- Wscan.SearchForAp: LED switching, `time.sleep`, and the waiting in `wait_for_ap_connected` are the `connects` oracle.
- Wscan.MaybeSetClockFromDns: `time.localtime` and writing the RTC are not modelled. The result is the seconds to set.
- Dns.Resolve: the dnslib packet encoding, the server thread, port selection and the `dnslog.txt` append are not modelled. The clock reading of `time_ip` is the `secs` parameter.
- Geolocate: the HTTP/JSON request to the geolocation service, its `accuracy` threshold and the float conversion of lat/lon are the `locate` parameter. The sqlite updates are returned as an `Update` value. `load_api_key` and `main` are not modelled.
- dnsserver/makemap.py, esp/fsroot/log.py and esp/fsroot/main.py are not part of this model.

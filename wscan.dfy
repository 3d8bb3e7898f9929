/**
 * The device-side helpers of `wscan.py`: choosing an open access point from
 * a scan, looking up an address, judging whether the resolver is honest,
 * setting the clock from the address the DNS server encodes the time in,
 * and the older telemetry session that sends one chunk per call.  The
 * radio, the resolver and the millisecond clock are parameters.
 */
module Wscan {
  import opened Base
  import opened Text
  import opened Sorting
  import Dns

  const TelemetryDomain: string := "mr8266.tk"

  /** The first year the clock is taken to be set. */
  const ClockSetYear: int := 2016

  // ------------------------------------------------------------- lookups

  /** `get_ip(name)` given what `getaddrinfo` did for that name: the address
      of the first entry, `None` when the lookup raised or found nothing. */
  function GetIp(lookup: Lookup<string>): (r: Option<string>)
    ensures r.None? <==> lookup.LookupFailed? || lookup.addrs == []
    ensures r.Some? ==> r.value == lookup.addrs[0]
  {
    match lookup
    case LookupFailed => None
    case Addresses(addrs) => if |addrs| > 0 then Some(addrs[0]) else None
  }

  /** `dns_is_honest()` given the lookups of its two names: the second name
      is only looked up when the first gave an address. */
  function DnsIsHonest(first: Lookup<string>, second: Lookup<string>): (honest: bool)
    ensures honest <==> GetIp(first).Some? && GetIp(second) != GetIp(first)
  {
    var ip1 := GetIp(first);
    if ip1.None? then false else GetIp(second) != ip1
  }

  /** A resolver that gives every name the same answer, as a captive portal
      does, is never judged honest. */
  lemma SameAnswerIsDishonest(resolve: string -> Lookup<string>)
    requires forall a, b :: resolve(a) == resolve(b)
    ensures !DnsIsHonest(resolve("www.vectrex.org.uk"), resolve("red.vectrex.org.uk"))
  {
  }

  // ----------------------------------------------------------------- clock

  /** The value of the numbers read as digits in base 256, most significant
      first, as the loop `secs *= 256; secs += n` builds it. */
  function FoldOctets(bits: seq<int>): int
    decreases |bits|
  {
    if bits == [] then 0 else FoldOctets(bits[..|bits| - 1]) * 256 + bits[|bits| - 1]
  }

  /** `list(map(int, ip.split('.')))`; `None` is the `ValueError` of a part
      `int()` rejects. */
  function ParseParts(parts: seq<string>): (r: Option<seq<int>>)
    ensures r.Some? ==> |r.value| == |parts|
    ensures r.Some? <==> forall i :: 0 <= i < |parts| ==> ParseInt(parts[i]).Some?
    ensures r.Some? ==> forall i :: 0 <= i < |parts| ==> r.value[i] == ParseInt(parts[i]).value
    decreases |parts|
  {
    if parts == [] then Some([])
    else
      var first := ParseInt(parts[0]);
      var rest := ParseParts(parts[1..]);
      assert forall i :: 1 <= i < |parts| ==> parts[1..][i - 1] == parts[i];
      if first.None? || rest.None? then None
      else Some([first.value] + rest.value)
  }

  /** The seconds the device reads from the address, or `None` for a
      `ValueError`. */
  function DecodeTime(ip: string): Option<int>
  {
    var bits := ParseParts(Split(ip, '.'));
    if bits.None? then None else Some(FoldOctets(bits.value))
  }

  /** The decoding loop of `maybe_set_clock_from_dns`. */
  method FoldSeconds(bits: seq<int>) returns (secs: int)
    ensures secs == FoldOctets(bits)
  {
    secs := 0;
    for i := 0 to |bits|
      invariant secs == FoldOctets(bits[..i])
    {
      assert bits[..i + 1][..i] == bits[..i];
      secs := secs * 256;
      secs := secs + bits[i];
    }
    assert bits[..|bits|] == bits;
  }

  /** What `maybe_set_clock_from_dns` does to the real-time clock. */
  datatype ClockAction = Untouched | SetTo(secs: int) | ParseFailed

  /** `maybe_set_clock_from_dns()` when the clock reads `year` and the lookup
      of `time.mr8266.tk` went as `lookup`. */
  method MaybeSetClockFromDns(year: int, lookup: Lookup<string>) returns (action: ClockAction)
    ensures year >= ClockSetYear || GetIp(lookup).None? ==> action == Untouched
    ensures year < ClockSetYear && GetIp(lookup).Some? ==>
      action == match DecodeTime(GetIp(lookup).value)
                case None => ParseFailed
                case Some(secs) => SetTo(secs)
  {
    if year >= ClockSetYear {
      return Untouched;
    }
    var timeIp := GetIp(lookup);
    if timeIp.None? {
      return Untouched;
    }
    var bits := ParseParts(Split(timeIp.value, '.'));
    if bits.None? {
      return ParseFailed;
    }
    var secs := FoldSeconds(bits.value);
    return SetTo(secs);
  }

  /** The decimal text of bytes reads back as those bytes. */
  lemma {:induction false} ParseDecimals(o: seq<byte>)
    ensures ParseParts(Dns.Decimals(o)) == Some(o)
    decreases |o|
  {
    if o != [] {
      var parts := Dns.Decimals(o);
      assert parts[1..] == Dns.Decimals(o[1..]);
      ParseDecimals(o[1..]);
      ParseDecimal(o[0]);
      assert ParseInt(parts[0]) == Some(o[0] as int);
      assert [o[0] as int] + o[1..] == o;
    }
  }

  lemma {:induction false} DecimalsHaveNoDot(o: seq<byte>)
    ensures NoneContains(Dns.Decimals(o), '.')
    decreases |o|
  {
    if o != [] {
      DecimalsHaveNoDot(o[1..]);
      assert Dns.Decimals(o)[1..] == Dns.Decimals(o[1..]);
    }
  }

  /** Four numbers folded in base 256. */
  lemma FoldFour(b: seq<int>)
    requires |b| == 4
    ensures FoldOctets(b) == ((b[0] * 256 + b[1]) * 256 + b[2]) * 256 + b[3]
  {
    assert FoldOctets(b[..1]) == b[0] by { assert b[..1][..0] == []; }
    assert FoldOctets(b[..2]) == b[0] * 256 + b[1] by { assert b[..2][..1] == b[..1]; }
    assert FoldOctets(b[..3]) == (b[0] * 256 + b[1]) * 256 + b[2] by { assert b[..3][..2] == b[..2]; }
    assert b[..|b| - 1] == b[..3];
  }

  /** The clock round trip: the device decodes the address the server makes
      from the seconds to those same seconds, over the whole 32-bit range. */
  lemma ClockRoundTrip(secs: int)
    requires 0 <= secs < Dns.TwoTo32
    ensures Dns.TimeIp(secs).Some? && DecodeTime(Dns.TimeIp(secs).value) == Some(secs)
  {
    var o := Dns.Octets(secs);
    var parts := Dns.Decimals(o);
    var ip := Dns.TimeIp(secs).value;
    assert Split(ip, '.') == parts by {
      DecimalsHaveNoDot(o);
      SplitJoin(parts, '.');
    }
    ParseDecimals(o);
    assert FoldOctets(o) == secs by { OctetsFold(secs); }
  }

  lemma OctetsFold(secs: int)
    requires 0 <= secs < Dns.TwoTo32
    ensures FoldOctets(Dns.Octets(secs)) == secs
  {
    Dns.OctetsValue(secs);
    FoldFour(Dns.Octets(secs));
  }


  // ------------------------------------------------------ access points

  /** Python's order on `bytes`, as `sorted` uses it. */
  predicate BytesLess(a: seq<byte>, b: seq<byte>)
  {
    LexLess(a, b)
  }

  lemma BytesOrder()
    ensures StrictTotalOrder(BytesLess)
  {
    forall a: seq<byte> ensures !BytesLess(a, a) { LexIrreflexive(a); }
    forall a: seq<byte>, b: seq<byte>, c: seq<byte> | BytesLess(a, b) && BytesLess(b, c)
      ensures BytesLess(a, c)
    {
      LexTransitive(a, b, c);
    }
    forall a: seq<byte>, b: seq<byte> | a != b ensures BytesLess(a, b) || BytesLess(b, a) {
      LexTotal(a, b);
    }
  }

  /** The SSIDs of the open networks in a scan (auth mode 0), in scan order. */
  function OpenSsids(scan: seq<ScanEntry>): (ssids: seq<seq<byte>>)
    ensures forall y :: y in ssids <==> exists i :: 0 <= i < |scan| && scan[i].authMode == 0 && scan[i].ssid == y
    decreases |scan|
  {
    if scan == [] then []
    else
      var init := OpenSsids(scan[..|scan| - 1]);
      var last := scan[|scan| - 1];
      assert forall i :: 0 <= i < |scan| - 1 ==> scan[..|scan| - 1][i] == scan[i];
      if last.authMode == 0 then init + [last.ssid] else init
  }

  /** `sorted(ssid_set)`: the candidates, each open SSID once, in order. */
  function Candidates(scan: seq<ScanEntry>): seq<seq<byte>>
  {
    SortedSet(OpenSsids(scan), BytesLess)
  }

  /** The candidates are exactly the open SSIDs of the scan, each once, in
      increasing order. */
  lemma CandidatesMeaning(scan: seq<ScanEntry>)
    ensures StrictlySorted(Candidates(scan), BytesLess)
    ensures forall y :: y in Candidates(scan) <==>
      exists i :: 0 <= i < |scan| && scan[i].authMode == 0 && scan[i].ssid == y
  {
    BytesOrder();
    SortedSetCorrect(OpenSsids(scan), BytesLess);
  }

  /** The set-building loop of `search_for_ap`, with the set kept as the
      sorted list `sorted` will make of it. */
  method CollectOpenSsids(scan: seq<ScanEntry>) returns (ssids: seq<seq<byte>>)
    ensures ssids == Candidates(scan)
  {
    ssids := [];
    for i := 0 to |scan|
      invariant ssids == Candidates(scan[..i])
    {
      var ap := scan[i];
      assert scan[..i + 1][..i] == scan[..i];
      if ap.authMode == 0 {
        ssids := InsertUnique(ssids, ap.ssid, BytesLess);
      }
    }
    assert scan[..|scan|] == scan;
  }

  // ------------------------------------------------------- the session

  /** What `store_scan` keeps of a scan entry: the BSSID and the strength. */
  datatype Sighting = Sighting(mac: seq<byte>, strength: int)

  /** `[(s[1], s[3]) for s in scan]`. */
  function Sightings(scan: seq<ScanEntry>): (r: seq<Sighting>)
    ensures |r| == |scan|
    ensures forall i :: 0 <= i < |scan| ==> r[i] == Sighting(scan[i].bssid, scan[i].rssi)
  {
    seq(|scan|, i requires 0 <= i < |scan| => Sighting(scan[i].bssid, scan[i].rssi))
  }

  /** `'ap-' + hex_str(mac) + '-' + str(strength)`. */
  function ApInfo(s: Sighting): string
  {
    "ap-" + Hexlify(s.mac) + "-" + Decimal(s.strength)
  }

  /** The `ap-` information of each sighting, in scan order. */
  function ApInfos(lastScan: Option<seq<Sighting>>): (infos: seq<string>)
    ensures lastScan.None? ==> infos == []
    ensures lastScan.Some? ==> |infos| == |lastScan.value|
    ensures lastScan.Some? ==> forall i :: 0 <= i < |infos| ==> infos[i] == ApInfo(lastScan.value[i])
  {
    if lastScan.None? then []
    else seq(|lastScan.value|, i requires 0 <= i < |lastScan.value| => ApInfo(lastScan.value[i]))
  }

  /** The information `maybe_send_chunk` tries to send, in order.  Without a
      scan time, `'time-%d' % None` raises `TypeError` right after the
      machine line, so only that line is tried. */
  function Planned(uniqueId: seq<byte>, lastScanTime: Option<int>, lastScan: Option<seq<Sighting>>): (infos: seq<string>)
    ensures |infos| >= 1 && infos[0] == "machine-" + Hexlify(uniqueId)
    ensures lastScanTime.None? ==> |infos| == 1
    ensures lastScanTime.Some? ==>
      && |infos| == 3 + |ApInfos(lastScan)|
      && infos[1] == "time-" + Decimal(lastScanTime.value)
      && infos[2..|infos| - 1] == ApInfos(lastScan)
      && infos[|infos| - 1] == "eom"
  {
    var machine := "machine-" + Hexlify(uniqueId);
    if lastScanTime.None? then [machine]
    else
      var aps := ApInfos(lastScan);
      var infos := [machine, "time-" + Decimal(lastScanTime.value)] + aps + ["eom"];
      assert infos[2..|infos| - 1] == aps;
      infos
  }

  /** One lookup of `send1`: the information, the session and the chunk
      counter it carries. */
  datatype Query = Query(info: string, sessionId: string, chunkId: int)

  /** The name looked up for a query:
      `'%s.%s.%04x.%s' % (info, session_id, chunk_id, TELEMETRY_DOMAIN)`. */
  function QueryName(q: Query): string
  {
    q.info + "." + q.sessionId + "." + Hex04(q.chunkId) + "." + TelemetryDomain
  }

  /** The server can take a query name apart again: when the information and
      the session id hold no dot, the labels are those two, the four-digit
      chunk counter and the two labels of the domain. */
  lemma QueryNameLabels(q: Query)
    requires '.' !in q.info && '.' !in q.sessionId
    ensures Split(QueryName(q), '.') == [q.info, q.sessionId, Hex04(q.chunkId), "mr8266", "tk"]
  {
    Hex04Chars(q.chunkId);
    assert TelemetryDomain == "mr8266" + ['.'] + "tk";
    assert QueryName(q) == q.info + ['.'] + q.sessionId + ['.'] + Hex04(q.chunkId) + ['.'] + ("mr8266" + ['.'] + "tk");
    SplitFive(q.info, q.sessionId, Hex04(q.chunkId), "mr8266", "tk", '.');
  }

  /** `ticks_diff(a, b)` of MicroPython's millisecond ticks, which wrap at
      `2 ** 30`, under the rule MicroPython has used since late 2016: the
      signed `a - b` brought into `[-2 ** 29, 2 ** 29)`. */
  function TicksDiff(a: int, b: int): (d: int)
    ensures -0x2000_0000 <= d < 0x2000_0000
  {
    (a - b + 0x2000_0000) % 0x4000_0000 - 0x2000_0000
  }

  /** The check of `send1` as written: `ticks_diff(t0, now) > 20000`. */
  predicate TimeoutAsWritten(t0: int, now: int)
  {
    TicksDiff(t0, now) > 20000
  }

  /** With `ticks_diff(a, b) = a - b` (MicroPython since late 2016), the
      check of `send1` reads `t0 - now` and never fires while less than half
      the tick period (about six days) has passed since `t0`. */
  lemma TimeoutAsWrittenQuiet(t0: int, elapsed: int)
    requires 0 <= elapsed <= 0x2000_0000
    ensures !TimeoutAsWritten(t0, t0 + elapsed)
    ensures TicksDiff(t0 + elapsed, t0) == elapsed || elapsed == 0x2000_0000
  {
    assert TicksDiff(t0, t0 + elapsed) == -elapsed by {
      assert (-elapsed + 0x2000_0000) % 0x4000_0000 == -elapsed + 0x2000_0000;
    }
    if elapsed < 0x2000_0000 {
      assert (elapsed + 0x2000_0000) % 0x4000_0000 == elapsed + 0x2000_0000;
    }
  }

  /** `ticks_diff(old, new)` as MicroPython documented it before late 2016:
      `new - old` over the tick period, in `[0, 2 ** 30)`. */
  function TicksDiffEarly(older: int, newer: int): (d: int)
    ensures 0 <= d < 0x4000_0000
  {
    (newer - older) % 0x4000_0000
  }

  /** Under the earlier rule the same check of `send1` is the 20 s deadline:
      it fires exactly when more than 20000 ms have passed since `t0`
      (within one tick period). */
  lemma TimeoutEarlyFires(t0: int, elapsed: int)
    requires 0 <= elapsed < 0x4000_0000
    ensures TicksDiffEarly(t0, t0 + elapsed) == elapsed
    ensures TicksDiffEarly(t0, t0 + elapsed) > 20000 <==> elapsed > 20000
  {
    assert t0 + elapsed - t0 == elapsed;
  }

  /** How a call of `maybe_send_chunk` ends: every planned line sent, the
      `SendTimeout` of `send1`, or the `TypeError` of a missing scan time. */
  datatype SendEnd = AllSent | TimedOut | TimeMissing

  /** `sent` are the queries of the first planned lines, in order. */
  ghost predicate SentInOrder(planned: seq<string>, sent: seq<Query>, sessionId: string, chunkId: int)
  {
    |sent| <= |planned| && forall i :: 0 <= i < |sent| ==> sent[i] == Query(planned[i], sessionId, chunkId)
  }

  /** The deadline check stayed quiet after each of the first `n` lookups. */
  ghost predicate Quiet(t0: int, clock: nat -> int, timedOut: (int, int) -> bool, n: nat)
  {
    forall k :: 1 <= k <= n ==> !timedOut(t0, clock(k))
  }

  /** The end of `maybe_send_chunk`: at least one lookup; lookups go through
      the plan in order and stop at the first after which the deadline check
      fires, or at the end of the plan; `TimeMissing` exactly when the plan
      ended for want of a scan time. */
  ghost predicate Outcome(planned: seq<string>, sent: seq<Query>, end: SendEnd, sessionId: string, chunkId: int,
                          t0: int, clock: nat -> int, timedOut: (int, int) -> bool, timeMissing: bool)
  {
    && 1 <= |sent|
    && SentInOrder(planned, sent, sessionId, chunkId)
    && Quiet(t0, clock, timedOut, |sent| - 1)
    && (end == TimedOut <==> timedOut(t0, clock(|sent|)))
    && (end != TimedOut ==> |sent| == |planned|)
    && (end == TimeMissing <==> end != TimedOut && timeMissing)
  }

  lemma QuietStep(t0: int, clock: nat -> int, timedOut: (int, int) -> bool, n: nat)
    requires Quiet(t0, clock, timedOut, n) && !timedOut(t0, clock(n + 1))
    ensures Quiet(t0, clock, timedOut, n + 1)
  {
  }

  /** `send1(info)` for the session `sessionId` at chunk `chunkId`: the
      query made, and whether the deadline check fires given the tick count
      `now` read after the lookup (the answer itself is ignored). */
  method Send1(info: string, sessionId: string, chunkId: int, t0: int, now: int, timedOut: (int, int) -> bool)
    returns (q: Query, timeout: bool)
    ensures q == Query(info, sessionId, chunkId)
    ensures timeout == timedOut(t0, now)
  {
    q := Query(info, sessionId, chunkId);
    timeout := timedOut(t0, now);
  }

  /** The successive `send1` calls of `maybe_send_chunk`, one per line of
      `infos`, stopping at the first `SendTimeout`.  `clock(0)` is the tick
      count at the start and `clock(k)` the one read after the `k`-th lookup;
      `timedOut(t0, now)` is the deadline check (`TimeoutAsWritten` for the
      code as written).  `sent` are the lookups made, in order. */
  method SendLines(infos: seq<string>, sessionId: string, chunkId: int, clock: nat -> int, timedOut: (int, int) -> bool)
    returns (sent: seq<Query>, timeout: bool)
    requires |infos| >= 1
    ensures 1 <= |sent| && SentInOrder(infos, sent, sessionId, chunkId)
    ensures Quiet(clock(0), clock, timedOut, |sent| - 1)
    ensures timeout <==> timedOut(clock(0), clock(|sent|))
    ensures !timeout ==> |sent| == |infos|
  {
    var t0 := clock(0);
    sent := [];
    timeout := false;
    while |sent| < |infos|
      invariant SentInOrder(infos, sent, sessionId, chunkId)
      invariant Quiet(t0, clock, timedOut, |sent|)
      decreases |infos| - |sent|
    {
      var q;
      q, timeout := Send1(infos[|sent|], sessionId, chunkId, t0, clock(|sent| + 1), timedOut);
      sent := sent + [q];
      if timeout {
        return;
      }
      QuietStep(t0, clock, timedOut, |sent| - 1);
    }
  }

  class TelemetrySession {
    var sessionId: string
    var lastScan: Option<seq<Sighting>>
    var lastScanTime: Option<int>
    var chunkId: int

    /** `TelemetrySession()`, with the four random bytes given. */
    constructor (randomBytes: seq<byte>)
      ensures sessionId == Hexlify(randomBytes) && |sessionId| == 2 * |randomBytes|
      ensures lastScan == None && lastScanTime == None && chunkId == 0
    {
      sessionId := Hexlify(randomBytes);
      lastScan := None;
      lastScanTime := None;
      chunkId := 0;
    }

    /** `store_scan(scan)` at time `now`: only the BSSID and strength of each
        entry are kept. */
    method StoreScan(scan: seq<ScanEntry>, now: int)
      modifies this
      ensures lastScan == Some(Sightings(scan)) && lastScanTime == Some(now)
      ensures sessionId == old(sessionId) && chunkId == old(chunkId)
    {
      lastScan := Some(Sightings(scan));
      lastScanTime := Some(now);
    }

    /** `maybe_send_chunk()`: the chunk counter moves on first, then the
        planned lines are sent under the new counter.  Without a scan time
        the plan stops after the machine line, where the code raises. */
    method MaybeSendChunk(uniqueId: seq<byte>, clock: nat -> int, timedOut: (int, int) -> bool)
      returns (sent: seq<Query>, end: SendEnd)
      modifies this
      ensures chunkId == old(chunkId) + 1
      ensures sessionId == old(sessionId) && lastScan == old(lastScan) && lastScanTime == old(lastScanTime)
      ensures Outcome(Planned(uniqueId, lastScanTime, lastScan), sent, end, sessionId, chunkId,
                      clock(0), clock, timedOut, lastScanTime.None?)
    {
      chunkId := chunkId + 1;
      var infos := Planned(uniqueId, lastScanTime, lastScan);
      var timeout;
      sent, timeout := SendLines(infos, sessionId, chunkId, clock, timedOut);
      end := if timeout then TimedOut else if lastScanTime.None? then TimeMissing else AllSent;
    }
  }

  /** `search_for_ap`: `scan` is what `sta_if.scan()` returned (`None` when
      it or the loop over it raised) and `connects(ssid)` whether connecting
      to that network succeeded within the wait.  `tried` are the networks
      tried, in order. */
  method SearchForAp(scan: Option<seq<ScanEntry>>, now: int, connects: seq<byte> -> bool, session: TelemetrySession)
    returns (ok: bool, tried: seq<seq<byte>>)
    modifies session
    ensures scan.None? ==> !ok && tried == [] && unchanged(session)
    ensures scan.Some? ==>
      && session.lastScan == Some(Sightings(scan.value)) && session.lastScanTime == Some(now)
      && session.sessionId == old(session.sessionId) && session.chunkId == old(session.chunkId)
    ensures scan.Some? ==>
      var candidates := Candidates(scan.value);
      && |tried| <= |candidates| && tried == candidates[..|tried|]
      && (forall i :: 0 <= i < |tried| - 1 ==> !connects(tried[i]))
      && (ok <==> tried != [] && connects(tried[|tried| - 1]))
      && (!ok ==> tried == candidates)
  {
    if scan.None? {
      return false, [];
    }
    var ssidList := CollectOpenSsids(scan.value);
    session.StoreScan(scan.value, now);
    tried := [];
    for i := 0 to |ssidList|
      invariant tried == ssidList[..i]
      invariant forall k :: 0 <= k < i ==> !connects(ssidList[k])
    {
      tried := tried + [ssidList[i]];
      if connects(ssidList[i]) {
        return true, tried;
      }
    }
    return false, tried;
  }
}

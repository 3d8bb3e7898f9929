/**
 * The server-side decoding of a tracker message in `geolocate.py`: the raw
 * information of a message is a list of lines such as `machine-…`,
 * `time-…`, `ap-<mac>-<strength>` and `eom`; the access-point lines are
 * collected with a normalised MAC address and handed to a geolocation
 * service, and the message gets a status and, possibly, a position.
 * The geolocation service (an HTTPS request answered in JSON) is a
 * parameter, and the database update is returned as a value.
 */
module Geolocate {
  import opened Base
  import opened Text
  import opened Sorting
  import Telemetry
  import Wscan

  // ---------------------------------------------------------- normalise_mac

  /** The two-character groups of `s`, upper-cased, for
      `n in range(len(s) // 2)`: a trailing odd character is dropped. */
  function MacGroups(s: string): (groups: seq<string>)
    ensures |groups| == |s| / 2
    ensures forall n :: 0 <= n < |groups| ==> groups[n] == Upper(s[2 * n..2 * n + 2])
  {
    seq(|s| / 2, n requires 0 <= n < |s| / 2 => Upper(s[2 * n..2 * n + 2]))
  }

  /** What `normalise_mac` returns: the address without its colons, cut into
      upper-cased pairs joined by colons. */
  function NormalisedMac(mac: string): string
  {
    Join(MacGroups(RemoveAll(mac, ':')), ':')
  }

  /** `normalise_mac(mac)`, with its loop over the pairs. */
  method NormaliseMac(mac: string) returns (r: string)
    ensures r == NormalisedMac(mac)
  {
    var stripped := RemoveAll(mac, ':');
    var chunks: seq<string> := [];
    for n := 0 to |stripped| / 2
      invariant chunks == MacGroups(stripped)[..n]
    {
      var chunk := stripped[n * 2..n * 2 + 2];
      chunks := chunks + [Upper(chunk)];
    }
    assert chunks == MacGroups(stripped);
    r := Join(chunks, ':');
  }

  /** A group of a normalised address: two characters, neither a colon
      nor a lower-case letter. */
  predicate IsPair(g: string)
  {
    |g| == 2 && ':' !in g && UpperChar(g[0]) == g[0] && UpperChar(g[1]) == g[1]
  }

  /** The shape of a normalised address: one group per pair of characters
      that are not colons, each group a pair as above, and splitting at the
      colons gives the groups back. */
  lemma NormalisedMacShape(mac: string)
    ensures var groups := MacGroups(RemoveAll(mac, ':'));
      && |groups| == (|mac| - Count(mac, ':')) / 2
      && (forall n :: 0 <= n < |groups| ==> IsPair(groups[n]))
      && NormalisedMac(mac) == Join(groups, ':')
      && (groups != [] ==> Split(NormalisedMac(mac), ':') == groups)
  {
    var groups := MacGroups(RemoveAll(mac, ':'));
    GroupsArePairs(RemoveAll(mac, ':'));
    if groups != [] {
      SplitJoin(groups, ':');
    }
  }

  lemma GroupsArePairs(s: string)
    requires ':' !in s
    ensures forall n :: 0 <= n < |MacGroups(s)| ==> IsPair(MacGroups(s)[n])
    ensures NoneContains(MacGroups(s), ':')
  {
    var groups := MacGroups(s);
    forall n | 0 <= n < |groups| ensures IsPair(groups[n]) {
      var g := groups[n];
      assert g == Upper(s[2 * n..2 * n + 2]);
      assert g[0] == UpperChar(s[2 * n]) && g[1] == UpperChar(s[2 * n + 1]);
    }
    NoneContainsEach(groups, ':');
  }

  /** Pairs run together are cut back into the same pairs. */
  lemma {:induction false} ConcatPairs(groups: seq<string>)
    requires forall n :: 0 <= n < |groups| ==> |groups[n]| == 2
    ensures |Concat(groups)| == 2 * |groups|
    ensures forall n :: 0 <= n < |groups| ==> Concat(groups)[2 * n..2 * n + 2] == groups[n]
    decreases |groups|
  {
    if groups != [] {
      var tail := groups[1..];
      ConcatPairs(tail);
      var all := Concat(groups);
      assert all == groups[0] + Concat(tail);
      forall n | 0 <= n < |groups| ensures all[2 * n..2 * n + 2] == groups[n] {
        if n > 0 {
          assert all[2 * n..2 * n + 2] == Concat(tail)[2 * (n - 1)..2 * (n - 1) + 2];
          assert tail[n - 1] == groups[n];
        }
      }
    }
  }

  /** `normalise_mac` is idempotent: a normalised address is its own
      normal form. */
  lemma NormaliseMacIdempotent(mac: string)
    ensures NormalisedMac(NormalisedMac(mac)) == NormalisedMac(mac)
  {
    var groups := MacGroups(RemoveAll(mac, ':'));
    GroupsArePairs(RemoveAll(mac, ':'));
    RemoveAllJoin(groups, ':');
    ConcatPairs(groups);
    var again := MacGroups(Concat(groups));
    forall n | 0 <= n < |groups| ensures again[n] == groups[n] {
      assert again[n] == Upper(groups[n]);
    }
    assert again == groups;
  }

  // -------------------------------------------------------- entry parsing

  /** One access point as `process_message` collects it. */
  datatype Ap = Ap(mac: string, strength: int)

  /** The exceptions an entry can raise: `IndexError` when `bits[1]` or
      `bits[2]` is missing, `ValueError` when `int(bits[2])` refuses. */
  datatype EntryError = MissingField | BadStrength

  /** One iteration of the loop of `process_message`: `entry.split('-', 2)`,
      and for an entry whose first field is `ap` the normalised address and
      the strength; any other entry contributes nothing. */
  function ParseEntry(entry: string): Result<Option<Ap>, EntryError>
  {
    var bits := SplitN(entry, '-', 2);
    if bits[0] != "ap" then Ok(None)
    else if |bits| < 3 then Err(MissingField)
    else
      match ParseInt(bits[2])
      case None => Err(BadStrength)
      case Some(strength) => Ok(Some(Ap(NormalisedMac(bits[1]), strength)))
  }

  /** Only `ap` entries count: an entry contributes nothing exactly when it
      is neither `ap` nor starts with `ap-`, and a bare `ap` raises. */
  lemma EntryKinds(entry: string)
    ensures ParseEntry(entry) == Ok(None) <==> !(entry == "ap" || StartsWith(entry, "ap-"))
    ensures entry == "ap" ==> ParseEntry(entry) == Err(MissingField)
  {
    FirstField(entry);
    if entry == "ap" {
      assert '-' !in entry;
      assert SplitN(entry, '-', 2) == ["ap"];
    }
  }

  /** The first field of `entry.split('-', 2)` is `ap` exactly for `ap`
      itself and for entries starting with `ap-`. */
  lemma FirstField(entry: string)
    ensures SplitN(entry, '-', 2)[0] == "ap" <==> entry == "ap" || StartsWith(entry, "ap-")
  {
    if StartsWith(entry, "ap-") {
      assert entry == "ap" + ['-'] + entry[3..];
      SplitNAfter(entry, "ap", entry[3..], '-', 2);
    } else {
      var i := IndexOf(entry, '-');
      if i.Some? {
        var k := i.value;
        assert SplitN(entry, '-', 2)[0] == entry[..k];
        assert |entry[..k]| == 2 && entry[k] == '-' ==> entry[..3] == entry[..k] + [entry[k]];
      } else {
        assert SplitN(entry, '-', 2)[0] == entry;
      }
    }
  }

  /** An `ap-` line as the tracker writes it is read back: the address is
      normalised and the strength recovered, a negative one included
      (`ap-<mac>--60` has strength `-60`, since only two cuts are made). */
  lemma ApEntryRoundTrip(mac: string, strength: int)
    requires '-' !in mac
    ensures ParseEntry("ap-" + mac + "-" + Decimal(strength)) == Ok(Some(Ap(NormalisedMac(mac), strength)))
  {
    ApFields(mac, Decimal(strength));
    ParseDecimal(strength);
  }

  /** `'ap-%s-%s'` cut twice at `-` gives its three fields back when the
      middle one has no `-`. */
  lemma ApFields(mac: string, rest: string)
    requires '-' !in mac
    ensures SplitN("ap-" + mac + "-" + rest, '-', 2) == ["ap", mac, rest]
  {
    var entry := "ap-" + mac + "-" + rest;
    var tail := mac + ['-'] + rest;
    assert entry == "ap" + ['-'] + tail;
    SplitNAfter(entry, "ap", tail, '-', 2);
    SplitNAfter(tail, mac, rest, '-', 1);
  }

  /** The tracker formats its addresses with `hex_str`, which never
      produces a `-`, so every access-point line it sends is read back. */
  lemma DeviceApEntry(bssid: seq<byte>, strength: int)
    ensures ParseEntry("ap-" + Hexlify(bssid) + "-" + Decimal(strength))
      == Ok(Some(Ap(NormalisedMac(Hexlify(bssid)), strength)))
  {
    ApEntryRoundTrip(Hexlify(bssid), strength);
  }

  /** Every `ap-` line that `store_scan` of `telemetry.py` writes to the data
      file, decoded as the server receives it, is read back as the BSSID of
      its scan entry, normalised, and the entry's signal strength. */
  lemma StoredApLineReadBack(scan: seq<ScanEntry>)
    ensures forall i :: 0 <= i < |scan| ==>
      ParseEntry(Chars(Telemetry.ApLines(scan)[i])) == Ok(Some(Ap(NormalisedMac(Hexlify(scan[i].bssid)), scan[i].rssi)))
  {
    forall i | 0 <= i < |scan|
      ensures ParseEntry(Chars(Telemetry.ApLines(scan)[i])) == Ok(Some(Ap(NormalisedMac(Hexlify(scan[i].bssid)), scan[i].rssi)))
    {
      var text := "ap-" + Hexlify(scan[i].bssid) + "-" + Decimal(scan[i].rssi);
      assert Telemetry.ApLines(scan)[i] == Bytes(text);
      CharsBytes(text);
      DeviceApEntry(scan[i].bssid, scan[i].rssi);
    }
  }

  /** Every `ap-` line that `maybe_send_chunk` of `wscan.py` sends for the scan
      `store_scan` kept is read back as the BSSID of its scan entry,
      normalised, and the entry's signal strength: `store_scan` keeps what
      the server needs. */
  lemma SentApInfoReadBack(scan: seq<ScanEntry>)
    ensures |Wscan.ApInfos(Some(Wscan.Sightings(scan)))| == |scan|
    ensures forall i :: 0 <= i < |scan| ==>
      ParseEntry(Wscan.ApInfos(Some(Wscan.Sightings(scan)))[i]) == Ok(Some(Ap(NormalisedMac(Hexlify(scan[i].bssid)), scan[i].rssi)))
  {
    forall i | 0 <= i < |scan|
      ensures ParseEntry(Wscan.ApInfos(Some(Wscan.Sightings(scan)))[i]) == Ok(Some(Ap(NormalisedMac(Hexlify(scan[i].bssid)), scan[i].rssi)))
    {
      DeviceApEntry(scan[i].bssid, scan[i].rssi);
    }
  }

  /** The result of each entry, in order. */
  function ParseAll(entries: seq<string>): (results: seq<Result<Option<Ap>, EntryError>>)
    ensures |results| == |entries|
    ensures forall i :: 0 <= i < |entries| ==> results[i] == ParseEntry(entries[i])
  {
    seq(|entries|, i requires 0 <= i < |entries| => ParseEntry(entries[i]))
  }

  /** The access points of a run of entry results, in order; the first
      exception stops the run. */
  function Collect(results: seq<Result<Option<Ap>, EntryError>>): Result<seq<Ap>, EntryError>
    decreases |results|
  {
    if results == [] then Ok([])
    else
      var before := Collect(results[..|results| - 1]);
      if before.Err? then before
      else
        match results[|results| - 1]
        case Err(e) => Err(e)
        case Ok(None) => before
        case Ok(Some(ap)) => Ok(before.value + [ap])
  }

  /** The access points `process_message` collects from the sorted entries. */
  function Aps(entries: seq<string>): Result<seq<Ap>, EntryError>
  {
    Collect(ParseAll(entries))
  }

  /** A run raises exactly when one of its entries raises, and then with
      the exception of the first such entry. */
  lemma {:induction false} CollectError(results: seq<Result<Option<Ap>, EntryError>>)
    ensures Collect(results).Err? <==> exists i :: 0 <= i < |results| && results[i].Err?
    ensures Collect(results).Err? ==>
      exists i :: (0 <= i < |results| && results[i] == Err(Collect(results).error)
        && forall j :: 0 <= j < i ==> results[j].Ok?)
    decreases |results|
  {
    if results != [] {
      var init := results[..|results| - 1];
      CollectError(init);
      assert forall i :: 0 <= i < |init| ==> init[i] == results[i];
    }
  }

  /** The access points a run of entry results gives, read from the front:
      one for each `Ok(Some(ap))`, in the order of the entries, and none for
      the other results. */
  function Found(results: seq<Result<Option<Ap>, EntryError>>): (aps: seq<Ap>)
    ensures |aps| <= |results|
    decreases |results|
  {
    if results == [] then []
    else
      (if results[0].Ok? && results[0].value.Some? then [results[0].value.value] else [])
      + Found(results[1..])
  }

  /** One more result at the back adds what it gives at the back. */
  lemma {:induction false} FoundSnoc(results: seq<Result<Option<Ap>, EntryError>>, last: Result<Option<Ap>, EntryError>)
    ensures Found(results + [last]) == Found(results) + Found([last])
    decreases |results|
  {
    if results != [] {
      assert (results + [last])[1..] == results[1..] + [last];
      FoundSnoc(results[1..], last);
    }
  }

  /** The access points found are exactly those some result gives. */
  lemma {:induction false} FoundMembers(results: seq<Result<Option<Ap>, EntryError>>)
    ensures forall ap :: ap in Found(results) <==>
      exists i :: 0 <= i < |results| && results[i] == Ok(Some(ap))
    decreases |results|
  {
    if results != [] {
      FoundMembers(results[1..]);
      assert forall i :: 1 <= i < |results| ==> results[1..][i - 1] == results[i];
    }
  }

  /** Without an exception, the loop collects exactly the access points the
      entries give, one per `ap` entry and in the order of the entries. */
  lemma {:induction false} CollectMembers(results: seq<Result<Option<Ap>, EntryError>>)
    requires Collect(results).Ok?
    ensures Collect(results).value == Found(results)
    decreases |results|
  {
    if results != [] {
      var init := results[..|results| - 1];
      CollectMembers(init);
      assert results == init + [results[|results| - 1]];
      FoundSnoc(init, results[|results| - 1]);
    }
  }

  /** The loop of `process_message` raises exactly when some entry raises,
      and then with the exception of the first such entry; otherwise it
      collects, in order, one access point per `ap` entry. */
  lemma ApsMeaning(entries: seq<string>)
    ensures Aps(entries).Err? <==> exists i :: 0 <= i < |entries| && ParseEntry(entries[i]).Err?
    ensures Aps(entries).Err? ==>
      exists i :: (0 <= i < |entries| && ParseEntry(entries[i]) == Err(Aps(entries).error)
        && forall j :: 0 <= j < i ==> ParseEntry(entries[j]).Ok?)
    ensures Aps(entries).Ok? ==> Aps(entries).value == Found(ParseAll(entries))
    ensures Aps(entries).Ok? ==> forall ap :: ap in Aps(entries).value <==>
      exists i :: 0 <= i < |entries| && ParseEntry(entries[i]) == Ok(Some(ap))
  {
    CollectError(ParseAll(entries));
    if Aps(entries).Ok? {
      CollectMembers(ParseAll(entries));
      FoundMembers(ParseAll(entries));
    }
  }

  /** An error in a prefix is the error of the whole run. */
  lemma {:induction false} CollectErrorStays(results: seq<Result<Option<Ap>, EntryError>>, k: nat)
    requires k <= |results| && Collect(results[..k]).Err?
    ensures Collect(results) == Collect(results[..k])
    decreases |results| - k
  {
    if k < |results| {
      assert results[..k + 1][..k] == results[..k];
      CollectErrorStays(results, k + 1);
    } else {
      assert results[..k] == results;
    }
  }

  // ------------------------------------------------------ process_message

  /** Python's order on `str`: code points compared lexicographically. */
  function CodePoints(s: string): (codes: seq<int>)
    ensures |codes| == |s|
    ensures forall i :: 0 <= i < |s| ==> codes[i] == s[i] as int
  {
    seq(|s|, i requires 0 <= i < |s| => s[i] as int)
  }

  predicate StrLess(a: string, b: string)
  {
    LexLess(CodePoints(a), CodePoints(b))
  }

  lemma StrOrder()
    ensures StrictTotalOrder(StrLess)
  {
    forall a: string ensures !StrLess(a, a) { LexIrreflexive(CodePoints(a)); }
    forall a: string, b: string, c: string | StrLess(a, b) && StrLess(b, c)
      ensures StrLess(a, c)
    {
      LexTransitive(CodePoints(a), CodePoints(b), CodePoints(c));
    }
    forall a: string, b: string | a != b ensures StrLess(a, b) || StrLess(b, a) {
      CodePointsInjective(a, b);
      LexTotal(CodePoints(a), CodePoints(b));
    }
  }

  lemma CodePointsInjective(a: string, b: string)
    ensures CodePoints(a) == CodePoints(b) ==> a == b
  {
    if CodePoints(a) == CodePoints(b) {
      assert forall i :: 0 <= i < |a| ==> a[i] as int == b[i] as int;
    }
  }

  /** `map(lambda s: s.strip(), entries)`. */
  function StripAll(lines: seq<string>): (r: seq<string>)
    ensures |r| == |lines|
    ensures forall i :: 0 <= i < |lines| ==> r[i] == Strip(lines[i])
  {
    seq(|lines|, i requires 0 <= i < |lines| => Strip(lines[i]))
  }

  /** `sorted(set(map(strip, raw_info.split('\n'))))`. */
  function Entries(rawInfo: string): seq<string>
  {
    SortedSet(StripAll(Split(rawInfo, '\n')), StrLess)
  }

  /** The entries are the distinct stripped lines, in increasing order. */
  lemma EntriesMeaning(rawInfo: string)
    ensures StrictlySorted(Entries(rawInfo), StrLess)
    ensures forall e :: e in Entries(rawInfo) <==> e in StripAll(Split(rawInfo, '\n'))
  {
    StrOrder();
    SortedSetCorrect(StripAll(Split(rawInfo, '\n')), StrLess);
  }

  /** A location as the geolocation service reports it. */
  datatype Location = Location(lat: real, lon: real)

  /** What `process_message` writes to the database: the status, and the
      position when `lat` is written. */
  datatype Update = Update(status: string, position: Option<Location>)

  /** The outcome of `process_message` for the raw information of a message,
      with `locate` standing for `geolocate`: an exception from an entry, or
      the update. */
  function Processed(rawInfo: string, locate: seq<Ap> -> Option<Location>): Result<Update, EntryError>
  {
    Outcome(Entries(rawInfo), locate)
  }

  /** The outcome for the sorted entries. */
  function Outcome(entries: seq<string>, locate: seq<Ap> -> Option<Location>): Result<Update, EntryError>
  {
    match Aps(entries)
    case Err(e) => Err(e)
    case Ok(aps) =>
      if |aps| > 1 && locate(aps).Some? then
        var where := locate(aps).value;
        Ok(Update("OK", if where.lat != 0.0 then Some(where) else None))
      else Ok(Update("ERROR", None))
  }

  /** The status is `OK` exactly when more than one access point was
      collected and the service found a location, `ERROR` otherwise; a
      position is written only with a location, and not when its latitude
      is zero (`if lat:`). */
  lemma StatusRule(rawInfo: string, locate: seq<Ap> -> Option<Location>)
    ensures Processed(rawInfo, locate).Err? <==> Aps(Entries(rawInfo)).Err?
    ensures Processed(rawInfo, locate).Ok? ==>
      var u := Processed(rawInfo, locate).value;
      var aps := Aps(Entries(rawInfo)).value;
      && (u.status == "OK" <==> |aps| > 1 && locate(aps).Some?)
      && (u.status == "OK" || u.status == "ERROR")
      && (u.position.Some? <==> u.status == "OK" && locate(aps).value.lat != 0.0)
      && (u.position.Some? ==> u.position == locate(aps))
  {
  }

  /** `process_message(db, id, raw_info)`. */
  method ProcessMessage(rawInfo: string, locate: seq<Ap> -> Option<Location>) returns (r: Result<Update, EntryError>)
    ensures r == Processed(rawInfo, locate)
  {
    var entries := Entries(rawInfo);
    r := ProcessEntries(entries, locate);
  }

  /** The loop of `process_message` over the sorted entries, then the
      status and the position. */
  method ProcessEntries(entries: seq<string>, locate: seq<Ap> -> Option<Location>) returns (r: Result<Update, EntryError>)
    ensures r == Outcome(entries, locate)
  {
    ghost var results := ParseAll(entries);
    var aps: seq<Ap> := [];
    for i := 0 to |entries|
      invariant Collect(results[..i]) == Ok(aps)
    {
      var entry := entries[i];
      var bits := SplitN(entry, '-', 2);
      assert results[..i + 1][..i] == results[..i];
      if bits[0] == "ap" {
        if |bits| < 3 {
          CollectErrorStays(results, i + 1);
          return Err(MissingField);
        }
        var mac := NormaliseMac(bits[1]);
        var strength := ParseInt(bits[2]);
        if strength.None? {
          CollectErrorStays(results, i + 1);
          return Err(BadStrength);
        }
        aps := aps + [Ap(mac, strength.value)];
      }
    }
    assert results[..|entries|] == results;
    var status := "ERROR";
    var position: Option<Location> := None;
    if |aps| > 1 {
      var where := locate(aps);
      if where.Some? {
        status := "OK";
        if where.value.lat != 0.0 {
          position := Some(where.value);
        }
      }
    }
    return Ok(Update(status, position));
  }

  /** The outcome depends only on the set of stripped lines: the order of
      the lines, repeated lines and surrounding whitespace make no
      difference. */
  lemma SameLinesSameOutcome(raw1: string, raw2: string, locate: seq<Ap> -> Option<Location>)
    requires forall e :: e in StripAll(Split(raw1, '\n')) <==> e in StripAll(Split(raw2, '\n'))
    ensures Processed(raw1, locate) == Processed(raw2, locate)
  {
    assert Entries(raw1) == Entries(raw2) by {
      EntriesMeaning(raw1);
      EntriesMeaning(raw2);
      StrOrder();
      SortedUnique(Entries(raw1), Entries(raw2), StrLess);
    }
  }

  /** A message with fewer than two access points is marked as an error
      whatever the geolocation service would say. */
  lemma TooFewAps(rawInfo: string, locate: seq<Ap> -> Option<Location>)
    requires Aps(Entries(rawInfo)).Ok? && |Aps(Entries(rawInfo)).value| <= 1
    ensures Processed(rawInfo, locate) == Ok(Update("ERROR", None))
  {
  }
}

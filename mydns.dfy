/**
 * `DynamicResolver` of `mydns.py`: the DNS server that answers the tracker.
 * A query name is accepted when it lies under one of the configured zones;
 * the part in front of the zone picks a fixed address, the current time
 * encoded as an address, or a definite "no such name".  Names are the text
 * form of a DNS label, with the trailing dot.  The packet encoding, the
 * server thread and the query log are not part of this model.
 */
module Dns {
  import opened Base
  import opened Text

  /** The zones the server answers for, in the order they are tried. */
  const PossibleOrigins: seq<string> := ["example.test.", "mr8266.tk."]

  /** The time to live of the fixed answers. */
  const DefaultTtl: int := 120

  /** The short time to live of the clock answer. */
  const TimeTtl: int := 5

  /** `2 ** 32`: `time_ip` packs its value as an unsigned 32-bit integer. */
  const TwoTo32: int := 0x1_0000_0000

  /** What `resolve` answers: a server failure, a definite "no such name",
      one A record, or `struct.error` escaping from `time_ip` when the seconds
      do not fit in 32 bits. */
  datatype Reply = ServFail | NxDomain | A(address: string, ttl: int) | TimeOutOfRange

  // ---------------------------------------------------------------- zones

  /** The zone suffix `'.' + origin` that a name must end with. */
  function Suffix(origin: string): string
  {
    "." + origin
  }

  /** The origin that `resolve` settles on among `origins`: the last one
      whose suffix ends the name, since each match overwrites the previous. */
  function LastMatch(qname: string, origins: seq<string>): (r: Option<string>)
    ensures r.None? <==> forall i :: 0 <= i < |origins| ==> !EndsWith(qname, Suffix(origins[i]))
    ensures r.Some? ==> exists i ::
      && 0 <= i < |origins| && origins[i] == r.value && EndsWith(qname, Suffix(r.value))
      && forall j :: i < j < |origins| ==> !EndsWith(qname, Suffix(origins[j]))
    decreases |origins|
  {
    if origins == [] then None
    else
      var last := origins[|origins| - 1];
      if EndsWith(qname, Suffix(last)) then Some(last)
      else
        var r := LastMatch(qname, origins[..|origins| - 1]);
        assert forall j :: 0 <= j < |origins| - 1 ==> origins[..|origins| - 1][j] == origins[j];
        r
  }

  /** The loop of `resolve` over `possible_origins`. */
  method MatchOrigin(qname: string) returns (good: Option<string>)
    ensures good == LastMatch(qname, PossibleOrigins)
  {
    good := None;
    for i := 0 to |PossibleOrigins|
      invariant good == LastMatch(qname, PossibleOrigins[..i])
    {
      var origin := PossibleOrigins[i];
      var suffix := "." + origin;
      assert PossibleOrigins[..i + 1][..i] == PossibleOrigins[..i];
      if EndsWith(qname, suffix) {
        good := Some(origin);
      }
    }
    assert PossibleOrigins[..|PossibleOrigins|] == PossibleOrigins;
  }

  /** `str(qname)[:(- len(good_origin) - 1)]`: the name without its zone. */
  function LocalName(qname: string, origin: string): (local: string)
    requires EndsWith(qname, Suffix(origin))
    ensures qname == local + Suffix(origin)
  {
    qname[..|qname| - |origin| - 1]
  }

  /** Every name under `mr8266.tk.` is taken to be in that zone, whatever
      precedes it, and stripping the zone gives the front part back. */
  lemma TrackerZone(local: string)
    ensures LastMatch(local + Suffix("mr8266.tk."), PossibleOrigins) == Some("mr8266.tk.")
    ensures LocalName(local + Suffix("mr8266.tk."), "mr8266.tk.") == local
  {
    var qname := local + Suffix("mr8266.tk.");
    assert qname[|qname| - |Suffix("mr8266.tk.")|..] == Suffix("mr8266.tk.");
    assert PossibleOrigins[1] == "mr8266.tk.";
  }

  /** A name that ends in neither `.example.test.` nor `.mr8266.tk.` finds
      no origin, whatever else it looks like. */
  lemma ForeignName(qname: string)
    requires !EndsWith(qname, ".example.test.") && !EndsWith(qname, ".mr8266.tk.")
    ensures LastMatch(qname, PossibleOrigins) == None
  {
    assert Suffix(PossibleOrigins[0]) == ".example.test.";
    assert Suffix(PossibleOrigins[1]) == ".mr8266.tk.";
  }

  /** `www.example.com.` ends in neither zone. */
  lemma ExampleIsForeign()
    ensures !EndsWith("www.example.com.", ".example.test.") && !EndsWith("www.example.com.", ".mr8266.tk.")
  {
    var q := "www.example.com.";
    assert q[|q| - |".mr8266.tk."|..][1] != ".mr8266.tk."[1];
    assert q[|q| - |".example.test."|..][8] != ".example.test."[8];
  }

  // ------------------------------------------------------------ time_ip

  /** `struct.pack('>I', secs)`: the four bytes of `secs`, most significant first. */
  function Octets(secs: int): (o: seq<byte>)
    requires 0 <= secs < TwoTo32
    ensures |o| == 4
  {
    [secs / 0x100_0000, secs / 0x1_0000 % 256, secs / 0x100 % 256, secs % 256]
  }

  /** `socket.inet_ntoa`: the bytes in decimal, separated by dots. */
  function DottedQuad(o: seq<byte>): (s: string)
  {
    Join(Decimals(o), '.')
  }

  /** The decimal text of each byte. */
  function Decimals(o: seq<byte>): (parts: seq<string>)
    ensures |parts| == |o|
    ensures forall i :: 0 <= i < |o| ==> parts[i] == Decimal(o[i])
  {
    seq(|o|, i requires 0 <= i < |o| => Decimal(o[i]))
  }

  /** `time_ip()` for the given seconds since 2000-01-01: the address whose
      four numbers are the bytes of the seconds; `None` when `struct.pack`
      refuses a value outside the unsigned 32-bit range. */
  function TimeIp(secs: int): (r: Option<string>)
    ensures r.Some? <==> 0 <= secs < TwoTo32
  {
    if 0 <= secs < TwoTo32 then Some(DottedQuad(Octets(secs))) else None
  }

  /** The four bytes give the seconds back: most significant first, each
      worth 256 times the next. */
  lemma OctetsValue(secs: int)
    requires 0 <= secs < TwoTo32
    ensures var o := Octets(secs);
      ((o[0] as int * 256 + o[1]) * 256 + o[2]) * 256 + o[3] == secs
  {
    var o := Octets(secs);
    var q := secs / 256;
    assert secs == q * 256 + o[3];
    var q2 := q / 256;
    assert q == q2 * 256 + o[2] by { assert secs / 0x100 % 256 == q % 256; }
    var q3 := q2 / 256;
    assert q2 == q3 * 256 + o[1] by { assert secs / 0x1_0000 == q2; }
    assert q3 == o[0] by { assert secs / 0x100_0000 == q3; }
  }

  // --------------------------------------------------------------- resolve

  /** `resolve` for the text form of the query name, with `secs` the
      seconds since 2000-01-01 that `time_ip` would read from the clock. */
  method Resolve(qname: string, secs: int) returns (reply: Reply)
    ensures LastMatch(qname, PossibleOrigins).None? ==> reply == ServFail
    ensures LastMatch(qname, PossibleOrigins).Some? ==>
      var local := LocalName(qname, LastMatch(qname, PossibleOrigins).value);
      && ((local == "test" || local == "test1") ==> reply == A("127.0.0.1", DefaultTtl))
      && (local == "test2" ==> reply == A("127.0.0.2", DefaultTtl))
      && (local == "time" ==>
            reply == if TimeIp(secs).Some? then A(TimeIp(secs).value, TimeTtl) else TimeOutOfRange)
      && (local !in {"test", "test1", "test2", "time"} ==> reply == NxDomain)
  {
    var good := MatchOrigin(qname);
    if good.None? {
      return ServFail;
    }
    var local := qname[..|qname| - |good.value| - 1];
    if local == "test" || local == "test1" {
      return A("127.0.0.1", DefaultTtl);
    }
    if local == "test2" {
      return A("127.0.0.2", DefaultTtl);
    }
    if local == "time" {
      var ip := TimeIp(secs);
      if ip.None? {
        return TimeOutOfRange;
      }
      return A(ip.value, TimeTtl);
    }
    return NxDomain;
  }
}

/**
 * Shared vocabulary: bytes, the Option/Result wrappers used for the error
 * paths of the modelled code, and the latin-1 correspondence between byte
 * strings and text that the Python code relies on when it mixes `bytes`
 * and `str` (`b'%s' % ...`, `str(data, 'ascii')`).
 */
module Base {

  /** One octet, as stored in a `bytes` or `bytearray`. */
  type byte = x: int | 0 <= x < 256

  datatype Option<+T> = None | Some(value: T)

  datatype Result<+T, +E> = Ok(value: T) | Err(error: E)

  /** A name lookup as `socket.getaddrinfo` reports it: it raises `OSError`,
      or it returns a (possibly empty) list whose entries carry an address. */
  datatype Lookup<+A> = LookupFailed | Addresses(addrs: seq<A>)

  /** One entry of `WLAN.scan()`: `(ssid, bssid, channel, RSSI, authmode, hidden)`. */
  datatype ScanEntry = ScanEntry(ssid: seq<byte>, bssid: seq<byte>, channel: int, rssi: int, authMode: int, hidden: int)

  /** True when every character of `s` fits in one byte. */
  predicate IsByteText(s: string)
  {
    forall i :: 0 <= i < |s| ==> s[i] as int < 256
  }

  /** True when every character of `s` is 7-bit ASCII. */
  predicate IsAscii(s: string)
  {
    forall i :: 0 <= i < |s| ==> s[i] as int < 128
  }

  /** Encodes text whose characters all fit in a byte. */
  function Bytes(s: string): (b: seq<byte>)
    requires IsByteText(s)
    ensures |b| == |s|
    ensures forall i :: 0 <= i < |s| ==> b[i] == s[i] as int
  {
    seq(|s|, i requires 0 <= i < |s| => s[i] as int)
  }

  /** Decodes bytes one character per byte (latin-1). */
  function Chars(b: seq<byte>): (s: string)
    ensures |s| == |b|
    ensures forall i :: 0 <= i < |b| ==> s[i] as int == b[i]
    ensures IsByteText(s)
  {
    seq(|b|, i requires 0 <= i < |b| => b[i] as char)
  }

  lemma CharsBytes(s: string)
    requires IsByteText(s)
    ensures Chars(Bytes(s)) == s
  {
  }

  lemma BytesChars(b: seq<byte>)
    ensures Bytes(Chars(b)) == b
  {
  }

  lemma BytesAppend(s: string, t: string)
    requires IsByteText(s) && IsByteText(t)
    ensures IsByteText(s + t) && Bytes(s + t) == Bytes(s) + Bytes(t)
  {
  }
}

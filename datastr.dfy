/**
 * `RecentStrings`: a fixed-size `bytearray` holding null-terminated byte
 * strings, newest first.  Adding a string shifts the whole buffer right and
 * writes the string at the front, so whatever straddles the end is cut off;
 * membership is a prefix test or a search for `\0 s \0`, which is why a
 * string cut at the end can stop being found.
 */
module Datastr {
  import opened Base

  /** Python's `needle in hay` on byte strings. */
  predicate Occurs(needle: seq<byte>, hay: seq<byte>)
    decreases |hay|
  {
    |needle| <= |hay| && (hay[..|needle|] == needle || Occurs(needle, hay[1..]))
  }

  /** `needle` sits at position `i` of `hay`. */
  predicate OccursAt(needle: seq<byte>, hay: seq<byte>, i: int)
  {
    0 <= i && i + |needle| <= |hay| && hay[i..i + |needle|] == needle
  }

  /** The substring search finds exactly the positions where the needle sits. */
  lemma {:induction false} OccursIffSomePosition(needle: seq<byte>, hay: seq<byte>)
    ensures Occurs(needle, hay) <==> exists i :: OccursAt(needle, hay, i)
    decreases |hay|
  {
    if |needle| <= |hay| && hay[..|needle|] != needle {
      OccursIffSomePosition(needle, hay[1..]);
      if Occurs(needle, hay[1..]) {
        var i :| OccursAt(needle, hay[1..], i);
        assert hay[i + 1..i + 1 + |needle|] == hay[1..][i..i + |needle|];
        assert OccursAt(needle, hay, i + 1);
      }
      if i :| OccursAt(needle, hay, i) {
        assert i != 0;
        assert hay[1..][i - 1..i - 1 + |needle|] == hay[i..i + |needle|];
        assert OccursAt(needle, hay[1..], i - 1);
      }
    } else if |needle| <= |hay| {
      assert OccursAt(needle, hay, 0);
    }
  }

  /** What `s in recent` answers for buffer contents `buf`, given `len(s) < len(buf)`. */
  predicate InBuffer(buf: seq<byte>, s: seq<byte>)
    requires |s| < |buf|
  {
    (buf[|s|] == 0 && buf[..|s|] == s) || Occurs([0] + s + [0], buf)
  }

  /** The prefix test of `__contains__`, stated as a prefix. */
  lemma PrefixForm(buf: seq<byte>, s: seq<byte>)
    requires |s| < |buf|
    ensures buf[..|s| + 1] == s + [0] <==> buf[|s|] == 0 && buf[..|s|] == s
  {
    if buf[..|s| + 1] == s + [0] {
      assert buf[..|s|] == buf[..|s| + 1][..|s|];
    }
    if buf[|s|] == 0 && buf[..|s|] == s {
      assert buf[..|s| + 1] == buf[..|s|] + [buf[|s|]];
    }
  }

  /** `\0 s \0` sits at `i`, spelled out byte by byte. */
  predicate DelimitedAt(buf: seq<byte>, s: seq<byte>, i: int)
  {
    0 <= i && i + |s| + 2 <= |buf| && buf[i] == 0 && buf[i + 1..i + 1 + |s|] == s && buf[i + 1 + |s|] == 0
  }

  lemma NeedleForm(buf: seq<byte>, s: seq<byte>, i: int)
    ensures OccursAt([0] + s + [0], buf, i) <==> DelimitedAt(buf, s, i)
  {
    var needle := [0] + s + [0];
    assert |needle| == |s| + 2;
    if OccursAt(needle, buf, i) {
      var w := buf[i..i + |needle|];
      forall k | 0 <= k < |s| ensures buf[i + 1..i + 1 + |s|][k] == s[k] {
        assert buf[i + 1 + k] == w[1 + k] == needle[1 + k];
      }
      assert buf[i] == w[0] && buf[i + 1 + |s|] == w[1 + |s|];
    }
    if DelimitedAt(buf, s, i) {
      assert buf[i..i + |needle|] == [buf[i]] + buf[i + 1..i + 1 + |s|] + [buf[i + 1 + |s|]];
    }
  }

  /** `s` is found exactly when it starts the buffer with its terminator, or
      appears somewhere between two zero bytes. */
  lemma InBufferMeaning(buf: seq<byte>, s: seq<byte>)
    requires |s| < |buf|
    ensures InBuffer(buf, s) <==> buf[..|s| + 1] == s + [0] || exists i :: DelimitedAt(buf, s, i)
  {
    var needle := [0] + s + [0];
    OccursIffSomePosition(needle, buf);
    PrefixForm(buf, s);
    if Occurs(needle, buf) {
      var i :| OccursAt(needle, buf, i);
      NeedleForm(buf, s, i);
    }
    if i :| DelimitedAt(buf, s, i) {
      NeedleForm(buf, s, i);
    }
  }

  /** The buffer after `add(s)`: unchanged when `s` is already found,
      otherwise `s`, a zero byte, and the old buffer cut to fit. */
  function Added(buf: seq<byte>, s: seq<byte>): (r: seq<byte>)
    requires |s| < |buf|
    ensures |r| == |buf|
  {
    if InBuffer(buf, s) then buf else s + [0] + buf[..|buf| - |s| - 1]
  }

  /** After `add(s)`, `s` is found; when it was new, the buffer now begins
      with `s` and its terminator. */
  lemma AddedStartsWith(buf: seq<byte>, s: seq<byte>)
    requires |s| < |buf|
    ensures InBuffer(Added(buf, s), s)
    ensures !InBuffer(buf, s) ==> Added(buf, s)[..|s| + 1] == s + [0]
  {
    var r := Added(buf, s);
    if !InBuffer(buf, s) {
      assert r == s + [0] + buf[..|buf| - |s| - 1];
      assert r[..|s|] == s;
      assert r[..|s| + 1] == s + [0];
    }
  }

  /** A second `add(s)` changes nothing. */
  lemma AddedIdempotent(buf: seq<byte>, s: seq<byte>)
    requires |s| < |buf|
    ensures Added(Added(buf, s), s) == Added(buf, s)
  {
    AddedStartsWith(buf, s);
  }

  /** Adding a new string moves the old contents right by `len(s) + 1` and
      drops the old tail. */
  lemma AddedShifts(buf: seq<byte>, s: seq<byte>)
    requires |s| < |buf| && !InBuffer(buf, s)
    ensures Added(buf, s)[|s| + 1..] == buf[..|buf| - |s| - 1]
  {
  }

  /** A string that was found, and still fits completely after the shift,
      is still found: only strings pushed across the end can be lost. */
  lemma AddedKeeps(buf: seq<byte>, s: seq<byte>, t: seq<byte>)
    requires |s| < |buf| && |t| < |buf|
    requires || (buf[..|t|] == t && buf[|t|] == 0 && |s| + |t| + 2 <= |buf|)
             || (exists i :: OccursAt([0] + t + [0], buf, i) && i + |t| + |s| + 3 <= |buf|)
    ensures InBuffer(Added(buf, s), t)
  {
    if !InBuffer(buf, s) {
      var r := s + [0] + buf[..|buf| - |s| - 1];
      assert Added(buf, s) == r;
      if buf[..|t|] == t && buf[|t|] == 0 && |s| + |t| + 2 <= |buf| {
        ShiftedPrefix(buf, s, t, r);
      } else {
        var i :| OccursAt([0] + t + [0], buf, i) && i + |t| + |s| + 3 <= |buf|;
        ShiftedNeedle(buf, s, t, r, i);
      }
    } else {
      OccursIffSomePosition([0] + t + [0], buf);
    }
  }

  /** A string at the front of the buffer ends up right after the new
      string's terminator, which now delimits it. */
  lemma ShiftedPrefix(buf: seq<byte>, s: seq<byte>, t: seq<byte>, r: seq<byte>)
    requires |s| + |t| + 2 <= |buf| && buf[..|t|] == t && buf[|t|] == 0
    requires r == s + [0] + buf[..|buf| - |s| - 1]
    ensures Occurs([0] + t + [0], r)
  {
    var needle := [0] + t + [0];
    assert r[|s|..|s| + |needle|] == [0] + buf[..|t|] + [buf[|t|]];
    assert OccursAt(needle, r, |s|);
    OccursIffSomePosition(needle, r);
  }

  /** A delimited string that still fits after the shift stays delimited. */
  lemma ShiftedNeedle(buf: seq<byte>, s: seq<byte>, t: seq<byte>, r: seq<byte>, i: int)
    requires OccursAt([0] + t + [0], buf, i) && i + |t| + |s| + 3 <= |buf|
    requires r == s + [0] + buf[..|buf| - |s| - 1]
    ensures Occurs([0] + t + [0], r)
  {
    var needle := [0] + t + [0];
    assert r[i + |s| + 1..i + |s| + 1 + |needle|] == buf[i..i + |needle|];
    assert OccursAt(needle, r, i + |s| + 1);
    OccursIffSomePosition(needle, r);
  }

  /** Sizes 4: adding `ab` then `c` leaves `c\0ab`, with the terminator of
      `ab` cut off, so `ab` is no longer found. */
  lemma SloppyBoundary()
    ensures var buf := Added(Added([0, 0, 0, 0], [97, 98]), [99]);
      buf == [99, 0, 97, 98] && !InBuffer(buf, [97, 98])
  {
    var b0: seq<byte> := [0, 0, 0, 0];
    assert !InBuffer(b0, [97, 98]) by {
      assert b0[..4][1] == 0;
    }
    var b1 := Added(b0, [97, 98]);
    assert b1 == [97, 98, 0, 0];
    assert !InBuffer(b1, [99]) by {
      var needle: seq<byte> := [0, 99, 0];
      assert [0] + [99] + [0] == needle;
      assert b1[..3] != needle by { assert b1[..3][0] == 97; }
      assert b1[1..][..3] != needle by { assert b1[1..][..3][0] == 98; }
      assert !Occurs(needle, b1[1..][1..]);
      assert !Occurs(needle, b1[1..]);
    }
    var b2 := Added(b1, [99]);
    assert b2 == [99, 0, 97, 98];
    assert !InBuffer(b2, [97, 98]) by {
      assert b2[..4][0] == 99;
    }
  }

  class RecentStrings {
    /** The fixed-size `bytearray`, never reallocated. */
    const bytes: array<byte>

    /** `RecentStrings(size)`: a buffer of `size` zero bytes. */
    constructor (size: nat)
      ensures bytes.Length == size && fresh(bytes)
      ensures forall i :: 0 <= i < size ==> bytes[i] == 0
    {
      bytes := new byte[size](_ => 0);
    }

    /** `s in self`; `None` is the `IndexError` raised when `len(s)` is not
        a valid index of the buffer. */
    function Contains(s: seq<byte>): (r: Option<bool>)
      reads bytes
      ensures r.None? <==> |s| >= bytes.Length
      ensures r.Some? ==> (r.value <==> InBuffer(bytes[..], s))
    {
      if |s| >= bytes.Length then None
      else Some((bytes[|s|] == 0 && bytes[..|s|] == s) || Occurs([0] + s + [0], bytes[..]))
    }

    /** `add(s)`; `ok` is false when the membership test raises, which
        happens before anything is written. */
    method Add(s: seq<byte>) returns (ok: bool)
      modifies bytes
      ensures ok <==> |s| < bytes.Length
      ensures ok ==> bytes[..] == Added(old(bytes[..]), s)
      ensures !ok ==> bytes[..] == old(bytes[..])
    {
      var present := Contains(s);
      if present.None? {
        return false;
      }
      ok := true;
      if present.value {
        return;
      }
      var l := |s|;
      var l1 := l + 1;
      forall i | l1 <= i < bytes.Length {
        bytes[i] := bytes[i - l1];
      }
      forall i | 0 <= i < l {
        bytes[i] := s[i];
      }
      bytes[l] := 0;
      assert bytes[..] == s + [0] + old(bytes[..])[..bytes.Length - l1];
    }
  }
}

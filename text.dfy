/**
 * The few string operations of Python that the modelled code uses:
 * `%d`, `%04x`, `hexlify`, `int()`, `split`, `join`, `startswith`,
 * `endswith`, `strip`, `lower` and `upper`.  Everything works on `string`;
 * byte strings go through `Base.Chars`/`Base.Bytes`.
 */
module Text {
  import opened Base

  // ---------------------------------------------------------------- digits

  function DigitChar(d: nat): (c: char)
    requires d < 16
    ensures IsDigitValue(c, d) || 10 <= d
    ensures IsHexDigit(c)
  {
    if d < 10 then ('0' as int + d) as char else ('a' as int + d - 10) as char
  }

  predicate IsDigit(c: char)
  {
    '0' <= c <= '9'
  }

  predicate IsDigitValue(c: char, d: nat)
  {
    IsDigit(c) && c as int - '0' as int == d
  }

  predicate IsHexDigit(c: char)
  {
    IsDigit(c) || 'a' <= c <= 'f'
  }

  predicate AllDigits(s: string)
  {
    forall i :: 0 <= i < |s| ==> IsDigit(s[i])
  }

  // ------------------------------------------------------------ formatting

  /** Decimal digits of a natural number, most significant first, no leading zero. */
  function DecimalNat(n: nat): (s: string)
    ensures |s| >= 1 && AllDigits(s)
    ensures n > 0 ==> s[0] != '0'
    decreases n
  {
    if n < 10 then [DigitChar(n)] else DecimalNat(n / 10) + [DigitChar(n % 10)]
  }

  /** Python's `'%d' % n` (and `str(n)`) for an integer. */
  function Decimal(n: int): (s: string)
    ensures IsAscii(s) && '\n' !in s && ' ' !in s && '.' !in s && ',' !in s
    ensures n >= 0 ==> AllDigits(s)
    ensures n < 0 ==> |s| >= 2 && s[0] == '-' && AllDigits(s[1..])
  {
    if n < 0 then "-" + DecimalNat(-n) else DecimalNat(n)
  }

  /** Lower-case hexadecimal digits of a natural number, no leading zero. */
  function HexNat(n: nat): (s: string)
    ensures |s| >= 1 && IsAscii(s) && '.' !in s && '-' !in s
    ensures forall i :: 0 <= i < |s| ==> IsHexDigit(s[i])
    decreases n
  {
    if n < 16 then [DigitChar(n)] else HexNat(n / 16) + [DigitChar(n % 16)]
  }

  /** Left-pads `s` with `'0'` up to `width` characters. */
  function ZeroPad(s: string, width: nat): (r: string)
    ensures |r| == if |s| < width then width else |s|
    ensures r[|r| - |s|..] == s
    ensures forall i :: 0 <= i < |r| - |s| ==> r[i] == '0'
    ensures IsAscii(s) ==> IsAscii(r)
    ensures '.' !in s ==> '.' !in r
  {
    if |s| < width then seq(width - |s|, _ => '0') + s else s
  }

  /** Python's `'%04x' % n`: at least four characters, the sign counting
      towards the width, and more digits when the value needs them. */
  function Hex04(n: int): (s: string)
    ensures |s| >= 4
    ensures n >= 0 <==> s[0] != '-'
  {
    if n < 0 then "-" + ZeroPad(HexNat(-n), 3) else ZeroPad(HexNat(n), 4)
  }

  /** `'%04x' % n` is plain ASCII and has no dot. */
  lemma Hex04Chars(n: int)
    ensures IsAscii(Hex04(n)) && '.' !in Hex04(n)
  {
  }

  /** `ubinascii.hexlify(b)` read as text: two lower-case digits per byte. */
  function Hexlify(b: seq<byte>): (s: string)
    ensures IsAscii(s) && '\n' !in s && '.' !in s && ',' !in s && '-' !in s
    ensures |s| == 2 * |b|
    ensures forall i :: 0 <= i < |b| ==> s[2 * i] == DigitChar(b[i] / 16) && s[2 * i + 1] == DigitChar(b[i] % 16)
  {
    if b == [] then [] else [DigitChar(b[0] / 16), DigitChar(b[0] % 16)] + Hexlify(b[1..])
  }

  // --------------------------------------------------------------- parsing

  /** Value of a non-empty run of decimal digits. */
  function DigitsValue(s: string): (n: nat)
    requires AllDigits(s)
    decreases |s|
  {
    if s == [] then 0 else DigitsValue(s[..|s| - 1]) * 10 + (s[|s| - 1] as int - '0' as int)
  }

  /** Python's `int(s)` for base 10, restricted to an optional sign followed
      by one or more ASCII digits; `None` stands for the `ValueError`. */
  function ParseInt(s: string): (r: Option<int>)
    ensures r.Some? ==> |s| >= 1
    ensures r.Some? && r.value < 0 ==> s[0] == '-'
  {
    if |s| >= 1 && (s[0] == '-' || s[0] == '+') then
      var body := s[1..];
      if |body| >= 1 && AllDigits(body) then
        var v: int := if s[0] == '-' then -(DigitsValue(body) as int) else DigitsValue(body);
        Some(v)
      else None
    else if |s| >= 1 && AllDigits(s) then Some(DigitsValue(s))
    else None
  }

  lemma {:induction false} DigitsValueOfDecimal(n: nat)
    ensures DigitsValue(DecimalNat(n)) == n
    decreases n
  {
    var s := DecimalNat(n);
    if n >= 10 {
      DigitsValueOfDecimal(n / 10);
      assert s[..|s| - 1] == DecimalNat(n / 10);
    }
  }

  /** `int('%d' % n) == n` for every integer. */
  lemma ParseDecimal(n: int)
    ensures ParseInt(Decimal(n)) == Some(n)
  {
    var s := Decimal(n);
    if n < 0 {
      var d := DecimalNat(-n);
      assert s == "-" + d && s[1..] == d;
      DigitsValueOfDecimal(-n);
    } else {
      assert s == DecimalNat(n) && IsDigit(s[0]);
      DigitsValueOfDecimal(n);
    }
  }

  // ------------------------------------------------------- search, prefixes

  /** Index of the first occurrence of `c` in `s`, as `str.find` gives it. */
  function IndexOf<T(==)>(s: seq<T>, c: T): (r: Option<nat>)
    ensures r.Some? ==> r.value < |s| && s[r.value] == c && c !in s[..r.value]
    ensures r.None? <==> c !in s
  {
    if s == [] then None
    else if s[0] == c then Some(0)
    else
      var r := IndexOf(s[1..], c);
      assert forall k :: 0 <= k < |s| - 1 ==> s[1..][k] == s[k + 1];
      if r.None? then None else
        assert s[..r.value + 1] == [s[0]] + s[1..][..r.value];
        Some(r.value + 1)
  }

  /** In `a + [c] + b`, the first `c` is the one after `a` when `a` has none. */
  lemma IndexOfAfter<T>(a: seq<T>, b: seq<T>, c: T)
    requires c !in a
    ensures IndexOf(a + [c] + b, c) == Some(|a|)
    ensures (a + [c] + b)[..|a|] == a && (a + [c] + b)[|a| + 1..] == b
  {
    var s := a + [c] + b;
    assert s[|a|] == c && s[..|a|] == a;
  }

  predicate StartsWith<T(==)>(s: seq<T>, prefix: seq<T>)
  {
    |prefix| <= |s| && s[..|prefix|] == prefix
  }

  predicate EndsWith<T(==)>(s: seq<T>, suffix: seq<T>)
  {
    |suffix| <= |s| && s[|s| - |suffix|..] == suffix
  }

  // ------------------------------------------------------------ split, join

  /** Python's `s.split(c, limit)`: at most `limit` cuts, from the left. */
  function SplitN<T(==)>(s: seq<T>, c: T, limit: nat): (parts: seq<seq<T>>)
    ensures |parts| >= 1
    decreases |s|
  {
    var i := IndexOf(s, c);
    if i.None? || limit == 0 then [s]
    else [s[..i.value]] + SplitN(s[i.value + 1..], c, limit - 1)
  }

  /** Python's `s.split(c)`: there are never more than `|s|` cuts to make. */
  function Split<T(==)>(s: seq<T>, c: T): (parts: seq<seq<T>>)
    ensures |parts| >= 1
  {
    SplitN(s, c, |s|)
  }

  /** Python's `sep.join(parts)` for a one-character separator. */
  function Join<T>(parts: seq<seq<T>>, c: T): (s: seq<T>)
    ensures |parts| == 1 ==> s == parts[0]
    decreases |parts|
  {
    if parts == [] then []
    else if |parts| == 1 then parts[0]
    else parts[0] + [c] + Join(parts[1..], c)
  }

  lemma JoinCons<T>(x: seq<T>, rest: seq<seq<T>>, c: T)
    requires rest != []
    ensures Join([x] + rest, c) == x + [c] + Join(rest, c)
  {
    assert ([x] + rest)[1..] == rest;
  }

  /** Python's `''.join(parts)`. */
  function Concat<T>(parts: seq<seq<T>>): (s: seq<T>)
    decreases |parts|
  {
    if parts == [] then [] else parts[0] + Concat(parts[1..])
  }

  /** No element of `parts` contains `c`. */
  predicate NoneContains<T(==)>(parts: seq<seq<T>>, c: T)
    decreases |parts|
  {
    parts == [] || (c !in parts[0] && NoneContains(parts[1..], c))
  }

  lemma {:induction false} NoneContainsEach<T>(parts: seq<seq<T>>, c: T)
    requires forall i :: 0 <= i < |parts| ==> c !in parts[i]
    ensures NoneContains(parts, c)
    decreases |parts|
  {
    if parts != [] {
      assert forall i :: 0 <= i < |parts| - 1 ==> parts[1..][i] == parts[i + 1];
      NoneContainsEach(parts[1..], c);
    }
  }

  lemma {:induction false} JoinLength<T>(parts: seq<seq<T>>, c: T)
    requires |parts| >= 1
    ensures |Join(parts, c)| >= |parts| - 1
    decreases |parts|
  {
    if |parts| > 1 { JoinLength(parts[1..], c); }
  }

  /** Splitting a joined list gives the list back when no part contains the
      separator and the split may cut often enough. */
  lemma {:induction false} SplitNJoin<T>(parts: seq<seq<T>>, c: T, limit: nat)
    requires |parts| >= 1 && NoneContains(parts, c)
    requires limit >= |parts| - 1
    ensures SplitN(Join(parts, c), c, limit) == parts
    decreases |parts|
  {
    if |parts| > 1 {
      var rest := Join(parts[1..], c);
      var tail := SplitN(rest, c, limit - 1);
      assert tail == parts[1..] by { SplitNJoin(parts[1..], c, limit - 1); }
      assert SplitN(Join(parts, c), c, limit) == [parts[0]] + tail by {
        SplitNAfter(Join(parts, c), parts[0], rest, c, limit);
      }
      assert [parts[0]] + parts[1..] == parts;
    }
  }

  /** Splitting `a + [c] + b` cuts first right after `a` when `a` has no `c`. */
  lemma SplitNAfter<T>(s: seq<T>, a: seq<T>, b: seq<T>, c: T, limit: nat)
    requires s == a + [c] + b && c !in a && limit >= 1
    ensures SplitN(s, c, limit) == [a] + SplitN(b, c, limit - 1)
  {
    IndexOfAfter(a, b, c);
  }

  lemma SplitJoin<T>(parts: seq<seq<T>>, c: T)
    requires |parts| >= 1 && NoneContains(parts, c)
    ensures Split(Join(parts, c), c) == parts
  {
    JoinLength(parts, c);
    SplitNJoin(parts, c, |Join(parts, c)|);
  }

  /** Five pieces without the separator, joined by it, split back apart. */
  lemma SplitFive<T>(a: seq<T>, b: seq<T>, c: seq<T>, d: seq<T>, e: seq<T>, sep: T)
    requires sep !in a && sep !in b && sep !in c && sep !in d && sep !in e
    ensures Split(a + [sep] + b + [sep] + c + [sep] + (d + [sep] + e), sep) == [a, b, c, d, e]
  {
    var p3 := [d, e];
    var p2 := [c] + p3;
    var p1 := [b] + p2;
    var parts := [a] + p1;
    assert Join(parts, sep) == a + [sep] + b + [sep] + c + [sep] + (d + [sep] + e) by {
      JoinCons(d, [e], sep);
      assert [d] + [e] == p3;
      JoinCons(c, p3, sep);
      JoinCons(b, p2, sep);
      JoinCons(a, p1, sep);
    }
    assert NoneContains(parts, sep) by {
      assert NoneContains(p3[1..], sep);
      assert NoneContains(p3, sep);
      assert p2[1..] == p3 && p1[1..] == p2 && parts[1..] == p1;
    }
    SplitJoin(parts, sep);
  }

  /** Python's `s.count(c)` for a single element. */
  function Count<T(==)>(s: seq<T>, c: T): (n: nat)
    ensures n <= |s|
    decreases |s|
  {
    if s == [] then 0 else (if s[0] == c then 1 else 0) + Count(s[1..], c)
  }

  /** No copies are counted exactly when there are none. */
  lemma {:induction false} CountZero<T>(s: seq<T>, c: T)
    ensures Count(s, c) == 0 <==> c !in s
    decreases |s|
  {
    if s != [] {
      CountZero(s[1..], c);
      assert c in s <==> s[0] == c || c in s[1..];
    }
  }

  lemma {:induction false} CountAppend<T>(a: seq<T>, b: seq<T>, c: T)
    ensures Count(a + b, c) == Count(a, c) + Count(b, c)
    decreases |a|
  {
    if a == [] {
      assert a + b == b;
    } else {
      assert (a + b)[1..] == a[1..] + b;
      CountAppend(a[1..], b, c);
    }
  }

  /** Python's `s.replace(c, '')`: every copy of `c` removed, the rest kept in order. */
  function RemoveAll<T(==)>(s: seq<T>, c: T): (r: seq<T>)
    ensures c !in r
    ensures c !in s ==> r == s
    ensures |r| == |s| - Count(s, c)
    decreases |s|
  {
    if s == [] then [] else (if s[0] == c then [] else [s[0]]) + RemoveAll(s[1..], c)
  }

  lemma {:induction false} RemoveAllAppend<T>(a: seq<T>, b: seq<T>, c: T)
    ensures RemoveAll(a + b, c) == RemoveAll(a, c) + RemoveAll(b, c)
    decreases |a|
  {
    if a == [] {
      assert a + b == b;
    } else {
      assert (a + b)[1..] == a[1..] + b;
      RemoveAllAppend(a[1..], b, c);
    }
  }

  /** Removing the separator from a joined list leaves the parts run together. */
  lemma {:induction false} RemoveAllJoin<T>(parts: seq<seq<T>>, c: T)
    requires NoneContains(parts, c)
    ensures RemoveAll(Join(parts, c), c) == Concat(parts)
    decreases |parts|
  {
    if |parts| == 1 {
      assert Concat(parts) == parts[0] + Concat([]);
    } else if |parts| > 1 {
      RemoveAllJoin(parts[1..], c);
      RemoveAllAppend(parts[0] + [c], Join(parts[1..], c), c);
      RemoveAllAppend(parts[0], [c], c);
    }
  }

  /** A separator with none before it: one copy plus those after it. */
  lemma CountAround<T>(a: seq<T>, b: seq<T>, c: T)
    requires c !in a
    ensures Count(a + [c] + b, c) == Count(b, c) + 1
  {
    CountAppend(a + [c], b, c);
    CountAppend(a, [c], c);
    CountZero(a, c);
  }

  /** A sequence is what comes before an index, the element there, and what
      comes after. */
  lemma Around<T>(s: seq<T>, i: nat)
    requires i < |s|
    ensures s == s[..i] + [s[i]] + s[i + 1..]
  {
  }

  /** The first copy of `c` is one of the copies counted. */
  lemma CountAtFirst<T>(s: seq<T>, c: T)
    requires c in s
    ensures Count(s, c) == Count(s[IndexOf(s, c).value + 1..], c) + 1
  {
    var k := IndexOf(s, c).value;
    Around(s, k);
    CountAround(s[..k], s[k + 1..], c);
  }

  /** Each separator found makes one more part, while the limit allows it. */
  lemma {:induction false} SplitNCount<T>(s: seq<T>, c: T, limit: nat)
    ensures |SplitN(s, c, limit)| == (if Count(s, c) <= limit then Count(s, c) else limit) + 1
    decreases |s|
  {
    CountZero(s, c);
    if c !in s || limit == 0 {
      assert SplitN(s, c, limit) == [s];
    } else {
      var k := IndexOf(s, c).value;
      var rest := s[k + 1..];
      CountAtFirst(s, c);
      SplitNCount(rest, c, limit - 1);
      assert SplitN(s, c, limit) == [s[..k]] + SplitN(rest, c, limit - 1);
    }
  }

  /** `s.split(c)` has exactly one more part than `s` has copies of `c`. */
  lemma SplitCount<T>(s: seq<T>, c: T)
    ensures |Split(s, c)| == Count(s, c) + 1
  {
    SplitNCount(s, c, |s|);
  }

  /** With a single separator, `split` gives the two sides of it. */
  lemma SplitOnce<T>(a: seq<T>, b: seq<T>, c: T)
    requires c !in a && c !in b
    ensures Split(a + [c] + b, c) == [a, b]
  {
    SplitNAfter(a + [c] + b, a, b, c, |a + [c] + b|);
  }

  /** A single separator sits between the two parts `split` returns. */
  lemma SplitTwo<T>(s: seq<T>, c: T)
    requires Count(s, c) == 1
    ensures exists a, b :: s == a + [c] + b && c !in a && c !in b && Split(s, c) == [a, b]
  {
    CountZero(s, c);
    var k := IndexOf(s, c).value;
    var a, b := s[..k], s[k + 1..];
    Around(s, k);
    CountAround(a, b, c);
    CountZero(b, c);
    SplitOnce(a, b, c);
    assert s == a + [c] + b && c !in a && c !in b && Split(s, c) == [a, b];
  }

  // ------------------------------------------------------ whitespace, case

  /** Characters below 256 that Python's `str.strip()` removes. */
  predicate IsStrSpace(c: char)
  {
    c == ' ' || (9 <= c as int <= 13) || (0x1c <= c as int <= 0x1f) || c as int == 0x85 || c as int == 0xa0
  }

  /** Bytes that Python's `bytes.rstrip()` removes. */
  predicate IsByteSpace(b: byte)
  {
    b == 32 || 9 <= b <= 13
  }

  /** `s.rstrip()`, with the whitespace class given. */
  function TrimEnd<T>(s: seq<T>, space: T -> bool): (r: seq<T>)
    ensures |r| <= |s|
    decreases |s|
  {
    if s != [] && space(s[|s| - 1]) then TrimEnd(s[..|s| - 1], space) else s
  }

  /** `s.lstrip()`, with the whitespace class given. */
  function TrimStart<T>(s: seq<T>, space: T -> bool): (r: seq<T>)
    ensures |r| <= |s|
    decreases |s|
  {
    if s != [] && space(s[0]) then TrimStart(s[1..], space) else s
  }

  /** Python's `str.strip()`. */
  function Strip(s: string): string
  {
    TrimStart(TrimEnd(s, IsStrSpace), IsStrSpace)
  }

  function LowerChar(c: char): (r: char)
  {
    if 'A' <= c <= 'Z' then (c as int + 32) as char else c
  }

  function UpperChar(c: char): (r: char)
  {
    if 'a' <= c <= 'z' then (c as int - 32) as char else c
  }

  /** `str.lower()` on ASCII letters. */
  function Lower(s: string): (r: string)
    ensures |r| == |s|
    ensures forall i :: 0 <= i < |s| ==> r[i] == LowerChar(s[i])
  {
    seq(|s|, i requires 0 <= i < |s| => LowerChar(s[i]))
  }

  /** `str.upper()` on ASCII letters. */
  function Upper(s: string): (r: string)
    ensures |r| == |s|
    ensures forall i :: 0 <= i < |s| ==> r[i] == UpperChar(s[i])
  {
    seq(|s|, i requires 0 <= i < |s| => UpperChar(s[i]))
  }
}

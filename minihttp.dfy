/**
 * `minihttp.get(url)`: a one-shot HTTP/1.0 GET for the tracker.  The URL is
 * cut into host and path, a request is formatted, and the first block of
 * the reply is parsed: the status code between the first two spaces, then
 * the header lines one at a time, looking for `Location`, up to the first
 * short line or the first line without a colon.  What follows that line is
 * returned.  The socket is replaced by the request the function would send
 * and the reply block `recv(512)` would return.
 */
module MiniHttp {
  import opened Base
  import opened Text

  const Space: byte := 32
  const Newline: byte := 10
  const Colon: byte := 58

  /** The exceptions `get` raises on its own: `ValueError` from unpacking a
      URL with fewer than three `/`, from a missing space or newline
      (`bytes.index`), or from `int` on the status. */
  datatype HttpError = BadUrl | NoSpace | BadStatus | NoNewline

  /** What `get` works out from the reply: the status, whether it is a
      redirect, the `Location` header if any, and the bytes after the headers
      (the value `get` returns). */
  datatype Response = Response(status: int, isRedirect: bool, location: Option<string>, body: seq<byte>)

  // ------------------------------------------------------------------ url

  /** `_, _, host, path = url.split('/', 3)`. */
  function SplitUrl(url: string): Result<(string, string), HttpError>
  {
    var parts := SplitN(url, '/', 3);
    if |parts| != 4 then Err(BadUrl) else Ok((parts[2], parts[3]))
  }

  /** The URL is refused exactly when it has fewer than three `/`. */
  lemma {:induction false} SplitUrlRefuses(url: string)
    ensures SplitUrl(url).Err? <==> Count(url, '/') < 3
  {
    SplitNCount(url, '/', 3);
  }

  /** `scheme//host/path` gives the host and the path back, whatever the
      path contains. */
  lemma {:induction false} SplitUrlRoundTrip(scheme: string, host: string, path: string)
    requires '/' !in scheme && '/' !in host
    ensures SplitUrl(scheme + "//" + host + "/" + path) == Ok((host, path))
  {
    var rest1 := [] + ['/'] + (host + ['/'] + path);
    UrlPieces(scheme, host, path);
    SplitHostPath(host, path);
    SplitNAfter(scheme + ['/'] + rest1, scheme, rest1, '/', 3);
  }

  /** `/host/path` cut at its first two slashes. */
  lemma {:induction false} SplitHostPath(host: string, path: string)
    requires '/' !in host
    ensures SplitN([] + ['/'] + (host + ['/'] + path), '/', 2) == [[], host, path]
  {
    var rest2 := host + ['/'] + path;
    SplitNAfter(rest2, host, path, '/', 1);
    assert SplitN(path, '/', 0) == [path];
    SplitNAfter([] + ['/'] + rest2, [], rest2, '/', 2);
  }

  /** `scheme//host/path` cut at its first three slashes. */
  lemma {:induction false} UrlPieces(scheme: string, host: string, path: string)
    ensures scheme + "//" + host + "/" + path == scheme + ['/'] + ([] + ['/'] + (host + ['/'] + path))
  {
  }

  // -------------------------------------------------------------- request

  /** `'GET /%s HTTP/1.0\r\nHost: %s\r\n\r\n' % (path, host)`. */
  function Request(host: string, path: string): string
  {
    "GET /" + path + " HTTP/1.0\r\nHost: " + host + "\r\n\r\n"
  }

  /** The request is a request line, a `Host` line and an empty line, each
      ended by `\r\n`. */
  lemma {:induction false} RequestLines(host: string, path: string)
    requires '\n' !in host && '\n' !in path
    ensures Split(Request(host, path), '\n')
      == ["GET /" + path + " HTTP/1.0\r", "Host: " + host + "\r", "\r", ""]
  {
    var a, b, c, d := "GET /" + path + " HTTP/1.0\r", "Host: " + host + "\r", "\r", "";
    var p3 := [c, d];
    var p2 := [b] + p3;
    var parts := [a] + p2;
    assert Join(parts, '\n') == Request(host, path) by {
      JoinCons(c, [d], '\n');
      assert [c] + [d] == p3;
      JoinCons(b, p3, '\n');
      JoinCons(a, p2, '\n');
    }
    NoneContainsEach(parts, '\n');
    SplitJoin(parts, '\n');
  }

  // --------------------------------------------------------------- status

  /** `data.index(b, start)`: the first `b` at or after `start`, `None`
      standing for the `ValueError`. */
  function IndexFrom(data: seq<byte>, b: byte, start: nat): (r: Option<nat>)
    requires start <= |data|
    ensures r.Some? ==> start <= r.value < |data| && data[r.value] == b
    decreases |data| - start
  {
    if start == |data| then None
    else if data[start] == b then Some(start)
    else IndexFrom(data, b, start + 1)
  }

  /** What `index` promises: no `b` between `start` and the position found,
      and none at all after `start` when it raises. */
  lemma {:induction false} IndexFromFirst(data: seq<byte>, b: byte, start: nat)
    requires start <= |data|
    ensures IndexFrom(data, b, start).Some? ==>
      forall k :: start <= k < IndexFrom(data, b, start).value ==> data[k] != b
    ensures IndexFrom(data, b, start).None? ==> forall k :: start <= k < |data| ==> data[k] != b
    decreases |data| - start
  {
    if start < |data| && data[start] != b {
      IndexFromFirst(data, b, start + 1);
    }
  }

  /** The bytes `x` sit in `data` from `start` on. */
  predicate At(data: seq<byte>, start: nat, x: seq<byte>)
    decreases |x|
  {
    && start + |x| <= |data|
    && (x == [] || (data[start] == x[0] && At(data, start + 1, x[1..])))
  }

  /** `At` is a comparison with a slice. */
  lemma {:induction false} AtSlice(data: seq<byte>, start: nat, x: seq<byte>)
    ensures At(data, start, x) <==> start + |x| <= |data| && data[start..start + |x|] == x
    decreases |x|
  {
    if x != [] && start + |x| <= |data| {
      AtSlice(data, start + 1, x[1..]);
      assert data[start..start + |x|][0] == data[start];
      assert data[start..start + |x|][1..] == data[start + 1..start + |x|];
    }
  }

  /** `x` then `y` at `start`: `x` there and `y` right after it. */
  lemma {:induction false} AtSplit(data: seq<byte>, start: nat, x: seq<byte>, y: seq<byte>)
    requires At(data, start, x + y)
    ensures At(data, start, x) && At(data, start + |x|, y)
    decreases |x|
  {
    if x == [] {
      assert x + y == y;
    } else {
      assert (x + y)[0] == x[0] && (x + y)[1..] == x[1..] + y;
      AtSplit(data, start + 1, x[1..], y);
    }
  }

  /** `data.index(b, start)` finds the `b` that ends `a` when `a` has none. */
  lemma {:induction false} AtIndexFrom(data: seq<byte>, start: nat, a: seq<byte>, b: byte)
    requires At(data, start, a + [b]) && b !in a
    ensures IndexFrom(data, b, start) == Some(start + |a|)
    decreases |a|
  {
    if a != [] {
      assert (a + [b])[0] == a[0] && (a + [b])[1..] == a[1..] + [b];
      AtIndexFrom(data, start + 1, a[1..], b);
    }
  }

  /** Bytes between two others sit at the length of the first, and the
      second follows them. */
  lemma {:induction false} Pieces(a: seq<byte>, x: seq<byte>, b: seq<byte>)
    ensures At(a + x + b, |a|, x) && (a + x + b)[|a| + |x|..] == b
  {
    AtSlice(a + x + b, |a|, x);
    assert (a + x + b)[|a|..|a| + |x|] == x;
  }

  /** The status code: `int` of the bytes between the first space and the
      next one. */
  function Status(data: seq<byte>): Result<int, HttpError>
  {
    var space1 := IndexFrom(data, Space, 0);
    if space1.None? then Err(NoSpace)
    else
      var space2 := IndexFrom(data, Space, space1.value + 1);
      if space2.None? then Err(NoSpace)
      else
        match ParseInt(Chars(data[space1.value + 1..space2.value]))
        case None => Err(BadStatus)
        case Some(status) => Ok(status)
  }

  /** A reply is refused for want of a space exactly when it does not have
      two of them. */
  lemma {:induction false} StatusNeedsTwoSpaces(data: seq<byte>)
    ensures Status(data) == Err(NoSpace) <==>
      !exists i, j :: 0 <= i < j < |data| && data[i] == Space && data[j] == Space
  {
    var space1 := IndexFrom(data, Space, 0);
    IndexFromFirst(data, Space, 0);
    if space1.Some? {
      var space2 := IndexFrom(data, Space, space1.value + 1);
      IndexFromFirst(data, Space, space1.value + 1);
      if space2.None? {
        forall i, j | 0 <= i < j < |data| && data[i] == Space ensures data[j] != Space {
          assert i >= space1.value;
        }
      }
    }
  }

  /** `<version> <digits> <rest>` regrouped around its two spaces. */
  lemma {:induction false} StatusPieces(version: seq<byte>, digits: seq<byte>, rest: seq<byte>)
    ensures var data := version + [Space] + digits + [Space] + rest;
      && data == [] + (version + [Space]) + (digits + [Space] + rest)
      && data == (version + [Space]) + (digits + [Space]) + rest
  {
  }

  /** A status line `<version> <code> <reason>` gives its code back. */
  lemma {:induction false} StatusRoundTrip(version: seq<byte>, code: int, rest: seq<byte>)
    requires Space !in version
    ensures Status(version + [Space] + Bytes(Decimal(code)) + [Space] + rest) == Ok(code)
  {
    var digits := Bytes(Decimal(code));
    var data := version + [Space] + digits + [Space] + rest;
    DecimalHasNoSpace(code);
    StatusPieces(version, digits, rest);
    Pieces([], version + [Space], digits + [Space] + rest);
    Pieces(version + [Space], digits + [Space], rest);
    CharsBytes(Decimal(code));
    ParseDecimal(code);
    StatusAt(data, version, digits, code);
  }

  /** Bytes holding `<version> SP <digits> SP` from the start have the
      status that `digits` spell. */
  lemma {:induction false} StatusAt(data: seq<byte>, version: seq<byte>, digits: seq<byte>, code: int)
    requires Space !in version && Space !in digits
    requires At(data, 0, version + [Space]) && At(data, |version| + 1, digits + [Space])
    requires ParseInt(Chars(digits)) == Some(code)
    ensures Status(data) == Ok(code)
  {
    AtIndexFrom(data, 0, version, Space);
    AtIndexFrom(data, |version| + 1, digits, Space);
    AtSplit(data, |version| + 1, digits, [Space]);
    AtSlice(data, |version| + 1, digits);
  }

  /** The decimal digits of a code hold no space and no newline. */
  lemma {:induction false} DecimalHasNoSpace(n: int)
    ensures Space !in Bytes(Decimal(n)) && Newline !in Bytes(Decimal(n))
  {
    var s := Decimal(n);
    forall i | 0 <= i < |s| ensures Bytes(s)[i] != Space && Bytes(s)[i] != Newline {
      assert s[i] != ' ' && s[i] != '\n';
    }
  }

  /** `is_redirect = (300 <= http_status <= 399)`. */
  predicate IsRedirect(status: int)
  {
    300 <= status <= 399
  }

  // -------------------------------------------------------------- headers

  /** True when `str(b, 'ascii')` decodes `b`: every byte is below 128. */
  predicate AsciiBytes(b: seq<byte>)
  {
    forall i :: 0 <= i < |b| ==> b[i] < 128
  }

  /** `str(name, 'ascii').lower() == word`, compared byte by byte. */
  predicate LowerIs(name: seq<byte>, word: string)
    decreases |name|
  {
    |name| == |word| && (name == [] || (LowerChar(name[0] as char) == word[0] && LowerIs(name[1..], word[1..])))
  }

  /** The byte-by-byte comparison is the comparison of the decoded,
      lower-cased name. */
  lemma {:induction false} LowerIsMeaning(name: seq<byte>, word: string)
    ensures LowerIs(name, word) <==> Lower(Chars(name)) == word
    decreases |name|
  {
    if |name| == |word| && name != [] {
      LowerIsMeaning(name[1..], word[1..]);
      assert Chars(name[1..]) == Chars(name)[1..];
      assert Lower(Chars(name)) == [LowerChar(name[0] as char)] + Lower(Chars(name)[1..]);
    }
  }

  /** The `try` block of the header loop on one line: `None` when it raises
      `ValueError` (no colon, or a name or a `location` value that is not
      ASCII), which ends the scan; otherwise the location after the line,
      kept as the bytes after the colon (`LocationText` decodes them). */
  function ReadHeader(line: seq<byte>, location: Option<seq<byte>>): Option<Option<seq<byte>>>
  {
    match IndexOf(line, Colon)
    case None => None
    case Some(colonpos) =>
      var name := line[..colonpos];
      if !AsciiBytes(name) then None
      else if !LowerIs(name, "location") then Some(location)
      else
        var value := line[colonpos + 1..];
        if !AsciiBytes(value) then None else Some(Some(value))
  }

  /** A header line that names `location`, in any case: the bytes before
      its first colon, lower-cased, spell `word`. */
  predicate NameIs(line: seq<byte>, word: string)
    decreases |line|
  {
    && line != []
    && if line[0] == Colon then word == []
       else word != [] && LowerChar(line[0] as char) == word[0] && NameIs(line[1..], word[1..])
  }

  predicate IsLocation(line: seq<byte>)
  {
    NameIs(line, "location")
  }

  /** The bytes after the first colon of a header line. */
  function HeaderValue(line: seq<byte>): seq<byte>
    decreases |line|
  {
    if line == [] then [] else if line[0] == Colon then line[1..] else HeaderValue(line[1..])
  }

  /** Walking to the first colon agrees with `line.index(b':')`: the name is
      what comes before it and the value what comes after it. */
  lemma {:induction false} ColonWalk(line: seq<byte>, word: string)
    requires Colon in line
    ensures NameIs(line, word) <==> LowerIs(line[..IndexOf(line, Colon).value], word)
    ensures HeaderValue(line) == line[IndexOf(line, Colon).value + 1..]
    decreases |line|
  {
    if line[0] != Colon {
      assert Colon in line[1..] by {
        var k := IndexOf(line, Colon).value;
        assert line[1..][k - 1] == Colon;
      }
      var k := IndexOf(line[1..], Colon).value;
      if word != [] {
        ColonWalk(line[1..], word[1..]);
      } else {
        ColonWalk(line[1..], word);
      }
      assert IndexOf(line, Colon).value == k + 1;
      assert line[..k + 1][1..] == line[1..][..k];
      assert line[1..][k + 1..] == line[k + 2..];
    }
  }

  /** The characters the device's `str.strip()` removes: MicroPython counts
      only space, `\t`, `\n`, `\v`, `\f` and `\r` as whitespace. */
  predicate IsMicroSpace(c: char)
  {
    c == ' ' || 9 <= c as int <= 13
  }

  /** `s.strip()` as MicroPython performs it. */
  function MicroStrip(s: string): string
  {
    TrimStart(TrimEnd(s, IsMicroSpace), IsMicroSpace)
  }

  /** `redirect_location` as the text `str(value, 'ascii').strip()` makes of
      the bytes of the last `location` value read. */
  function LocationText(raw: Option<seq<byte>>): Option<string>
  {
    match raw
    case None => None
    case Some(value) => Some(MicroStrip(Chars(value)))
  }

  /** The location after one more header line that decodes. */
  function AfterHeader(line: seq<byte>, location: Option<seq<byte>>): Option<seq<byte>>
  {
    if IsLocation(line) then Some(HeaderValue(line)) else location
  }

  /** A line without a colon ends the scan; an ASCII line with a colon is
      read: it sets the location when it names `location` and keeps it
      otherwise. */
  lemma {:induction false} ReadHeaderMeaning(line: seq<byte>, location: Option<seq<byte>>)
    ensures Colon !in line ==> ReadHeader(line, location) == None
    ensures Colon in line && AsciiBytes(line) ==> ReadHeader(line, location) == Some(AfterHeader(line, location))
  {
    if Colon in line && AsciiBytes(line) {
      var colonpos := IndexOf(line, Colon).value;
      ColonWalk(line, "location");
      AsciiSlice(line, 0, colonpos);
      AsciiSlice(line, colonpos + 1, |line|);
      assert line[colonpos + 1..|line|] == line[colonpos + 1..];
    }
  }

  lemma {:induction false} AsciiSlice(b: seq<byte>, i: nat, j: nat)
    requires AsciiBytes(b) && i <= j <= |b|
    ensures AsciiBytes(b[i..j])
  {
    forall k | 0 <= k < j - i ensures b[i..j][k] < 128 {
      assert b[i..j][k] == b[i + k];
    }
  }

  /** The `while True` loop of `get` from `linestart`: the location found and
      `lineend`, the newline ending the line that stopped the scan. */
  function Scan(data: seq<byte>, linestart: nat, location: Option<seq<byte>>): (r: Result<(Option<seq<byte>>, nat), HttpError>)
    requires linestart <= |data|
    ensures r.Ok? ==> linestart <= r.value.1 < |data| && data[r.value.1] == Newline
    decreases |data| - linestart, 1
  {
    match IndexFrom(data, Newline, linestart)
    case None => Err(NoNewline)
    case Some(lineend) => ScanLine(data, linestart, lineend, location)
  }

  /** One pass of that loop once `lineend` is found: a short line, or one
      whose `try` block raises, ends the scan; any other line is read and
      the scan goes on after it. */
  function ScanLine(data: seq<byte>, linestart: nat, lineend: nat, location: Option<seq<byte>>): (r: Result<(Option<seq<byte>>, nat), HttpError>)
    requires linestart <= lineend < |data| && data[lineend] == Newline
    ensures r.Ok? ==> lineend <= r.value.1 < |data| && data[r.value.1] == Newline
    decreases |data| - linestart, 0
  {
    if lineend - linestart < 3 then Ok((location, lineend))
    else
      match ReadHeader(data[linestart..lineend], location)
      case None => Ok((location, lineend))
      case Some(next) => Scan(data, lineend + 1, next)
  }

  /** The scan's outcome with the location decoded. */
  function Decoded(scan: Result<(Option<seq<byte>>, nat), HttpError>): Result<(Option<string>, nat), HttpError>
  {
    match scan
    case Err(e) => Err(e)
    case Ok((location, lineend)) => Ok((LocationText(location), lineend))
  }

  /** The header scan of `get`, walking `linestart` and `lineend` over the
      reply. */
  method ScanHeaders(data: seq<byte>, start: nat) returns (r: Result<(Option<string>, nat), HttpError>)
    requires start <= |data|
    ensures r == Decoded(Scan(data, start, None))
  {
    var redirectLocation: Option<string> := None;
    ghost var raw: Option<seq<byte>> := None;
    var linestart := start;
    while true
      invariant linestart <= |data|
      invariant redirectLocation == LocationText(raw)
      invariant Scan(data, linestart, raw) == Scan(data, start, None)
      decreases |data| - linestart
    {
      var lineend := IndexFrom(data, Newline, linestart);
      if lineend.None? {
        return Err(NoNewline);
      }
      if lineend.value - linestart < 3 {
        // Short line: end of headers.
        return Ok((redirectLocation, lineend.value));
      }
      var line := data[linestart..lineend.value];
      var colonpos := IndexOf(line, Colon);
      if colonpos.None? {
        return Ok((redirectLocation, lineend.value));
      }
      var name := line[..colonpos.value];
      if !AsciiBytes(name) {
        return Ok((redirectLocation, lineend.value));
      }
      LowerIsMeaning(name, "location");
      if Lower(Chars(name)) == "location" {
        var value := line[colonpos.value + 1..];
        if !AsciiBytes(value) {
          return Ok((redirectLocation, lineend.value));
        }
        redirectLocation := Some(MicroStrip(Chars(value)));
        raw := Some(value);
      }
      linestart := lineend.value + 1;
    }
  }

  /** A header line the scan reads on: at least three bytes, a colon, ASCII,
      no newline. */
  predicate IsHeader(line: seq<byte>)
  {
    |line| >= 3 && Colon in line && AsciiBytes(line) && Newline !in line
  }

  /** Header lines, each followed by a newline. */
  function HeaderBlock(headers: seq<seq<byte>>): seq<byte>
    decreases |headers|
  {
    if headers == [] then [] else headers[0] + [Newline] + HeaderBlock(headers[1..])
  }

  /** The location after reading `headers` in order. */
  function Located(headers: seq<seq<byte>>, location: Option<seq<byte>>): Option<seq<byte>>
    decreases |headers|
  {
    if headers == [] then location else Located(headers[1..], AfterHeader(headers[0], location))
  }

  /** Reading `a` then `b` is reading `a + b`. */
  lemma {:induction false} LocatedAppend(a: seq<seq<byte>>, b: seq<seq<byte>>, location: Option<seq<byte>>)
    ensures Located(a + b, location) == Located(b, Located(a, location))
    decreases |a|
  {
    if a == [] {
      assert a + b == b;
    } else {
      assert (a + b)[0] == a[0] && (a + b)[1..] == a[1..] + b;
      LocatedAppend(a[1..], b, AfterHeader(a[0], location));
    }
  }

  /** Header lines that do not name `location` leave it as it was. */
  lemma {:induction false} LocatedNone(headers: seq<seq<byte>>, location: Option<seq<byte>>)
    requires forall i :: 0 <= i < |headers| ==> !IsLocation(headers[i])
    ensures Located(headers, location) == location
    decreases |headers|
  {
    if headers != [] {
      assert !IsLocation(headers[0]);
      assert forall i :: 0 <= i < |headers| - 1 ==> headers[1..][i] == headers[i + 1];
      LocatedNone(headers[1..], location);
    }
  }

  /** The last `Location` header wins, whatever came before it. */
  lemma {:induction false} LastLocationWins(before: seq<seq<byte>>, line: seq<byte>, after: seq<seq<byte>>, location: Option<seq<byte>>)
    requires IsLocation(line)
    requires forall i :: 0 <= i < |after| ==> !IsLocation(after[i])
    ensures Located(before + [line] + after, location) == Some(HeaderValue(line))
  {
    LocatedAppend(before + [line], after, location);
    LocatedAppend(before, [line], location);
    LocatedNone(after, Some(HeaderValue(line)));
  }

  /** The last line of a header block: short, or without a colon. */
  predicate EndsHeaders(last: seq<byte>)
  {
    (|last| < 3 || Colon !in last) && Newline !in last
  }

  /** A header line at `start` is read and the scan goes on after it. */
  lemma {:induction false} HeaderAt(data: seq<byte>, start: nat, line: seq<byte>, after: seq<byte>, location: Option<seq<byte>>)
    requires IsHeader(line) && At(data, start, line + [Newline] + after)
    ensures start + |line| < |data| && At(data, start + |line| + 1, after)
    ensures Scan(data, start, location) == Scan(data, start + |line| + 1, AfterHeader(line, location))
  {
    AtSplit(data, start, line + [Newline], after);
    AtIndexFrom(data, start, line, Newline);
    AtSplit(data, start, line, [Newline]);
    AtSlice(data, start, line);
    ReadHeaderMeaning(line, location);
  }

  /** The line that ends the headers stops the scan at its newline. */
  lemma {:induction false} LastAt(data: seq<byte>, start: nat, last: seq<byte>, location: Option<seq<byte>>)
    requires EndsHeaders(last) && At(data, start, last + [Newline])
    ensures Scan(data, start, location) == Ok((location, start + |last|))
  {
    AtIndexFrom(data, start, last, Newline);
    AtSplit(data, start, last, [Newline]);
    AtSlice(data, start, last);
    ReadHeaderMeaning(last, location);
  }

  /** The first header line of a block, taken off. */
  lemma {:induction false} BlockStep(headers: seq<seq<byte>>, location: Option<seq<byte>>)
    requires headers != []
    ensures Located(headers, location) == Located(headers[1..], AfterHeader(headers[0], location))
    ensures |HeaderBlock(headers)| == |headers[0]| + 1 + |HeaderBlock(headers[1..])|
  {
  }

  /** A block followed by more bytes, cut after its first line. */
  lemma {:induction false} BlockCons(headers: seq<seq<byte>>, after: seq<byte>)
    requires headers != []
    ensures HeaderBlock(headers) + after == headers[0] + [Newline] + (HeaderBlock(headers[1..]) + after)
  {
  }

  /** A scan step over the first header line joined with the scan of the
      rest of the block. */
  lemma {:induction false} ScanJoin(data: seq<byte>, start: nat, headers: seq<seq<byte>>, last: seq<byte>, location: Option<seq<byte>>)
    requires headers != [] && start + |headers[0]| < |data|
    requires Scan(data, start, location) == Scan(data, start + |headers[0]| + 1, AfterHeader(headers[0], location))
    requires Scan(data, start + |headers[0]| + 1, AfterHeader(headers[0], location))
      == Ok((Located(headers[1..], AfterHeader(headers[0], location)), start + |headers[0]| + 1 + |HeaderBlock(headers[1..])| + |last|))
    ensures Scan(data, start, location) == Ok((Located(headers, location), start + |HeaderBlock(headers)| + |last|))
  {
    BlockStep(headers, location);
  }

  /** Over header lines followed by a line that ends them, the scan reads
      every header and stops at the newline after that line. */
  lemma {:induction false} ScanBlock(data: seq<byte>, start: nat, headers: seq<seq<byte>>, last: seq<byte>, location: Option<seq<byte>>)
    requires forall i :: 0 <= i < |headers| ==> IsHeader(headers[i])
    requires EndsHeaders(last)
    requires At(data, start, HeaderBlock(headers) + (last + [Newline]))
    ensures start <= |data|
    ensures Scan(data, start, location) == Ok((Located(headers, location), start + |HeaderBlock(headers)| + |last|))
    decreases |headers|
  {
    if headers == [] {
      assert HeaderBlock(headers) + (last + [Newline]) == last + [Newline];
      LastAt(data, start, last, location);
    } else {
      BlockCons(headers, last + [Newline]);
      HeaderAt(data, start, headers[0], HeaderBlock(headers[1..]) + (last + [Newline]), location);
      ScanBlock(data, start + |headers[0]| + 1, headers[1..], last, AfterHeader(headers[0], location));
      ScanJoin(data, start, headers, last, location);
    }
  }

  // ------------------------------------------------------------------ get

  /** What `get` makes of the reply block. */
  function ParseResponse(data: seq<byte>): Result<Response, HttpError>
  {
    match Status(data)
    case Err(e) => Err(e)
    case Ok(status) => ReadReply(data, status)
  }

  function ReadReply(data: seq<byte>, status: int): Result<Response, HttpError>
  {
    var first := IndexFrom(data, Newline, 0);
    if first.None? then Err(NoNewline)
    else
      match Scan(data, first.value + 1, None)
      case Err(e) => Err(e)
      case Ok((location, lineend)) =>
        Ok(Response(status, IsRedirect(status), LocationText(location), data[lineend + 1..]))
  }

  /** A reply's status line gives its code back, whatever follows it. */
  lemma {:induction false} ReplyStatus(version: seq<byte>, code: int, reason: seq<byte>, block: seq<byte>, last: seq<byte>, body: seq<byte>)
    requires Space !in version
    ensures Status(version + [Space] + Bytes(Decimal(code)) + [Space] + reason + [Newline] + block + last + [Newline] + body) == Ok(code)
  {
    var digits := Bytes(Decimal(code));
    assert version + [Space] + digits + [Space] + reason + [Newline] + block + last + [Newline] + body
      == version + [Space] + digits + [Space] + (reason + [Newline] + (block + last + [Newline] + body));
    StatusRoundTrip(version, code, reason + [Newline] + (block + last + [Newline] + body));
  }

  /** Where the pieces of `<status line> NL <block> <last> NL <body>` sit. */
  lemma {:induction false} ReplyLayout(statusLine: seq<byte>, block: seq<byte>, last: seq<byte>, body: seq<byte>)
    ensures var data := statusLine + [Newline] + block + last + [Newline] + body;
      && At(data, 0, statusLine + [Newline])
      && At(data, |statusLine| + 1, block + (last + [Newline]))
      && data[|statusLine| + 1 + |block| + |last| + 1..] == body
  {
    var data := statusLine + [Newline] + block + last + [Newline] + body;
    assert data == [] + (statusLine + [Newline]) + (block + last + [Newline] + body);
    Pieces([], statusLine + [Newline], block + last + [Newline] + body);
    assert data == (statusLine + [Newline]) + (block + (last + [Newline])) + body;
    Pieces(statusLine + [Newline], block + (last + [Newline]), body);
  }

  /** A reply whose status parses, whose first line ends at `first` and
      whose header scan stops at `lineend` is read back. */
  lemma {:induction false} ReplyRead(data: seq<byte>, code: int, first: nat, location: Option<seq<byte>>, lineend: nat, body: seq<byte>)
    requires Status(data) == Ok(code)
    requires first < |data| && IndexFrom(data, Newline, 0) == Some(first)
    requires Scan(data, first + 1, None) == Ok((location, lineend))
    requires data[lineend + 1..] == body
    ensures ParseResponse(data) == Ok(Response(code, IsRedirect(code), LocationText(location), body))
  {
    ReplyRest(data, code, first, location, lineend, body);
  }

  lemma {:induction false} ReplyRest(data: seq<byte>, code: int, first: nat, location: Option<seq<byte>>, lineend: nat, body: seq<byte>)
    requires first < |data| && IndexFrom(data, Newline, 0) == Some(first)
    requires Scan(data, first + 1, None) == Ok((location, lineend))
    requires data[lineend + 1..] == body
    ensures ReadReply(data, code) == Ok(Response(code, IsRedirect(code), LocationText(location), body))
  {
  }

  /** A well-formed reply is read back: the status code, whether it is a
      redirect, the value of the last `Location` header, and the body after
      the line that ends the headers. */
  lemma {:induction false} ResponseRoundTrip(version: seq<byte>, code: int, reason: seq<byte>, headers: seq<seq<byte>>, last: seq<byte>, body: seq<byte>)
    requires Space !in version && Newline !in version && Newline !in reason
    requires forall i :: 0 <= i < |headers| ==> IsHeader(headers[i])
    requires EndsHeaders(last)
    ensures var statusLine := version + [Space] + Bytes(Decimal(code)) + [Space] + reason;
      ParseResponse(statusLine + [Newline] + HeaderBlock(headers) + last + [Newline] + body)
      == Ok(Response(code, IsRedirect(code), LocationText(Located(headers, None)), body))
  {
    var digits := Bytes(Decimal(code));
    var statusLine := version + [Space] + digits + [Space] + reason;
    var block := HeaderBlock(headers);
    var data := statusLine + [Newline] + block + last + [Newline] + body;
    ReplyStatus(version, code, reason, block, last, body);
    DecimalHasNoSpace(code);
    assert Newline !in statusLine;
    ReplyLayout(statusLine, block, last, body);
    ReplyFrom(data, code, statusLine, headers, last, body);
  }

  /** A reply whose status parses and whose bytes after the status line
      are a header block, a line that ends it and a body, is read back. */
  lemma {:induction false} ReplyFrom(data: seq<byte>, code: int, statusLine: seq<byte>, headers: seq<seq<byte>>, last: seq<byte>, body: seq<byte>)
    requires Status(data) == Ok(code) && Newline !in statusLine
    requires forall i :: 0 <= i < |headers| ==> IsHeader(headers[i])
    requires EndsHeaders(last)
    requires At(data, 0, statusLine + [Newline])
    requires At(data, |statusLine| + 1, HeaderBlock(headers) + (last + [Newline]))
    requires data[|statusLine| + 1 + |HeaderBlock(headers)| + |last| + 1..] == body
    ensures ParseResponse(data) == Ok(Response(code, IsRedirect(code), LocationText(Located(headers, None)), body))
  {
    AtIndexFrom(data, 0, statusLine, Newline);
    ScanBlock(data, |statusLine| + 1, headers, last, None);
    ReplyRead(data, code, |statusLine|, Located(headers, None), |statusLine| + 1 + |HeaderBlock(headers)| + |last|, body);
  }

  /** `get(url)` with the reply block given: the request it sends, if it
      gets that far, and what it makes of the reply. */
  method Get(url: string, data: seq<byte>) returns (request: Option<string>, r: Result<Response, HttpError>)
    ensures SplitUrl(url).Err? ==> request == None && r == Err(BadUrl)
    ensures SplitUrl(url).Ok? ==>
      && request == Some(Request(SplitUrl(url).value.0, SplitUrl(url).value.1))
      && r == ParseResponse(data)
  {
    var parts := SplitN(url, '/', 3);
    if |parts| != 4 {
      return None, Err(BadUrl);
    }
    var host, path := parts[2], parts[3];
    request := Some("GET /" + path + " HTTP/1.0\r\nHost: " + host + "\r\n\r\n");
    var status := FindStatus(data);
    if status.Err? {
      return request, Err(status.error);
    }
    r := FindReply(data, status.value);
  }

  /** The status lines of `get`: the two spaces and `int` of what lies
      between them. */
  method FindStatus(data: seq<byte>) returns (r: Result<int, HttpError>)
    ensures r == Status(data)
  {
    var space1 := IndexFrom(data, Space, 0);
    if space1.None? {
      return Err(NoSpace);
    }
    var space2 := IndexFrom(data, Space, space1.value + 1);
    if space2.None? {
      return Err(NoSpace);
    }
    var httpStatus := ParseInt(Chars(data[space1.value + 1..space2.value]));
    if httpStatus.None? {
      return Err(BadStatus);
    }
    return Ok(httpStatus.value);
  }

  /** The rest of `get` once the status is known: the header scan and the
      body after the line that ends it. */
  method FindReply(data: seq<byte>, httpStatus: int) returns (r: Result<Response, HttpError>)
    ensures r == ReadReply(data, httpStatus)
  {
    var isRedirect := 300 <= httpStatus <= 399;
    var first := IndexFrom(data, Newline, 0);
    if first.None? {
      return Err(NoNewline);
    }
    var scan := ScanHeaders(data, first.value + 1);
    if scan.Err? {
      return Err(scan.error);
    }
    var (redirectLocation, lineend) := scan.value;
    r := Ok(Response(httpStatus, isRedirect, redirectLocation, data[lineend + 1..]));
  }
}

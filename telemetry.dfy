/**
 * `TelemetrySession` of `telemetry.py`: scans are stored as lines in the
 * data file `telem.dat`; sending walks the file from the read cursor, turns
 * each line into a DNS query name under the telemetry domain, and moves the
 * cursor past every line the server acknowledges.  A session id and chunk
 * id survive resets in RTC memory.  The file, the RTC memory, the clock and
 * the resolver are values and parameters here.
 */
module Telemetry {
  import opened Base
  import opened Text

  const TelemetryDomain: string := "mr8266.tk"

  /** Seconds that must pass between two stored chunks. */
  const MinStoreTime: int := 20

  const Newline: byte := 10
  const Comma: byte := 44
  const Dot: byte := 46

  /** The line that closes a chunk. */
  const Eom: seq<byte> := Bytes("eom")

  /** The extra element sent just before the last line of the file. */
  const Tx: seq<byte> := Bytes("tx")

  /** Acknowledging answers of the telemetry server lie in `127.0.0.0/24`. */
  const Loopback: seq<byte> := Bytes("127.0.0.")

  // ------------------------------------------------------------- RTC memory

  /** What `_init_from_rtcmemory` finds: nothing usable, a previous session,
      or a chunk id that `int()` rejects with `ValueError`. */
  datatype Saved = NoCheckpoint | Resumed(sessionId: seq<byte>, chunkId: int) | BadChunkId

  function ReadCheckpoint(blob: seq<byte>): (r: Saved)
  {
    if |blob| == 0 then NoCheckpoint
    else
      var bits := Split(blob, Comma);
      if |bits| != 2 then NoCheckpoint
      else match ParseInt(Chars(bits[1]))
        case None => BadChunkId
        case Some(n) => Resumed(bits[0], n)
  }

  /** `b'%s,%d' % (session_id, chunk_id)`, as `_save_to_rtcmemory` writes it. */
  function Checkpoint(sessionId: seq<byte>, chunkId: int): (blob: seq<byte>)
    ensures |blob| > |sessionId|
  {
    sessionId + [Comma] + Bytes(Decimal(chunkId))
  }

  /** Reading back a saved checkpoint restores the session id and chunk id,
      as long as the session id holds no comma. */
  lemma CheckpointRoundTrip(sessionId: seq<byte>, chunkId: int)
    requires Comma !in sessionId
    ensures ReadCheckpoint(Checkpoint(sessionId, chunkId)) == Resumed(sessionId, chunkId)
  {
    var digits := Bytes(Decimal(chunkId));
    assert Comma !in digits by {
      forall i | 0 <= i < |digits| ensures digits[i] != Comma {
        assert Decimal(chunkId)[i] != ',';
      }
    }
    SplitOnce(sessionId, digits, Comma);
    CharsBytes(Decimal(chunkId));
    ParseDecimal(chunkId);
  }

  /** A resumed session id is what precedes the only comma of the blob, so
      it holds no comma itself. */
  lemma ResumedHasNoComma(blob: seq<byte>)
    ensures ReadCheckpoint(blob).Resumed? ==> Comma !in ReadCheckpoint(blob).sessionId
  {
    if ReadCheckpoint(blob).Resumed? {
      SplitCount(blob, Comma);
      SplitTwo(blob, Comma);
    }
  }

  /** A session id drawn as `hex_str(os.urandom(4))` holds no comma. */
  lemma HexHasNoComma(b: seq<byte>)
    ensures Comma !in Bytes(Hexlify(b))
  {
    var s := Hexlify(b);
    forall i | 0 <= i < |s| ensures Bytes(s)[i] != Comma {
      assert s[i] != ',';
    }
  }

  /** The RTC blob is ignored unless it holds exactly one comma; then the
      session id is what precedes it and the chunk id is `int()` of the rest. */
  lemma CheckpointMeaning(blob: seq<byte>)
    ensures ReadCheckpoint(blob).NoCheckpoint? <==> Count(blob, Comma) != 1
    ensures Count(blob, Comma) == 1 ==>
      exists sessionId, rest ::
        && blob == sessionId + [Comma] + rest && Comma !in sessionId && Comma !in rest
        && ReadCheckpoint(blob) == (if ParseInt(Chars(rest)).None? then BadChunkId
                                   else Resumed(sessionId, ParseInt(Chars(rest)).value))
  {
    SplitCount(blob, Comma);
    if Count(blob, Comma) == 1 {
      SplitTwo(blob, Comma);
    } else if |blob| == 0 {
      assert Count(blob, Comma) == 0;
    }
  }

  // ---------------------------------------------------------- query names

  /** The chunk id as the query name carries it, `'%04x' % chunk_id`. */
  function ChunkLabel(chunkId: int): (l: seq<byte>)
    ensures |l| >= 4 && Dot !in l
  {
    Hex04Chars(chunkId);
    var h := Hex04(chunkId);
    assert forall i :: 0 <= i < |h| ==> h[i] != '.';
    Bytes(h)
  }

  /** The two labels of the telemetry domain. */
  const DomainHead: seq<byte> := Bytes("mr8266")
  const DomainTail: seq<byte> := Bytes("tk")

  /** `b'%s.%s.%04x.%s' % (info, session_id, chunk_id, TELEMETRY_DOMAIN)`. */
  function QueryName(info: seq<byte>, sessionId: seq<byte>, chunkId: int): seq<byte>
  {
    info + [Dot] + sessionId + [Dot] + ChunkLabel(chunkId) + [Dot] + Bytes(TelemetryDomain)
  }

  lemma DomainLabels()
    ensures Bytes(TelemetryDomain) == DomainHead + [Dot] + DomainTail
    ensures Dot !in DomainHead && Dot !in DomainTail
  {
    assert TelemetryDomain == "mr8266" + ("." + "tk");
    BytesAppend("mr8266", "." + "tk");
    BytesAppend(".", "tk");
  }

  /** The server can take a query name apart again: splitting on dots gives
      the line, the session id, the chunk label and the two domain labels. */
  lemma QueryNameLabels(info: seq<byte>, sessionId: seq<byte>, chunkId: int)
    requires Dot !in info && Dot !in sessionId
    ensures Split(QueryName(info, sessionId, chunkId), Dot)
         == [info, sessionId, ChunkLabel(chunkId), DomainHead, DomainTail]
  {
    DomainLabels();
    SplitFive(info, sessionId, ChunkLabel(chunkId), DomainHead, DomainTail, Dot);
  }

  /** How one call of `try_to_send` ends. */
  datatype Delivery = Delivered | Refused | Raised

  /** `try_to_send(info)`: a failed lookup (`OSError`) or an address outside
      `127.0.0.0/24` is a refusal; an empty answer list makes `r[0]` raise
      `IndexError`, which `try_to_send` does not catch. */
  function TrySend(resolve: seq<byte> -> Lookup<seq<byte>>, info: seq<byte>, sessionId: seq<byte>, chunkId: int): Delivery
  {
    match resolve(QueryName(info, sessionId, chunkId))
    case LookupFailed => Refused
    case Addresses(addrs) =>
      if addrs == [] then Raised
      else if StartsWith(addrs[0], Loopback) then Delivered
      else Refused
  }

  // ----------------------------------------------------------- file lines

  /** Where `readline()` started at `pos` leaves the file position: just
      after the next newline, or at the end of the file. */
  function LineEnd(file: seq<byte>, pos: nat): (e: nat)
    requires pos <= |file|
    ensures pos <= e <= |file| && (e == pos <==> pos == |file|)
    ensures forall k :: pos <= k < e - 1 ==> file[k] != Newline
    ensures pos < e < |file| ==> file[e - 1] == Newline
    decreases |file| - pos
  {
    if pos == |file| then pos
    else if file[pos] == Newline then pos + 1
    else LineEnd(file, pos + 1)
  }

  /** The lines `readline()` returns from `pos` to the end, newlines kept. */
  function Lines(file: seq<byte>, pos: nat): seq<seq<byte>>
    requires pos <= |file|
    decreases |file| - pos
  {
    if pos == |file| then []
    else
      var next := LineEnd(file, pos);
      [file[pos..next]] + Lines(file, next)
  }

  /** The lines read from `pos` put back together are the rest of the file. */
  lemma {:induction false} LinesCover(file: seq<byte>, pos: nat)
    requires pos <= |file|
    ensures Concat(Lines(file, pos)) == file[pos..]
    decreases |file| - pos
  {
    if pos < |file| {
      var next := LineEnd(file, pos);
      LinesCons(file, pos);
      LinesCover(file, next);
      assert Lines(file, pos)[1..] == Lines(file, next);
      assert file[pos..] == file[pos..next] + file[next..];
    }
  }

  predicate IsEom(line: seq<byte>)
  {
    StartsWith(line, Eom)
  }

  /** Number of lines that close a chunk. */
  function EomCount(lines: seq<seq<byte>>): nat
    decreases |lines|
  {
    if lines == [] then 0 else (if IsEom(lines[0]) then 1 else 0) + EomCount(lines[1..])
  }

  lemma EomCountCons(line: seq<byte>, lines: seq<seq<byte>>)
    ensures EomCount([line] + lines) == (if IsEom(line) then 1 else 0) + EomCount(lines)
  {
    assert ([line] + lines)[1..] == lines;
  }

  /** `line.rstrip()` on bytes. */
  function RStrip(line: seq<byte>): seq<byte>
  {
    TrimEnd(line, IsByteSpace)
  }

  // ------------------------------------------------------------ sending

  /** The outcome of `try_to_send` for a line and a chunk id, within one session. */
  type Sender = (seq<byte>, int) -> Delivery

  /** `try_to_send` of the session `sessionId` against the resolver `resolve`. */
  function SessionSender(resolve: seq<byte> -> Lookup<seq<byte>>, sessionId: seq<byte>): Sender
  {
    (info: seq<byte>, chunkId: int) => TrySend(resolve, info, sessionId, chunkId)
  }

  /** Why a send stopped: the whole file went out, a line was refused, or an
      `IndexError` escaped from `try_to_send`. */
  datatype Stop = Finished | Stalled | Crashed

  /** Where a send leaves the cursor and the chunk id. */
  datatype Progress = Progress(pos: nat, chunkId: int, stop: Stop)

  /** The loop of `send_telemetry`, from cursor `pos` with chunk id `chunkId`:
      read a line; before the last line also send `tx`, whose answer only
      matters when it raises; send the stripped line; on success move the
      cursor past it and count a chunk when it starts with `eom`. */
  function Drain(file: seq<byte>, pos: nat, chunkId: int, send: Sender): (p: Progress)
    requires pos <= |file|
    ensures pos <= p.pos <= |file|
    decreases |file| - pos
  {
    if pos == |file| then Progress(pos, chunkId, Finished)
    else
      var next := LineEnd(file, pos);
      var line := file[pos..next];
      if next == |file| && send(Tx, chunkId) == Raised then Progress(pos, chunkId, Crashed)
      else match send(RStrip(line), chunkId)
        case Delivered => Drain(file, next, if IsEom(line) then chunkId + 1 else chunkId, send)
        case Refused => Progress(pos, chunkId, Stalled)
        case Raised => Progress(pos, chunkId, Crashed)
  }

  /** An acknowledged line moves the send on to the next one. */
  lemma DrainDelivered(file: seq<byte>, pos: nat, chunkId: int, send: Sender)
    requires pos < |file|
    requires LineEnd(file, pos) < |file| || send(Tx, chunkId) != Raised
    requires send(RStrip(file[pos..LineEnd(file, pos)]), chunkId) == Delivered
    ensures var line := file[pos..LineEnd(file, pos)];
      Drain(file, pos, chunkId, send)
      == Drain(file, LineEnd(file, pos), if IsEom(line) then chunkId + 1 else chunkId, send)
  {
  }

  /** Every one of `lines`, sent in order, was acknowledged under the chunk
      id in force when it went out. */
  predicate AllDelivered(lines: seq<seq<byte>>, chunkId: int, send: Sender)
    decreases |lines|
  {
    || lines == []
    || (&& send(RStrip(lines[0]), chunkId) == Delivered
        && AllDelivered(lines[1..], chunkId + (if IsEom(lines[0]) then 1 else 0), send))
  }

  /** Of the pending `lines`, the send from `pos` delivered the first `k`,
      in order, each under the chunk id in force when it went out; the cursor
      `p.pos` lies just after them, the chunk id has grown by the number of
      `eom` lines among them, and the line after them, if any, is the one
      that was not acknowledged (or the `tx` sent before it raised). */
  predicate DeliveredThenStopped(lines: seq<seq<byte>>, k: nat, pos: nat, chunkId: int, send: Sender, p: Progress)
  {
    && k <= |lines|
    && AllDelivered(lines[..k], chunkId, send)
    && p.pos == pos + |Concat(lines[..k])|
    && p.chunkId == chunkId + EomCount(lines[..k])
    && (p.stop == Finished <==> k == |lines|)
    && (k < |lines| ==>
          || send(RStrip(lines[k]), p.chunkId) != Delivered
          || (k == |lines| - 1 && send(Tx, p.chunkId) == Raised))
  }

  lemma AllDeliveredCons(lines: seq<seq<byte>>, chunkId: int, send: Sender)
    requires lines != []
    requires send(RStrip(lines[0]), chunkId) == Delivered
    requires AllDelivered(lines[1..], chunkId + (if IsEom(lines[0]) then 1 else 0), send)
    ensures AllDelivered(lines, chunkId, send)
  {
  }

  lemma ConcatCons(lines: seq<seq<byte>>)
    requires lines != []
    ensures Concat(lines) == lines[0] + Concat(lines[1..])
    ensures EomCount(lines) == (if IsEom(lines[0]) then 1 else 0) + EomCount(lines[1..])
  {
  }

  /** One more acknowledged line in front extends what was delivered. */
  lemma DeliveredCons(line: seq<byte>, rest: seq<seq<byte>>, k: nat, pos: nat, chunkId: int, send: Sender, p: Progress)
    requires send(RStrip(line), chunkId) == Delivered
    requires DeliveredThenStopped(rest, k, pos + |line|,
                                  chunkId + (if IsEom(line) then 1 else 0), send, p)
    ensures DeliveredThenStopped([line] + rest, k + 1, pos, chunkId, send, p)
  {
    var lines := [line] + rest;
    var l := lines[..k + 1];
    assert l[0] == line && l[1..] == rest[..k];
    AllDeliveredCons(l, chunkId, send);
    ConcatCons(l);
    assert k + 1 < |lines| ==> lines[k + 1] == rest[k];
  }

  /** A send that stops before its first line delivered nothing. */
  lemma StoppedAtStart(lines: seq<seq<byte>>, pos: nat, chunkId: int, send: Sender, p: Progress)
    requires p.pos == pos && p.chunkId == chunkId && (p.stop == Finished <==> lines == [])
    requires lines != [] ==>
      || send(RStrip(lines[0]), chunkId) != Delivered
      || (|lines| == 1 && send(Tx, chunkId) == Raised)
    ensures DeliveredThenStopped(lines, 0, pos, chunkId, send, p)
  {
    assert lines[..0] == [];
  }

  /** The first line read from `pos`, and the ones after it. */
  lemma LinesCons(file: seq<byte>, pos: nat)
    requires pos < |file|
    ensures Lines(file, pos) == [file[pos..LineEnd(file, pos)]] + Lines(file, LineEnd(file, pos))
    ensures LineEnd(file, pos) == |file| ==> Lines(file, LineEnd(file, pos)) == []
  {
  }

  /** A send delivers a prefix of the pending lines and stops at the first
      line that is not acknowledged. */
  lemma {:induction false} DrainDeliversPrefix(file: seq<byte>, pos: nat, chunkId: int, send: Sender)
    requires pos <= |file|
    ensures exists k: nat :: DeliveredThenStopped(Lines(file, pos), k, pos, chunkId, send,
                                             Drain(file, pos, chunkId, send))
    decreases |file| - pos
  {
    var p := Drain(file, pos, chunkId, send);
    var lines := Lines(file, pos);
    if pos == |file| {
      StoppedAtStart(lines, pos, chunkId, send, p);
    } else {
      var next := LineEnd(file, pos);
      var line := file[pos..next];
      var rest := Lines(file, next);
      LinesCons(file, pos);
      if (next == |file| && send(Tx, chunkId) == Raised) || send(RStrip(line), chunkId) != Delivered {
        StoppedAtStart(lines, pos, chunkId, send, p);
      } else {
        var cid := if IsEom(line) then chunkId + 1 else chunkId;
        DrainDelivered(file, pos, chunkId, send);
        DrainDeliversPrefix(file, next, cid, send);
        var k': nat :| DeliveredThenStopped(rest, k', next, cid, send, p);
        DeliveredCons(line, rest, k', pos, chunkId, send, p);
      }
    }
  }

  /** Against a server that acknowledges every query, a send delivers every
      pending line and the chunk id grows by the number of `eom` lines. */
  lemma {:induction false} DrainAllAcknowledged(file: seq<byte>, pos: nat, chunkId: int, send: Sender)
    requires pos <= |file|
    requires forall info, cid :: send(info, cid) == Delivered
    ensures Drain(file, pos, chunkId, send)
         == Progress(|file|, chunkId + EomCount(Lines(file, pos)), Finished)
    decreases |file| - pos
  {
    if pos < |file| {
      var next := LineEnd(file, pos);
      var line := file[pos..next];
      DrainAllAcknowledged(file, next, if IsEom(line) then chunkId + 1 else chunkId, send);
      EomCountCons(line, Lines(file, next));
    }
  }

  /** A server that answers every query with an address in `127.0.0.0/24`
      acknowledges every line, and the `tx` element never raises. */
  lemma AcknowledgingServer(resolve: seq<byte> -> Lookup<seq<byte>>, sessionId: seq<byte>)
    requires forall name :: resolve(name).Addresses? && |resolve(name).addrs| > 0
                            && StartsWith(resolve(name).addrs[0], Loopback)
    ensures forall info, cid :: SessionSender(resolve, sessionId)(info, cid) == Delivered
  {
  }

  // ------------------------------------------------------------ storing

  /** Each line followed by the newline `store_info` writes after it. */
  function Records(lines: seq<seq<byte>>): seq<byte>
    decreases |lines|
  {
    if lines == [] then [] else lines[0] + [Newline] + Records(lines[1..])
  }

  lemma {:induction false} RecordsAppend(a: seq<seq<byte>>, b: seq<seq<byte>>)
    ensures Records(a + b) == Records(a) + Records(b)
    decreases |a|
  {
    if a == [] {
      assert a + b == b;
    } else {
      assert (a + b)[0] == a[0];
      assert (a + b)[1..] == a[1..] + b;
      RecordsAppend(a[1..], b);
    }
  }

  /** Appending the next line and its newline extends the records by one. */
  lemma RecordsStep(start: seq<byte>, lines: seq<seq<byte>>, i: nat, before: seq<byte>, line: seq<byte>)
    requires i < |lines| && line == lines[i]
    requires before == start + Records(lines[..i])
    ensures before + line + [Newline] == start + Records(lines[..i + 1])
  {
    RecordsSnoc(lines, i);
  }

  /** The records of two lines, written after `start`. */
  lemma RecordsOfTwo(start: seq<byte>, a: seq<byte>, b: seq<byte>, file: seq<byte>)
    requires file == start + a + [Newline] + b + [Newline]
    ensures file == start + Records([a, b])
  {
    assert [a, b][1..] == [b] && [b][1..] == [];
    assert Records([b]) == b + [Newline] + [];
    assert Records([a, b]) == a + [Newline] + (b + [Newline]);
  }

  /** The records of three lines, written after `start`. */
  lemma RecordsOfThree(start: seq<byte>, a: seq<byte>, b: seq<byte>, c: seq<byte>, file: seq<byte>)
    requires file == start + a + [Newline] + b + [Newline] + c + [Newline]
    ensures file == start + Records([a, b, c])
  {
    assert [a, b, c][1..] == [b, c];
    RecordsOfTwo([], b, c, b + [Newline] + c + [Newline]);
    assert Records([a, b, c]) == a + [Newline] + (b + [Newline] + c + [Newline]);
  }

  /** Records written one after the other are the records of both lists. */
  lemma RecordsJoin(start: seq<byte>, a: seq<seq<byte>>, b: seq<seq<byte>>, file: seq<byte>)
    requires file == start + Records(a) + Records(b)
    ensures file == start + Records(a + b)
  {
    RecordsAppend(a, b);
  }

  lemma RecordsSnoc(lines: seq<seq<byte>>, i: nat)
    requires i < |lines|
    ensures Records(lines[..i + 1]) == Records(lines[..i]) + lines[i] + [Newline]
  {
    assert lines[..i + 1] == lines[..i] + [lines[i]];
    RecordsAppend(lines[..i], [lines[i]]);
    assert Records([lines[i]]) == lines[i] + [Newline];
  }

  /** Text that holds no `'\n'` gives bytes that hold no newline. */
  lemma NoNewline(s: string)
    requires IsByteText(s) && '\n' !in s
    ensures Newline !in Bytes(s)
  {
    var b := Bytes(s);
    forall i | 0 <= i < |b| ensures b[i] != Newline {
      assert s[i] != '\n';
    }
  }

  /** Text that does not begin with `e` does not close a chunk. */
  lemma NotEom(s: string)
    requires IsByteText(s) && |s| > 0 && s[0] != 'e'
    ensures !IsEom(Bytes(s))
  {
    assert Bytes(s)[0] != Eom[0];
  }

  /** A line keeps or lacks its `eom` mark when its newline is added. */
  lemma EomTerminated(line: seq<byte>)
    ensures IsEom(line + [Newline]) <==> IsEom(line)
  {
    var t := line + [Newline];
    if |line| >= 3 {
      assert t[..3] == line[..3];
    } else {
      assert Eom == [101, 111, 109];
      assert |t| < 3 || t[2] == Newline;
    }
  }

  /** `b'machine-' + hex_str(machine.unique_id())`. */
  function MachineLine(uniqueId: seq<byte>): (line: seq<byte>)
    ensures Newline !in line && !IsEom(line)
  {
    var s := "machine-" + Hexlify(uniqueId);
    NoNewline(s);
    NotEom(s);
    Bytes(s)
  }

  /** A tag and a number, `b'time-%d' % (now, )` or
      `b'reset-%d' % (machine.reset_cause())`: any tag that holds no newline
      and does not begin with `e` gives a line that does not close a chunk. */
  function NumberLine(tag: string, n: int): (line: seq<byte>)
    requires IsByteText(tag) && '\n' !in tag && |tag| > 0 && tag[0] != 'e'
    ensures Newline !in line && !IsEom(line)
  {
    var s := tag + Decimal(n);
    NoNewline(s);
    NotEom(s);
    Bytes(s)
  }

  /** `b'ap-%s-%d' % (hex_str(bssid), strength)`. */
  function ApLine(entry: ScanEntry): (line: seq<byte>)
    ensures Newline !in line && !IsEom(line)
  {
    var s := "ap-" + Hexlify(entry.bssid) + "-" + Decimal(entry.rssi);
    NoNewline(s);
    NotEom(s);
    Bytes(s)
  }

  function ApLines(scan: seq<ScanEntry>): (lines: seq<seq<byte>>)
    ensures |lines| == |scan| && forall i :: 0 <= i < |scan| ==> lines[i] == ApLine(scan[i])
  {
    seq(|scan|, i requires 0 <= i < |scan| => ApLine(scan[i]))
  }

  /** The lines that open a chunk: the machine, the time, and the reset
      cause on the first chunk after start-up. */
  function ChunkHeader(uniqueId: seq<byte>, now: int, resetCause: Option<int>): (head: seq<seq<byte>>)
    ensures |head| == if resetCause.Some? then 3 else 2
  {
    [MachineLine(uniqueId), NumberLine("time-", now)]
    + (if resetCause.Some? then [NumberLine("reset-", resetCause.value)] else [])
  }

  /** The lines `store_scan` writes for one chunk: the header, one line per
      access point, and `eom`. */
  function ChunkLines(uniqueId: seq<byte>, now: int, resetCause: Option<int>, scan: seq<ScanEntry>): seq<seq<byte>>
  {
    ChunkHeader(uniqueId, now, resetCause) + ApLines(scan) + [Eom]
  }

  /** A stored chunk is one line per item, none holding a newline, with
      exactly one `eom` line, at the end. */
  lemma ChunkShape(uniqueId: seq<byte>, now: int, resetCause: Option<int>, scan: seq<ScanEntry>)
    ensures var lines := ChunkLines(uniqueId, now, resetCause, scan);
      && |lines| == |scan| + (if resetCause.Some? then 4 else 3)
      && (forall i :: 0 <= i < |lines| ==> Newline !in lines[i])
      && lines[|lines| - 1] == Eom
      && (forall i :: 0 <= i < |lines| - 1 ==> !IsEom(lines[i]))
  {
    var lines := ChunkLines(uniqueId, now, resetCause, scan);
    var head := ChunkHeader(uniqueId, now, resetCause);
    var body := head + ApLines(scan);
    assert lines == body + [Eom];
    forall i | 0 <= i < |lines| - 1 ensures Newline !in lines[i] && !IsEom(lines[i]) {
      assert lines[i] == body[i];
      if i >= |head| {
        assert body[i] == ApLines(scan)[i - |head|];
      }
    }
    assert Newline !in Eom;
  }

  /** The lines read back from a file with records appended are exactly
      those records, each with its newline. */
  lemma {:induction false} LinesOfRecords(prefix: seq<byte>, lines: seq<seq<byte>>)
    requires forall i :: 0 <= i < |lines| ==> Newline !in lines[i]
    ensures var read := Lines(prefix + Records(lines), |prefix|);
      |read| == |lines| && forall i :: 0 <= i < |lines| ==> read[i] == lines[i] + [Newline]
    decreases |lines|
  {
    var file := prefix + Records(lines);
    if lines != [] {
      var line := lines[0];
      var next := |prefix| + |line| + 1;
      var prefix' := prefix + line + [Newline];
      assert file == prefix' + Records(lines[1..]);
      assert LineEnd(file, |prefix|) == next by {
        assert file[next - 1] == Newline;
        forall k | |prefix| <= k < next - 1 ensures file[k] != Newline {
          assert file[k] == line[k - |prefix|];
        }
      }
      assert file[|prefix|..next] == line + [Newline];
      LinesOfRecords(prefix', lines[1..]);
      var read := Lines(file, |prefix|);
      assert read == [line + [Newline]] + Lines(file, next);
      forall i | 1 <= i < |lines| ensures read[i] == lines[i] + [Newline] {
        assert read[i] == Lines(file, next)[i - 1];
        assert lines[1..][i - 1] == lines[i];
      }
    }
  }

  /** Once a stored chunk is all that is pending, a send to a server that
      acknowledges everything empties the file and advances the chunk id by
      exactly one. */
  lemma StoredChunkSent(prefix: seq<byte>, uniqueId: seq<byte>, now: int, resetCause: Option<int>,
                        scan: seq<ScanEntry>, chunkId: int, send: Sender)
    requires forall info, cid :: send(info, cid) == Delivered
    ensures var file := prefix + Records(ChunkLines(uniqueId, now, resetCause, scan));
      Drain(file, |prefix|, chunkId, send) == Progress(|file|, chunkId + 1, Finished)
  {
    var lines := ChunkLines(uniqueId, now, resetCause, scan);
    var file := prefix + Records(lines);
    ChunkShape(uniqueId, now, resetCause, scan);
    LinesOfRecords(prefix, lines);
    DrainAllAcknowledged(file, |prefix|, chunkId, send);
    var read := Lines(file, |prefix|);
    forall i | 0 <= i < |read| ensures IsEom(read[i]) <==> i == |read| - 1 {
      EomTerminated(lines[i]);
    }
    EomCountLast(read);
  }

  /** A list of lines whose only `eom` line is the last one counts one. */
  lemma {:induction false} EomCountLast(lines: seq<seq<byte>>)
    requires |lines| >= 1
    requires forall i :: 0 <= i < |lines| ==> (IsEom(lines[i]) <==> i == |lines| - 1)
    ensures EomCount(lines) == 1
    decreases |lines|
  {
    if |lines| > 1 {
      EomCountLast(lines[1..]);
    } else {
      assert lines[1..] == [];
    }
  }

  // ------------------------------------------------------------ session

  /** The `while` loop of `send_telemetry`: sends the lines from `pos` on
      and returns where it stopped, the chunk id reached and why it stopped. */
  method SendFileLines(file: seq<byte>, start: nat, chunkId: int, send: Sender) returns (pos: nat, cid: int, stop: Stop)
    requires start < |file|
    ensures Progress(pos, cid, stop) == Drain(file, start, chunkId, send)
  {
    var eofPos := |file|;
    pos, cid, stop := start, chunkId, Finished;
    while pos < eofPos
      invariant pos <= eofPos
      invariant Drain(file, pos, cid, send) == Drain(file, start, chunkId, send)
      decreases eofPos - pos
    {
      var currentPos := LineEnd(file, pos);
      var line := file[pos..currentPos];
      if currentPos == eofPos {
        // The answer to `tx` is ignored unless the call raises.
        if send(Tx, cid) == Raised {
          stop := Crashed;
          return;
        }
      }
      var sent := send(RStrip(line), cid);
      if sent != Delivered {
        stop := if sent == Raised then Crashed else Stalled;
        return;
      }
      DrainDelivered(file, pos, cid, send);
      pos := currentPos;
      if IsEom(line) {
        cid := cid + 1;
      }
    }
  }

  class TelemetrySession {
    var sessionId: seq<byte>
    var chunkId: int
    /** True until the first chunk after start-up, which records the reset cause. */
    var reset: bool
    var lastScanTime: int
    /** The contents of `telem.dat`. */
    var dataFile: seq<byte>
    /** How far the lines of `telem.dat` have been acknowledged. */
    var fileReadPos: nat
    /** The RTC user memory, which outlives a deep sleep or a reset. */
    var rtcMemory: seq<byte>

    ghost predicate Valid()
      reads this
    {
      && fileReadPos <= |dataFile|
      && Comma !in sessionId
    }

    /** `TelemetrySession()`: resume the session in RTC memory when there is
        one with a non-empty id, otherwise draw a new id from four random
        bytes; the data file keeps what it holds, and the cursor starts at
        its beginning, so unacknowledged and acknowledged lines alike are
        sent again. */
    constructor (rtc: seq<byte>, randomBytes: seq<byte>, storedData: seq<byte>)
      requires !ReadCheckpoint(rtc).BadChunkId?
      ensures Valid()
      ensures var saved := ReadCheckpoint(rtc);
        && sessionId == (if saved.Resumed? && saved.sessionId != [] then saved.sessionId
                         else Bytes(Hexlify(randomBytes)))
        && chunkId == (if saved.Resumed? then saved.chunkId else 0)
      ensures reset && lastScanTime == 0 && dataFile == storedData && fileReadPos == 0 && rtcMemory == rtc
    {
      var saved := ReadCheckpoint(rtc);
      ResumedHasNoComma(rtc);
      HexHasNoComma(randomBytes);
      sessionId := if saved.Resumed? && saved.sessionId != [] then saved.sessionId
                   else Bytes(Hexlify(randomBytes));
      chunkId := if saved.Resumed? then saved.chunkId else 0;
      reset := true;
      lastScanTime := 0;
      dataFile := storedData;
      fileReadPos := 0;
      rtcMemory := rtc;
    }

    /** `_save_to_rtcmemory`. */
    method SaveToRtcMemory()
      requires Valid()
      modifies this
      ensures Valid()
      ensures rtcMemory == Checkpoint(sessionId, chunkId)
      ensures ReadCheckpoint(rtcMemory) == Resumed(sessionId, chunkId)
      ensures sessionId == old(sessionId) && chunkId == old(chunkId) && reset == old(reset)
      ensures lastScanTime == old(lastScanTime) && dataFile == old(dataFile) && fileReadPos == old(fileReadPos)
    {
      rtcMemory := Checkpoint(sessionId, chunkId);
      CheckpointRoundTrip(sessionId, chunkId);
    }

    /** `truncate_datafile`: the file is reopened empty and the cursor reset. */
    method TruncateDatafile()
      requires Valid()
      modifies this
      ensures dataFile == [] && fileReadPos == 0 && Valid()
      ensures sessionId == old(sessionId) && chunkId == old(chunkId) && reset == old(reset)
      ensures lastScanTime == old(lastScanTime) && rtcMemory == old(rtcMemory)
    {
      dataFile := [];
      fileReadPos := 0;
    }

    /** `store_scan(scan)` at time `now`: nothing within `MinStoreTime`
        seconds of the last stored scan; otherwise one chunk appended. */
    method StoreScan(scan: seq<ScanEntry>, now: int, uniqueId: seq<byte>, resetCause: int)
      requires Valid()
      modifies this
      ensures Valid()
      ensures old(now - lastScanTime) < MinStoreTime ==>
        && lastScanTime == old(lastScanTime) && reset == old(reset) && dataFile == old(dataFile)
      ensures old(now - lastScanTime) >= MinStoreTime ==>
        && lastScanTime == now && !reset
        && dataFile == old(dataFile) + Records(ChunkLines(uniqueId, now, if old(reset) then Some(resetCause) else None, scan))
      ensures sessionId == old(sessionId) && chunkId == old(chunkId)
      ensures fileReadPos == old(fileReadPos) && rtcMemory == old(rtcMemory)
    {
      if now - lastScanTime < MinStoreTime {
        return;
      }
      lastScanTime := now;
      ghost var cause := if reset then Some(resetCause) else None;
      ghost var start := dataFile;
      WriteHeader(uniqueId, now, resetCause, reset);
      reset := false;
      WriteAccessPoints(scan);
      RecordsJoin(start, ChunkHeader(uniqueId, now, cause), ApLines(scan) + [Eom], dataFile);
      assert ChunkHeader(uniqueId, now, cause) + (ApLines(scan) + [Eom]) == ChunkLines(uniqueId, now, cause, scan);
    }

    /** The first lines of a chunk: the machine, the time and, when
        `withReset`, the reset cause. */
    method WriteHeader(uniqueId: seq<byte>, now: int, resetCause: int, withReset: bool)
      modifies this
      ensures dataFile == old(dataFile) + Records(ChunkHeader(uniqueId, now, if withReset then Some(resetCause) else None))
      ensures sessionId == old(sessionId) && chunkId == old(chunkId) && reset == old(reset)
      ensures lastScanTime == old(lastScanTime) && fileReadPos == old(fileReadPos) && rtcMemory == old(rtcMemory)
    {
      var machine, time := MachineLine(uniqueId), NumberLine("time-", now);
      WriteLine(machine);
      WriteLine(time);
      if withReset {
        var cause := NumberLine("reset-", resetCause);
        WriteLine(cause);
        RecordsOfThree(old(dataFile), machine, time, cause, dataFile);
        assert ChunkHeader(uniqueId, now, Some(resetCause)) == [machine, time, cause];
      } else {
        RecordsOfTwo(old(dataFile), machine, time, dataFile);
        assert ChunkHeader(uniqueId, now, None) == [machine, time];
      }
    }

    /** The loop of `store_scan` over the access points, and the closing
        `eom` line. */
    method WriteAccessPoints(scan: seq<ScanEntry>)
      modifies this
      ensures dataFile == old(dataFile) + Records(ApLines(scan) + [Eom])
      ensures sessionId == old(sessionId) && chunkId == old(chunkId) && reset == old(reset)
      ensures lastScanTime == old(lastScanTime) && fileReadPos == old(fileReadPos) && rtcMemory == old(rtcMemory)
    {
      ghost var body := ApLines(scan) + [Eom];
      assert dataFile == old(dataFile) + Records(body[..0]);
      var i := 0;
      while i < |scan|
        invariant 0 <= i <= |scan|
        invariant dataFile == old(dataFile) + Records(body[..i])
        invariant sessionId == old(sessionId) && chunkId == old(chunkId) && reset == old(reset)
        invariant lastScanTime == old(lastScanTime) && fileReadPos == old(fileReadPos) && rtcMemory == old(rtcMemory)
      {
        RecordsStep(old(dataFile), body, i, dataFile, ApLine(scan[i]));
        WriteLine(ApLine(scan[i]));
        i := i + 1;
      }
      RecordsStep(old(dataFile), body, i, dataFile, Eom);
      WriteLine(Eom);
      assert body[..i + 1] == body;
    }

    /** `f.write(line + b'\n')` on the data file opened for appending. */
    method WriteLine(line: seq<byte>)
      modifies this
      ensures dataFile == old(dataFile) + line + [Newline]
      ensures sessionId == old(sessionId) && chunkId == old(chunkId) && reset == old(reset)
      ensures lastScanTime == old(lastScanTime) && fileReadPos == old(fileReadPos) && rtcMemory == old(rtcMemory)
    {
      dataFile := dataFile + line + [Newline];
    }

    /** `send_telemetry` with the resolver's answers given by `resolve`;
        `raised` reports an `IndexError` escaping from `try_to_send`.  When
        every line went out, the file is truncated and the session saved. */
    method SendTelemetry(resolve: seq<byte> -> Lookup<seq<byte>>) returns (raised: bool)
      requires Valid()
      modifies this
      ensures Valid()
      ensures sessionId == old(sessionId) && reset == old(reset) && lastScanTime == old(lastScanTime)
      ensures old(fileReadPos) == |old(dataFile)| ==>
        && !raised && chunkId == old(chunkId) && dataFile == old(dataFile)
        && fileReadPos == old(fileReadPos) && rtcMemory == old(rtcMemory)
      ensures old(fileReadPos) < |old(dataFile)| ==>
        var p := Drain(old(dataFile), old(fileReadPos), old(chunkId), SessionSender(resolve, sessionId));
        && raised == (p.stop == Crashed)
        && chunkId == p.chunkId
        && if p.stop == Finished then
             && dataFile == [] && fileReadPos == 0 && rtcMemory == Checkpoint(sessionId, chunkId)
             && ReadCheckpoint(rtcMemory) == Resumed(sessionId, chunkId)
           else
             dataFile == old(dataFile) && fileReadPos == p.pos && rtcMemory == old(rtcMemory)
    {
      raised := SendPending(SessionSender(resolve, sessionId));
    }

    /** The body of `send_telemetry`, with `send` giving what `try_to_send`
        returns for a line under a chunk id. */
    method SendPending(send: Sender) returns (raised: bool)
      requires Valid()
      modifies this
      ensures Valid()
      ensures sessionId == old(sessionId) && reset == old(reset) && lastScanTime == old(lastScanTime)
      ensures old(fileReadPos) == |old(dataFile)| ==>
        && !raised && chunkId == old(chunkId) && dataFile == old(dataFile)
        && fileReadPos == old(fileReadPos) && rtcMemory == old(rtcMemory)
      ensures old(fileReadPos) < |old(dataFile)| ==>
        var p := Drain(old(dataFile), old(fileReadPos), old(chunkId), send);
        && raised == (p.stop == Crashed)
        && chunkId == p.chunkId
        && if p.stop == Finished then
             && dataFile == [] && fileReadPos == 0 && rtcMemory == Checkpoint(sessionId, chunkId)
             && ReadCheckpoint(rtcMemory) == Resumed(sessionId, chunkId)
           else
             dataFile == old(dataFile) && fileReadPos == p.pos && rtcMemory == old(rtcMemory)
    {
      var eofPos := |dataFile|;
      if eofPos == fileReadPos {
        return false;
      }
      var pos, cid, stop := SendFileLines(dataFile, fileReadPos, chunkId, send);
      chunkId := cid;
      if stop != Finished {
        fileReadPos := pos;
        return stop == Crashed;
      }
      TruncateDatafile();
      SaveToRtcMemory();
      return false;
    }
  }
}

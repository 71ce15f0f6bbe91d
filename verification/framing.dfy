/** The length-prefixed framing of the connection base class in the `net` package: a message is
    its UTF-8 byte count as a 4-byte big-endian int, followed by those bytes. A connection is the
    bytes left to read on its input stream and the bytes written so far on its output stream. */
module LengthFraming {
  import opened Wrappers
  import opened JavaInts
  import opened Utf8
  import opened Json
  import opened EntityOps
  import opened Messages

  /** `DataOutputStream.writeInt`: the value as a 32-bit two's-complement int, most significant
      byte first. */
  function IntBytes(n: int): (r: seq<byte>)
    ensures |r| == 4
  {
    var v := ToInt(n);
    var u := if v < 0 then v + 0x1_0000_0000 else v;
    [u / 0x100_0000, (u / 0x1_0000) % 256, (u / 256) % 256, u % 256]
  }

  /** `DataInputStream.readInt`: four bytes, most significant first, as a signed int; fewer than
      four bytes left is the end of the stream. */
  function ReadInt(bs: seq<byte>): (r: Result<(int, seq<byte>)>)
    ensures r.Err? <==> |bs| < 4
    ensures r.Err? ==> r.error == EOFException
    ensures r.Ok? ==> IsInt(r.value.0) && r.value.1 == bs[4..]
  {
    if |bs| < 4 then Err(EOFException)
    else
      var u := bs[0] as int * 0x100_0000 + bs[1] as int * 0x1_0000 + bs[2] as int * 256 + bs[3] as int;
      Ok((if u > INT_MAX then u - 0x1_0000_0000 else u, bs[4..]))
  }

  /** Reading back what `writeInt` wrote gives the int. */
  lemma ReadIntBytes(n: int, rest: seq<byte>)
    requires IsInt(n)
    ensures ReadInt(IntBytes(n) + rest) == Ok((n, rest))
  {
    var u := if n < 0 then n + 0x1_0000_0000 else n;
    var bs := IntBytes(n) + rest;
    assert u == (u / 0x100_0000) * 0x100_0000 + ((u / 0x1_0000) % 256) * 0x1_0000 + ((u / 256) % 256) * 256 + u % 256 by {
      assert u / 0x1_0000 == (u / 0x100_0000) * 256 + (u / 0x1_0000) % 256;
      assert u / 256 == (u / 0x1_0000) * 256 + (u / 256) % 256;
    }
    assert bs[4..] == rest;
  }

  /** The bytes `write(s)` puts on the stream. */
  function Frame(s: string): (r: seq<byte>)
    ensures |r| == 4 + |Encode(s)|
  {
    IntBytes(|Encode(s)|) + Encode(s)
  }

  /** The reader and writer streams (null until a subclass sets them) and the initialised flag. */
  datatype Conn = Conn(reader: Option<seq<byte>>, writer: Option<seq<byte>>, initialized: bool)

  /** The flag the setters keep: initialised exactly when both streams are set. */
  predicate Consistent(c: Conn) {
    c.initialized <==> c.reader.Some? && c.writer.Some?
  }

  /** A connection as the constructor leaves it. */
  function NewConn(): (c: Conn)
    ensures Consistent(c) && !c.initialized
  {
    Conn(None, None, false)
  }

  /** `setInputStream`: the reader is set and the flag recomputed. */
  function SetInputStream(c: Conn, input: seq<byte>): (r: Conn)
    ensures Consistent(r) && r.reader == Some(input) && r.writer == c.writer
    ensures r.initialized <==> c.writer.Some?
  {
    Conn(Some(input), c.writer, c.writer.Some?)
  }

  /** `setOutputStream`: the writer is set, with nothing written yet, and the flag recomputed. */
  function SetOutputStream(c: Conn): (r: Conn)
    ensures Consistent(r) && r.writer == Some([]) && r.reader == c.reader
    ensures r.initialized <==> c.reader.Some?
  {
    Conn(c.reader, Some([]), c.reader.Some?)
  }

  /** `write`: the frame of `s` is appended to the output; an uninitialised connection throws. */
  function Write(c: Conn, s: string): (r: Result<Conn>)
    requires Consistent(c)
    ensures r.Ok? <==> c.initialized
    ensures r.Err? ==> r.error == IllegalStateException
    ensures r.Ok? ==> Consistent(r.value) && r.value.reader == c.reader &&
                      r.value.writer == Some(c.writer.value + Frame(s))
  {
    if !c.initialized then Err(IllegalStateException)
    else Ok(Conn(c.reader, Some(c.writer.value + Frame(s)), true))
  }

  /** `readString`: a length, then exactly that many bytes decoded as UTF-8. A negative length
      fails to allocate its buffer; a stream that ends early throws EOFException. */
  function ReadString(c: Conn): (r: Result<(string, Conn)>)
    requires Consistent(c)
    ensures !c.initialized ==> r == Err(IllegalStateException)
    ensures c.initialized && |c.reader.value| < 4 ==> r == Err(EOFException)
    ensures r.Ok? ==> Consistent(r.value.1) && r.value.1.writer == c.writer &&
                      r.value.1.reader.Some? && |r.value.1.reader.value| + 4 <= |c.reader.value|
  {
    if !c.initialized then Err(IllegalStateException)
    else
      var (n, rest) :- ReadInt(c.reader.value);
      if n < 0 then Err(NegativeArraySizeException)
      else if |rest| < n then Err(EOFException)
      else Ok((Decode(rest[..n]), Conn(Some(rest[n..]), c.writer, true)))
  }

  /** A frame reads back as the string it was written from, leaving the bytes after it. */
  lemma FrameRoundTrip(c: Conn, s: string, rest: seq<byte>)
    requires Consistent(c) && c.initialized && c.reader == Some(Frame(s) + rest)
    requires |Encode(s)| <= INT_MAX
    ensures ReadString(c) == Ok((s, Conn(Some(rest), c.writer, true)))
  {
    var bytes := Encode(s);
    assert Frame(s) + rest == IntBytes(|bytes|) + (bytes + rest);
    ReadIntBytes(|bytes|, bytes + rest);
    assert (bytes + rest)[..|bytes|] == bytes && (bytes + rest)[|bytes|..] == rest;
    DecodeEncode(s);
  }

  /** The frames of several strings, one after another. */
  function Frames(ss: seq<string>): seq<byte> {
    if |ss| == 0 then [] else Frame(ss[0]) + Frames(ss[1..])
  }

  /** `n` calls of `readString` in a row, stopping at the first failure. */
  function ReadStrings(c: Conn, n: nat): (r: Result<(seq<string>, Conn)>)
    requires Consistent(c)
    ensures r.Ok? ==> |r.value.0| == n && Consistent(r.value.1)
    decreases n
  {
    if n == 0 then Ok(([], c))
    else
      var (s, c') :- ReadString(c);
      var (more, c'') :- ReadStrings(c', n - 1);
      Ok(([s] + more, c''))
  }

  /** `write` called once per string, in order. */
  function WriteStrings(c: Conn, ss: seq<string>): (r: Result<Conn>)
    requires Consistent(c)
    ensures r.Ok? <==> c.initialized
    ensures r.Ok? ==> Consistent(r.value) && r.value.reader == c.reader
    decreases |ss|
  {
    if |ss| == 0 then (if c.initialized then Ok(c) else Err(IllegalStateException))
    else
      var c' :- Write(c, ss[0]);
      WriteStrings(c', ss[1..])
  }

  /** Consecutive writes lay their frames end to end. */
  lemma {:induction false} WriteStringsFrames(c: Conn, ss: seq<string>)
    requires Consistent(c) && c.initialized
    ensures WriteStrings(c, ss).Ok? && WriteStrings(c, ss).value.writer == Some(c.writer.value + Frames(ss))
    decreases |ss|
  {
    if |ss| > 0 {
      var c' := Write(c, ss[0]).value;
      WriteStringsFrames(c', ss[1..]);
      assert c.writer.value + Frame(ss[0]) + Frames(ss[1..]) == c.writer.value + Frames(ss);
    } else {
      assert c.writer.value + Frames(ss) == c.writer.value;
    }
  }

  /** Consecutive frames decode in order, one string per read. */
  lemma {:induction false} ConsecutiveFrames(c: Conn, ss: seq<string>, rest: seq<byte>)
    requires Consistent(c) && c.initialized && c.reader == Some(Frames(ss) + rest)
    requires forall i :: 0 <= i < |ss| ==> |Encode(ss[i])| <= INT_MAX
    ensures ReadStrings(c, |ss|) == Ok((ss, Conn(Some(rest), c.writer, true)))
    decreases |ss|
  {
    if |ss| > 0 {
      assert Frames(ss) + rest == Frame(ss[0]) + (Frames(ss[1..]) + rest);
      FrameRoundTrip(c, ss[0], Frames(ss[1..]) + rest);
      var c' := Conn(Some(Frames(ss[1..]) + rest), c.writer, true);
      ConsecutiveFrames(c', ss[1..], rest);
      assert [ss[0]] + ss[1..] == ss;
    } else {
      assert Frames(ss) + rest == rest;
    }
  }

  /** `close`: the flag and both streams are cleared whatever happens; each stream that was set is
      closed even if closing the other failed, and the last failure is rethrown. */
  function Close(c: Conn, writerFailure: Option<Exception>, readerFailure: Option<Exception>): (r: (Conn, Option<Exception>))
    ensures r.0 == NewConn()
    ensures r.1.Some? <==> (c.writer.Some? && writerFailure.Some?) || (c.reader.Some? && readerFailure.Some?)
    ensures c.reader.Some? && readerFailure.Some? ==> r.1 == readerFailure
  {
    var afterWriter := if c.writer.Some? && writerFailure.Some? then writerFailure else None;
    var afterReader := if c.reader.Some? && readerFailure.Some? then readerFailure else afterWriter;
    (Conn(None, None, false), afterReader)
  }

  /** After `close`, reading and writing both throw IllegalStateException. */
  lemma ClosedConnectionRefuses(c: Conn, writerFailure: Option<Exception>, readerFailure: Option<Exception>, s: string)
    ensures var closed := Close(c, writerFailure, readerFailure).0;
            Write(closed, s) == Err(IllegalStateException) && ReadString(closed) == Err(IllegalStateException)
  {
  }

  /** `send(Request)`: the request's text, as the request adapter writes it, as one frame.
      Serialisation comes first, so an untyped request fails even on a closed connection. */
  function SendRequest(t: JsonText, codec: EntityCodec, c: Conn, req: Request): (r: Result<Conn>)
    requires Consistent(c)
    ensures req.requestType.None? ==> r == Err(NullPointerException)
    ensures req.requestType.Some? ==> r == Write(c, SerializeRequest(t, codec, req).value)
  {
    var text :- SerializeRequest(t, codec, req);
    Write(c, text)
  }

  /** `receiveRequest`: one frame, deserialised as a request (null for JSON null). */
  function ReceiveRequest(t: JsonText, codec: EntityCodec, c: Conn): (r: Result<(Option<Request>, Conn)>)
    requires Consistent(c)
    ensures !c.initialized ==> r == Err(IllegalStateException)
    ensures r.Ok? ==> Consistent(r.value.1) && r.value.1.writer == c.writer
    ensures r.Ok? && r.value.0.Some? ==> r.value.0.value.uniqueId.None?
  {
    var (text, c') :- ReadString(c);
    var req :- DeserializeRequest(t, codec, text);
    Ok((req, c'))
  }

  /** `send(Request)` over the corrected adapter, which writes the unique id. */
  function SendRequestWithId(t: JsonText, codec: EntityCodec, c: Conn, req: Request): (r: Result<Conn>)
    requires Consistent(c)
    ensures req.requestType.None? ==> r == Err(NullPointerException)
    ensures req.requestType.Some? ==> r == Write(c, SerializeRequestWithId(t, codec, req).value)
  {
    var text :- SerializeRequestWithId(t, codec, req);
    Write(c, text)
  }

  /** `receiveRequest` over the corrected adapter, which reads the unique id back. */
  function ReceiveRequestWithId(t: JsonText, codec: EntityCodec, c: Conn): (r: Result<(Option<Request>, Conn)>)
    requires Consistent(c)
    ensures !c.initialized ==> r == Err(IllegalStateException)
    ensures r.Ok? ==> Consistent(r.value.1) && r.value.1.writer == c.writer
  {
    var (text, c') :- ReadString(c);
    var req :- DeserializeRequestWithId(t, codec, text);
    Ok((req, c'))
  }

  /** `send(Response)`. */
  function SendResponse(t: JsonText, codec: EntityCodec, c: Conn, resp: Response): (r: Result<Conn>)
    requires Consistent(c)
    ensures r == Write(c, SerializeResponse(t, codec, resp))
  {
    Write(c, SerializeResponse(t, codec, resp))
  }

  /** `receiveResponse`. */
  function ReceiveResponse(t: JsonText, codec: EntityCodec, c: Conn): (r: Result<(Option<Response>, Conn)>)
    requires Consistent(c)
    ensures !c.initialized ==> r == Err(IllegalStateException)
  {
    var (text, c') :- ReadString(c);
    var resp :- DeserializeResponse(t, codec, text);
    Ok((resp, c'))
  }

  /** A request sent on one connection is received by a connection reading those bytes, with its
      type, time and entities but, as the adapter is written, without its unique id. */
  lemma RequestOverFrame(t: JsonText, codec: EntityCodec, c: Conn, req: Request, rest: seq<byte>)
    requires LawfulText(t) && LawfulCodec(codec)
    requires req.requestType.Some? && IsLong(req.lastRequestTime)
    requires |Encode(SerializeRequest(t, codec, req).value)| <= INT_MAX
    requires Consistent(c) && c.initialized && c.reader == Some(Frame(SerializeRequest(t, codec, req).value) + rest)
    ensures ReceiveRequest(t, codec, c) == Ok((Some(req.(uniqueId := None)), Conn(Some(rest), c.writer, true)))
  {
    RequestRoundTripDropsUniqueId(t, codec, req);
    FrameRoundTrip(c, SerializeRequest(t, codec, req).value, rest);
  }

  /** Over the corrected adapter, a request sent on one connection is received whole, id included,
      by a connection reading those bytes. */
  lemma RequestWithIdOverFrame(t: JsonText, codec: EntityCodec, c: Conn, req: Request, rest: seq<byte>)
    requires LawfulText(t) && LawfulCodec(codec)
    requires req.requestType.Some? && IsLong(req.lastRequestTime)
    requires |Encode(SerializeRequestWithId(t, codec, req).value)| <= INT_MAX
    requires Consistent(c) && c.initialized && c.reader == Some(Frame(SerializeRequestWithId(t, codec, req).value) + rest)
    ensures ReceiveRequestWithId(t, codec, c) == Ok((Some(req), Conn(Some(rest), c.writer, true)))
  {
    RequestWithIdRoundTrip(t, codec, req);
    FrameRoundTrip(c, SerializeRequestWithId(t, codec, req).value, rest);
  }

  /** A response sent on one connection is received whole by a connection reading those bytes. */
  lemma ResponseOverFrame(t: JsonText, codec: EntityCodec, c: Conn, resp: Response, rest: seq<byte>)
    requires LawfulText(t) && LawfulCodec(codec)
    requires |Encode(SerializeResponse(t, codec, resp))| <= INT_MAX
    requires Consistent(c) && c.initialized && c.reader == Some(Frame(SerializeResponse(t, codec, resp)) + rest)
    ensures ReceiveResponse(t, codec, c) == Ok((Some(resp), Conn(Some(rest), c.writer, true)))
  {
    ResponseRoundTrip(t, codec, resp);
    FrameRoundTrip(c, SerializeResponse(t, codec, resp), rest);
  }
}

/** The older line-delimited framing of the connection base class in the `p2p` package: a message
    is written followed by a line separator, and read by collecting every line up to the end of
    the stream. Streams are character streams here. */
module LineFraming {
  import opened Wrappers
  import opened JavaInts
  import opened Json
  import opened EntityOps
  import opened Messages
  import Seqs

  /** `line.separator` on Android. */
  const NEW_LINE := "\n"

  predicate IsTerminator(c: char) {
    c == '\n' || c == '\r'
  }

  predicate NoTerminators(s: string) {
    forall i :: 0 <= i < |s| ==> !IsTerminator(s[i])
  }

  /** `BufferedReader.readLine`: the text before the first `\n`, `\r` or `\r\n`, and the rest after
      that terminator; a last line may lack one; null at the end of the stream. */
  function ReadLine(s: string): (r: Option<(string, string)>)
    ensures r.None? <==> |s| == 0
    ensures r.Some? ==> NoTerminators(r.value.0) && |r.value.1| < |s|
    ensures NoTerminators(s) && |s| > 0 ==> r == Some((s, ""))
  {
    if |s| == 0 then None
    else match Seqs.FirstIndex(IsTerminator, s)
      case None => Some((s, ""))
      case Some(i) =>
        if s[i] == '\r' && i + 1 < |s| && s[i + 1] == '\n' then Some((s[..i], s[i + 2..]))
        else Some((s[..i], s[i + 1..]))
  }

  /** Every line `readLine` returns until it returns null. */
  function Lines(s: string): seq<string>
    decreases |s|
  {
    match ReadLine(s)
    case None => []
    case Some((line, rest)) => [line] + Lines(rest)
  }

  /** Each line followed by `NEW_LINE`, concatenated. */
  function JoinLines(ls: seq<string>): string {
    if |ls| == 0 then "" else ls[0] + NEW_LINE + JoinLines(ls[1..])
  }

  lemma ReadLineOfJoined(line: string, rest: string)
    requires NoTerminators(line)
    ensures ReadLine(line + NEW_LINE + rest) == Some((line, rest))
  {
    var s := line + NEW_LINE + rest;
    assert s[|line|] == '\n';
    assert forall j :: 0 <= j < |line| ==> s[j] == line[j];
    Seqs.FirstIndexIs(IsTerminator, s, |line|);
    assert s[..|line|] == line && s[|line| + 1..] == rest;
  }

  /** Lines free of terminators, joined with `NEW_LINE`, are read back one by one. */
  lemma {:induction false} LinesOfJoined(ls: seq<string>)
    requires forall i :: 0 <= i < |ls| ==> NoTerminators(ls[i])
    ensures Lines(JoinLines(ls)) == ls
  {
    if |ls| > 0 {
      ReadLineOfJoined(ls[0], JoinLines(ls[1..]));
      LinesOfJoined(ls[1..]);
      assert [ls[0]] + ls[1..] == ls;
    }
  }

  datatype Stream = Stream(text: string, open: bool)

  /** The reader and writer (set by subclasses, which also set the flag) and the flag. */
  datatype Conn = Conn(reader: Option<Stream>, writer: Option<Stream>, initialized: bool)

  /** A connection whose subclass has set up both streams: the reader holds the incoming text. */
  function Opened(input: string): (c: Conn)
    ensures c.initialized && c.reader == Some(Stream(input, true)) && c.writer == Some(Stream("", true))
  {
    Conn(Some(Stream(input, true)), Some(Stream("", true)), true)
  }

  /** `write`: the payload and one line separator, then a flush. Writing to a closed writer fails
      with IOException. */
  function Write(c: Conn, s: string): (r: Result<Conn>)
    ensures !c.initialized ==> r == Err(IllegalStateException)
    ensures r.Ok? ==> c.writer.Some? && c.writer.value.open &&
                      r.value == c.(writer := Some(Stream(c.writer.value.text + s + NEW_LINE, true)))
  {
    if !c.initialized then Err(IllegalStateException)
    else match c.writer
      case None => Err(NullPointerException)
      case Some(w) =>
        if !w.open then Err(IOException)
        else Ok(c.(writer := Some(Stream(w.text + s + NEW_LINE, true))))
  }

  /** `readToEnd`: every line up to the end of the stream, each followed by `NEW_LINE`; the stream
      is left empty. */
  function ReadToEnd(c: Conn): (r: Result<(string, Conn)>)
    ensures !c.initialized ==> r == Err(IllegalStateException)
    ensures r.Ok? ==> c.reader.Some? && c.reader.value.open &&
                      r.value.0 == JoinLines(Lines(c.reader.value.text)) &&
                      r.value.1 == c.(reader := Some(Stream("", true)))
  {
    if !c.initialized then Err(IllegalStateException)
    else match c.reader
      case None => Err(NullPointerException)
      case Some(rd) =>
        if !rd.open then Err(IOException)
        else Ok((JoinLines(Lines(rd.text)), c.(reader := Some(Stream("", true)))))
  }

  /** A payload without line terminators, written once and read to the end of the stream, comes
      back with exactly one `NEW_LINE` appended. */
  lemma WriteThenReadToEnd(p: string)
    requires NoTerminators(p)
    ensures var sent := Write(Opened(""), p).value.writer.value.text;
            ReadToEnd(Opened(sent)).Ok? && ReadToEnd(Opened(sent)).value.0 == p + NEW_LINE
  {
    var sent := Write(Opened(""), p).value.writer.value.text;
    assert sent == p + NEW_LINE + "";
    ReadLineOfJoined(p, "");
    assert Lines("") == [];
    assert Lines(sent) == [p];
    assert JoinLines([p]) == p + NEW_LINE + JoinLines([]);
  }

  /** `close`: both streams that are set are closed, the last failure is rethrown, and the flag
      and the stream references are left as they were. */
  function Close(c: Conn, writerFailure: Option<Exception>, readerFailure: Option<Exception>): (r: (Conn, Option<Exception>))
    ensures r.0.initialized == c.initialized
    ensures r.0.reader.Some? <==> c.reader.Some?
    ensures r.0.writer.Some? <==> c.writer.Some?
    ensures r.0.reader.Some? ==> !r.0.reader.value.open && r.0.reader.value.text == c.reader.value.text
    ensures r.0.writer.Some? ==> !r.0.writer.value.open && r.0.writer.value.text == c.writer.value.text
    ensures r.1.Some? <==> (c.writer.Some? && writerFailure.Some?) || (c.reader.Some? && readerFailure.Some?)
    ensures c.reader.Some? && readerFailure.Some? ==> r.1 == readerFailure
  {
    var w := if c.writer.Some? then Some(Stream(c.writer.value.text, false)) else None;
    var rd := if c.reader.Some? then Some(Stream(c.reader.value.text, false)) else None;
    var afterWriter := if c.writer.Some? && writerFailure.Some? then writerFailure else None;
    var afterReader := if c.reader.Some? && readerFailure.Some? then readerFailure else afterWriter;
    (Conn(rd, w, c.initialized), afterReader)
  }

  /** Because `close` keeps the flag, a closed connection fails with IOException from the closed
      stream rather than IllegalStateException. */
  lemma ClosedConnectionStillInitialized(input: string, s: string)
    ensures var closed := Close(Opened(input), None, None).0;
            closed.initialized && Write(closed, s) == Err(IOException) && ReadToEnd(closed) == Err(IOException)
  {
  }

  /** `write(Request)` and `readRequest`, over the request adapter as written. */
  function WriteRequest(t: JsonText, codec: EntityCodec, c: Conn, req: Request): (r: Result<Conn>)
    ensures req.requestType.None? ==> r == Err(NullPointerException)
    ensures req.requestType.Some? ==> r == Write(c, SerializeRequest(t, codec, req).value)
  {
    var text :- SerializeRequest(t, codec, req);
    Write(c, text)
  }

  function ReadRequest(t: JsonText, codec: EntityCodec, c: Conn): (r: Result<(Option<Request>, Conn)>)
    ensures !c.initialized ==> r == Err(IllegalStateException)
    ensures r.Ok? && r.value.0.Some? ==> r.value.0.value.uniqueId.None?
  {
    var (text, c') :- ReadToEnd(c);
    var req :- DeserializeRequest(t, codec, text);
    Ok((req, c'))
  }

  /** A request written on one line and read to the end of the stream arrives with its type, time
      and entities, because the compact JSON text has no line terminators and the parser ignores
      the added newline; as the adapter is written, its unique id is lost. */
  lemma RequestOverLine(t: JsonText, codec: EntityCodec, req: Request)
    requires LawfulText(t) && LawfulCodec(codec) && CompactText(t)
    requires req.requestType.Some? && IsLong(req.lastRequestTime)
    ensures var sent := WriteRequest(t, codec, Opened(""), req).value.writer.value.text;
            ReadRequest(t, codec, Opened(sent)).Ok? &&
            ReadRequest(t, codec, Opened(sent)).value.0 == Some(req.(uniqueId := None))
  {
    RequestRoundTripDropsUniqueId(t, codec, req);
    var text := SerializeRequest(t, codec, req).value;
    var tree := EncodeRequest(t, codec, req).value;
    assert text == t.render(tree);
    assert NoTerminators(text) by {
      assert '\n' !in t.render(tree) && '\r' !in t.render(tree);
    }
    WriteThenReadToEnd(text);
    assert t.parse(text + NEW_LINE) == t.parse(text);
  }
}

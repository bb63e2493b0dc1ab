/** The native messaging host of the browser extension
    (native-host/pac_host.py): frames of a 4-byte little-endian length and a
    UTF-8 JSON payload on stdin and stdout, the `handle` dispatch of the `set`
    and `ping` commands, and the loop that answers frames until the input
    ends. JSON text, UTF-8 decoding and the Windows registry are foreign code
    and enter as function parameters. */
module NativeHost {
  import opened Wrappers
  import opened Strings

  newtype byte = b: int | 0 <= b < 256

  /** Values of `struct.pack('<I', n)`: below 2^32. */
  const Limit: nat := 0x1_0000_0000

  // ---------------------------------------------------------------------
  // The length prefix
  // ---------------------------------------------------------------------

  /** `struct.pack('<I', n)`: least significant byte first. */
  function LE32(n: nat): (b: seq<byte>)
    requires n < Limit
    ensures |b| == 4 && FromLE32(b) == n
  {
    var q1 := n / 256;
    var q2 := q1 / 256;
    var q3 := q2 / 256;
    assert q3 < 256 by {
      assert q1 < 16777216;
      assert q2 < 65536;
    }
    [(n % 256) as byte, (q1 % 256) as byte, (q2 % 256) as byte, q3 as byte]
  }

  /** `struct.unpack('<I', b)[0]`. */
  function FromLE32(b: seq<byte>): (n: nat)
    requires |b| == 4
    ensures n < Limit
  {
    b[0] as nat + 256 * (b[1] as nat + 256 * (b[2] as nat + 256 * b[3] as nat))
  }

  /** Every 4-byte prefix is the encoding of the number it decodes to. */
  lemma LE32OfFromLE32(b: seq<byte>)
    requires |b| == 4
    ensures LE32(FromLE32(b)) == b
  {
    var n := FromLE32(b);
    var q2 := b[2] as nat + 256 * b[3] as nat;
    var q1 := b[1] as nat + 256 * q2;
    assert n == b[0] as nat + 256 * q1;
    assert n / 256 == q1 && n % 256 == b[0] as nat;
    assert q1 / 256 == q2 && q1 % 256 == b[1] as nat;
    assert q2 / 256 == b[3] as nat && q2 % 256 == b[2] as nat;
  }

  // ---------------------------------------------------------------------
  // write_msg and read_msg at the byte level
  // ---------------------------------------------------------------------

  /** The bytes `write_msg` emits for an encoded payload; `None` where
      `struct.pack` raises because the length does not fit in 32 bits. */
  function WriteFrame(payload: seq<byte>): (f: Option<seq<byte>>)
    ensures f.Some? <==> |payload| < Limit
    ensures f.Some? ==>
      (|f.value| == 4 + |payload| && f.value[4..] == payload && FromLE32(f.value[..4]) == |payload|)
  {
    if |payload| < Limit then
      var prefix := LE32(|payload|);
      assert (prefix + payload)[..4] == prefix;
      Some(prefix + payload)
    else None
  }

  /** What the two reads of `read_msg` find on the input. */
  datatype FrameRead =
    | EndOfInput                          // no length bytes at all
    | ShortPrefix                         // 1 to 3 length bytes: `struct.unpack` raises
    | ShortPayload                        // fewer payload bytes than announced
    | Frame(payload: seq<byte>, rest: seq<byte>)

  function ReadFrame(input: seq<byte>): (r: FrameRead)
    ensures r.Frame? ==>
      && |input| == 4 + |r.payload| + |r.rest|
      && FromLE32(input[..4]) == |r.payload|
      && input[4..] == r.payload + r.rest
  {
    if |input| == 0 then EndOfInput
    else if |input| < 4 then ShortPrefix
    else
      var n := FromLE32(input[..4]);
      if |input| - 4 < n then ShortPayload
      else
        assert input[4..] == input[4..4 + n] + input[4 + n..];
        Frame(input[4..4 + n], input[4 + n..])
  }

  /** Reading a written frame gives back the payload and leaves what follows. */
  lemma ReadWrittenFrame(payload: seq<byte>, rest: seq<byte>)
    requires |payload| < Limit
    ensures ReadFrame(WriteFrame(payload).value + rest) == Frame(payload, rest)
  {
    var input := WriteFrame(payload).value + rest;
    assert input[..4] == WriteFrame(payload).value[..4];
    assert input[4..4 + |payload|] == payload;
    assert input[4 + |payload|..] == rest;
  }

  // ---------------------------------------------------------------------
  // Messages
  // ---------------------------------------------------------------------

  /** A JSON value inside a message: what `handle` distinguishes of it.
      `Other` stands for floats, arrays and objects, with their Python
      `str()`. */
  datatype Value = Null | Bool(b: bool) | Int(i: int) | Str(s: string) | Other(text: string)

  /** A message `handle` receives: an object from `json.loads`, some other
      JSON value (with its Python `str()`), or the placeholder object that
      `read_msg` substitutes for a payload that is not JSON. */
  datatype Message = Object(fields: map<string, Value>) | NotObject(text: string) | Placeholder(raw: string)

  /** The fields of an object message; the placeholder is
      `{"cmd": "__invalid__", "raw": raw}`. */
  function Fields(msg: Message): map<string, Value>
    requires !msg.NotObject?
  {
    match msg
    case Object(fields) => fields
    case Placeholder(raw) => map["cmd" := Str("__invalid__"), "raw" := Str(raw)]
  }

  /** What `json.loads` gives: a `JSONDecodeError`, the JSON `null` (Python
      `None`), or any other value as the message it becomes. */
  datatype Loaded = NotJson | JsonNull | Json(msg: Message)

  /** The foreign codecs: strict and replacing UTF-8 decoding, `json.loads`
      and `json.dumps` followed by UTF-8 encoding. */
  datatype Codec = Codec(
    utf8: seq<byte> -> Option<string>,
    replace: seq<byte> -> string,
    loads: string -> Loaded,
    dumps: map<string, Value> -> seq<byte>)

  /** The result of `read_msg`: `None` (stop), an exception that ends the
      host, or a message and the input left after it. */
  datatype ReadResult = Stop | Crash | Got(msg: Message, rest: seq<byte>)

  /** `read_msg` as written: only `JSONDecodeError` is caught, so a payload
      that is not UTF-8 raises out of `data.decode('utf-8')`. A payload that
      is JSON `null` makes it return `None`, which stops the host. */
  function ReadMsgAsWritten(input: seq<byte>, codec: Codec): (r: ReadResult)
    ensures r.Got? ==> |r.rest| < |input|
  {
    match ReadFrame(input)
    case EndOfInput => Stop
    case ShortPrefix => Crash
    case ShortPayload => Stop
    case Frame(payload, rest) =>
      match codec.utf8(payload)
      case None => Crash
      case Some(text) =>
        match codec.loads(text)
        case Json(m) => Got(m, rest)
        case JsonNull => Stop
        case NotJson => Got(Placeholder(codec.replace(payload)), rest)
  }

  /** `read_msg` with the UTF-8 failure handled like a JSON failure, as the
      replacing decode in its handler intends. */
  function ReadMsg(input: seq<byte>, codec: Codec): (r: ReadResult)
    ensures r.Got? ==> |r.rest| < |input|
  {
    match ReadFrame(input)
    case EndOfInput => Stop
    case ShortPrefix => Crash
    case ShortPayload => Stop
    case Frame(payload, rest) =>
      match Decoded(payload, codec)
      case None => Stop
      case Some(m) => Got(m, rest)
  }

  /** The message a payload decodes to; `None` for the JSON `null`, which
      `read_msg` returns as Python's `None`. */
  function Decoded(payload: seq<byte>, codec: Codec): (m: Option<Message>)
    ensures m.None? <==> codec.utf8(payload).Some? && codec.loads(codec.utf8(payload).value).JsonNull?
  {
    match codec.utf8(payload)
    case None => Some(Placeholder(codec.replace(payload)))
    case Some(text) =>
      match codec.loads(text)
      case Json(m) => Some(m)
      case JsonNull => None
      case NotJson => Some(Placeholder(codec.replace(payload)))
  }

  /** What `read_msg` promises: `None` for an empty input, a short payload
      or a `null` payload, an exception for a short prefix, and otherwise
      the message a written frame carries, with the input after it. */
  lemma ReadMsgOutcome(input: seq<byte>, codec: Codec)
    ensures input == [] ==> ReadMsg(input, codec) == Stop
    ensures 0 < |input| < 4 ==> ReadMsg(input, codec) == Crash
    ensures |input| >= 4 && |input| - 4 < FromLE32(input[..4]) ==> ReadMsg(input, codec) == Stop
    ensures forall payload, rest :: |payload| < Limit && input == WriteFrame(payload).value + rest ==>
      ReadMsg(input, codec) ==
        (if Decoded(payload, codec).None? then Stop else Got(Decoded(payload, codec).value, rest))
  {
    forall payload, rest | |payload| < Limit && input == WriteFrame(payload).value + rest
      ensures ReadMsg(input, codec) ==
        (if Decoded(payload, codec).None? then Stop else Got(Decoded(payload, codec).value, rest))
    {
      ReadWrittenFrame(payload, rest);
    }
  }

  /** A payload that is not JSON gives the placeholder, whether or not it is
      UTF-8. */
  lemma UndecodableIsInvalid(payload: seq<byte>, codec: Codec)
    requires codec.utf8(payload).None? || codec.loads(codec.utf8(payload).value).NotJson?
    ensures Decoded(payload, codec) == Some(Placeholder(codec.replace(payload)))
    ensures Fields(Decoded(payload, codec).value)["cmd"] == Str("__invalid__")
  {
  }

  /** The discrepancy: for a payload that is not UTF-8 (the single byte 0xFF,
      say) `read_msg` as written ends the host, where the fixed reader
      answers with the placeholder message. */
  lemma NonUtf8CrashesAsWritten(payload: seq<byte>, rest: seq<byte>, codec: Codec)
    requires |payload| < Limit && codec.utf8(payload).None?
    ensures ReadMsgAsWritten(WriteFrame(payload).value + rest, codec) == Crash
    ensures ReadMsg(WriteFrame(payload).value + rest, codec) ==
      Got(Placeholder(codec.replace(payload)), rest)
  {
    ReadWrittenFrame(payload, rest);
  }

  /** A frame whose payload is JSON `null` stops either reader cleanly, as
      the end of the input does, whatever follows it. */
  lemma NullPayloadStops(payload: seq<byte>, rest: seq<byte>, codec: Codec)
    requires |payload| < Limit && codec.utf8(payload).Some?
    requires codec.loads(codec.utf8(payload).value) == JsonNull
    ensures ReadMsgAsWritten(WriteFrame(payload).value + rest, codec) == Stop
    ensures ReadMsg(WriteFrame(payload).value + rest, codec) == Stop
  {
    ReadWrittenFrame(payload, rest);
  }

  /** On UTF-8 payloads the two readers agree. */
  lemma ReadersAgreeOnUtf8(input: seq<byte>, codec: Codec)
    requires ReadFrame(input).Frame? ==> codec.utf8(ReadFrame(input).payload).Some?
    ensures ReadMsgAsWritten(input, codec) == ReadMsg(input, codec)
  {
  }

  // ---------------------------------------------------------------------
  // handle
  // ---------------------------------------------------------------------

  /** Python's `str()` of a looked-up value; a missing key gives `None`. */
  function PyStr(v: Option<Value>): string {
    match v
    case None => "None"
    case Some(Null) => "None"
    case Some(Bool(b)) => if b then "True" else "False"
    case Some(Int(i)) => IntToString(i)
    case Some(Str(s)) => s
    case Some(Other(text)) => text
  }

  function Get(fields: map<string, Value>, key: string): Option<Value> {
    if key in fields then Some(fields[key]) else None
  }

  /** `{"ok": false, "error": e}`. */
  function Refusal(e: string): map<string, Value> {
    map["ok" := Bool(false), "error" := Str(e)]
  }

  /** `handle(msg)`; `None` where an exception escapes (a message that is
      not an object, or a `url` that is not a string). `registry` is
      `set_autoconfig`: `None` when it succeeds, else the text of the
      exception it raises. */
  function Handle(msg: Message, registry: string -> Option<string>): (r: Option<map<string, Value>>)
    ensures r.Some? ==> "ok" in r.value && r.value["ok"].Bool?
  {
    if msg.NotObject? then None
    else
      var fields := Fields(msg);
      var cmd := Get(fields, "cmd");
      if cmd == Some(Str("set")) then
        var url := if "url" in fields then fields["url"] else Str("");
        if !url.Str? then None
        else
          var u := PyStrip(url.s);
          if u == "" then Some(Refusal("Missing url"))
          else
            match registry(u)
            case None => Some(map["ok" := Bool(true), "url" := Str(u)])
            case Some(e) => Some(Refusal(e))
      else if cmd == Some(Str("ping")) then Some(map["ok" := Bool(true), "pong" := Bool(true)])
      else Some(Refusal("Unknown cmd: " + PyStr(cmd)))
  }

  /** What `handle` promises for each command. */
  lemma HandleOutcome(fields: map<string, Value>, registry: string -> Option<string>)
    ensures Get(fields, "cmd") == Some(Str("ping")) ==>
      Handle(Object(fields), registry) == Some(map["ok" := Bool(true), "pong" := Bool(true)])
    ensures Get(fields, "cmd") != Some(Str("ping")) && Get(fields, "cmd") != Some(Str("set")) ==>
      Handle(Object(fields), registry) == Some(Refusal("Unknown cmd: " + PyStr(Get(fields, "cmd"))))
    ensures "cmd" !in fields ==> Handle(Object(fields), registry) == Some(Refusal("Unknown cmd: " + "None"))
  {
  }

  /** The placeholder for an undecodable payload is answered as an unknown
      command, whatever the registry would do. */
  lemma PlaceholderIsUnknownCmd(raw: string, registry: string -> Option<string>)
    ensures Handle(Placeholder(raw), registry) == Some(Refusal("Unknown cmd: " + "__invalid__"))
  {
    var fields := Fields(Placeholder(raw));
    assert Get(fields, "cmd") == Some(Str("__invalid__"));
  }

  /** A `set` whose url is missing or blank after stripping is refused with
      `Missing url` whatever the registry would do: it is never called. */
  lemma BlankUrlLeavesRegistry(fields: map<string, Value>, r1: string -> Option<string>, r2: string -> Option<string>)
    requires Get(fields, "cmd") == Some(Str("set"))
    requires "url" !in fields || (fields["url"].Str? && PyStrip(fields["url"].s) == "")
    ensures Handle(Object(fields), r1) == Handle(Object(fields), r2) == Some(Refusal("Missing url"))
  {
  }

  /** The url handed to the registry has no surrounding whitespace. */
  lemma RegistryGetsStrippedUrl(fields: map<string, Value>, registry: string -> Option<string>)
    requires Get(fields, "cmd") == Some(Str("set")) && "url" in fields && fields["url"].Str?
    requires PyStrip(fields["url"].s) != ""
    ensures var u := PyStrip(fields["url"].s);
      Handle(Object(fields), registry) ==
        if registry(u).None? then Some(map["ok" := Bool(true), "url" := Str(u)]) else Some(Refusal(registry(u).value))
  {
  }

  // ---------------------------------------------------------------------
  // main
  // ---------------------------------------------------------------------

  /** The bytes written to stdout, and whether an exception ended the host
      rather than the end of the input. */
  datatype Session = Session(output: seq<byte>, crashed: bool)

  /** A message handler: the answer, or `None` where an exception escapes. */
  type Handler = Message -> Option<map<string, Value>>

  /** `handle` with the registry it writes to. */
  function HandleWith(registry: string -> Option<string>): Handler {
    msg => Handle(msg, registry)
  }

  /** Which `read_msg` the loop calls: the one in the source, or the one
      that answers a non-UTF-8 payload with the placeholder. */
  datatype Reader = AsWritten | Corrected

  function Read(reader: Reader, input: seq<byte>, codec: Codec): (r: ReadResult)
    ensures r.Got? ==> |r.rest| < |input|
  {
    match reader
    case AsWritten => ReadMsgAsWritten(input, codec)
    case Corrected => ReadMsg(input, codec)
  }

  /** The session of `main` over `input`: read a message with `reader`,
      answer it with `handle`, write the framed answer, until a read
      returns `None` or an exception escapes. */
  function ServeSpec(input: seq<byte>, codec: Codec, handle: Handler, reader: Reader): Session
    decreases |input|
  {
    match Read(reader, input, codec)
    case Stop => Session([], false)
    case Crash => Session([], true)
    case Got(msg, rest) =>
      match handle(msg)
      case None => Session([], true)
      case Some(resp) =>
        match WriteFrame(codec.dumps(resp))
        case None => Session([], true)
        case Some(frame) =>
          var s := ServeSpec(rest, codec, handle, reader);
          Session(frame + s.output, s.crashed)
  }

  /** A session preceded by bytes already written. */
  function Prepend(written: seq<byte>, s: Session): Session {
    Session(written + s.output, s.crashed)
  }

  /** `main`: the read-handle-write loop, with `read_msg` as written
      (`AsWritten`) or corrected. */
  method Serve(input: seq<byte>, codec: Codec, registry: string -> Option<string>, reader: Reader)
    returns (output: seq<byte>, crashed: bool)
    ensures Session(output, crashed) == ServeSpec(input, codec, HandleWith(registry), reader)
  {
    var handle := HandleWith(registry);
    var rest := input;
    output := [];
    crashed := false;
    while true
      invariant ServeSpec(input, codec, handle, reader) == Prepend(output, ServeSpec(rest, codec, handle, reader))
      decreases |rest|
    {
      ServeSpecEnds(rest, codec, handle, reader);
      var r := Read(reader, rest, codec);
      if r.Stop? {
        break;
      }
      if r.Crash? {
        crashed := true;
        break;
      }
      var resp := handle(r.msg);
      if resp.None? {
        crashed := true;
        break;
      }
      var frame := WriteFrame(codec.dumps(resp.value));
      if frame.None? {
        crashed := true;
        break;
      }
      ServeSpecAnswers(rest, codec, handle, reader, frame.value);
      output := output + frame.value;
      rest := r.rest;
    }
  }

  /** Where the session ends at the first message: the reader stops, it
      raises, `handle` raises, or the answer cannot be framed. */
  lemma ServeSpecEnds(input: seq<byte>, codec: Codec, handle: Handler, reader: Reader)
    ensures Read(reader, input, codec).Stop? ==> ServeSpec(input, codec, handle, reader) == Session([], false)
    ensures Read(reader, input, codec).Crash? ==> ServeSpec(input, codec, handle, reader) == Session([], true)
    ensures Read(reader, input, codec).Got? && handle(Read(reader, input, codec).msg).None? ==>
      ServeSpec(input, codec, handle, reader) == Session([], true)
    ensures && Read(reader, input, codec).Got?
            && handle(Read(reader, input, codec).msg).Some?
            && WriteFrame(codec.dumps(handle(Read(reader, input, codec).msg).value)).None?
            ==> ServeSpec(input, codec, handle, reader) == Session([], true)
  {
  }

  /** One answered message: the session is its frame followed by the
      session over the rest. */
  lemma ServeSpecAnswers(input: seq<byte>, codec: Codec, handle: Handler, reader: Reader, frame: seq<byte>)
    requires Read(reader, input, codec).Got?
    requires handle(Read(reader, input, codec).msg).Some?
    requires WriteFrame(codec.dumps(handle(Read(reader, input, codec).msg).value)) == Some(frame)
    ensures ServeSpec(input, codec, handle, reader) ==
      Prepend(frame, ServeSpec(Read(reader, input, codec).rest, codec, handle, reader))
  {
  }

  /** As written, a frame that is not UTF-8 ends the host with nothing
      written for it, where the corrected loop answers the placeholder. */
  lemma NonUtf8EndsSessionAsWritten(payload: seq<byte>, rest: seq<byte>, codec: Codec, handle: Handler)
    requires |payload| < Limit && codec.utf8(payload).None?
    ensures ServeSpec(WriteFrame(payload).value + rest, codec, handle, AsWritten) == Session([], true)
    ensures Read(Corrected, WriteFrame(payload).value + rest, codec) == Got(Placeholder(codec.replace(payload)), rest)
  {
    NonUtf8CrashesAsWritten(payload, rest, codec);
  }

  /** A `null` frame ends either loop cleanly, with nothing written for it
      or for anything after it. */
  lemma NullFrameEndsSession(payload: seq<byte>, rest: seq<byte>, codec: Codec, handle: Handler, reader: Reader)
    requires |payload| < Limit && codec.utf8(payload).Some?
    requires codec.loads(codec.utf8(payload).value) == JsonNull
    ensures ServeSpec(WriteFrame(payload).value + rest, codec, handle, reader) == Session([], false)
  {
    NullPayloadStops(payload, rest, codec);
  }

  /** Frames written one after another. */
  function Framed(payloads: seq<seq<byte>>): seq<byte>
    requires forall i :: 0 <= i < |payloads| ==> |payloads[i]| < Limit
  {
    if payloads == [] then [] else WriteFrame(payloads[0]).value + Framed(payloads[1..])
  }

  /** A payload that `reader` turns into a message: not `null`, and UTF-8
      when the reader is the one as written. */
  predicate Readable(payload: seq<byte>, codec: Codec, reader: Reader) {
    Decoded(payload, codec).Some? && (reader.AsWritten? ==> codec.utf8(payload).Some?)
  }

  /** A readable written frame yields its message and the input after it. */
  lemma ReadWrittenMsg(p: seq<byte>, more: seq<byte>, codec: Codec, reader: Reader)
    requires |p| < Limit && Readable(p, codec, reader)
    ensures Read(reader, WriteFrame(p).value + more, codec) == Got(Decoded(p, codec).value, more)
  {
    ReadWrittenFrame(p, more);
  }

  /** The encoded response to a payload, when the handler answers it. */
  function Response(payload: seq<byte>, codec: Codec, handle: Handler): seq<byte>
    requires Decoded(payload, codec).Some? && handle(Decoded(payload, codec).value).Some?
  {
    codec.dumps(handle(Decoded(payload, codec).value).value)
  }

  /** Each frame read as a message and answered by the handler without an
      exception, with a response that fits a frame. */
  ghost predicate Answered(payloads: seq<seq<byte>>, codec: Codec, handle: Handler, reader: Reader) {
    forall i :: 0 <= i < |payloads| ==>
      && |payloads[i]| < Limit
      && Readable(payloads[i], codec, reader)
      && handle(Decoded(payloads[i], codec).value).Some?
      && |Response(payloads[i], codec, handle)| < Limit
  }

  /** One answered frame: its response comes first, then whatever the rest
      of the input produces. */
  lemma ServeStep(p: seq<byte>, more: seq<byte>, codec: Codec, handle: Handler, reader: Reader)
    requires |p| < Limit && Readable(p, codec, reader) && handle(Decoded(p, codec).value).Some?
    requires |Response(p, codec, handle)| < Limit
    ensures ServeSpec(WriteFrame(p).value + more, codec, handle, reader) ==
      Session(WriteFrame(Response(p, codec, handle)).value + ServeSpec(more, codec, handle, reader).output,
              ServeSpec(more, codec, handle, reader).crashed)
  {
    ReadWrittenMsg(p, more, codec, reader);
  }

  lemma AnsweredTail(payloads: seq<seq<byte>>, codec: Codec, handle: Handler, reader: Reader)
    requires payloads != [] && Answered(payloads, codec, handle, reader)
    ensures Answered(payloads[1..], codec, handle, reader)
  {
    forall i | 0 <= i < |payloads[1..]|
      ensures |payloads[1..][i]| < Limit
        && Readable(payloads[1..][i], codec, reader)
        && handle(Decoded(payloads[1..][i], codec).value).Some?
        && |Response(payloads[1..][i], codec, handle)| < Limit
    {
      assert payloads[1..][i] == payloads[i + 1];
    }
  }

  /** The responses to the payloads, in order. */
  function Responses(payloads: seq<seq<byte>>, codec: Codec, handle: Handler, reader: Reader): (r: seq<seq<byte>>)
    requires Answered(payloads, codec, handle, reader)
    ensures |r| == |payloads|
    ensures forall i :: 0 <= i < |r| ==> r[i] == Response(payloads[i], codec, handle) && |r[i]| < Limit
  {
    seq(|payloads|, i requires 0 <= i < |payloads| => Response(payloads[i], codec, handle))
  }

  /** The first answer of a sequence, framed, comes first. */
  lemma FramedResponsesCons(payloads: seq<seq<byte>>, codec: Codec, handle: Handler, reader: Reader)
    requires payloads != [] && Answered(payloads, codec, handle, reader)
    requires Answered(payloads[1..], codec, handle, reader)
    ensures Framed(Responses(payloads, codec, handle, reader)) ==
      WriteFrame(Response(payloads[0], codec, handle)).value + Framed(Responses(payloads[1..], codec, handle, reader))
  {
    var responses := Responses(payloads, codec, handle, reader);
    assert responses[1..] == Responses(payloads[1..], codec, handle, reader);
  }

  /** An answered frame in front of frames that end the session cleanly. */
  lemma ServeCons(p: seq<byte>, ps: seq<seq<byte>>, tail: seq<byte>, later: seq<byte>,
                  codec: Codec, handle: Handler, reader: Reader)
    requires |p| < Limit && Readable(p, codec, reader) && handle(Decoded(p, codec).value).Some?
    requires |Response(p, codec, handle)| < Limit
    requires forall i :: 0 <= i < |ps| ==> |ps[i]| < Limit
    requires ServeSpec(Framed(ps) + tail, codec, handle, reader) == Session(later, false)
    ensures ServeSpec(Framed([p] + ps) + tail, codec, handle, reader) ==
      Session(WriteFrame(Response(p, codec, handle)).value + later, false)
  {
    assert ([p] + ps)[1..] == ps;
    assert Framed([p] + ps) + tail == WriteFrame(p).value + (Framed(ps) + tail);
    ServeStep(p, Framed(ps) + tail, codec, handle, reader);
  }

  /** `main` answers a sequence of frames strictly in order, one response
      frame per message, and stops cleanly where a read returns `None`: at
      the end of the input, at a truncated frame or at a `null` payload.
      With `read_msg` as written this needs every payload to be UTF-8. */
  lemma {:induction false} ServeInOrder(payloads: seq<seq<byte>>, tail: seq<byte>, codec: Codec,
                                        handle: Handler, reader: Reader)
    requires Answered(payloads, codec, handle, reader)
    requires Read(reader, tail, codec) == Stop
    ensures ServeSpec(Framed(payloads) + tail, codec, handle, reader) ==
      Session(Framed(Responses(payloads, codec, handle, reader)), false)
    decreases |payloads|
  {
    if payloads == [] {
      assert Framed(payloads) + tail == tail;
    } else {
      AnsweredTail(payloads, codec, handle, reader);
      ServeInOrder(payloads[1..], tail, codec, handle, reader);
      ServeCons(payloads[0], payloads[1..], tail, Framed(Responses(payloads[1..], codec, handle, reader)),
                codec, handle, reader);
      FramedResponsesCons(payloads, codec, handle, reader);
      assert payloads == [payloads[0]] + payloads[1..];
    }
  }
}

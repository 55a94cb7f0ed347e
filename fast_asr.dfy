/**
 The fast (streaming) recognition sidecar. The module-level dictionary
 `sessions` maps a session id to a recognizer stream:
 `POST /v1/fast_asr/start` opens a stream under a fresh id, `/push` feeds
 base64-encoded little-endian float32 samples to the stream named in the
 request and returns the recognizer's running text, and `/end` removes the
 stream, flushes it and returns the final text.

 The speech recognizer is abstract: a stream type `S` and the recognizer's
 operations on it, as function values. The base64 decoder is an abstract
 partial function, the session-id generator and the latency clock are
 parameters of the calls that use them.
 */
module FastAsr {
  import opened Common

  type SessionId = string

  // ---------------------------------------------------------------------------
  // Recognizer results and `_extract_text`

  /** `recognizer.get_result(stream)` hands back either a plain string or an object with a `text` attribute. */
  datatype RecognizerResult = PlainText(s: string) | ResultObject(text: Attr)

  /**
   `_extract_text`: a plain string is returned as it is; otherwise the
   object's `text` attribute, where a missing attribute, `None` and the empty
   string all give "".
   */
  function ExtractText(result: RecognizerResult): (text: string)
    ensures result.PlainText? ==> text == result.s
    ensures result.ResultObject? && result.text.Str? ==> text == result.text.s
    ensures result.ResultObject? && !result.text.Str? ==> text == ""
  {
    match result
    case PlainText(s) => s
    case ResultObject(a) => AttrText(a)
  }

  /** The text is non-empty exactly when the result carries a non-empty string. */
  lemma ExtractTextEmpty(result: RecognizerResult)
    ensures ExtractText(result) != "" <==>
      (result.PlainText? && result.s != "") || (result.ResultObject? && result.text.Str? && result.text.s != "")
  {
  }

  // ---------------------------------------------------------------------------
  // `np.frombuffer(data, dtype=np.float32)`

  /** One float32 sample, kept as its four raw bytes (little-endian bit pattern). */
  datatype Sample = Sample(b0: byte, b1: byte, b2: byte, b3: byte)

  /** The byte buffer a sequence of samples occupies. */
  function SampleBytes(samples: seq<Sample>): (data: seq<byte>)
    ensures |data| == 4 * |samples|
    decreases |samples|
  {
    if samples == [] then []
    else var s := samples[0]; [s.b0, s.b1, s.b2, s.b3] + SampleBytes(samples[1..])
  }

  /**
   `np.frombuffer(data, dtype=np.float32)`: cuts the buffer into four-byte
   samples; a buffer whose length is not a multiple of four is refused
   (numpy raises a `ValueError`).
   */
  function FromBuffer(data: seq<byte>): (samples: Option<seq<Sample>>)
    ensures samples.Some? <==> |data| % 4 == 0
    ensures samples.Some? ==> SampleBytes(samples.value) == data
    decreases |data|
  {
    if |data| % 4 != 0 then None
    else if data == [] then Some([])
    else
      var rest := FromBuffer(data[4..]).value;
      assert data == [data[0], data[1], data[2], data[3]] + data[4..];
      Some([Sample(data[0], data[1], data[2], data[3])] + rest)
  }

  /** Reading back the bytes of any sample sequence gives that sequence. */
  lemma {:induction false} FromBufferSampleBytes(samples: seq<Sample>)
    ensures FromBuffer(SampleBytes(samples)) == Some(samples)
    decreases |samples|
  {
    if samples != [] {
      var data := SampleBytes(samples);
      assert data[4..] == SampleBytes(samples[1..]);
      FromBufferSampleBytes(samples[1..]);
      assert samples == [samples[0]] + samples[1..];
    }
  }

  // ---------------------------------------------------------------------------
  // The recognizer

  /**
   The operations of the streaming recognizer on its stream type `S`:
   `create_stream`, `stream.accept_waveform(rate, samples)`,
   `stream.input_finished()`, `is_ready`, `decode_stream` and `get_result`.
   `backlog` measures the decoding work a stream still holds.
   */
  datatype Recognizer<!S(!new)> = Recognizer(
    newStream: S,
    acceptWaveform: (S, int, seq<Sample>) -> S,
    inputFinished: S -> S,
    isReady: S -> bool,
    decodeStream: S -> S,
    getResult: S -> RecognizerResult,
    backlog: S -> nat)

  /** Decoding a ready stream does some of its outstanding work, so `while is_ready: decode` ends. */
  ghost predicate Decodes<S(!new)>(rec: Recognizer<S>) {
    forall s: S :: rec.isReady(s) ==> rec.backlog(rec.decodeStream(s)) < rec.backlog(s)
  }

  /** The stream after `while recognizer.is_ready(stream): recognizer.decode_stream(stream)`. */
  function Drain<S(!new)>(rec: Recognizer<S>, s: S): (drained: S)
    requires Decodes(rec)
    ensures !rec.isReady(drained)
    ensures rec.backlog(drained) <= rec.backlog(s)
    ensures !rec.isReady(s) ==> drained == s
    decreases rec.backlog(s)
  {
    if rec.isReady(s) then Drain(rec, rec.decodeStream(s)) else s
  }

  /** The decoding loop of `push_audio` and `end_session`: decode while the stream is ready. */
  method DecodeWhileReady<S(!new)>(rec: Recognizer<S>, s: S) returns (drained: S)
    requires Decodes(rec)
    ensures drained == Drain(rec, s)
    ensures !rec.isReady(drained)
  {
    drained := s;
    while rec.isReady(drained)
      invariant Drain(rec, drained) == Drain(rec, s)
      decreases rec.backlog(drained)
    {
      drained := rec.decodeStream(drained);
    }
  }

  // ---------------------------------------------------------------------------
  // Requests, replies and the handlers as functions of the session table

  datatype PushRequest = PushRequest(sessionId: SessionId, samplesB64: string, sampleRate: int)

  datatype PushReply = PushReply(text: string, latencyMs: int)

  /** A handler's answer: a reply, or the status code of the `HTTPException` it raised. */
  datatype Reply<T> = Ok(value: T) | HttpError(status: int)

  const NotFound := 404
  const BadRequest := 400
  /** An exception the handler does not catch: the server answers 500. */
  const InternalError := 500

  /**
   `start_session`: the fresh id `newId` (from `uuid.uuid4().hex`) is mapped to
   a newly created stream; every other entry stays as it was.
   */
  function StartSpec<S(!new)>(rec: Recognizer<S>, sessions: map<SessionId, S>, newId: SessionId)
    : (sessions': map<SessionId, S>)
    ensures sessions'.Keys == sessions.Keys + {newId}
    ensures sessions'[newId] == rec.newStream
    ensures forall id :: id in sessions && id != newId ==> sessions'[id] == sessions[id]
    ensures newId !in sessions ==> |sessions'| == |sessions| + 1
  {
    sessions[newId := rec.newStream]
  }

  /**
   `push_audio` as a function of the table: the reply and the table after.
   `b64decode` is `base64.b64decode` (`None` when it raises), `latencyMs` the
   measured decoding time in whole milliseconds, which is negative when the
   wall clock stepped back.
   */
  function PushSpec<S(!new)>(rec: Recognizer<S>, b64decode: string -> Option<seq<byte>>,
                       sessions: map<SessionId, S>, req: PushRequest, latencyMs: int)
    : (r: (Reply<PushReply>, map<SessionId, S>))
    requires Decodes(rec)
    ensures r.1.Keys == sessions.Keys
    ensures forall id :: id in sessions && id != req.sessionId ==> r.1[id] == sessions[id]
    ensures req.sessionId !in sessions <==> r.0 == HttpError(NotFound)
    ensures r.0.HttpError? ==> r.1 == sessions
    ensures r.1 != sessions ==> r.0.Ok? && r.0.value.latencyMs == latencyMs
    ensures req.sessionId in sessions && req.samplesB64 == "" ==> r == (Ok(PushReply("", 0)), sessions)
    ensures req.sessionId in sessions && req.samplesB64 != "" && b64decode(req.samplesB64).None?
            ==> r == (HttpError(BadRequest), sessions)
  {
    if req.sessionId !in sessions then (HttpError(NotFound), sessions)
    else if req.samplesB64 == "" then (Ok(PushReply("", 0)), sessions)
    else match b64decode(req.samplesB64)
      case None => (HttpError(BadRequest), sessions)
      case Some(data) =>
        if data == [] then (Ok(PushReply("", 0)), sessions)
        else match FromBuffer(data)
          case None => (HttpError(InternalError), sessions)
          case Some(samples) =>
            // `samples.size == 0` cannot hold here: the buffer is non-empty and whole samples long
            var stream := Drain(rec, rec.acceptWaveform(sessions[req.sessionId], req.sampleRate, samples));
            (Ok(PushReply(ExtractText(rec.getResult(stream)), latencyMs)), sessions[req.sessionId := stream])
  }

  /**
   `end_session` as a function of the table: the entry is popped whether or
   not it existed; a missing entry answers 404, an existing one is flushed
   and its final text returned.
   */
  function EndSpec<S(!new)>(rec: Recognizer<S>, sessions: map<SessionId, S>, id: SessionId)
    : (r: (Reply<string>, map<SessionId, S>))
    requires Decodes(rec)
    ensures r.1 == sessions - {id}
    ensures id !in r.1
    ensures r.0.HttpError? <==> id !in sessions
    ensures r.0.HttpError? ==> r.0.status == NotFound && r.1 == sessions
  {
    if id !in sessions then (HttpError(NotFound), sessions)
    else
      var stream := Drain(rec, rec.inputFinished(sessions[id]));
      (Ok(ExtractText(rec.getResult(stream))), sessions - {id})
  }

  // ---------------------------------------------------------------------------
  // Properties of the session protocol

  /** A push that decodes audio advances exactly the stream it names, through the recognizer. */
  lemma PushAdvancesStream<S(!new)>(rec: Recognizer<S>, b64decode: string -> Option<seq<byte>>,
                              sessions: map<SessionId, S>, req: PushRequest, latencyMs: int,
                              data: seq<byte>)
    requires Decodes(rec)
    requires req.sessionId in sessions && req.samplesB64 != ""
    requires b64decode(req.samplesB64) == Some(data) && data != [] && |data| % 4 == 0
    ensures var r := PushSpec(rec, b64decode, sessions, req, latencyMs);
      var stream := Drain(rec, rec.acceptWaveform(sessions[req.sessionId], req.sampleRate, FromBuffer(data).value));
      && r.0 == Ok(PushReply(ExtractText(rec.getResult(stream)), latencyMs))
      && r.1 == sessions[req.sessionId := stream]
  {
    var samples := FromBuffer(data).value;
    assert SampleBytes(samples) == data;
    assert samples != [];
  }

  /** A payload that decodes to no bytes is answered with empty text and latency 0, leaving the table alone. */
  lemma PushEmptyDecodedPayload<S(!new)>(rec: Recognizer<S>, b64decode: string -> Option<seq<byte>>,
                                   sessions: map<SessionId, S>, req: PushRequest, latencyMs: int)
    requires Decodes(rec)
    requires req.sessionId in sessions && req.samplesB64 != "" && b64decode(req.samplesB64) == Some([])
    ensures PushSpec(rec, b64decode, sessions, req, latencyMs) == (Ok(PushReply("", 0)), sessions)
  {
  }

  /**
   A payload that decodes to a non-empty buffer of partial samples makes
   `np.frombuffer` raise; nothing catches it, so the server answers 500 and
   the table is left alone.
   */
  lemma PushPartialSampleFails<S(!new)>(rec: Recognizer<S>, b64decode: string -> Option<seq<byte>>,
                                  sessions: map<SessionId, S>, req: PushRequest, latencyMs: int,
                                  data: seq<byte>)
    requires Decodes(rec)
    requires req.sessionId in sessions && req.samplesB64 != ""
    requires b64decode(req.samplesB64) == Some(data) && data != [] && |data| % 4 != 0
    ensures PushSpec(rec, b64decode, sessions, req, latencyMs) == (HttpError(InternalError), sessions)
  {
  }

  /**
   `end` on a known id marks the stream's input finished, decodes it until it
   is no longer ready, and answers the extracted text of that stream.
   */
  lemma EndFlushesStream<S(!new)>(rec: Recognizer<S>, sessions: map<SessionId, S>, id: SessionId)
    requires Decodes(rec)
    requires id in sessions
    ensures EndSpec(rec, sessions, id).0 == Ok(ExtractText(rec.getResult(Drain(rec, rec.inputFinished(sessions[id])))))
  {
  }

  /** After `end`, the id is gone: a later `push` or `end` with it answers 404. */
  lemma EndThenPushOrEndFails<S(!new)>(rec: Recognizer<S>, b64decode: string -> Option<seq<byte>>,
                                 sessions: map<SessionId, S>, id: SessionId,
                                 req: PushRequest, latencyMs: int)
    requires Decodes(rec)
    requires req.sessionId == id
    ensures var after := EndSpec(rec, sessions, id).1;
      && PushSpec(rec, b64decode, after, req, latencyMs) == (HttpError(NotFound), after)
      && EndSpec(rec, after, id) == (HttpError(NotFound), after)
  {
  }

  /** A session started and then ended leaves the rest of the table as it found it. */
  lemma StartThenEndRestores<S(!new)>(rec: Recognizer<S>, sessions: map<SessionId, S>, newId: SessionId)
    requires Decodes(rec)
    requires newId !in sessions
    ensures EndSpec(rec, StartSpec(rec, sessions, newId), newId).1 == sessions
    ensures EndSpec(rec, StartSpec(rec, sessions, newId), newId).0.Ok?
  {
    assert StartSpec(rec, sessions, newId) - {newId} == sessions;
  }

  // ---------------------------------------------------------------------------
  // The server state

  /**
   The module-level `sessions` dictionary together with the recognizer and
   base64 decoder the handlers use.
   */
  class SessionTable<S(!new)> {
    const rec: Recognizer<S>
    const b64decode: string -> Option<seq<byte>>
    var sessions: map<SessionId, S>

    ghost predicate Valid() {
      Decodes(rec)
    }

    /** Server start-up: `sessions = {}`. */
    constructor (rec: Recognizer<S>, b64decode: string -> Option<seq<byte>>)
      requires Decodes(rec)
      ensures Valid()
      ensures this.rec == rec && this.b64decode == b64decode
      ensures sessions == map[]
    {
      this.rec := rec;
      this.b64decode := b64decode;
      sessions := map[];
    }

    /** `start_session`: `newId` is the value the id generator produced. */
    method Start(newId: SessionId) returns (id: SessionId)
      requires Valid()
      modifies this
      ensures Valid()
      ensures id == newId
      ensures sessions == StartSpec(rec, old(sessions), newId)
    {
      var stream := rec.newStream;
      sessions := sessions[newId := stream];
      id := newId;
    }

    /** `push_audio`: `latencyMs` is what the clock measured around the decoding. */
    method Push(req: PushRequest, latencyMs: int) returns (reply: Reply<PushReply>)
      requires Valid()
      modifies this
      ensures Valid()
      ensures (reply, sessions) == PushSpec(rec, b64decode, old(sessions), req, latencyMs)
    {
      if req.sessionId !in sessions {
        return HttpError(NotFound);
      }
      var stream := sessions[req.sessionId];
      if req.samplesB64 == "" {
        return Ok(PushReply("", 0));
      }
      var decoded := b64decode(req.samplesB64);
      if decoded.None? {
        return HttpError(BadRequest);
      }
      var data := decoded.value;
      if data == [] {
        return Ok(PushReply("", 0));
      }
      var buffer := FromBuffer(data);
      if buffer.None? {
        return HttpError(InternalError);
      }
      var samples := buffer.value;
      // the source's `samples.size == 0` early return is unreachable after `if not data`
      assert samples != [];
      stream := rec.acceptWaveform(stream, req.sampleRate, samples);
      stream := DecodeWhileReady(rec, stream);
      sessions := sessions[req.sessionId := stream];
      var result := rec.getResult(stream);
      reply := Ok(PushReply(ExtractText(result), latencyMs));
    }

    /** `end_session`. */
    method End(id: SessionId) returns (reply: Reply<string>)
      requires Valid()
      modifies this
      ensures Valid()
      ensures (reply, sessions) == EndSpec(rec, old(sessions), id)
    {
      if id !in sessions {
        return HttpError(NotFound);
      }
      var stream := sessions[id];
      sessions := sessions - {id};
      stream := rec.inputFinished(stream);
      stream := DecodeWhileReady(rec, stream);
      var result := rec.getResult(stream);
      reply := Ok(ExtractText(result));
    }
  }
}

/**
 * The HTTP event handler of temperature_from_api.c as a pure state machine.
 * The handler keeps two statics, the receive buffer (`output_buffer`, NULL
 * or an allocation) and the count of bytes received (`output_len`); it also
 * writes the static last extraction result, the published outside
 * temperature and the "reading done" event-group bit.  Each transport event
 * moves the state by `Step`; the class in module Accumulator is proved to
 * follow it.
 */
module AccumulatorSpec {
  import opened Wrappers
  import opened CStrings
  import opened JsonReading

  /** Size of the caller-supplied `user_data` buffer. */
  const MaxHttpOutputBuffer: nat := 2048

  /** How the transport delivers the body of one response: into the caller's
      `user_data` buffer, chunked, or with a declared Content-Length. */
  datatype Encoding = UserBuffer | Chunked | Fixed(contentLength: nat)

  /** Transport events.  `allocOk` says whether the `realloc`/`calloc` that
      this data event may perform returns memory. */
  datatype Event =
    | Error
    | OnConnected
    | HeaderSent
    | OnHeader(key: string, value: string)
    | OnData(data: seq<char>, allocOk: bool)
    | OnFinish
    | Disconnected
    | Redirect

  /** The handler's return value. */
  datatype Status = EspOk | EspFail

  /** `buffer` is None for a NULL `output_buffer`, else the whole allocation;
      `outputLen` is `output_len`; `userData` is the caller's buffer;
      `temperatureFromJson` the last extraction result; `outsideTemperature`
      the published `global_outside_temperature`; `readingDone` the event bit. */
  datatype AccState = AccState(
    buffer: Option<seq<char>>,
    outputLen: nat,
    userData: seq<char>,
    temperatureFromJson: real,
    outsideTemperature: real,
    readingDone: bool)

  function Min(a: int, b: int): int {
    if a <= b then a else b
  }

  /** `n` copies of `c`: memory as `calloc` (c = NUL) or `realloc` (indeterminate `c`) leaves it. */
  function Fill(n: nat, c: char): (r: seq<char>)
    ensures |r| == n && forall i :: 0 <= i < n ==> r[i] == c
  {
    seq(n, _ => c)
  }

  /** `text` followed by zero bytes up to `size`. */
  function Pad(text: seq<char>, size: nat): (r: seq<char>)
    requires |text| <= size
    ensures |r| == size && r[..|text|] == text
  {
    text + Fill(size - |text|, NUL)
  }

  /** The first `n` characters, or all of them when there are fewer. */
  function Clip(text: seq<char>, n: nat): (r: seq<char>)
    ensures |r| == Min(|text|, n) && r == text[..|r|]
  {
    if |text| <= n then text else text[..n]
  }

  /** The state at boot or between responses: no buffer, nothing received. */
  predicate Idle(s: AccState) {
    s.buffer.None? && s.outputLen == 0 && |s.userData| == MaxHttpOutputBuffer
  }

  /** What holds between the events of one response delivered with `enc`.
      A chunked allocation is exactly one byte longer than the data and
      ends in NUL; a fixed-length allocation is `contentLength + 1` bytes,
      never filled past `contentLength`, and ends in NUL. */
  predicate Inv(s: AccState, enc: Encoding) {
    && |s.userData| == MaxHttpOutputBuffer
    && match enc
       case UserBuffer => s.buffer.None? && s.outputLen <= MaxHttpOutputBuffer
       case Chunked =>
         s.buffer.Some? ==> |s.buffer.value| == s.outputLen + 1 && s.buffer.value[s.outputLen] == NUL
       case Fixed(cl) =>
         s.buffer.Some? ==> |s.buffer.value| == cl + 1 && s.outputLen <= cl && s.buffer.value[cl] == NUL
  }

  lemma IdleIsValid(s: AccState, enc: Encoding)
    requires Idle(s)
    ensures Inv(s, enc)
  {
  }

  /** The chunked `realloc` to `len + |data| + 1` bytes followed by the copy,
      with the terminator this model adds in the spare byte.  After a failed
      `realloc` (prev None) the first `len` bytes are fresh, indeterminate memory. */
  function ChunkedBuffer(prev: Option<seq<char>>, len: nat, data: seq<char>, fill: char): (r: seq<char>)
    requires prev.Some? ==> len <= |prev.value|
    ensures |r| == len + |data| + 1 && r[len..len + |data|] == data && r[len + |data|] == NUL
    ensures prev.Some? ==> r[..len] == prev.value[..len]
  {
    (if prev.Some? then prev.value[..len] else Fill(len, fill)) + data + [NUL]
  }

  /** The chunked branch as the source writes it: the spare byte of the
      reallocated buffer is never written and keeps whatever `fill` it held. */
  function ChunkedBufferAsWritten(prev: Option<seq<char>>, len: nat, data: seq<char>, fill: char): (r: seq<char>)
    requires prev.Some? ==> |prev.value| <= len + |data| + 1
    requires prev.Some? ==> len <= |prev.value|
    ensures |r| == len + |data| + 1 && r[len..len + |data|] == data
    ensures prev.Some? ==> r[..len] == prev.value[..len]
    ensures prev.None? ==> r[len + |data|] == fill
  {
    var grown := if prev.Some? then prev.value + Fill(len + |data| + 1 - |prev.value|, fill)
                 else Fill(len + |data| + 1, fill);
    Overwrite(grown, len, data)
  }

  /** The buffer as written and the corrected one differ only in the spare
      byte: the first `len + |data|` bytes, the data received so far, agree. */
  lemma AsWrittenAgreesBeforeSpareByte(prev: Option<seq<char>>, len: nat, data: seq<char>, fill: char)
    requires prev.Some? ==> len <= |prev.value| <= len + |data| + 1
    ensures ChunkedBufferAsWritten(prev, len, data, fill)[..len + |data|]
            == ChunkedBuffer(prev, len, data, fill)[..len + |data|]
  {
    var w := ChunkedBufferAsWritten(prev, len, data, fill);
    var c := ChunkedBuffer(prev, len, data, fill);
    if prev.None? {
      assert w[..len] == Fill(len + |data| + 1, fill)[..len];
    }
    assert w[..len + |data|] == w[..len] + w[len..len + |data|];
    assert c[..len + |data|] == c[..len] + c[len..len + |data|];
  }

  /** One chunk in the chunked encoding, from a state without a buffer, can
      leave an allocation without any terminator: the source's `strlen` and
      `cJSON_Parse` on it read past the end of the allocation. */
  lemma ChunkedUnterminated()
    ensures !Terminated(ChunkedBufferAsWritten(None, 0, "{}", 'x'))
    ensures Terminated(ChunkedBuffer(None, 0, "{}", 'x'))
  {
    var r := ChunkedBufferAsWritten(None, 0, "{}", 'x');
    assert r == ['{', '}', 'x'];
    assert ChunkedBuffer(None, 0, "{}", 'x')[2] == NUL;
  }

  /** HTTP_EVENT_ON_DATA. */
  function DataStep(s: AccState, enc: Encoding, data: seq<char>, allocOk: bool, fill: char): (r: AccState)
    requires Inv(s, enc)
    ensures Inv(r, enc)
    ensures r.temperatureFromJson == s.temperatureFromJson && r.outsideTemperature == s.outsideTemperature
    ensures r.readingDone == s.readingDone
  {
    var len := s.outputLen;
    match enc
    case UserBuffer =>
      var user := if len == 0 then Fill(MaxHttpOutputBuffer, NUL) else s.userData;
      var n := Min(|data|, MaxHttpOutputBuffer - len);
      s.(userData := Overwrite(user, len, data[..n]), outputLen := len + n)
    case Chunked =>
      if !allocOk then s.(buffer := None)
      else s.(buffer := Some(ChunkedBuffer(s.buffer, len, data, fill)), outputLen := len + |data|)
    case Fixed(cl) =>
      if s.buffer.None? && !allocOk then s.(outputLen := 0)
      else
        var base := if s.buffer.Some? then s.buffer.value else Fill(cl + 1, NUL);
        var from := if s.buffer.Some? then len else 0;
        var n := Min(|data|, cl - from);
        s.(buffer := Some(Overwrite(base, from, data[..n])), outputLen := from + n)
  }

  /** The text handed to the extractor on HTTP_EVENT_ON_FINISH. */
  function Body(buffer: seq<char>): (r: seq<char>)
    ensures NUL !in r && |r| <= |buffer| && r == buffer[..|r|]
    ensures |r| < |buffer| ==> buffer[|r|] == NUL
  {
    CStringPrefix(buffer);
    CString(buffer)
  }

  /** HTTP_EVENT_ON_FINISH: extract, publish only a real reading from a
      non-empty body, release the buffer, and in every case reset the count.
      Its ensures restate the step for callers; `ChunkedPipeline` and
      `FixedPipeline` state the publication independently. */
  function FinishStep(s: AccState, parse: seq<char> -> Option<Json>): (r: AccState)
    ensures r.buffer.None? && r.outputLen == 0 && r.userData == s.userData
    ensures s.buffer.None? ==> r == s.(outputLen := 0)
    ensures s.buffer.Some? ==> r.temperatureFromJson == GetTemperature(parse(Body(s.buffer.value)))
    ensures r.outsideTemperature != s.outsideTemperature ==> r.outsideTemperature == r.temperatureFromJson
    ensures r.readingDone && !s.readingDone <==>
              !s.readingDone && s.buffer.Some? && r.temperatureFromJson != TemperatureErrorCode && Body(s.buffer.value) != []
    ensures s.buffer.Some? ==>
              r.outsideTemperature == (if r.temperatureFromJson != TemperatureErrorCode && Body(s.buffer.value) != []
                                       then r.temperatureFromJson else s.outsideTemperature)
    ensures r.readingDone == (s.readingDone || (s.buffer.Some? && r.temperatureFromJson != TemperatureErrorCode
                                                && Body(s.buffer.value) != []))
  {
    match s.buffer
    case None => s.(outputLen := 0)
    case Some(b) =>
      var body := Body(b);
      var t := GetTemperature(parse(body));
      var publish := !(t == TemperatureErrorCode || |body| == 0);
      AccState(None, 0, s.userData, t,
               if publish then t else s.outsideTemperature,
               s.readingDone || publish)
  }

  /** The handler's effect on its state for one event. */
  function Step(s: AccState, enc: Encoding, ev: Event, fill: char, parse: seq<char> -> Option<Json>): (r: AccState)
    requires Inv(s, enc)
    ensures Inv(r, enc)
    ensures ev.OnFinish? || ev.OnData? || ev.Disconnected? || r == s
    ensures ev.Disconnected? ==> r == s.(buffer := None, outputLen := 0)
  {
    match ev
    case OnData(data, allocOk) => DataStep(s, enc, data, allocOk, fill)
    case OnFinish => FinishStep(s, parse)
    case Disconnected => s.(buffer := None, outputLen := 0)
    case _ => s
  }

  /** The handler's return value: ESP_FAIL exactly when a needed allocation fails.
      Its ensures restate the case split for callers; the independent statement
      is the class's `HandleEvent`, which is proved to return it. */
  function StepStatus(s: AccState, enc: Encoding, ev: Event): (r: Status)
    ensures r == EspFail ==> ev.OnData? && !ev.allocOk && !enc.UserBuffer?
    ensures ev.OnData? && !ev.allocOk && (enc.Chunked? || (enc.Fixed? && s.buffer.None?)) ==> r == EspFail
    ensures enc.Fixed? && s.buffer.Some? ==> r == EspOk
  {
    if ev.OnData? && !ev.allocOk && (enc.Chunked? || (enc.Fixed? && s.buffer.None?)) then EspFail else EspOk
  }

  /** A data event is a data step. */
  lemma StepOnData(s: AccState, enc: Encoding, data: seq<char>, allocOk: bool, fill: char, parse: seq<char> -> Option<Json>)
    requires Inv(s, enc)
    ensures Step(s, enc, OnData(data, allocOk), fill, parse) == DataStep(s, enc, data, allocOk, fill)
  {
  }

  /** Only chunked bodies leave fresh bytes unwritten, and the user buffer needs no allocation. */
  lemma DataStepIgnoresFill(s: AccState, enc: Encoding, data: seq<char>, allocOk: bool, fill: char)
    requires Inv(s, enc) && !enc.Chunked?
    ensures DataStep(s, enc, data, allocOk, fill) == DataStep(s, enc, data, enc.Fixed? ==> allocOk, NUL)
  {
  }

  /** The state after a sequence of events. */
  function Run(s: AccState, enc: Encoding, evs: seq<Event>, fill: char, parse: seq<char> -> Option<Json>): (r: AccState)
    requires Inv(s, enc)
    ensures Inv(r, enc)
    decreases |evs|
  {
    if evs == [] then s else Run(Step(s, enc, evs[0], fill, parse), enc, evs[1..], fill, parse)
  }

  lemma RunCons(s: AccState, enc: Encoding, evs: seq<Event>, fill: char, parse: seq<char> -> Option<Json>)
    requires Inv(s, enc) && evs != []
    ensures Run(s, enc, evs, fill, parse) == Run(Step(s, enc, evs[0], fill, parse), enc, evs[1..], fill, parse)
  {
  }

  lemma RunNil(s: AccState, enc: Encoding, fill: char, parse: seq<char> -> Option<Json>)
    requires Inv(s, enc)
    ensures Run(s, enc, [], fill, parse) == s
  {
  }

  lemma ChunkedStep(s: AccState, c: seq<char>, fill: char, parse: seq<char> -> Option<Json>)
    requires Inv(s, Chunked)
    ensures Step(s, Chunked, OnData(c, true), fill, parse)
         == s.(buffer := Some(ChunkedBuffer(s.buffer, s.outputLen, c, fill)), outputLen := s.outputLen + |c|)
  {
  }

  lemma FixedStep(s: AccState, cl: nat, c: seq<char>, fill: char, parse: seq<char> -> Option<Json>)
    requires Inv(s, Fixed(cl))
    ensures var base := if s.buffer.Some? then s.buffer.value else Fill(cl + 1, NUL);
            var from := if s.buffer.Some? then s.outputLen else 0;
            var n := Min(|c|, cl - from);
            Step(s, Fixed(cl), OnData(c, true), fill, parse)
              == s.(buffer := Some(Overwrite(base, from, c[..n])), outputLen := from + n)
  {
  }

  lemma UserStep(s: AccState, c: seq<char>, fill: char, parse: seq<char> -> Option<Json>)
    requires Inv(s, UserBuffer)
    ensures var user := if s.outputLen == 0 then Fill(MaxHttpOutputBuffer, NUL) else s.userData;
            var n := Min(|c|, MaxHttpOutputBuffer - s.outputLen);
            Step(s, UserBuffer, OnData(c, true), fill, parse)
              == s.(userData := Overwrite(user, s.outputLen, c[..n]), outputLen := s.outputLen + n)
  {
  }

  /** A lone ON_FINISH. */
  lemma FinishRun(s: AccState, enc: Encoding, fill: char, parse: seq<char> -> Option<Json>)
    requires Inv(s, enc)
    ensures Run(s, enc, [OnFinish], fill, parse) == FinishStep(s, parse)
  {
    RunCons(s, enc, [OnFinish], fill, parse);
    RunNil(FinishStep(s, parse), enc, fill, parse);
  }

  /** Running two event sequences one after the other. */
  lemma {:induction false} RunAppend(s: AccState, enc: Encoding, a: seq<Event>, b: seq<Event>, fill: char, parse: seq<char> -> Option<Json>)
    requires Inv(s, enc)
    ensures Run(s, enc, a + b, fill, parse) == Run(Run(s, enc, a, fill, parse), enc, b, fill, parse)
    decreases |a|
  {
    if a == [] {
      assert a + b == b;
      RunNil(s, enc, fill, parse);
    } else {
      assert (a + b)[0] == a[0];
      assert (a + b)[1..] == a[1..] + b;
      RunCons(s, enc, a + b, fill, parse);
      RunCons(s, enc, a, fill, parse);
      RunAppend(Step(s, enc, a[0], fill, parse), enc, a[1..], b, fill, parse);
    }
  }

  /** A response whose last event is ON_FINISH or DISCONNECTED leaves the handler idle. */
  lemma {:induction false} ClosedRunIsIdle(s: AccState, enc: Encoding, evs: seq<Event>, fill: char, parse: seq<char> -> Option<Json>)
    requires Inv(s, enc)
    requires evs != [] && (evs[|evs| - 1].OnFinish? || evs[|evs| - 1].Disconnected?)
    ensures Idle(Run(s, enc, evs, fill, parse))
  {
    var front := evs[..|evs| - 1];
    assert evs == front + [evs[|evs| - 1]];
    RunAppend(s, enc, front, [evs[|evs| - 1]], fill, parse);
  }

  /** A response that delivers no body data (an error, a redirect, a
      timeout before the body) leaves an idle handler idle. */
  lemma {:induction false} DatalessRunIsIdle(s: AccState, enc: Encoding, evs: seq<Event>, fill: char, parse: seq<char> -> Option<Json>)
    requires Idle(s) && forall i :: 0 <= i < |evs| ==> !evs[i].OnData?
    ensures Inv(s, enc) && Idle(Run(s, enc, evs, fill, parse))
    decreases |evs|
  {
    IdleIsValid(s, enc);
    if evs != [] {
      var next := Step(s, enc, evs[0], fill, parse);
      assert Idle(next);
      forall i | 0 <= i < |evs[1..]|
        ensures !evs[1..][i].OnData?
      {
        assert evs[1..][i] == evs[i + 1];
      }
      DatalessRunIsIdle(next, enc, evs[1..], fill, parse);
    }
  }

  /** The text of the whole body: the chunks one after the other. */
  function Concat(chunks: seq<seq<char>>): (r: seq<char>)
    decreases |chunks|
  {
    if chunks == [] then [] else chunks[0] + Concat(chunks[1..])
  }

  lemma {:induction false} ConcatAppend(a: seq<seq<char>>, b: seq<seq<char>>)
    ensures Concat(a + b) == Concat(a) + Concat(b)
    decreases |a|
  {
    if a == [] {
      assert a + b == b;
    } else {
      assert (a + b)[0] == a[0];
      assert (a + b)[1..] == a[1..] + b;
      ConcatAppend(a[1..], b);
    }
  }

  /** One data event per chunk, every allocation succeeding. */
  function DataEvents(chunks: seq<seq<char>>): (evs: seq<Event>)
    ensures |evs| == |chunks|
    ensures forall i :: 0 <= i < |chunks| ==> evs[i] == OnData(chunks[i], true)
  {
    seq(|chunks|, i requires 0 <= i < |chunks| => OnData(chunks[i], true))
  }

  lemma DataEventsTail(chunks: seq<seq<char>>)
    requires chunks != []
    ensures DataEvents(chunks)[1..] == DataEvents(chunks[1..])
  {
  }

  /** The first data event of a run of data events. */
  lemma RunDataCons(s: AccState, enc: Encoding, chunks: seq<seq<char>>, fill: char, parse: seq<char> -> Option<Json>)
    requires Inv(s, enc) && chunks != []
    ensures Run(s, enc, DataEvents(chunks), fill, parse)
         == Run(Step(s, enc, OnData(chunks[0], true), fill, parse), enc, DataEvents(chunks[1..]), fill, parse)
  {
    RunCons(s, enc, DataEvents(chunks), fill, parse);
    DataEventsTail(chunks);
  }

  lemma RunDataNil(s: AccState, enc: Encoding, fill: char, parse: seq<char> -> Option<Json>)
    requires Inv(s, enc)
    ensures Run(s, enc, DataEvents([]), fill, parse) == s
  {
    assert DataEvents([]) == [];
    RunNil(s, enc, fill, parse);
  }

  /** Chunked: every chunk is appended whole behind what is already held. */
  lemma {:induction false} ChunkedAppends(s: AccState, chunks: seq<seq<char>>, fill: char, parse: seq<char> -> Option<Json>)
    requires Inv(s, Chunked) && s.buffer.Some?
    ensures Run(s, Chunked, DataEvents(chunks), fill, parse)
              == s.(buffer := Some(s.buffer.value[..s.outputLen] + Concat(chunks) + [NUL]),
                    outputLen := s.outputLen + |Concat(chunks)|)
    decreases |chunks|
  {
    var b := s.buffer.value;
    var len := s.outputLen;
    if chunks == [] {
      RunDataNil(s, Chunked, fill, parse);
      assert b[..len] + Concat(chunks) + [NUL] == b;
    } else {
      var c := chunks[0];
      var b' := b[..len] + c + [NUL];
      var s' := s.(buffer := Some(b'), outputLen := len + |c|);
      RunDataCons(s, Chunked, chunks, fill, parse);
      ChunkedStep(s, c, fill, parse);
      ChunkedAppends(s', chunks[1..], fill, parse);
      AppendHeld(b, len, chunks);
    }
  }

  lemma AppendHeld(b: seq<char>, len: nat, chunks: seq<seq<char>>)
    requires len <= |b| && chunks != []
    ensures (b[..len] + chunks[0] + [NUL])[..len + |chunks[0]|] + Concat(chunks[1..]) + [NUL]
         == b[..len] + Concat(chunks) + [NUL]
  {
    assert Concat(chunks) == chunks[0] + Concat(chunks[1..]);
    assert (b[..len] + chunks[0] + [NUL])[..len + |chunks[0]|] == b[..len] + chunks[0];
  }

  /** Chunked, from idle: the received bytes are exactly the concatenation of the chunks. */
  lemma ChunkedFromIdle(s: AccState, chunks: seq<seq<char>>, fill: char, parse: seq<char> -> Option<Json>)
    requires Idle(s) && chunks != []
    ensures Run(s, Chunked, DataEvents(chunks), fill, parse)
              == s.(buffer := Some(Concat(chunks) + [NUL]), outputLen := |Concat(chunks)|)
  {
    var s' := Step(s, Chunked, OnData(chunks[0], true), fill, parse);
    assert s'.buffer == Some(chunks[0] + [NUL]);
    DataEventsTail(chunks);
    ChunkedAppends(s', chunks[1..], fill, parse);
    assert (chunks[0] + [NUL])[..|chunks[0]|] == chunks[0];
  }

  /** Chunk boundaries do not matter: two splittings of one body leave the same state. */
  lemma ChunkBoundariesIrrelevant(s: AccState, a: seq<seq<char>>, b: seq<seq<char>>, fill: char, parse: seq<char> -> Option<Json>)
    requires Idle(s) && a != [] && b != [] && Concat(a) == Concat(b)
    ensures Run(s, Chunked, DataEvents(a), fill, parse) == Run(s, Chunked, DataEvents(b), fill, parse)
  {
    ChunkedFromIdle(s, a, fill, parse);
    ChunkedFromIdle(s, b, fill, parse);
  }

  /** The chunked branch as written over further chunks: each `realloc` grows
      the buffer to `len + |chunk| + 1` bytes and the chunk is copied to `len`;
      the spare byte is never written. */
  function ChunksAsWritten(buf: seq<char>, len: nat, chunks: seq<seq<char>>, fill: char): (r: seq<char>)
    requires |buf| == len + 1
    ensures |r| == len + |Concat(chunks)| + 1
    decreases |chunks|
  {
    if chunks == [] then buf
    else
      var grown := ChunkedBufferAsWritten(Some(buf), len, chunks[0], fill);
      assert |Concat(chunks)| == |chunks[0]| + |Concat(chunks[1..])|;
      ChunksAsWritten(grown, len + |chunks[0]|, chunks[1..], fill)
  }

  /** Even as written, the first `output_len` bytes are what was held followed
      by every chunk whole: only the spare byte after them is undetermined. */
  lemma {:induction false} ChunksAsWrittenHold(buf: seq<char>, len: nat, chunks: seq<seq<char>>, fill: char)
    requires |buf| == len + 1
    ensures ChunksAsWritten(buf, len, chunks, fill)[..len + |Concat(chunks)|] == buf[..len] + Concat(chunks)
    decreases |chunks|
  {
    if chunks != [] {
      var c := chunks[0];
      var grown := ChunkedBufferAsWritten(Some(buf), len, c, fill);
      ChunksAsWrittenHold(grown, len + |c|, chunks[1..], fill);
      assert grown[..len + |c|] == buf[..len] + c by {
        assert grown[..len + |c|] == grown[..len] + grown[len..len + |c|];
      }
      assert Concat(chunks) == c + Concat(chunks[1..]);
      AppendAssoc(buf[..len], c, Concat(chunks[1..]));
    }
  }

  /** As written, from no buffer: the first chunk's `realloc(NULL, ...)`, then
      the rest; the received bytes are the concatenation of the chunks. */
  lemma ChunksAsWrittenFromNothing(chunks: seq<seq<char>>, fill: char)
    requires chunks != []
    ensures var first := ChunkedBufferAsWritten(None, 0, chunks[0], fill);
            ChunksAsWritten(first, |chunks[0]|, chunks[1..], fill)[..|Concat(chunks)|] == Concat(chunks)
  {
    var first := ChunkedBufferAsWritten(None, 0, chunks[0], fill);
    ChunksAsWrittenHold(first, |chunks[0]|, chunks[1..], fill);
    assert first[..|chunks[0]|] == chunks[0];
    assert Concat(chunks) == chunks[0] + Concat(chunks[1..]);
  }

  lemma AppendAssoc(a: seq<char>, b: seq<char>, c: seq<char>)
    ensures a + b + c == a + (b + c)
  {
  }

  lemma ClipAppend(x: seq<char>, y: seq<char>, n: nat)
    ensures Clip(Clip(x, n) + y, n) == Clip(x + y, n)
  {
    if |x| > n {
      assert (x + y)[..n] == x[..n];
      assert (x[..n] + y)[..n] == x[..n];
    }
  }

  /** One clipped copy into a zero-padded buffer keeps it zero-padded. */
  lemma PaddedCopy(p: seq<char>, c: seq<char>, size: nat)
    requires |p| <= size
    ensures var n := Min(|c|, size - |p|);
            Overwrite(Pad(p, size + 1), |p|, c[..n]) == Pad(Clip(p + c, size), size + 1)
  {
    var n := Min(|c|, size - |p|);
    var lhs := Overwrite(Pad(p, size + 1), |p|, c[..n]);
    var rhs := Pad(Clip(p + c, size), size + 1);
    assert Clip(p + c, size) == p + c[..n];
    forall i | 0 <= i < size + 1 ensures lhs[i] == rhs[i] {
      if i < |p| {
        assert lhs[i] == Pad(p, size + 1)[..|p|][i];
      } else if i < |p| + n {
        assert rhs[i] == (p + c[..n])[i];
      }
    }
  }

  /** Fixed length: the buffer holds the body clipped to the declared length, then zeros. */
  lemma {:induction false} FixedClips(s: AccState, cl: nat, chunks: seq<seq<char>>, fill: char, parse: seq<char> -> Option<Json>)
    requires Inv(s, Fixed(cl)) && s.buffer.Some?
    requires s.buffer.value == Pad(s.buffer.value[..s.outputLen], cl + 1)
    ensures var r := Run(s, Fixed(cl), DataEvents(chunks), fill, parse);
            var held := Clip(s.buffer.value[..s.outputLen] + Concat(chunks), cl);
            r == s.(buffer := Some(Pad(held, cl + 1)), outputLen := |held|)
    decreases |chunks|
  {
    var p := s.buffer.value[..s.outputLen];
    if chunks == [] {
      RunDataNil(s, Fixed(cl), fill, parse);
      ClipNothing(p, chunks, cl);
    } else {
      var c := chunks[0];
      var p' := Clip(p + c, cl);
      var s' := s.(buffer := Some(Pad(p', cl + 1)), outputLen := |p'|);
      RunDataCons(s, Fixed(cl), chunks, fill, parse);
      FixedCopy(s, cl, c, fill, parse);
      FixedClips(s', cl, chunks[1..], fill, parse);
      ClipConcat(p, chunks, cl);
    }
  }

  lemma ClipNothing(p: seq<char>, chunks: seq<seq<char>>, n: nat)
    requires chunks == [] && |p| <= n
    ensures Clip(p + Concat(chunks), n) == p
  {
    assert p + Concat(chunks) == p;
  }

  lemma ClipConcat(p: seq<char>, chunks: seq<seq<char>>, n: nat)
    requires chunks != []
    ensures Clip(Clip(p + chunks[0], n) + Concat(chunks[1..]), n) == Clip(p + Concat(chunks), n)
  {
    ClipAppend(p + chunks[0], Concat(chunks[1..]), n);
    assert Concat(chunks) == chunks[0] + Concat(chunks[1..]);
    AppendAssoc(p, chunks[0], Concat(chunks[1..]));
  }

  /** One data event into a zero-padded fixed-length buffer. */
  lemma FixedCopy(s: AccState, cl: nat, c: seq<char>, fill: char, parse: seq<char> -> Option<Json>)
    requires Inv(s, Fixed(cl)) && s.buffer.Some?
    requires s.buffer.value == Pad(s.buffer.value[..s.outputLen], cl + 1)
    ensures var p' := Clip(s.buffer.value[..s.outputLen] + c, cl);
            Step(s, Fixed(cl), OnData(c, true), fill, parse) == s.(buffer := Some(Pad(p', cl + 1)), outputLen := |p'|)
  {
    FixedStep(s, cl, c, fill, parse);
    PaddedCopy(s.buffer.value[..s.outputLen], c, cl);
  }

  /** The first data event of a fixed-length body: a zeroed allocation, then the copy. */
  lemma FixedFirstCopy(s: AccState, cl: nat, c: seq<char>, fill: char, parse: seq<char> -> Option<Json>)
    requires Idle(s)
    ensures Step(s, Fixed(cl), OnData(c, true), fill, parse) == s.(buffer := Some(Pad(Clip(c, cl), cl + 1)), outputLen := |Clip(c, cl)|)
  {
    FixedStep(s, cl, c, fill, parse);
    PaddedCopy([], c, cl);
    assert Pad([], cl + 1) == Fill(cl + 1, NUL);
    assert [] + c == c;
  }

  /** Fixed length, from idle: one zeroed allocation of `cl + 1` bytes holding the
      first `min(total, cl)` bytes of the body; bytes past the declared length are dropped. */
  lemma FixedFromIdle(s: AccState, cl: nat, chunks: seq<seq<char>>, fill: char, parse: seq<char> -> Option<Json>)
    requires Idle(s) && chunks != []
    ensures var r := Run(s, Fixed(cl), DataEvents(chunks), fill, parse);
            && r == s.(buffer := Some(Pad(Clip(Concat(chunks), cl), cl + 1)), outputLen := Min(|Concat(chunks)|, cl))
            && r.outputLen <= cl
  {
    var c := chunks[0];
    var s' := s.(buffer := Some(Pad(Clip(c, cl), cl + 1)), outputLen := |Clip(c, cl)|);
    RunDataCons(s, Fixed(cl), chunks, fill, parse);
    FixedFirstCopy(s, cl, c, fill, parse);
    FixedClips(s', cl, chunks[1..], fill, parse);
    ClipConcat([], chunks, cl);
    assert [] + c == c;
    assert [] + Concat(chunks) == Concat(chunks);
  }

  /** One copy into the caller's buffer keeps it zero-padded behind the data. */
  lemma UserCopy(s: AccState, c: seq<char>, fill: char, parse: seq<char> -> Option<Json>)
    requires Inv(s, UserBuffer)
    requires s.outputLen == 0 || s.userData == Pad(s.userData[..s.outputLen], MaxHttpOutputBuffer)
    ensures var p' := Clip(s.userData[..s.outputLen] + c, MaxHttpOutputBuffer);
            Step(s, UserBuffer, OnData(c, true), fill, parse)
              == s.(userData := Pad(p', MaxHttpOutputBuffer), outputLen := |p'|)
  {
    var p := s.userData[..s.outputLen];
    var n := Min(|c|, MaxHttpOutputBuffer - |p|);
    var user := if s.outputLen == 0 then Fill(MaxHttpOutputBuffer, NUL) else s.userData;
    assert user == Pad(p, MaxHttpOutputBuffer);
    UserStep(s, c, fill, parse);
    var p' := Clip(p + c, MaxHttpOutputBuffer);
    assert p' == p + c[..n];
    var u' := Overwrite(user, |p|, c[..n]);
    forall i | 0 <= i < MaxHttpOutputBuffer ensures u'[i] == Pad(p', MaxHttpOutputBuffer)[i] {
      if i < |p| {
        assert user[i] == Pad(p, MaxHttpOutputBuffer)[..|p|][i];
      } else if i < |p| + n {
        assert Pad(p', MaxHttpOutputBuffer)[i] == Pad(p', MaxHttpOutputBuffer)[..|p'|][i];
      }
    }
    assert u' == Pad(p', MaxHttpOutputBuffer);
  }

  /** User buffer: the caller's buffer holds the body clipped to its size, then zeros. */
  lemma {:induction false} UserBufferClips(s: AccState, chunks: seq<seq<char>>, fill: char, parse: seq<char> -> Option<Json>)
    requires Inv(s, UserBuffer) && chunks != []
    requires s.outputLen == 0 || s.userData == Pad(s.userData[..s.outputLen], MaxHttpOutputBuffer)
    ensures var r := Run(s, UserBuffer, DataEvents(chunks), fill, parse);
            var held := Clip(s.userData[..s.outputLen] + Concat(chunks), MaxHttpOutputBuffer);
            && r == s.(userData := Pad(held, MaxHttpOutputBuffer), outputLen := |held|)
            && r.outputLen <= MaxHttpOutputBuffer
    decreases |chunks|
  {
    var p := s.userData[..s.outputLen];
    var c := chunks[0];
    RunDataCons(s, UserBuffer, chunks, fill, parse);
    UserCopy(s, c, fill, parse);
    var p' := Clip(p + c, MaxHttpOutputBuffer);
    var s' := s.(userData := Pad(p', MaxHttpOutputBuffer), outputLen := |p'|);
    if chunks[1..] == [] {
      RunDataNil(s', UserBuffer, fill, parse);
      SingleConcat(chunks);
    } else {
      UserBufferClips(s', chunks[1..], fill, parse);
      ClipConcat(p, chunks, MaxHttpOutputBuffer);
    }
  }

  lemma SingleConcat(chunks: seq<seq<char>>)
    requires |chunks| == 1
    ensures Concat(chunks) == chunks[0]
  {
    assert Concat(chunks[1..]) == [];
    assert chunks[0] + [] == chunks[0];
  }

  /** With `user_data` the handler never allocates, so a FINISH extracts and publishes nothing. */
  lemma {:induction false} UserBufferNeverPublishes(s: AccState, evs: seq<Event>, fill: char, parse: seq<char> -> Option<Json>)
    requires Inv(s, UserBuffer)
    ensures var r := Run(s, UserBuffer, evs, fill, parse);
            && r.temperatureFromJson == s.temperatureFromJson
            && r.outsideTemperature == s.outsideTemperature && r.readingDone == s.readingDone
    decreases |evs|
  {
    if evs != [] {
      UserBufferNeverPublishes(Step(s, UserBuffer, evs[0], fill, parse), evs[1..], fill, parse);
    }
  }

  /** Without an ON_FINISH event nothing is extracted and nothing is published. */
  lemma {:induction false} NoFinishKeepsReading(s: AccState, enc: Encoding, evs: seq<Event>, fill: char, parse: seq<char> -> Option<Json>)
    requires Inv(s, enc)
    requires forall i :: 0 <= i < |evs| ==> !evs[i].OnFinish?
    ensures var r := Run(s, enc, evs, fill, parse);
            && r.temperatureFromJson == s.temperatureFromJson
            && r.outsideTemperature == s.outsideTemperature && r.readingDone == s.readingDone
    decreases |evs|
  {
    if evs != [] {
      NoFinishKeepsReading(Step(s, enc, evs[0], fill, parse), enc, evs[1..], fill, parse);
    }
  }

  /** Chunked body then ON_FINISH: the extractor sees exactly the concatenated
      chunks, the result is kept, and it is published when it is a reading. */
  lemma ChunkedPipeline(s: AccState, chunks: seq<seq<char>>, fill: char, parse: seq<char> -> Option<Json>)
    requires Idle(s) && chunks != [] && NUL !in Concat(chunks)
    ensures var r := Run(s, Chunked, DataEvents(chunks) + [OnFinish], fill, parse);
            var t := GetTemperature(parse(Concat(chunks)));
            && Idle(r)
            && r.temperatureFromJson == t
            && r.outsideTemperature == (if t != TemperatureErrorCode && Concat(chunks) != [] then t else s.outsideTemperature)
            && r.readingDone == (s.readingDone || (t != TemperatureErrorCode && Concat(chunks) != []))
  {
    RunAppend(s, Chunked, DataEvents(chunks), [OnFinish], fill, parse);
    ChunkedFromIdle(s, chunks, fill, parse);
    var mid := Run(s, Chunked, DataEvents(chunks), fill, parse);
    FinishRun(mid, Chunked, fill, parse);
    CStringOfTerminated(Concat(chunks), []);
    assert Concat(chunks) + [NUL] == Concat(chunks) + [NUL] + [];
    assert Body(mid.buffer.value) == Concat(chunks);
  }

  /** Fixed-length body then ON_FINISH: the extractor sees the body clipped to
      the declared length; whatever the server sent beyond it has no effect. */
  lemma FixedPipeline(s: AccState, cl: nat, chunks: seq<seq<char>>, fill: char, parse: seq<char> -> Option<Json>)
    requires Idle(s) && chunks != [] && NUL !in Concat(chunks)
    ensures var r := Run(s, Fixed(cl), DataEvents(chunks) + [OnFinish], fill, parse);
            var body := Clip(Concat(chunks), cl);
            var t := GetTemperature(parse(body));
            && Idle(r)
            && r.temperatureFromJson == t
            && r.outsideTemperature == (if t != TemperatureErrorCode && body != [] then t else s.outsideTemperature)
            && r.readingDone == (s.readingDone || (t != TemperatureErrorCode && body != []))
  {
    RunAppend(s, Fixed(cl), DataEvents(chunks), [OnFinish], fill, parse);
    FixedFromIdle(s, cl, chunks, fill, parse);
    var mid := Run(s, Fixed(cl), DataEvents(chunks), fill, parse);
    FinishRun(mid, Fixed(cl), fill, parse);
    PaddedBody(Concat(chunks), cl);
  }

  /** A NUL-free body clipped and zero-padded reads back as the clipped body. */
  lemma PaddedBody(text: seq<char>, cl: nat)
    requires NUL !in text
    ensures Body(Pad(Clip(text, cl), cl + 1)) == Clip(text, cl)
  {
    var body := Clip(text, cl);
    assert NUL !in body by {
      forall i | 0 <= i < |body| ensures body[i] != NUL {
        assert body[i] == text[i];
      }
    }
    var rest := Fill(cl + 1 - |body| - 1, NUL);
    assert Pad(body, cl + 1) == body + [NUL] + rest;
    CStringOfTerminated(body, rest);
  }
}

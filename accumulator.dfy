/**
 * `_http_event_handler` of temperature_from_api.c as an object: the statics
 * `output_buffer`/`output_len`, the caller's `user_data` buffer, the static
 * last extraction result, the published `global_outside_temperature` and the
 * "reading done" bit are its fields.  Every event handler call is proved to
 * move `State()` exactly as `AccumulatorSpec.Step` says.
 */
module Accumulator {
  import opened Wrappers
  import opened CStrings
  import opened JsonReading
  import opened AccumulatorSpec

  /** A fresh allocation of `n` bytes that all hold `c`. */
  method Allocate(n: nat, c: char) returns (a: array<char>)
    ensures fresh(a) && a[..] == Fill(n, c)
  {
    a := new char[n](_ => c);
  }

  /** The chunked branch's writes give `ChunkedBuffer`: `realloc` keeps the
      old `len + 1` bytes, the chunk goes at `len`, the terminator after it. */
  lemma ChunkedWrites(prev: Option<seq<char>>, len: nat, data: seq<char>, fill: char)
    requires prev.Some? ==> |prev.value| == len + 1
    ensures var size := len + |data| + 1;
            var grown := if prev.Some? then Overwrite(Fill(size, fill), 0, prev.value) else Fill(size, fill);
            Overwrite(grown, len, data)[len + |data| := NUL] == ChunkedBuffer(prev, len, data, fill)
  {
    var size := len + |data| + 1;
    var grown := if prev.Some? then Overwrite(Fill(size, fill), 0, prev.value) else Fill(size, fill);
    assert grown[..len] == if prev.Some? then prev.value[..len] else Fill(len, fill);
    assert Overwrite(grown, len, data)[len + |data| := NUL] == grown[..len] + data + [NUL];
  }

  /** A fixed-length data event that has its buffer: the clipped copy at `from`. */
  lemma FixedData(s: AccState, cl: nat, data: seq<char>, allocOk: bool, base: seq<char>, from: nat, n: nat)
    requires Inv(s, Fixed(cl)) && (s.buffer.Some? || allocOk)
    requires base == (if s.buffer.Some? then s.buffer.value else Fill(cl + 1, NUL))
    requires from == (if s.buffer.Some? then s.outputLen else 0)
    requires n == Min(|data|, cl - from)
    ensures from + n <= |base|
    ensures DataStep(s, Fixed(cl), data, allocOk, NUL)
            == s.(buffer := Some(Overwrite(base, from, data[..n])), outputLen := from + n)
  {
  }

  class HttpEventHandler {
    /** `output_buffer`; meaningful only while `hasBuffer` (a non-NULL pointer). */
    var outputBuffer: array<char>
    var hasBuffer: bool
    /** `output_len`. */
    var outputLen: nat
    /** The caller's `user_data` buffer. */
    const userData: array<char>
    /** The static `temperature_from_json`. */
    var temperatureFromJson: real
    /** `global_outside_temperature`. */
    var outsideTemperature: real
    /** IS_OUTSIDE_TEMPERATURE_READING_DONE_BIT of the global event group. */
    var readingDone: bool
    /** `cJSON_Parse`, left abstract. */
    const parse: seq<char> -> Option<Json>

    ghost predicate Valid()
      reads this
    {
      userData.Length == MaxHttpOutputBuffer && outputBuffer != userData
    }

    /** The handler's state as a value. */
    function State(): AccState
      reads this, outputBuffer, userData
    {
      AccState(if hasBuffer then Some(outputBuffer[..]) else None, outputLen, userData[..],
               temperatureFromJson, outsideTemperature, readingDone)
    }

    /** The state at boot: no buffer, the static result at the error code,
        the zero-initialised global at 0. */
    constructor (parse: seq<char> -> Option<Json>)
      ensures Valid() && Idle(State()) && this.parse == parse
      ensures temperatureFromJson == TemperatureErrorCode && outsideTemperature == 0.0 && !readingDone
    {
      outputBuffer := new char[0];
      hasBuffer := false;
      outputLen := 0;
      userData := new char[MaxHttpOutputBuffer](_ => NUL);
      temperatureFromJson := TemperatureErrorCode;
      outsideTemperature := 0.0;
      readingDone := false;
      this.parse := parse;
    }

    /** HTTP_EVENT_ON_DATA with the caller's buffer. */
    method ReceiveUserData(data: seq<char>)
      requires Valid() && Inv(State(), UserBuffer)
      modifies this`outputLen, userData
      ensures Valid() && State() == DataStep(old(State()), UserBuffer, data, true, '\0')
    {
      if outputLen == 0 {
        CopyInto(userData, 0, Fill(MaxHttpOutputBuffer, NUL));
      }
      var n := Min(|data|, MaxHttpOutputBuffer - outputLen);
      if n != 0 {
        CopyInto(userData, outputLen, data[..n]);
      } else {
        assert userData[..] == Overwrite(userData[..], outputLen, data[..n]);
      }
      outputLen := outputLen + n;
    }

    /** HTTP_EVENT_ON_DATA of a chunked response: reallocate to exactly
        `output_len + |data| + 1` bytes, append, terminate. */
    method ReceiveChunked(data: seq<char>, allocOk: bool, fill: char) returns (status: Status)
      requires Valid() && Inv(State(), Chunked)
      modifies this`outputBuffer, this`hasBuffer, this`outputLen
      ensures fresh(outputBuffer) || outputBuffer == old(outputBuffer)
      ensures Valid() && State() == DataStep(old(State()), Chunked, data, allocOk, fill)
      ensures status == (if allocOk then EspOk else EspFail)
    {
      if !allocOk {
        hasBuffer := false;
        return EspFail;
      }
      ghost var prev := if hasBuffer then Some(outputBuffer[..]) else None;
      var grown := Allocate(outputLen + |data| + 1, fill);
      if hasBuffer {
        CopyInto(grown, 0, outputBuffer[..]);
      }
      CopyInto(grown, outputLen, data);
      ghost var written := grown[..];
      grown[outputLen + |data|] := NUL;
      assert grown[..] == written[outputLen + |data| := NUL];
      ChunkedWrites(prev, outputLen, data, fill);
      outputBuffer := grown;
      hasBuffer := true;
      outputLen := outputLen + |data|;
      status := EspOk;
    }

    /** HTTP_EVENT_ON_DATA of a response with a declared length: one zeroed
        allocation of `contentLength + 1` bytes, then copies clipped to the
        room left before `contentLength`. */
    method ReceiveFixed(cl: nat, data: seq<char>, allocOk: bool) returns (status: Status)
      requires Valid() && Inv(State(), Fixed(cl))
      modifies this`outputBuffer, this`hasBuffer, this`outputLen, outputBuffer
      ensures fresh(outputBuffer) || outputBuffer == old(outputBuffer)
      ensures Valid() && State() == DataStep(old(State()), Fixed(cl), data, allocOk, '\0')
      ensures status == (if !allocOk && !old(hasBuffer) then EspFail else EspOk)
    {
      ghost var s := State();
      if !hasBuffer {
        var zeroed := Allocate(cl + 1, NUL);
        outputLen := 0;
        if !allocOk {
          assert State() == s.(outputLen := 0);
          return EspFail;
        }
        outputBuffer := zeroed;
        hasBuffer := true;
      }
      ghost var base := outputBuffer[..];
      assert base == if s.buffer.Some? then s.buffer.value else Fill(cl + 1, NUL);
      ghost var from := outputLen;
      var n := Min(|data|, cl - outputLen);
      if n != 0 {
        CopyInto(outputBuffer, outputLen, data[..n]);
      } else {
        assert outputBuffer[..] == Overwrite(outputBuffer[..], outputLen, data[..n]);
      }
      outputLen := outputLen + n;
      assert State() == s.(buffer := Some(Overwrite(base, from, data[..n])), outputLen := from + n);
      FixedData(s, cl, data, allocOk, base, from, n);
      status := EspOk;
    }

    /** HTTP_EVENT_ON_FINISH. */
    method Finish()
      requires Valid()
      modifies this`hasBuffer, this`outputLen, this`temperatureFromJson, this`outsideTemperature, this`readingDone
      ensures Valid() && State() == FinishStep(old(State()), parse)
    {
      if hasBuffer {
        var body := Body(outputBuffer[..]);
        temperatureFromJson := GetTemperature(parse(body));
        if temperatureFromJson == TemperatureErrorCode || |body| == 0 {
          // "Can't get temperature": nothing is published
        } else {
          outsideTemperature := temperatureFromJson;
          readingDone := true;
        }
        hasBuffer := false;
      }
      outputLen := 0;
    }

    /** HTTP_EVENT_DISCONNECTED: free any buffer and reset the count. */
    method Disconnect()
      requires Valid()
      modifies this`hasBuffer, this`outputLen
      ensures Valid() && State() == old(State()).(buffer := None, outputLen := 0)
    {
      hasBuffer := false;
      outputLen := 0;
    }

    /** `_http_event_handler`: one transport event. */
    method HandleEvent(ev: Event, enc: Encoding, fill: char) returns (status: Status)
      requires Valid() && Inv(State(), enc)
      modifies this, outputBuffer, userData
      ensures Valid() && (fresh(outputBuffer) || outputBuffer == old(outputBuffer))
      ensures State() == Step(old(State()), enc, ev, fill, parse)
      ensures status == StepStatus(old(State()), enc, ev)
    {
      status := EspOk;
      match ev
      case OnData(data, allocOk) =>
        ghost var s := State();
        StepOnData(s, enc, data, allocOk, fill, parse);
        match enc {
          case UserBuffer =>
            ReceiveUserData(data);
            DataStepIgnoresFill(s, enc, data, allocOk, fill);
          case Chunked =>
            status := ReceiveChunked(data, allocOk, fill);
          case Fixed(cl) =>
            status := ReceiveFixed(cl, data, allocOk);
            DataStepIgnoresFill(s, enc, data, allocOk, fill);
        }
      case OnFinish =>
        Finish();
      case Disconnected =>
        Disconnect();
      case _ =>
    }

    /** `esp_http_client_perform` delivering one response's events in order. */
    method Perform(evs: seq<Event>, enc: Encoding, fill: char)
      requires Valid() && Inv(State(), enc)
      modifies this, outputBuffer, userData
      ensures Valid() && (fresh(outputBuffer) || outputBuffer == old(outputBuffer))
      ensures State() == Run(old(State()), enc, evs, fill, parse)
    {
      var i := 0;
      while i < |evs|
        invariant 0 <= i <= |evs|
        invariant Valid() && Inv(State(), enc)
        invariant fresh(outputBuffer) || outputBuffer == old(outputBuffer)
        invariant Run(State(), enc, evs[i..], fill, parse) == Run(old(State()), enc, evs, fill, parse)
      {
        ghost var before := State();
        var _ := HandleEvent(evs[i], enc, fill);
        RunCons(before, enc, evs[i..], fill, parse);
        assert evs[i..][1..] == evs[i + 1..];
        i := i + 1;
      }
      RunNil(State(), enc, fill, parse);
    }
  }
}

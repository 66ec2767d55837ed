/** Frame assembly around the echo canceller (testecho_mono/MumbleEchoProcessor.cpp) in the only
    configuration its constructor sets up: one microphone and one speaker channel of 16-bit samples at
    48 kHz, hence no resampler.  The Speex calls are parameters with their own state. */
module EchoFrames {
  import opened Sequences
  import opened Resync

  const FRAME_SIZE: nat := 480

  type Short = n: int | -32768 <= n < 32768

  type Frame = s: seq<Short> | |s| == FRAME_SIZE witness seq(FRAME_SIZE, _ => 0)

  // ----- Samples

  /** 16-bit PCM to float; the scale is a power of two, so the float is exact. */
  function ToFloat(s: Short): real {
    s as real * (1.0 / 32768.0)
  }

  /** Conversion of a real to an integer, towards zero. */
  function Truncate(r: real): int {
    if r >= 0.0 then r.Floor else -((-r).Floor)
  }

  function MinReal(a: real, b: real): real { if a < b then a else b }

  function MaxReal(a: real, b: real): real { if a < b then b else a }

  function Clamped(r: real): (c: real)
    ensures -32768.0 <= c <= 32767.0
  {
    MaxReal(-32768.0, MinReal(32767.0, r * 32768.0))
  }

  /** Float to 16-bit PCM with the source's scale and clamp. */
  function ToPcm(r: real): Short {
    var c := Clamped(r);
    assert -32768.0 <= c <= 32767.0;
    assert 0.0 <= c ==> 0 <= c.Floor <= 32767;
    assert c <= 0.0 ==> 0 <= (-c).Floor <= 32768;
    Truncate(c)
  }

  /** A sample is unchanged by the way to float and back. */
  lemma SampleUnchanged(s: Short)
    ensures ToPcm(ToFloat(s)) == s
  {
    var n: int := s;
    assert ToFloat(s) * 32768.0 == n as real;
    assert (n as real).Floor == n;
    assert (-(n as real)).Floor == -n by { assert -(n as real) == (-n) as real; }
  }

  /** Any value outside the 16-bit range ends on the nearer bound. */
  lemma Saturates(r: real)
    ensures r * 32768.0 >= 32767.0 ==> ToPcm(r) == 32767
    ensures r * 32768.0 <= -32768.0 ==> ToPcm(r) == -32768
  {
  }

  /** Between the bounds the fraction is cut off: the sample is less than one from the value, and no farther
      from zero. */
  lemma CutsOffTheFraction(r: real)
    requires -32768.0 <= r * 32768.0 <= 32767.0
    ensures var value, sample := r * 32768.0, ToPcm(r) as int as real;
            if r >= 0.0 then sample <= value < sample + 1.0 && sample >= 0.0
            else sample - 1.0 < value <= sample && sample <= 0.0
  {
    var value := r * 32768.0;
    assert Clamped(r) == value;
    assert value >= 0.0 <==> r >= 0.0;
  }

  function ToPcmAll(rs: seq<real>): (s: seq<Short>)
    ensures |s| == |rs|
  {
    seq(|rs|, i requires 0 <= i < |rs| => ToPcm(rs[i]))
  }

  // ----- Consecutive blocks of a sample stream

  function Blocks(s: seq<Short>): seq<Frame> {
    if |s| < FRAME_SIZE then [] else [s[..FRAME_SIZE]] + Blocks(s[FRAME_SIZE..])
  }

  function Rest(s: seq<Short>): (r: seq<Short>)
    ensures |r| < FRAME_SIZE
  {
    if |s| < FRAME_SIZE then s else Rest(s[FRAME_SIZE..])
  }

  /** The blocks are consecutive and complete: together with the remainder they are the stream. */
  lemma {:induction false} BlocksAreTheStream(s: seq<Short>)
    ensures Flatten(Blocks(s)) + Rest(s) == s
    ensures |Blocks(s)| == |s| / 480 && forall block :: block in Blocks(s) ==> |block| == 480
  {
    if |s| < FRAME_SIZE {
    } else {
      var tail := s[FRAME_SIZE..];
      BlocksAreTheStream(tail);
      assert Blocks(s)[1..] == Blocks(tail);
      calc {
        Flatten(Blocks(s)) + Rest(s);
        s[..FRAME_SIZE] + Flatten(Blocks(tail)) + Rest(tail);
        s[..FRAME_SIZE] + (Flatten(Blocks(tail)) + Rest(tail));
        s[..FRAME_SIZE] + tail;
        s;
      }
    }
  }

  /** Cutting the stream in two makes no difference. */
  lemma {:induction false} BlocksSplit(a: seq<Short>, b: seq<Short>)
    ensures Blocks(a + b) == Blocks(a) + Blocks(Rest(a) + b)
    ensures Rest(a + b) == Rest(Rest(a) + b)
  {
    if |a| < FRAME_SIZE {
    } else {
      BlocksSplit(a[FRAME_SIZE..], b);
      assert (a + b)[..FRAME_SIZE] == a[..FRAME_SIZE];
      assert (a + b)[FRAME_SIZE..] == a[FRAME_SIZE..] + b;
    }
  }

  lemma BlockReady(block: Frame, rest: seq<Short>)
    ensures Blocks(block + rest) == [block] + Blocks(rest)
    ensures Rest(block + rest) == Rest(rest)
  {
    assert (block + rest)[..FRAME_SIZE] == block;
    assert (block + rest)[FRAME_SIZE..] == rest;
  }

  // ----- The pipeline on values

  /** The Speex echo canceller and preprocessor: from their internal state, a microphone and a speaker
      frame to the cleaned frame and the next internal state. */
  type Canceller<!D> = (D, Frame, Frame) -> (Frame, D)
  type Preprocessor<!D> = (D, Frame) -> (Frame, D)

  datatype Sink<D> = Sink(dsp: D, out: seq<Short>)

  function ProcessChunk<D>(c: Canceller<D>, p: Preprocessor<D>, sink: Sink<D>, chunk: AudioChunk<Frame>): Sink<D>
  {
    if chunk.Empty? then sink else
    var (clean, d1) := c(sink.dsp, chunk.mic, chunk.speaker);
    var (final, d2) := p(d1, clean);
    Sink(d2, sink.out + final)
  }

  function FeedMic(m: Machine<Frame>, fs: seq<Frame>): (m': Machine<Frame>)
    requires m.Valid()
    ensures m'.Valid()
    decreases |fs|
  {
    if fs == [] then m else FeedMic(Step(m, Mic(fs[0])).next, fs[1..])
  }

  datatype Pipeline<D> = Pipeline(machine: Machine<Frame>, sink: Sink<D>, chunks: nat)

  function SpeakerStep<D>(c: Canceller<D>, p: Preprocessor<D>, s: Pipeline<D>, f: Frame): (s': Pipeline<D>)
    requires s.machine.Valid()
    ensures s'.machine.Valid()
  {
    var o := Step(s.machine, Speaker(f));
    Pipeline(o.next, ProcessChunk(c, p, s.sink, o.chunk), s.chunks + if o.chunk.Empty? then 0 else 1)
  }

  function FeedSpeaker<D>(c: Canceller<D>, p: Preprocessor<D>, s: Pipeline<D>, fs: seq<Frame>): (s': Pipeline<D>)
    requires s.machine.Valid()
    ensures s'.machine.Valid()
    decreases |fs|
  {
    if fs == [] then s else FeedSpeaker(c, p, SpeakerStep(c, p, s, fs[0]), fs[1..])
  }

  // ----- The object

  /** The short mixer for one channel: writes the converted samples from index `at` on. */
  method Mix(buffer: array<real>, at: nat, input: seq<Short>)
    requires at + |input| <= buffer.Length
    modifies buffer
    ensures ToPcmAll(buffer[..at + |input|]) == old(ToPcmAll(buffer[..at])) + input
    ensures buffer[at + |input|..] == old(buffer[at + |input|..])
  {
    for i := 0 to |input|
      invariant buffer[..at] == old(buffer[..at])
      invariant buffer[at + |input|..] == old(buffer[at + |input|..])
      invariant forall j :: 0 <= j < i ==> buffer[at + j] == ToFloat(input[j])
    {
      buffer[at + i] := ToFloat(input[i]);
    }
    forall j | 0 <= j < |input|
      ensures ToPcm(buffer[at + j]) == input[j]
    {
      SampleUnchanged(input[j]);
    }
    forall j | 0 <= j < at
      ensures buffer[..at + |input|][j] == old(buffer[..at])[j]
    {
      assert buffer[..at][j] == old(buffer[..at])[j];
    }
  }

  class Processor<D> {
    const cancel: Canceller<D>
    const preprocess: Preprocessor<D>
    const resync: Resynchronizer<Frame>
    const pfMicInput: array<real>
    const pfEchoInput: array<real>
    var iMicFilled: nat
    var iEchoFilled: nat
    var dsp: D
    var outputBuffer: seq<Short>
    var processedFrames: nat
    // every sample ever put into the output buffer, and how many were taken out again
    ghost var produced: seq<Short>
    ghost var taken: nat
    ghost var chunks: nat

    ghost predicate Valid()
      reads this, resync
    {
      && pfMicInput != pfEchoInput
      && pfMicInput.Length == pfEchoInput.Length == FRAME_SIZE
      && iMicFilled < FRAME_SIZE && iEchoFilled < FRAME_SIZE
      && resync.Valid()
      && taken <= |produced| == FRAME_SIZE * chunks
      && outputBuffer == produced[taken..]
      && processedFrames == chunks % 0x1_0000_0000
    }

    /** The buffered remainders, as samples. */
    ghost function MicPending(): seq<Short>
      reads this, pfMicInput
      requires iMicFilled <= pfMicInput.Length
    {
      ToPcmAll(pfMicInput[..iMicFilled])
    }

    ghost function EchoPending(): seq<Short>
      reads this, pfEchoInput
      requires iEchoFilled <= pfEchoInput.Length
    {
      ToPcmAll(pfEchoInput[..iEchoFilled])
    }

    ghost function View(): Pipeline<D>
      reads this, resync
    {
      Pipeline(resync.View(), Sink(dsp, outputBuffer), chunks)
    }

    ghost function State(): Assembly<D>
      requires Valid()
      reads this, resync, pfMicInput, pfEchoInput
    {
      Assembly(View(), MicPending(), EchoPending())
    }

    constructor (cancel: Canceller<D>, preprocess: Preprocessor<D>, dsp: D)
      ensures Valid() && fresh(resync) && fresh(pfMicInput) && fresh(pfEchoInput)
      ensures MicPending() == [] && EchoPending() == []
      ensures View() == Pipeline(Machine(S0, []), Sink(dsp, []), 0)
      ensures this.cancel == cancel && this.preprocess == preprocess
    {
      this.cancel := cancel;
      this.preprocess := preprocess;
      this.dsp := dsp;
      resync := new Resynchronizer<Frame>();
      pfMicInput := new real[FRAME_SIZE](_ => 0.0);
      pfEchoInput := new real[FRAME_SIZE](_ => 0.0);
      iMicFilled, iEchoFilled := 0, 0;
      outputBuffer, processedFrames := [], 0;
      produced, taken, chunks := [], 0, 0;
    }

    /** However the samples are cut into calls, the resynchronizer receives the consecutive 480-sample
        blocks of the whole stream and the remainder stays buffered. */
    method AddMic(data: seq<Short>)
      requires Valid()
      modifies this`iMicFilled, pfMicInput, resync
      ensures Valid()
      ensures MicPending() == Rest(old(MicPending()) + data)
      ensures resync.View() == FeedMic(old(resync.View()), Blocks(old(MicPending()) + data))
    {
      var rest := data;
      while rest != []
        invariant Valid()
        invariant Rest(MicPending() + rest) == Rest(old(MicPending()) + data)
        invariant FeedMic(resync.View(), Blocks(MicPending() + rest)) ==
                  FeedMic(old(resync.View()), Blocks(old(MicPending()) + data))
        decreases |rest|
      {
        rest := FillMicFrame(rest);
      }
      assert MicPending() + [] == MicPending();
    }

    /** One turn of the loop: what fits into the frame goes in, and a full frame goes on. */
    method FillMicFrame(data: seq<Short>) returns (rest: seq<Short>)
      requires Valid() && data != []
      modifies this`iMicFilled, pfMicInput, resync
      ensures Valid() && |rest| < |data|
      ensures Rest(MicPending() + rest) == Rest(old(MicPending()) + data)
      ensures FeedMic(resync.View(), Blocks(MicPending() + rest)) ==
              FeedMic(old(resync.View()), Blocks(old(MicPending()) + data))
    {
      ghost var stream := MicPending() + data;
      var left := if |data| < FRAME_SIZE - iMicFilled then |data| else FRAME_SIZE - iMicFilled;
      Mix(pfMicInput, iMicFilled, data[..left]);
      iMicFilled := iMicFilled + left;
      rest := data[left..];
      assert MicPending() + rest == stream;
      if iMicFilled == FRAME_SIZE {
        var psMic: Frame := ToPcmAll(pfMicInput[..]);
        assert psMic == MicPending();
        BlockReady(psMic, rest);
        iMicFilled := 0;
        var _ := resync.AddMic(psMic);
        assert MicPending() + rest == rest;
      }
    }

    /** As AddMic for the speaker; each block may release a chunk, which is processed at once. */
    method AddEcho(data: seq<Short>)
      requires Valid()
      modifies this`iEchoFilled, this`dsp, this`outputBuffer, this`processedFrames, pfEchoInput, resync
      modifies this`produced, this`chunks
      ensures Valid()
      ensures EchoPending() == Rest(old(EchoPending()) + data)
      ensures View() == FeedSpeaker(cancel, preprocess, old(View()), Blocks(old(EchoPending()) + data))
      ensures old(produced) <= produced
    {
      var rest := data;
      while rest != []
        invariant Valid() && old(produced) <= produced
        invariant Rest(EchoPending() + rest) == Rest(old(EchoPending()) + data)
        invariant FeedSpeaker(cancel, preprocess, View(), Blocks(EchoPending() + rest)) ==
                  FeedSpeaker(cancel, preprocess, old(View()), Blocks(old(EchoPending()) + data))
        decreases |rest|
      {
        rest := FillEchoFrame(rest);
      }
      assert EchoPending() + [] == EchoPending();
    }

    /** One turn of the loop: what fits into the frame goes in, and a full frame goes on. */
    method FillEchoFrame(data: seq<Short>) returns (rest: seq<Short>)
      requires Valid() && data != []
      modifies this`iEchoFilled, this`dsp, this`outputBuffer, this`processedFrames, pfEchoInput, resync
      modifies this`produced, this`chunks
      ensures Valid() && old(produced) <= produced && |rest| < |data|
      ensures Rest(EchoPending() + rest) == Rest(old(EchoPending()) + data)
      ensures FeedSpeaker(cancel, preprocess, View(), Blocks(EchoPending() + rest)) ==
              FeedSpeaker(cancel, preprocess, old(View()), Blocks(old(EchoPending()) + data))
    {
      ghost var stream := EchoPending() + data;
      var left := if |data| < FRAME_SIZE - iEchoFilled then |data| else FRAME_SIZE - iEchoFilled;
      Mix(pfEchoInput, iEchoFilled, data[..left]);
      iEchoFilled := iEchoFilled + left;
      rest := data[left..];
      assert EchoPending() + rest == stream;
      if iEchoFilled == FRAME_SIZE {
        var outbuff: Frame := ToPcmAll(pfEchoInput[..]);
        assert outbuff == EchoPending();
        BlockReady(outbuff, rest);
        iEchoFilled := 0;
        SpeakerFrame(outbuff);
        assert EchoPending() + rest == rest;
      }
    }

    /** A complete speaker frame: the chunk it may release is processed. */
    method SpeakerFrame(outbuff: Frame)
      requires Valid()
      modifies this`dsp, this`outputBuffer, this`processedFrames, this`produced, this`chunks, resync
      ensures Valid()
      ensures View() == SpeakerStep(cancel, preprocess, old(View()), outbuff)
      ensures old(produced) <= produced
    {
      var chunk := resync.AddSpeaker(outbuff);
      if !chunk.Empty? {
        ProcessAudioFrame(chunk);
      }
    }

    method ProcessAudioFrame(chunk: AudioChunk<Frame>)
      requires Valid() && chunk.Chunk?
      modifies this`dsp, this`outputBuffer, this`processedFrames, this`produced, this`chunks
      ensures Valid()
      ensures Sink(dsp, outputBuffer) ==
              ProcessChunk(cancel, preprocess, Sink(old(dsp), old(outputBuffer)), chunk)
      ensures var (clean, next) := cancel(old(dsp), chunk.mic, chunk.speaker);
              var (final, last) := preprocess(next, clean);
              outputBuffer == old(outputBuffer) + final && dsp == last
      ensures processedFrames == (old(processedFrames) + 1) % 0x1_0000_0000
      ensures chunks == old(chunks) + 1 && |produced| == |old(produced)| + FRAME_SIZE
      ensures old(produced) <= produced
    {
      var (clean, d1) := cancel(dsp, chunk.mic, chunk.speaker);
      var (psSource, d2) := preprocess(d1, clean);
      dsp := d2;
      outputBuffer := outputBuffer + psSource;
      produced := produced + psSource;
      chunks := chunks + 1;
      processedFrames := (processedFrames + 1) % 0x1_0000_0000;
    }

    /** Samples leave in the order they were produced; what stays is 480 per processed chunk less
        what was taken. */
    method GetProcessedAudio(maxSamples: nat) returns (ok: bool, output: seq<Short>)
      requires Valid()
      modifies this`outputBuffer, this`taken
      ensures Valid()
      ensures output + outputBuffer == old(outputBuffer)
      ensures |output| == if maxSamples < |old(outputBuffer)| then maxSamples else |old(outputBuffer)|
      ensures output == produced[old(taken)..taken]
      ensures |outputBuffer| == 480 * chunks - taken
      ensures ok <==> output != []
    {
      if outputBuffer == [] {
        return false, [];
      }
      var samplesToCopy := if maxSamples < |outputBuffer| then maxSamples else |outputBuffer|;
      output := outputBuffer[..samplesToCopy];
      outputBuffer := outputBuffer[samplesToCopy..];
      taken := taken + samplesToCopy;
      ok := samplesToCopy > 0;
    }
  }

  // ----- Every way of cutting the streams

  /** A call that delivers samples, of the microphone or of the speaker. */
  datatype Call = MicCall(data: seq<Short>) | EchoCall(data: seq<Short>)

  /** What the samples so far have led to: the pipeline and the two remainders. */
  datatype Assembly<D> = Assembly(pipeline: Pipeline<D>, mic: seq<Short>, echo: seq<Short>) {
    ghost predicate Valid() {
      pipeline.machine.Valid() && |mic| < FRAME_SIZE && |echo| < FRAME_SIZE
    }
  }

  /** One call: the complete blocks go on, in order, and the remainder is kept. */
  function DoCall<D>(c: Canceller<D>, p: Preprocessor<D>, s: Assembly<D>, call: Call): (s': Assembly<D>)
    requires s.Valid()
    ensures s'.Valid()
  {
    match call
    case MicCall(data) =>
      var machine := FeedMic(s.pipeline.machine, Blocks(s.mic + data));
      s.(pipeline := s.pipeline.(machine := machine), mic := Rest(s.mic + data))
    case EchoCall(data) =>
      s.(pipeline := FeedSpeaker(c, p, s.pipeline, Blocks(s.echo + data)), echo := Rest(s.echo + data))
  }

  function DoCalls<D>(c: Canceller<D>, p: Preprocessor<D>, s: Assembly<D>, calls: seq<Call>): (s': Assembly<D>)
    requires s.Valid()
    ensures s'.Valid()
    decreases |calls|
  {
    if calls == [] then s else DoCalls(c, p, DoCall(c, p, s, calls[0]), calls[1..])
  }

  // ----- The frames as events

  /** The microphone frames go to the resynchronizer one by one, in order. */
  lemma {:induction false} FeedMicIsRun(m: Machine<Frame>, fs: seq<Frame>, es: seq<Event<Frame>>)
    requires m.Valid() && |es| == |fs| && forall i :: 0 <= i < |fs| ==> es[i] == Mic(fs[i])
    ensures FeedMic(m, fs) == Run(m, es)
    decreases |fs|
  {
    if fs != [] {
      FeedMicIsRun(Step(m, Mic(fs[0])).next, fs[1..], es[1..]);
    }
  }

  /** And so do the speaker frames. */
  lemma {:induction false} FeedSpeakerIsRun<D>(c: Canceller<D>, p: Preprocessor<D>, s: Pipeline<D>, fs: seq<Frame>,
                                               es: seq<Event<Frame>>)
    requires s.machine.Valid() && |es| == |fs| && forall i :: 0 <= i < |fs| ==> es[i] == Speaker(fs[i])
    ensures FeedSpeaker(c, p, s, fs).machine == Run(s.machine, es)
    decreases |fs|
  {
    if fs != [] {
      FeedSpeakerIsRun(c, p, SpeakerStep(c, p, s, fs[0]), fs[1..], es[1..]);
    }
  }

  /** What a speaker frame adds to the output: nothing if it is dropped; otherwise the oldest microphone
      frame, with the echo of the speaker frame cancelled and then preprocessed. */
  lemma SpeakerOutput<D>(c: Canceller<D>, p: Preprocessor<D>, s: Pipeline<D>, f: Frame, t: Pipeline<D>)
    requires s.machine.Valid() && t == SpeakerStep(c, p, s, f)
    ensures Step(s.machine, Speaker(f)).dropped ==> t.sink == s.sink && t.chunks == s.chunks
    ensures !Step(s.machine, Speaker(f)).dropped ==>
              && s.machine.queue != []
              && var (clean, next) := c(s.sink.dsp, s.machine.queue[0], f);
                 var (final, last) := p(next, clean);
                 t.sink == Sink(last, s.sink.out + final) && t.chunks == s.chunks + 1
  {
  }

  lemma {:induction false} FeedMicConcat(m: Machine<Frame>, fs: seq<Frame>, gs: seq<Frame>)
    requires m.Valid()
    ensures FeedMic(m, fs + gs) == FeedMic(FeedMic(m, fs), gs)
    decreases |fs|
  {
    if fs == [] {
      assert fs + gs == gs;
    } else {
      assert (fs + gs)[1..] == fs[1..] + gs;
      FeedMicConcat(Step(m, Mic(fs[0])).next, fs[1..], gs);
    }
  }

  lemma {:induction false} FeedSpeakerConcat<D>(c: Canceller<D>, p: Preprocessor<D>, s: Pipeline<D>,
                                                fs: seq<Frame>, gs: seq<Frame>)
    requires s.machine.Valid()
    ensures FeedSpeaker(c, p, s, fs + gs) == FeedSpeaker(c, p, FeedSpeaker(c, p, s, fs), gs)
    decreases |fs|
  {
    if fs == [] {
      assert fs + gs == gs;
    } else {
      assert (fs + gs)[1..] == fs[1..] + gs;
      FeedSpeakerConcat(c, p, SpeakerStep(c, p, s, fs[0]), fs[1..], gs);
    }
  }

  /** Two calls of one side do what one call with both their samples does. */
  lemma {:induction false} CallSplits<D>(c: Canceller<D>, p: Preprocessor<D>, s: Assembly<D>, call: Call,
                                         a: seq<Short>, b: seq<Short>)
    requires s.Valid() && call.data == a + b
    ensures DoCall(c, p, DoCall(c, p, s, call.(data := a)), call.(data := b)) == DoCall(c, p, s, call)
  {
    match call
    case MicCall(data) =>
      BlocksSplit(s.mic + a, b);
      assert s.mic + a + b == s.mic + data;
      FeedMicConcat(s.pipeline.machine, Blocks(s.mic + a), Blocks(Rest(s.mic + a) + b));
    case EchoCall(data) =>
      BlocksSplit(s.echo + a, b);
      assert s.echo + a + b == s.echo + data;
      FeedSpeakerConcat(c, p, s.pipeline, Blocks(s.echo + a), Blocks(Rest(s.echo + a) + b));
  }

  lemma EmptyCall<D>(c: Canceller<D>, p: Preprocessor<D>, s: Assembly<D>, call: Call)
    requires s.Valid() && call.data == []
    ensures DoCall(c, p, s, call) == s
  {
    assert s.mic + [] == s.mic && s.echo + [] == s.echo;
  }

  function CallsOf(side: Call, parts: seq<seq<Short>>): seq<Call> {
    if parts == [] then [] else [side.(data := parts[0])] + CallsOf(side, parts[1..])
  }

  /** On either side, any sequence of calls does what one call with all the samples does: the frames are
      the consecutive blocks of the whole stream, and the remainder stays. */
  lemma {:induction false} CallsDoNotMatter<D>(c: Canceller<D>, p: Preprocessor<D>, s: Assembly<D>, side: Call,
                                               parts: seq<seq<Short>>)
    requires s.Valid()
    ensures DoCalls(c, p, s, CallsOf(side, parts)) == DoCall(c, p, s, side.(data := Flatten(parts)))
    decreases |parts|
  {
    if parts == [] {
      EmptyCall(c, p, s, side.(data := []));
    } else {
      var first, rest := side.(data := parts[0]), parts[1..];
      assert CallsOf(side, parts)[1..] == CallsOf(side, rest);
      CallsDoNotMatter(c, p, DoCall(c, p, s, first), side, rest);
      CallSplits(c, p, s, side.(data := Flatten(parts)), parts[0], Flatten(rest));
    }
  }

  function SinglesOf(call: Call): seq<Call>
    decreases |call.data|
  {
    if call.data == [] then []
    else [call.(data := call.data[..1])] + SinglesOf(call.(data := call.data[1..]))
  }

  /** The samples of the calls one by one, in the order in which they come. */
  function Singles(calls: seq<Call>): seq<Call> {
    if calls == [] then [] else SinglesOf(calls[0]) + Singles(calls[1..])
  }

  lemma {:induction false} FirstCall<D>(c: Canceller<D>, p: Preprocessor<D>, s: Assembly<D>, call: Call, calls: seq<Call>)
    requires s.Valid()
    ensures DoCalls(c, p, s, [call] + calls) == DoCalls(c, p, DoCall(c, p, s, call), calls)
  {
    assert ([call] + calls)[1..] == calls;
  }

  lemma {:induction false} FirstAndRest<D>(c: Canceller<D>, p: Preprocessor<D>, s: Assembly<D>, call: Call, next: Assembly<D>)
    requires s.Valid() && call.data != [] && next == DoCall(c, p, s, call.(data := call.data[..1]))
    ensures DoCall(c, p, next, call.(data := call.data[1..])) == DoCall(c, p, s, call)
  {
    assert call.data[..1] + call.data[1..] == call.data;
    CallSplits(c, p, s, call, call.data[..1], call.data[1..]);
  }

  lemma {:induction false} OneByOne<D>(c: Canceller<D>, p: Preprocessor<D>, s: Assembly<D>, call: Call, after: seq<Call>)
    requires s.Valid()
    ensures DoCalls(c, p, s, SinglesOf(call) + after) == DoCalls(c, p, DoCall(c, p, s, call), after)
    decreases |call.data|
  {
    if call.data == [] {
      EmptyCall(c, p, s, call);
      assert [] + after == after;
    } else {
      var first, rest := call.(data := call.data[..1]), call.(data := call.data[1..]);
      var next := DoCall(c, p, s, first);
      assert SinglesOf(call) + after == [first] + (SinglesOf(rest) + after);
      FirstCall(c, p, s, first, SinglesOf(rest) + after);
      OneByOne(c, p, next, rest, after);
      FirstAndRest(c, p, s, call, next);
    }
  }

  lemma {:induction false} SinglesSuffice<D>(c: Canceller<D>, p: Preprocessor<D>, s: Assembly<D>, calls: seq<Call>)
    requires s.Valid()
    ensures DoCalls(c, p, s, calls) == DoCalls(c, p, s, Singles(calls))
    decreases |calls|
  {
    if calls != [] {
      OneByOne(c, p, s, calls[0], Singles(calls[1..]));
      SinglesSuffice(c, p, DoCall(c, p, s, calls[0]), calls[1..]);
    }
  }

  /** With the calls of both sides mixed, only the order in which the samples come matters: queue, output
      and remainders do not depend on how they are cut into calls. */
  lemma OnlySampleOrderMatters<D>(c: Canceller<D>, p: Preprocessor<D>, s: Assembly<D>, calls: seq<Call>, calls': seq<Call>)
    requires s.Valid() && Singles(calls) == Singles(calls')
    ensures DoCalls(c, p, s, calls) == DoCalls(c, p, s, calls')
  {
    SinglesSuffice(c, p, s, calls);
    SinglesSuffice(c, p, s, calls');
  }

  /** Any run of calls on the object is the run on values. */
  method RunCalls<D>(processor: Processor<D>, calls: seq<Call>)
    requires processor.Valid()
    modifies processor, processor.pfMicInput, processor.pfEchoInput, processor.resync
    ensures processor.Valid()
    ensures processor.State() == DoCalls(processor.cancel, processor.preprocess, old(processor.State()), calls)
  {
    ghost var c, p, s := processor.cancel, processor.preprocess, processor.State();
    for i := 0 to |calls|
      invariant processor.Valid()
      invariant DoCalls(c, p, processor.State(), calls[i..]) == DoCalls(c, p, s, calls)
    {
      assert calls[i..][0] == calls[i] && calls[i..][1..] == calls[i + 1..];
      match calls[i] {
        case MicCall(data) => processor.AddMic(data);
        case EchoCall(data) => processor.AddEcho(data);
      }
    }
  }
}

/** The microphone/speaker resynchronizer (testecho_mono/MumbleEchoResynchronizer.cpp).

    An eight-state machine decides when to drop a frame so that the queue of microphone frames lags
    the speaker by about two frames.  `Machine` is that state machine on values; `Resynchronizer` is the
    object that updates its queue and state in place.  `Hysteresis` is an independent description by the
    fill level and two flags, shown to make the same decisions. */
module Resync {
  import opened Wrappers

  datatype State = S0 | S1a | S1b | S2 | S3 | S4a | S4b | S5

  datatype AudioChunk<+F> = Empty | Chunk(mic: F, speaker: F)

  function Level(s: State): nat {
    match s
    case S0 => 0
    case S1a => 1
    case S1b => 1
    case S2 => 2
    case S3 => 3
    case S4a => 4
    case S4b => 4
    case S5 => 5
  }

  datatype Machine<F> = Machine(state: State, queue: seq<F>) {
    /** The queue holds exactly as many frames as the state stands for. */
    ghost predicate Valid() {
      |queue| == Level(state)
    }
  }

  // ----- Events and runs

  datatype Event<F> = Mic(frame: F) | Speaker(frame: F) | Reset

  /** What one event does: the next machine, the microphone frames that leave the queue in order,
      the chunk handed out, and whether a frame was thrown away. */
  datatype Outcome<F> = Outcome(next: Machine<F>, removed: seq<F>, chunk: AudioChunk<F>, dropped: bool)

  function AfterMic(s: State): State {
    match s
    case S0 => S1a
    case S1a => S2
    case S1b => S2
    case S2 => S3
    case S3 => S4a
    case S4a => S5
    case S4b => S4b
    case S5 => S5
  }

  predicate DropsMic(s: State) { s == S4b || s == S5 }

  function AfterSpeaker(s: State): State {
    match s
    case S0 => S0
    case S1a => S1a
    case S1b => S0
    case S2 => S1b
    case S3 => S2
    case S4a => S3
    case S4b => S3
    case S5 => S4b
  }

  predicate DropsSpeaker(s: State) { s == S0 || s == S1a }

  function Step<F>(m: Machine<F>, e: Event<F>): (o: Outcome<F>)
    requires m.Valid()
    ensures o.next.Valid()
  {
    match e
    case Mic(f) =>
      var q := m.queue + [f];
      if DropsMic(m.state)
      then Outcome(Machine(AfterMic(m.state), q[1..]), [q[0]], Empty, true)
      else Outcome(Machine(AfterMic(m.state), q), [], Empty, false)
    case Speaker(f) =>
      if DropsSpeaker(m.state)
      then Outcome(Machine(AfterSpeaker(m.state), m.queue), [], Empty, true)
      else Outcome(Machine(AfterSpeaker(m.state), m.queue[1..]), [m.queue[0]], Chunk(m.queue[0], f), false)
    case Reset =>
      Outcome(Machine(S0, []), m.queue, Empty, false)
  }

  function Run<F>(m: Machine<F>, es: seq<Event<F>>): (m': Machine<F>)
    requires m.Valid()
    ensures m'.Valid()
    decreases |es|
  {
    if es == [] then m else Run(Step(m, es[0]).next, es[1..])
  }

  /** The microphone frames a run takes off the queue, emitted, dropped or cleared, in order. */
  function Removed<F>(m: Machine<F>, es: seq<Event<F>>): seq<F>
    requires m.Valid()
    decreases |es|
  {
    if es == [] then [] else Step(m, es[0]).removed + Removed(Step(m, es[0]).next, es[1..])
  }

  function Added<F>(es: seq<Event<F>>): seq<F> {
    if es == [] then [] else (if es[0].Mic? then [es[0].frame] else []) + Added(es[1..])
  }

  lemma StepConserves<F>(m: Machine<F>, e: Event<F>)
    requires m.Valid()
    ensures Step(m, e).removed + Step(m, e).next.queue == m.queue + Added([e])
  {
    assert Added([e]) == if e.Mic? then [e.frame] else [];
  }

  lemma Regroup<F>(a: seq<F>, b: seq<F>, c: seq<F>, q: seq<F>, d: seq<F>, m: seq<F>, e: seq<F>)
    requires b + c == q + d
    requires a + q == m + e
    ensures (a + b) + c == m + (e + d)
  {
    assert (a + b) + c == a + (b + c);
    assert a + (q + d) == (a + q) + d;
  }

  /** The queue is first-in first-out over every run: nothing is lost, duplicated or reordered. */
  lemma {:induction false} QueueConserved<F>(m: Machine<F>, es: seq<Event<F>>)
    requires m.Valid()
    ensures Removed(m, es) + Run(m, es).queue == m.queue + Added(es)
    decreases |es|
  {
    if es == [] {
    } else {
      var o := Step(m, es[0]);
      QueueConserved(o.next, es[1..]);
      StepConserves(m, es[0]);
      assert Added(es) == Added([es[0]]) + Added(es[1..]);
      Regroup(o.removed, Removed(o.next, es[1..]), Run(o.next, es[1..]).queue,
              o.next.queue, Added(es[1..]), m.queue, Added([es[0]]));
    }
  }

  // ----- Hysteresis

  /** The intent of the eight states: a fill level, `priming` from the time the queue ran empty until
      it holds two frames, and `draining` from the time it held five until it is down to three. */
  datatype Hysteresis = Hysteresis(level: nat, priming: bool, draining: bool)

  function SetLevel(h: Hysteresis, level: nat): Hysteresis {
    Hysteresis(level,
               level == 0 || (h.priming && level < 2),
               level == 5 || (h.draining && level > 3))
  }

  predicate Rejects<F>(h: Hysteresis, e: Event<F>) {
    match e
    case Mic(_) => h.level == 5 || h.draining
    case Speaker(_) => h.level == 0 || h.priming
    case Reset => false
  }

  function Follow<F>(h: Hysteresis, e: Event<F>): Hysteresis {
    match e
    case Mic(_) => if Rejects(h, e) then h else SetLevel(h, h.level + 1)
    case Speaker(_) => if Rejects(h, e) then h else SetLevel(h, (if h.level == 0 then 0 else h.level - 1))
    case Reset => Hysteresis(0, true, false)
  }

  function FollowAll<F>(h: Hysteresis, es: seq<Event<F>>): Hysteresis
    decreases |es|
  {
    if es == [] then h else FollowAll(Follow(h, es[0]), es[1..])
  }

  function Abstract(s: State): Hysteresis {
    Hysteresis(Level(s), s == S0 || s == S1a, s == S4b || s == S5)
  }

  /** Over every run from the initial state the machine's level is the hysteresis level, and the next
      event is dropped exactly when the hysteresis rejects it. */
  lemma {:induction false} MachineIsHysteresis<F>(m: Machine<F>, es: seq<Event<F>>, e: Event<F>)
    requires m.Valid()
    ensures Abstract(Run(m, es).state) == FollowAll(Abstract(m.state), es)
    ensures |Run(m, es).queue| == FollowAll(Abstract(m.state), es).level
    ensures Step(Run(m, es), e).dropped <==> Rejects(FollowAll(Abstract(m.state), es), e)
    decreases |es|
  {
    if es == [] {
    } else {
      assert Abstract(Step(m, es[0]).next.state) == Follow(Abstract(m.state), es[0]);
      MachineIsHysteresis(Step(m, es[0]).next, es[1..], e);
    }
  }

  // ----- No drops in the nominal band

  /** The level the events alone would give, with no frame ever dropped. */
  function Balance<F>(start: int, es: seq<Event<F>>): int
    decreases |es|
  {
    if es == [] then start
    else Balance(start + (if es[0].Mic? then 1 else if es[0].Speaker? then -1 else 0), es[1..])
  }

  /** Every prefix of the events keeps that level within 1..4, and there is no reset. */
  ghost predicate InBand<F>(start: int, es: seq<Event<F>>) {
    && (forall e :: e in es ==> !e.Reset?)
    && forall n :: 0 <= n <= |es| ==> 1 <= Balance(start, es[..n]) <= 4
  }

  ghost predicate NoneDropped<F>(m: Machine<F>, es: seq<Event<F>>)
    requires m.Valid()
  {
    forall n :: 0 <= n < |es| ==> !Step(Run(m, es[..n]), es[n]).dropped
  }

  lemma InBandTail<F>(start: int, es: seq<Event<F>>)
    requires es != [] && InBand(start, es)
    ensures InBand(Balance(start, es[..1]), es[1..])
  {
    var next := Balance(start, es[..1]);
    assert es[..1][1..] == [];
    assert next == Balance(start, es[..1]) == start + (if es[0].Mic? then 1 else if es[0].Speaker? then -1 else 0);
    forall n | 0 <= n <= |es[1..]|
      ensures 1 <= Balance(next, es[1..][..n]) <= 4
    {
      assert es[..n + 1][1..] == es[1..][..n];
      assert Balance(start, es[..n + 1]) == Balance(next, es[1..][..n]);
    }
  }

  /** From any of the states S1b, S2, S3 and S4a, hence from the nominal S2, events that keep the
      level within 1..4 lose no microphone and no speaker frame. */
  lemma {:induction false} NominalBandLosesNothing<F>(m: Machine<F>, es: seq<Event<F>>)
    requires m.Valid() && m.state in {S1b, S2, S3, S4a}
    requires InBand(Level(m.state), es)
    ensures NoneDropped(m, es)
    ensures Run(m, es).state in {S1b, S2, S3, S4a}
    decreases |es|
  {
    if es == [] {
    } else {
      var o := Step(m, es[0]);
      assert es[0] in es;
      assert es[..1][1..] == [];
      assert 1 <= Balance(Level(m.state), es[..1]) <= 4;
      InBandTail(Level(m.state), es);
      NominalBandLosesNothing(o.next, es[1..]);
      forall n | 0 <= n < |es|
        ensures !Step(Run(m, es[..n]), es[n]).dropped
      {
        if n > 0 {
          assert es[..n][1..] == es[1..][..n - 1];
          assert !Step(Run(o.next, es[1..][..n - 1]), es[1..][n - 1]).dropped;
        }
      }
    }
  }

  // ----- The object

  /** The resynchronizer object; each method is one locked section of the source. */
  class Resynchronizer<F> {
    var micQueue: seq<F>
    var state: State

    ghost function View(): Machine<F>
      reads this
    {
      Machine(state, micQueue)
    }

    ghost predicate Valid()
      reads this
    {
      View().Valid()
    }

    constructor ()
      ensures View() == Machine(S0, []) && Valid()
    {
      micQueue := [];
      state := S0;
    }

    /** Returns the frame the source deletes, if it deletes one. */
    method AddMic(mic: F) returns (deleted: Option<F>)
      requires Valid()
      modifies this
      ensures Valid()
      ensures View() == Step(old(View()), Mic(mic)).next
      ensures deleted.Some? <==> Step(old(View()), Mic(mic)).dropped
      ensures (if deleted.Some? then [deleted.value] else []) + micQueue == old(micQueue) + [mic]
    {
      var drop := false;
      micQueue := micQueue + [mic];
      match state {
        case S0 => state := S1a;
        case S1a => state := S2;
        case S1b => state := S2;
        case S2 => state := S3;
        case S3 => state := S4a;
        case S4a => state := S5;
        case S4b => drop := true;
        case S5 => drop := true;
      }
      deleted := None;
      if drop {
        deleted := Some(micQueue[0]);
        micQueue := micQueue[1..];
      }
    }

    method AddSpeaker(speaker: F) returns (result: AudioChunk<F>)
      requires Valid()
      modifies this
      ensures Valid()
      ensures View() == Step(old(View()), Speaker(speaker)).next
      ensures result == Step(old(View()), Speaker(speaker)).chunk
      ensures result.Empty? ==> micQueue == old(micQueue)
      ensures result.Chunk? ==> [result.mic] + micQueue == old(micQueue) && result.speaker == speaker
    {
      result := Empty;
      var drop := false;
      match state {
        case S0 => drop := true;
        case S1a => drop := true;
        case S1b => state := S0;
        case S2 => state := S1b;
        case S3 => state := S2;
        case S4a => state := S3;
        case S4b => state := S3;
        case S5 => state := S4b;
      }
      if !drop {
        result := Chunk(micQueue[0], speaker);
        micQueue := micQueue[1..];
      }
    }

    method Clear()
      requires Valid()
      modifies this
      ensures Valid()
      ensures View() == Step(old(View()), Reset).next
    {
      state := S0;
      while micQueue != []
        decreases |micQueue|
        invariant state == S0
      {
        micQueue := micQueue[1..];
      }
    }
  }
}

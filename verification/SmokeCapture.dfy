// `_smoke_output` (scripts/build_hyperlight_aks_image.py): two readers share one byte budget. What
// happens between two awaits is one step, and the steps of the readers interleave in any order.
module SmokeCapture {
  import opened Common

  type Byte = i: int | 0 <= i < 256

  const LIMIT: nat := 1024 * 1024

  datatype Source = Out | Err

  /** A chunk read from one of the pipes, the end of one, or the exit of the process. */
  datatype Event = Chunk(source: Source, bytes: seq<Byte>) | Eof(source: Source) | Exit(code: int)

  datatype State = State(
    stdout: seq<Byte>, stderr: seq<Byte>, exceeded: bool, kills: nat,
    returncode: Option<int>, finished: set<Source>)

  const INITIAL := State([], [], false, 0, None, {})

  /** Python's `s[:n]`, where a negative `n` counts from the end. */
  function UpTo<T>(s: seq<T>, n: int): (r: seq<T>)
    ensures r <= s
    ensures n >= 0 ==> |r| == if n <= |s| then n else |s|
  {
    if n >= |s| then s else if n >= 0 then s[..n] else if |s| + n >= 0 then s[..|s| + n] else []
  }

  /** A reader stops at the end of its pipe, and a process exits once. */
  predicate Enabled(s: State, e: Event) {
    match e
    case Chunk(source, bytes) => source !in s.finished && bytes != []
    case Eof(source) => source !in s.finished
    case Exit(code) => s.returncode.None?
  }

  function Step(s: State, e: Event): State {
    match e
    case Chunk(source, bytes) =>
      var remaining := LIMIT - |s.stdout| - |s.stderr|;
      var kept := UpTo(bytes, remaining);
      var t := if source == Out then s.(stdout := s.stdout + kept) else s.(stderr := s.stderr + kept);
      if |bytes| > remaining && !s.exceeded then
        t.(exceeded := true, kills := if s.returncode.None? then s.kills + 1 else s.kills)
      else t
    case Eof(source) => s.(finished := s.finished + {source})
    case Exit(code) => s.(returncode := Some(code))
  }

  /** The buffers and the flag the two reader tasks share. */
  class Capture {
    var stdout: seq<Byte>
    var stderr: seq<Byte>
    var exceeded: bool
    var kills: nat
    var returncode: Option<int>
    var finished: set<Source>

    constructor ()
      ensures Now() == INITIAL
    {
      stdout, stderr, exceeded, kills, returncode, finished := [], [], false, 0, None, {};
    }

    function Now(): State
      reads this
    {
      State(stdout, stderr, exceeded, kills, returncode, finished)
    }

    /** The body of `read`'s loop, for a chunk of either pipe. */
    method Read(source: Source, chunk: seq<Byte>)
      modifies this
      ensures Now() == Step(old(Now()), Chunk(source, chunk))
    {
      var remaining := LIMIT - |stdout| - |stderr|;
      if source == Out {
        stdout := stdout + UpTo(chunk, remaining);
      } else {
        stderr := stderr + UpTo(chunk, remaining);
      }
      if |chunk| > remaining && !exceeded {
        exceeded := true;
        if returncode.None? {
          kills := kills + 1;
        }
      }
    }

    method Handle(e: Event)
      modifies this
      ensures Now() == Step(old(Now()), e)
    {
      match e
      case Chunk(source, bytes) => Read(source, bytes);
      case Eof(source) => finished := finished + {source};
      case Exit(code) => returncode := Some(code);
    }
  }

  method Play(events: seq<Event>) returns (last: State)
    ensures last == Run(events)
  {
    var capture := new Capture();
    for i := 0 to |events|
      invariant capture.Now() == Run(events[..i])
    {
      assert events[..i + 1][..i] == events[..i];
      capture.Handle(events[i]);
    }
    assert events[..|events|] == events;
    last := capture.Now();
  }

  // ----- every interleaving -----

  function Run(events: seq<Event>): State {
    if events == [] then INITIAL else Step(Run(events[..|events| - 1]), events[|events| - 1])
  }

  ghost predicate Possible(events: seq<Event>) {
    forall i :: 0 <= i < |events| ==> Enabled(Run(events[..i]), events[i])
  }

  /** All that one pipe delivered. */
  function Delivered(events: seq<Event>, source: Source): seq<Byte> {
    if events == [] then []
    else
      var before, e := Delivered(events[..|events| - 1], source), events[|events| - 1];
      if e.Chunk? && e.source == source then before + e.bytes else before
  }

  function Total(events: seq<Event>): nat {
    |Delivered(events, Out)| + |Delivered(events, Err)|
  }

  /** The state agrees with what the pipes delivered: the budget is never overdrawn and never left unspent
      while something is dropped, each buffer holds the beginning of its own pipe, the flag says exactly
      whether more than the limit was delivered, and the readers kill the process at most once. */
  ghost predicate Agrees(s: State, out: seq<Byte>, err: seq<Byte>) {
    && |s.stdout| + |s.stderr| == (if |out| + |err| <= LIMIT then |out| + |err| else LIMIT)
    && s.stdout <= out && s.stderr <= err
    && (s.exceeded <==> |out| + |err| > LIMIT)
    && s.kills <= (if s.exceeded then 1 else 0)
  }

  lemma ChunkKeepsAgreement(s: State, out: seq<Byte>, err: seq<Byte>, source: Source, bytes: seq<Byte>)
    requires Agrees(s, out, err)
    ensures Agrees(Step(s, Chunk(source, bytes)),
                   if source == Out then out + bytes else out, if source == Err then err + bytes else err)
  {
    if |s.stdout| + |s.stderr| < LIMIT {
      assert s.stdout == out && s.stderr == err;
    }
  }

  /** Every interleaving of the two readers keeps the agreement. */
  lemma {:induction false} Invariant(events: seq<Event>)
    ensures Agrees(Run(events), Delivered(events, Out), Delivered(events, Err))
  {
    hide Agrees;
    if events == [] {
      StartAgrees();
    } else {
      var before, e := events[..|events| - 1], events[|events| - 1];
      Invariant(before);
      match e {
        case Chunk(source, bytes) =>
          ChunkKeepsAgreement(Run(before), Delivered(before, Out), Delivered(before, Err), source, bytes);
        case _ =>
          OthersKeepAgreement(Run(before), Delivered(before, Out), Delivered(before, Err), e);
      }
    }
  }

  lemma StartAgrees()
    ensures Agrees(INITIAL, [], [])
  {
  }

  lemma OthersKeepAgreement(s: State, out: seq<Byte>, err: seq<Byte>, e: Event)
    requires Agrees(s, out, err) && !e.Chunk?
    ensures Agrees(Step(s, e), out, err)
  {
  }

  predicate Exited(events: seq<Event>) {
    exists i :: 0 <= i < |events| && events[i].Exit?
  }

  lemma {:induction false} ExitedExactly(events: seq<Event>)
    ensures Run(events).returncode.Some? <==> Exited(events)
  {
    if events != [] {
      var before := events[..|events| - 1];
      ExitedExactly(before);
      assert forall i :: 0 <= i < |before| ==> before[i] == events[i];
    }
  }

  /** With event `n` more than the limit has been delivered, and the process has not exited. */
  ghost predicate Overruns(events: seq<Event>, n: nat) {
    n < |events| && Total(events[..n]) <= LIMIT < Total(events[..n + 1]) && !Exited(events[..n])
  }

  /** The readers kill the process exactly when the limit is passed while it runs, and then once. */
  lemma {:induction false} KilledExactly(events: seq<Event>)
    ensures Run(events).kills == if exists n: nat :: Overruns(events, n) then 1 else 0
  {
    if events != [] {
      var last := |events| - 1;
      var before := events[..last];
      hide Run, Agrees, Delivered, Exited;
      KilledExactly(before);
      Invariant(before);
      ExitedExactly(before);
      assert events[..last + 1] == events;
      forall n: nat | n < last
        ensures Overruns(events, n) <==> Overruns(before, n)
      {
        assert before[..n] == events[..n] && before[..n + 1] == events[..n + 1];
      }
      assert Overruns(events, last) <==> Total(before) <= LIMIT < Total(events) && Run(before).returncode.None?;
      if n: nat :| Overruns(before, n) {
        TotalKeeps(before, n + 1);
        assert Overruns(events, n);
      }
      KillsStep(Run(before), before, events);
    }
  }

  lemma KillsStep(s: State, before: seq<Event>, events: seq<Event>)
    requires events != [] && before == events[..|events| - 1] && s == Run(before)
    requires Agrees(s, Delivered(before, Out), Delivered(before, Err))
    ensures Run(events).kills == s.kills +
      if Total(before) <= LIMIT < Total(events) && s.returncode.None? then 1 else 0
  {
  }

  lemma TotalGrows(events: seq<Event>)
    requires events != []
    ensures Total(events[..|events| - 1]) <= Total(events)
  {
  }

  lemma {:induction false} TotalKeeps(events: seq<Event>, n: nat)
    requires n <= |events|
    ensures Total(events[..n]) <= Total(events)
    decreases |events| - n
  {
    if n < |events| {
      assert events[..n + 1][..n] == events[..n];
      TotalGrows(events[..n + 1]);
      TotalKeeps(events, n + 1);
    } else {
      assert events[..n] == events;
    }
  }

  /** So no slice ever counts from the end: the bytes left to take are never negative. */
  lemma RemainingIsNeverNegative(events: seq<Event>, source: Source, bytes: seq<Byte>)
    ensures var s := Run(events); var t := Run(events + [Chunk(source, bytes)]);
      && LIMIT - |s.stdout| - |s.stderr| >= 0
      && (if source == Out then s.stdout <= t.stdout && t.stderr == s.stderr
          else s.stderr <= t.stderr && t.stdout == s.stdout)
  {
    Invariant(events);
    assert (events + [Chunk(source, bytes)])[..|events|] == events;
  }

  // ----- how a run ends -----

  datatype Outcome =
    | Returned(bytes: seq<Byte>)
    | LimitExceeded
    | Failed(code: int, stdout: seq<Byte>, stderr: seq<Byte>)
    | TimedOut

  /** Both readers and the wait for the process are done. */
  predicate Complete(s: State) {
    s.finished == {Out, Err} && s.returncode.Some?
  }

  function Finish(s: State): Outcome {
    if !Complete(s) then TimedOut
    else if s.exceeded then LimitExceeded
    else if s.returncode.value != 0 then Failed(s.returncode.value, s.stdout, s.stderr)
    else Returned(s.stdout)
  }

  /** What a caller learns: a value is returned exactly when everything ended in time, the process
      succeeded and the output fitted, and it is then the whole of stdout. An output that did not fit is
      reported as that whatever the exit code, and a failure carries both pipes in full. */
  lemma OutcomeExactly(events: seq<Event>)
    ensures var s, outcome := Run(events), Finish(Run(events));
      && (outcome.Returned? <==> Complete(s) && Total(events) <= LIMIT && s.returncode == Some(0))
      && (outcome.Returned? ==> outcome.bytes == Delivered(events, Out))
      && (outcome.LimitExceeded? <==> Complete(s) && Total(events) > LIMIT)
      && (outcome.Failed? <==>
            Complete(s) && Total(events) <= LIMIT && s.returncode.Some? && s.returncode.value != 0)
      && (outcome.Failed? ==>
            && Some(outcome.code) == s.returncode
            && outcome.stdout == Delivered(events, Out) && outcome.stderr == Delivered(events, Err))
      && (outcome.TimedOut? <==> !Complete(s))
  {
    Invariant(events);
  }

  lemma LastEnabled(events: seq<Event>, n: nat)
    requires Possible(events) && n < |events|
    ensures Enabled(Run(events[..n]), events[n])
  {
  }

  lemma PossibleBefore(events: seq<Event>, n: nat)
    requires Possible(events) && n <= |events|
    ensures Possible(events[..n])
  {
    hide Enabled, Run;
    forall i | 0 <= i < n
      ensures Enabled(Run(events[..n][..i]), events[..n][i])
    {
      assert events[..n][..i] == events[..i];
    }
  }

  /** Once a pipe has ended nothing more is taken from it, so what was delivered then is all there is. */
  lemma {:induction false} NothingAfterEof(events: seq<Event>, more: seq<Event>, source: Source)
    requires Possible(events + more) && source in Run(events).finished
    ensures source in Run(events + more).finished
    ensures Delivered(events + more, source) == Delivered(events, source)
  {
    hide Possible;
    if more == [] {
      assert events + more == events;
    } else {
      var shorter, n := events + more[..|more| - 1], |events| + |more| - 1;
      assert (events + more)[..n] == shorter;
      LastEnabled(events + more, n);
      PossibleBefore(events + more, n);
      NothingAfterEof(events, more[..|more| - 1], source);
    }
  }
}

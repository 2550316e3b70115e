/** Output buffering under partial writes: node/conn_unix.go, and the parts of node/poll_unix.go and
    node/registry_unix.go it leans on. What the kernel does is an input of every step. */
module Conn {
  import opened Util

  datatype Interest = ReadEvents | WriteEvents

  /** How a direct write ends: without error, with one that IsTemporaryError accepts, or with another. */
  datatype Outcome = NoError | Temporary | Fatal

  datatype Status = Live | Failed | Panicked

  /** One connection. `sent` is what the kernel took, `written` all that was passed to Write, `entry` its
      entry in epollSet, `kernel` its interest in the kernel, `hasPoll` whether its poll field was set. */
  datatype State = State(sent: Bytes, buffer: Bytes, written: Bytes, entry: Option<Interest>, kernel: Option<Interest>,
                         hasPoll: bool, status: Status)

  datatype Event =
    | Write(data: Bytes, n: nat, outcome: Outcome, ctlOk: bool)
    | Writable(n: nat, failed: bool, ctlOk: bool)

  // ---------------------------------------------------------------- the registry

  /** epoll_ctl: ADD needs an absent and MOD a present descriptor, and the kernel may refuse for its own reasons. */
  predicate CtlSucceeds(entry: Option<Interest>, kernel: Option<Interest>, ctlOk: bool) {
    ctlOk && entry.Some? == kernel.Some?
  }

  /** registerRead and registerWrite: ADD or MOD by what epollSet knows, and epollSet follows on success. */
  function Register(s: State, want: Interest, ctlOk: bool): State {
    if CtlSucceeds(s.entry, s.kernel, ctlOk) then s.(entry := Some(want), kernel := Some(want))
    else s.(status := Failed)
  }

  // ---------------------------------------------------------------- the steps

  /** c.poll.registerWrite: a nil poll panics. */
  function RegisterWrite(s: State, ctlOk: bool): State {
    if s.hasPoll then Register(s, WriteEvents, ctlOk) else s.(status := Panicked)
  }

  function Step(s: State, ev: Event): State
    requires Possible(s, ev)
  {
    if s.status != Live then s
    else
      match ev
      case Write(data, n, outcome, ctlOk) =>
        var s1 := s.(written := s.written + data);
        if s.buffer != [] then RegisterWrite(s1.(buffer := s.buffer + data), ctlOk)
        else
          var s2 := s1.(sent := s.sent + data[..n]);
          if outcome == Fatal then s2.(status := Failed)
          else if outcome == Temporary || n < |data| then RegisterWrite(s2.(buffer := data[n..]), ctlOk)
          else s2
      case Writable(n, failed, ctlOk) =>
        if failed then s.(status := Failed)
        else
          var s1 := s.(sent := s.sent + s.buffer[..n], buffer := s.buffer[n..]);
          if s1.buffer == [] then Register(s1, ReadEvents, ctlOk) else s1
  }

  /** The kernel takes no more than it is offered, and a temporary error means that something was left. */
  predicate Possible(s: State, ev: Event) {
    match ev
    case Write(data, n, outcome, _) => n <= |data| && (outcome == Temporary ==> n < |data|)
    case Writable(n, _, _) => n <= |s.buffer|
  }

  /** Run until the events end or one of them is not possible. */
  function Run(s: State, evs: seq<Event>): State
    decreases |evs|
  {
    if evs == [] || !Possible(s, evs[0]) then s else Run(Step(s, evs[0]), evs[1..])
  }

  /** accept: registered for read events, nothing buffered, and no poll passed on. */
  function Accepted(hasPoll: bool): State {
    State([], [], [], Some(ReadEvents), Some(ReadEvents), hasPoll, Live)
  }

  /** Nothing lost, nothing reordered, and the fd waits for what it should. */
  predicate Sound(s: State) {
    && s.sent + s.buffer == s.written
    && s.entry == s.kernel == Some(if s.buffer == [] then ReadEvents else WriteEvents)
    && (!s.hasPoll ==> s.buffer == [])
  }

  // ---------------------------------------------------------------- safety over every run

  lemma StepKeepsSound(s: State, ev: Event)
    requires Possible(s, ev) && s.status == Live && Sound(s)
    ensures Step(s, ev).status == Live ==> Sound(Step(s, ev))
  {
    match ev
    case Write(data, n, outcome, ctlOk) =>
      assert data[..n] + data[n..] == data;
      assert s.sent + (s.buffer + data) == s.sent + s.buffer + data;
      assert s.sent + data[..n] + data[n..] == s.sent + data;
      if n == |data| {
        assert data[..n] == data;
      }
    case Writable(n, failed, ctlOk) =>
      assert s.sent + s.buffer[..n] + s.buffer[n..] == s.sent + s.buffer;
  }

  /** Over every run of Write and writable events with arbitrary partial writes, up to the first failure:
      the bytes sent followed by the bytes buffered are all the data written, in order; the fd is registered
      for write events exactly while something is buffered and for read events exactly while nothing is; and
      epollSet says what the kernel has. */
  lemma {:induction false} RunsAreSound(s: State, evs: seq<Event>)
    requires s.status == Live && Sound(s)
    ensures Run(s, evs).status == Live ==> Sound(Run(s, evs))
    decreases |evs|
  {
    if evs != [] && Possible(s, evs[0]) {
      StepKeepsSound(s, evs[0]);
      if Step(s, evs[0]).status == Live {
        RunsAreSound(Step(s, evs[0]), evs[1..]);
      } else {
        StaysDown(Step(s, evs[0]), evs[1..]);
      }
    }
  }

  lemma {:induction false} StaysDown(s: State, evs: seq<Event>)
    requires s.status != Live
    ensures Run(s, evs) == s
    decreases |evs|
  {
    if evs != [] && Possible(s, evs[0]) {
      StaysDown(s, evs[1..]);
    }
  }

  /** How a step ends on a sound connection: a fatal error or a refused registration fails it, a short write without
      a poll panics; and what the kernel takes is what it says it does, as far as it is asked. */
  lemma StepEnds(s: State, ev: Event)
    requires Possible(s, ev) && s.status == Live && Sound(s)
    ensures Step(s, ev).status ==
            match ev
            case Write(data, n, outcome, ctlOk) =>
              if s.buffer == [] && outcome == Fatal then Failed
              else if s.buffer == [] && n == |data| then Live
              else if !s.hasPoll then Panicked
              else if ctlOk then Live else Failed
            case Writable(n, failed, ctlOk) =>
              if failed || (n == |s.buffer| && !ctlOk) then Failed else Live
    ensures |Step(s, ev).sent| == |s.sent| +
            match ev
            case Write(_, n, _, _) => if s.buffer == [] then n else 0
            case Writable(n, failed, _) => if failed then 0 else n
  {
  }

  predicate AllPossible(s: State, evs: seq<Event>)
    decreases |evs|
  {
    evs == [] || (Possible(s, evs[0]) && AllPossible(Step(s, evs[0]), evs[1..]))
  }

  /** The data of the Write events, in order. */
  function Data(evs: seq<Event>): Bytes {
    if evs == [] then [] else (if evs[0].Write? then evs[0].data else []) + Data(evs[1..])
  }

  lemma StepWrites(s: State, ev: Event)
    requires Possible(s, ev) && s.status == Live && Sound(s)
    ensures Step(s, ev).written == s.written + if ev.Write? then ev.data else []
    ensures s.sent <= Step(s, ev).sent <= Step(s, ev).written
  {
    StepKeepsSound(s, ev);
    match ev
    case Write(data, n, _, _) =>
      assert s.sent + s.buffer == s.written;
      assert s.buffer == [] ==> s.sent == s.written;
      assert s.sent + data[..n] <= s.sent + data;
    case Writable(n, _, _) =>
      assert s.sent + s.buffer[..n] <= s.sent + s.buffer;
  }

  /** Whatever happens, the kernel gets the data of the Write events in order, from the first on; and while the
      connection lives all of them, but for what is still buffered. */
  lemma {:induction false} RunDelivers(s: State, evs: seq<Event>)
    requires s.status == Live && Sound(s) && AllPossible(s, evs)
    ensures s.sent <= Run(s, evs).sent <= s.written + Data(evs)
    ensures Run(s, evs).status == Live ==> Run(s, evs).sent + Run(s, evs).buffer == s.written + Data(evs)
    decreases |evs|
  {
    if evs == [] {
      assert s.written + [] == s.written;
      assert s.sent <= s.sent + s.buffer;
    } else {
      var s', first := Step(s, evs[0]), if evs[0].Write? then evs[0].data else [];
      StepWrites(s, evs[0]);
      StepKeepsSound(s, evs[0]);
      assert s.written + (first + Data(evs[1..])) == s'.written + Data(evs[1..]);
      if s'.status == Live {
        RunDelivers(s', evs[1..]);
      } else {
        StaysDown(s', evs[1..]);
        assert s'.written <= s'.written + Data(evs[1..]);
      }
    }
  }

  /** A Write panics exactly when its connection has no poll and the kernel takes less than everything. */
  lemma WritePanicsIff(s: State, data: Bytes, n: nat, outcome: Outcome, ctlOk: bool)
    requires s.status == Live && Sound(s) && Possible(s, Write(data, n, outcome, ctlOk))
    ensures Step(s, Write(data, n, outcome, ctlOk)).status == Panicked <==> !s.hasPoll && outcome != Fatal && n < |data|
  {
  }

  /** An event a kernel without errors can bring. */
  predicate Smooth(ev: Event) {
    match ev
    case Write(_, _, outcome, ctlOk) => outcome != Fatal && ctlOk
    case Writable(_, failed, ctlOk) => !failed && ctlOk
  }

  /** No Write of the run is cut short. */
  predicate AllWhole(evs: seq<Event>) {
    forall i :: 0 <= i < |evs| && evs[i].Write? ==> evs[i].n == |evs[i].data|
  }

  /** A connection with a poll survives every error-free run; one as accept leaves it survives exactly the
      runs in which no Write is cut short, so its buffer is never of use. */
  lemma {:induction false} SurvivesIff(s: State, evs: seq<Event>)
    requires s.status == Live && Sound(s) && AllPossible(s, evs)
    requires forall i :: 0 <= i < |evs| ==> Smooth(evs[i])
    ensures Run(s, evs).status == Live <==> s.hasPoll || AllWhole(evs)
    decreases |evs|
  {
    if evs != [] {
      var s' := Step(s, evs[0]);
      StepKeepsSound(s, evs[0]);
      assert Smooth(evs[0]);
      assert AllWhole(evs) <==> (evs[0].Write? ==> evs[0].n == |evs[0].data|) && AllWhole(evs[1..]) by {
        assert forall i :: 0 < i < |evs| ==> evs[i] == evs[1..][i - 1];
        assert forall i :: 0 <= i < |evs[1..]| ==> evs[1..][i] == evs[i + 1];
      }
      if s'.status == Live {
        assert s'.hasPoll == s.hasPoll;
        SurvivesIff(s', evs[1..]);
      } else {
        StaysDown(s', evs[1..]);
      }
    }
  }

  /** Writable events that each take something empty the buffer, and then the fd waits for reads again. */
  lemma {:induction false} BufferDrains(s: State, evs: seq<Event>)
    requires s.status == Live && Sound(s) && AllPossible(s, evs)
    requires forall i :: 0 <= i < |evs| ==> evs[i].Writable? && Smooth(evs[i]) && (evs[i].n == 0 ==> i >= |s.buffer|)
    ensures |evs| >= |s.buffer| > 0 ==>
      Run(s, evs).buffer == [] && Run(s, evs).sent == s.written && Run(s, evs).entry == Some(ReadEvents)
    ensures s.buffer == [] ==>
      Run(s, evs).buffer == [] && Run(s, evs).sent == s.sent && Run(s, evs).entry == Some(ReadEvents)
    decreases |evs|
  {
    if evs != [] {
      var s', n := Step(s, evs[0]), evs[0].n;
      assert evs[0].Writable? && Smooth(evs[0]);
      assert s'.status == Live && s'.written == s.written && s'.buffer == s.buffer[n..];
      StepKeepsSound(s, evs[0]);
      forall i | 0 <= i < |evs[1..]|
        ensures evs[1..][i].Writable? && Smooth(evs[1..][i]) && (evs[1..][i].n == 0 ==> i >= |s'.buffer|)
      {
        assert evs[1..][i] == evs[i + 1];
      }
      BufferDrains(s', evs[1..]);
      assert Run(s, evs) == Run(s', evs[1..]);
    }
    if s.buffer == [] {
      Settled(s);
    }
  }

  lemma Settled(s: State)
    requires Sound(s) && s.buffer == []
    ensures s.sent == s.written && s.entry == Some(ReadEvents)
  {
    assert s.sent + [] == s.sent;
  }

  /** What accept makes of a connection: from there on every run is sound while it lasts, and as accept sets
      no poll nothing is ever buffered; without kernel errors it lasts exactly as long as no Write is cut short. */
  lemma AcceptedRuns(evs: seq<Event>)
    ensures Run(Accepted(false), evs).status == Live ==>
      Sound(Run(Accepted(false), evs)) && Run(Accepted(false), evs).sent == Run(Accepted(false), evs).written
    ensures AllPossible(Accepted(false), evs) && (forall i :: 0 <= i < |evs| ==> Smooth(evs[i])) ==>
      (Run(Accepted(false), evs).status == Live <==> AllWhole(evs))
  {
    RunsAreSound(Accepted(false), evs);
    StillNoPoll(Accepted(false), evs);
    if AllPossible(Accepted(false), evs) && forall i :: 0 <= i < |evs| ==> Smooth(evs[i]) {
      SurvivesIff(Accepted(false), evs);
    }
    var s := Run(Accepted(false), evs);
    if s.status == Live {
      Settled(s);
    }
  }

  lemma {:induction false} StillNoPoll(s: State, evs: seq<Event>)
    ensures Run(s, evs).hasPoll == s.hasPoll
    decreases |evs|
  {
    if evs != [] && Possible(s, evs[0]) {
      StillNoPoll(Step(s, evs[0]), evs[1..]);
    }
  }
}

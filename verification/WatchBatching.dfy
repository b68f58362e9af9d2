/**
 The bridge from a watch to a stream: events are collected into batches, which are sent when
 they are full or when the timer that the first of them started has fired.
 */
module WatchBatching {
  import opened Wrappers

  const BatchSize := 500

  datatype EventType = Created | Updated | Deleted | Control | WatcherError | Unknown

  datatype Event = Event(kind: EventType, body: string)

  /** A timer that fired has left a value in its channel until someone takes it. */
  datatype Timer = Stopped | Armed | Fired

  /**
   What may happen next: an event, with what its transformation makes of it and whether the
   stream would take a batch; the watch closing; time passing; the select taking the timer's
   value; the context ending.
   */
  datatype Action =
    | Receive(event: Event, transformed: Option<Event>, sendOk: bool)
    | Close
    | Expire
    | Tick(sendOk: bool)
    | Cancel

  datatype State = State(pending: seq<Event>, running: bool, timer: Timer, sent: seq<seq<Event>>, over: bool)

  const Start := State([], false, Stopped, [], false)

  // ---- One step, as a function ----

  function Send(s: State, ok: bool): State {
    if ok then s.(sent := s.sent + [s.pending], pending := []) else s.(over := true)
  }

  /** The first event since the timer's last value starts the timer; a full batch starts it anew. */
  function Add(s: State, e: Event, ok: bool): State {
    var s1 := s.(pending := s.pending + [e]);
    var s2 := if s1.running then s1 else s1.(running := true, timer := Armed);
    if |s2.pending| < BatchSize then s2
    else
      var s3 := Send(s2, ok);
      if s3.over then s3 else s3.(timer := Armed)
  }

  /** The event a received one is passed on as; none when it is dropped or ends the watch. */
  function PassedOn(event: Event, transformed: Option<Event>): Option<Event> {
    match event.kind
    case Created | Updated | Deleted => transformed
    case Control => Some(event)
    case WatcherError => None
    case Unknown => None
  }

  predicate Ends(event: Event, transformed: Option<Event>) {
    event.kind == WatcherError ||
    (transformed.None? && (event.kind == Created || event.kind == Updated || event.kind == Deleted))
  }

  function Step(s: State, a: Action): State {
    if s.over then s
    else match a
      case Receive(event, transformed, ok) =>
        if Ends(event, transformed) then s.(over := true)
        else if PassedOn(event, transformed).Some? then Add(s, PassedOn(event, transformed).value, ok)
        else s
      case Close => s.(over := true)
      case Expire => if s.timer == Armed then s.(timer := Fired) else s
      case Tick(ok) => if s.timer == Fired then Send(s.(timer := Stopped, running := false), ok) else s
      case Cancel => s.(over := true)
  }

  function Run(s: State, actions: seq<Action>): State
    decreases |actions|
  {
    if actions == [] then s else Run(Step(s, actions[0]), actions[1..])
  }

  // ---- What was accepted ----

  /** The events the loop accepts while it runs, in the order they arrive. */
  function Accepted(s: State, actions: seq<Action>): seq<Event>
    decreases |actions|
  {
    if actions == [] then []
    else AcceptedNow(s, actions[0]) + Accepted(Step(s, actions[0]), actions[1..])
  }

  function AcceptedNow(s: State, a: Action): seq<Event> {
    if s.over then [] else Due(a)
  }

  /** What an action owes to the stream: a control event itself, a change in the form its transformation gives it. */
  function Due(a: Action): seq<Event> {
    if !a.Receive? then []
    else if a.event.kind == Control then [a.event]
    else if IsChange(a.event) && a.transformed.Some? then [a.transformed.value]
    else []
  }

  predicate IsChange(event: Event) {
    event.kind == Created || event.kind == Updated || event.kind == Deleted
  }

  function Concat(batches: seq<seq<Event>>): seq<Event> {
    if batches == [] then [] else Concat(batches[..|batches| - 1]) + batches[|batches| - 1]
  }

  // ---- In every run ----

  /** Batches keep to the size; while the loop runs the timer is on exactly if `running` says so. */
  ghost predicate Sound(s: State) {
    && (forall b <- s.sent :: |b| <= BatchSize)
    && |s.pending| <= BatchSize
    && (!s.over ==> |s.pending| < BatchSize && (s.running <==> s.timer != Stopped))
    && (!s.over && s.pending != [] ==> s.timer != Stopped)
  }

  /** All that has come: what was sent and then what is pending. */
  function Flow(s: State): seq<Event> {
    Concat(s.sent) + s.pending
  }

  lemma SendKeeps(s: State, ok: bool)
    ensures Flow(Send(s, ok)) == Flow(s)
  {
    if ok {
      var sent := s.sent + [s.pending];
      assert sent[..|s.sent|] == s.sent;
      assert Concat(sent) + [] == Concat(sent);
    }
  }

  lemma AddKeeps(s: State, e: Event, ok: bool)
    requires Sound(s) && !s.over
    ensures Sound(Add(s, e, ok)) && Flow(Add(s, e, ok)) == Flow(s) + [e] && s.sent <= Add(s, e, ok).sent
  {
    var s1 := s.(pending := s.pending + [e]);
    var s2 := if s1.running then s1 else s1.(running := true, timer := Armed);
    SendKeeps(s2, ok);
    assert Flow(s2) == Flow(s) + [e];
  }

  lemma TickKeeps(s: State, ok: bool)
    requires Sound(s) && !s.over && s.timer == Fired
    ensures var s' := Send(s.(timer := Stopped, running := false), ok);
            Sound(s') && Flow(s') == Flow(s) && s.sent <= s'.sent
  {
    SendKeeps(s.(timer := Stopped, running := false), ok);
  }

  lemma StepKeeps(s: State, a: Action)
    requires Sound(s)
    ensures var s' := Step(s, a); Sound(s') && Flow(s') == Flow(s) + AcceptedNow(s, a) && s.sent <= s'.sent
  {
    assert Flow(s) + [] == Flow(s);
    if !s.over && a.Tick? && s.timer == Fired {
      TickKeeps(s, a.sendOk);
    } else if AcceptedNow(s, a) != [] {
      AddKeeps(s, PassedOn(a.event, a.transformed).value, a.sendOk);
    }
  }

  /** What a received event adds, and whether it ends the watch, by its type. */
  lemma ReceiveAdds(s: State, event: Event, transformed: Option<Event>, ok: bool)
    requires Sound(s) && !s.over
    ensures var s' := Step(s, Receive(event, transformed, ok));
            && (event.kind == Control ==> Flow(s') == Flow(s) + [event])
            && (IsChange(event) && transformed.Some? ==> Flow(s') == Flow(s) + [transformed.value])
            && (IsChange(event) && transformed.None? ==> Flow(s') == Flow(s) && s'.over)
            && (event.kind == WatcherError ==> Flow(s') == Flow(s) && s'.over)
            && (event.kind == Unknown ==> s' == s)
  {
    StepKeeps(s, Receive(event, transformed, ok));
    assert Flow(s) + [] == Flow(s);
  }

  /** A batch is due when the timer's value is taken, or when the event that fills it comes. */
  predicate BatchDue(s: State, a: Action) {
    (a.Tick? && s.timer == Fired) || (Due(a) != [] && |s.pending| + 1 == BatchSize)
  }

  /** All that is pending goes out in one batch, when a batch is due and the stream takes it, and at no other time. */
  lemma SentExactlyWhenDue(s: State, a: Action)
    requires Sound(s) && !s.over
    ensures var s' := Step(s, a);
            if BatchDue(s, a) && a.sendOk then s'.sent == s.sent + [s.pending + Due(a)] && s'.pending == []
            else s'.sent == s.sent && s'.pending == s.pending + Due(a)
  {
    assert s.pending + [] == s.pending;
  }

  /** The loop ends with its watch or its context, with an event that cannot be passed on, or with a batch refused. */
  lemma EndsExactly(s: State, a: Action)
    requires Sound(s) && !s.over
    ensures Step(s, a).over <==>
            || a.Close? || a.Cancel?
            || (a.Receive? && (a.event.kind == WatcherError || (IsChange(a.event) && a.transformed.None?)))
            || (BatchDue(s, a) && !a.sendOk)
  {
  }

  /** An event starts a timer that is off, and a full batch starts it anew; only its value being taken stops it. */
  lemma TimerRuns(s: State, a: Action)
    requires Sound(s) && !s.over && !Step(s, a).over
    ensures Step(s, a).timer ==
            if a.Tick? && s.timer == Fired then Stopped
            else if a.Expire? && s.timer == Armed then Fired
            else if Due(a) != [] && (s.timer == Stopped || BatchDue(s, a)) then Armed
            else s.timer
  {
  }

  lemma AcceptedFirst(s: State, actions: seq<Action>, before: seq<Event>)
    requires actions != []
    ensures var now, later := AcceptedNow(s, actions[0]), Accepted(Step(s, actions[0]), actions[1..]);
            before + now + later == before + Accepted(s, actions)
  {
    Grouped(before, AcceptedNow(s, actions[0]), Accepted(Step(s, actions[0]), actions[1..]));
  }

  lemma Grouped(a: seq<Event>, b: seq<Event>, c: seq<Event>)
    ensures a + b + c == a + (b + c)
  {
  }

  /**
   Nothing is lost or reordered. After any actions the batches sent, one after the other, and
   then what is pending are the events accepted so far in their order; no batch is longer
   than the batch size; and while the loop runs the timer is on whenever an event is pending.
   */
  lemma {:induction false} NothingLost(s: State, actions: seq<Action>)
    requires Sound(s)
    ensures var s' := Run(s, actions);
            Sound(s') && Flow(s') == Flow(s) + Accepted(s, actions) && s.sent <= s'.sent
    decreases |actions|
  {
    if actions == [] {
      assert Flow(s) + [] == Flow(s);
    } else {
      StepKeeps(s, actions[0]);
      NothingLost(Step(s, actions[0]), actions[1..]);
      AcceptedFirst(s, actions, Flow(s));
    }
  }

  /** Once the timer has fired and its value is taken, and the stream takes the batch, nothing is pending. */
  lemma PendingIsFlushed(actions: seq<Action>)
    requires var s := Run(Start, actions); !s.over && s.pending != []
    ensures Concat(Run(Start, actions + [Expire, Tick(true)]).sent) == Accepted(Start, actions)
  {
    var s := Run(Start, actions);
    NothingLost(Start, actions);
    RunMore(Start, actions, [Expire, Tick(true)]);
    var fired := s.(timer := Fired);
    assert Step(s, Expire) == fired;
    TwoSteps(s, Expire, Tick(true));
    TickKeeps(fired, true);
    var end := Step(fired, Tick(true));
    assert Flow(end) == Concat(end.sent) && Flow(Start) == [];
  }

  lemma TwoSteps(s: State, a: Action, b: Action)
    ensures Run(s, [a, b]) == Step(Step(s, a), b)
  {
    assert [a, b][1..] == [b] && [b][1..] == [];
    assert Run(Step(s, a), [b]) == Run(Step(Step(s, a), b), []);
  }

  lemma {:induction false} RunMore(s: State, a: seq<Action>, b: seq<Action>)
    ensures Run(s, a + b) == Run(Run(s, a), b)
    decreases |a|
  {
    if a == [] {
      assert a + b == b;
    } else {
      assert (a + b)[0] == a[0] && (a + b)[1..] == a[1..] + b;
      RunMore(Step(s, a[0]), a[1..], b);
    }
  }

  // ---- The loop as it works ----

  class Watch {
    var events: seq<Event>
    var running: bool
    var timer: Timer
    var stream: seq<seq<Event>>
    var over: bool

    constructor ()
      ensures Value() == Start
    {
      events, running, timer, stream, over := [], false, Stopped, [], false;
    }

    ghost function Value(): State
      reads this
    {
      State(events, running, timer, stream, over)
    }

    /** Whether the timer was still running; a timer that has fired keeps its value in the channel. */
    method StopTimer() returns (active: bool)
      modifies `timer
      ensures active == (old(timer) == Armed) && timer == if active then Stopped else old(timer)
    {
      active := timer == Armed;
      if active { timer := Stopped; }
    }

    /** Taking the timer's value would wait for ever if there were none. */
    method Drain()
      requires timer == Fired
      modifies `timer
      ensures timer == Stopped
    {
      timer := Stopped;
    }

    /** A timer is started only when it is stopped and its channel is empty. */
    method Reset()
      requires timer == Stopped
      modifies `timer
      ensures timer == Armed
    {
      timer := Armed;
    }

    method SendToStream(sendOk: bool) returns (ok: bool)
      modifies `events, `stream, `over
      ensures Value() == Send(old(Value()), sendOk) && ok == sendOk
    {
      if sendOk {
        stream, events := stream + [events], [];
      } else {
        over := true;
      }
      ok := sendOk;
    }

    method AddEvent(e: Event, sendOk: bool)
      requires Sound(Value()) && !over
      modifies this
      ensures Value() == Add(old(Value()), e, sendOk)
    {
      events := events + [e];
      if !running {
        running := true;
        Reset();
      }
      if |events| >= BatchSize {
        var ok := SendToStream(sendOk);
        if !ok { return; }
        var active := StopTimer();
        if !active { Drain(); }
        Reset();
      }
    }

    /** One turn of the loop, or time passing between two turns. */
    method Turn(a: Action)
      requires Sound(Value()) && !over
      modifies this
      ensures Value() == Step(old(Value()), a)
    {
      match a {
        case Receive(event, transformed, sendOk) =>
          match event.kind {
            case Created | Updated | Deleted =>
              if transformed.None? {
                over := true;
              } else {
                AddEvent(transformed.value, sendOk);
              }
            case WatcherError => over := true;
            case Control => AddEvent(event, sendOk);
            case Unknown =>
          }
        case Close => over := true;
        case Expire =>
          if timer == Armed { timer := Fired; }
        case Tick(sendOk) =>
          if timer == Fired {
            timer := Stopped;
            running := false;
            var ok := SendToStream(sendOk);
          }
        case Cancel => over := true;
      }
    }

    /** The loop, for as long as it runs: it never waits on the timer's channel for nothing. */
    method Loop(actions: seq<Action>)
      requires Value() == Start
      modifies this
      ensures Value() == Run(Start, actions) && Sound(Value()) && Flow(Value()) == Accepted(Start, actions)
    {
      for i := 0 to |actions|
        invariant Value() == Run(Start, actions[..i]) && Sound(Value())
      {
        if over {
          OverStays(Value(), actions[i..]);
          RunMore(Start, actions[..i], actions[i..]);
          assert actions[..i] + actions[i..] == actions;
          break;
        }
        StepKeeps(Value(), actions[i]);
        RunNext(Start, actions, i);
        Turn(actions[i]);
      }
      assert actions[..|actions|] == actions;
      NothingLost(Start, actions);
      assert Flow(Start) + Accepted(Start, actions) == Accepted(Start, actions);
    }
  }

  lemma {:induction false} OverStays(s: State, actions: seq<Action>)
    requires s.over
    ensures Run(s, actions) == s
    decreases |actions|
  {
    if actions != [] { OverStays(s, actions[1..]); }
  }

  lemma RunNext(s: State, actions: seq<Action>, i: nat)
    requires i < |actions|
    ensures Run(s, actions[..i + 1]) == Step(Run(s, actions[..i]), actions[i])
  {
    assert actions[..i + 1] == actions[..i] + [actions[i]];
    RunMore(s, actions[..i], [actions[i]]);
    assert [actions[i]][1..] == [];
  }
}

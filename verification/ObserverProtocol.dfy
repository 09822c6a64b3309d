/**
 * The observer manager and the observer thread of one subject.  The manager sends attach,
 * detach and set-state messages under its lock; the thread handles them in order, and in
 * between observes the subject and notifies its observers.
 */
module ObserverProtocol {
  import opened Basics

  type Observer = nat

  datatype Mode = Stopped | Paused | Running

  datatype Message = Attach(o: Observer) | Detach(o: Observer) | SetState(mode: Mode, sync: bool)

  // ----- the message handlers -----

  /** The thread's own variables, and how often it has called notifyObservers. */
  datatype Local = Local(mode: Mode, observers: seq<Observer>, notices: nat)

  function Without(s: seq<Observer>, o: Observer): (r: seq<Observer>)
    ensures o !in s ==> r == s
    ensures o in s ==> |r| == |s| - 1
    ensures forall x :: x != o ==> (x in r <==> x in s)
  {
    if s == [] then [] else if s[0] == o then s[1..] else [s[0]] + Without(s[1..], o)
  }

  /**
   * One message: an attach that is repeated is an error, and an error stops the thread.  Observers are
   * notified of the error and of a change of mode that was asked for.
   */
  function Handled(l: Local, m: Message): Local {
    match m
    case Attach(o) =>
      if o in l.observers then l.(mode := Stopped, notices := l.notices + 1) else l.(observers := l.observers + [o])
    case Detach(o) =>
      var rest := Without(l.observers, o);
      l.(mode := if o in l.observers && rest == [] then Stopped else l.mode, observers := rest)
    case SetState(mode, _) => l.(mode := mode, notices := if mode != l.mode then l.notices + 1 else l.notices)
  }

  /** What the sender of a message is told: the new mode after a detach that took effect, otherwise a plain reply. */
  datatype Reply = NoReply | Answer(mode: Option<Mode>)

  function ReplyTo(l: Local, m: Message): Reply {
    match m
    case Attach(_) => NoReply
    case Detach(o) => Answer(if o in l.observers then Some(Handled(l, m).mode) else None)
    case SetState(_, sync) => if sync then Answer(None) else NoReply
  }

  class ObserverThread {
    var mState: Mode
    var mObservers: seq<Observer>
    var notices: nat

    function View(): Local
      reads this
    {
      Local(mState, mObservers, notices)
    }

    constructor ()
      ensures View() == Local(Paused, [], 0)
    {
      mState, mObservers, notices := Paused, [], 0;
    }

    method NotifyObservers()
      modifies this`notices
      ensures notices == old(notices) + 1
    {
      notices := notices + 1;
    }

    method HandleMessageAttach(o: Observer) returns (ok: bool)
      modifies this`mObservers
      ensures ok <==> o !in old(mObservers)
      ensures mObservers == if ok then old(mObservers) + [o] else old(mObservers)
    {
      var i := 0;
      while i < |mObservers|
        invariant 0 <= i <= |mObservers| && mObservers == old(mObservers)
        invariant forall j :: 0 <= j < i ==> mObservers[j] != o
      {
        if mObservers[i] == o {
          return false;
        }
        i := i + 1;
      }
      mObservers := mObservers + [o];
      return true;
    }

    method HandleMessageDetach(o: Observer) returns (reply: Reply)
      modifies this
      ensures View() == Handled(old(View()), Detach(o)) && reply == ReplyTo(old(View()), Detach(o))
    {
      var i := 0;
      while i < |mObservers|
        invariant 0 <= i <= |mObservers| && View() == old(View())
        invariant forall j :: 0 <= j < i ==> mObservers[j] != o
      {
        if mObservers[i] == o {
          WithoutAt(mObservers, o, i);
          mObservers := mObservers[..i] + mObservers[i + 1..];
          if mObservers == [] {
            mState := Stopped;
          }
          return Answer(Some(mState));
        }
        i := i + 1;
      }
      return Answer(None);
    }

    /** waitForAndExecuteMessage and the error check after it. */
    method ExecuteMessage(m: Message) returns (reply: Reply)
      modifies this
      ensures View() == Handled(old(View()), m) && reply == ReplyTo(old(View()), m)
    {
      reply := NoReply;
      match m
      case Attach(o) =>
        var ok := HandleMessageAttach(o);
        if !ok {
          mState := Stopped;
          NotifyObservers();
        }
      case Detach(o) =>
        reply := HandleMessageDetach(o);
      case SetState(mode, sync) =>
        var changed := mState != mode;
        mState := mode;
        if changed {
          NotifyObservers();
        }
        if sync {
          reply := Answer(None);
        }
    }
  }

  lemma {:induction false} WithoutAt(s: seq<Observer>, o: Observer, i: nat)
    requires i < |s| && s[i] == o && forall j :: 0 <= j < i ==> s[j] != o
    ensures Without(s, o) == s[..i] + s[i + 1..]
  {
    if i > 0 {
      WithoutAt(s[1..], o, i - 1);
      assert [s[0]] + s[1..][..i - 1] == s[..i] && s[1..][i..] == s[i + 1..];
    }
  }

  // ----- manager and thread together -----

  /** Where the thread is: at the message loop, about to observe, about to notify, or past its loop. */
  datatype Pc = AtMessages | Observing | Notifying | Done

  datatype Thread = Thread(local: Local, queue: seq<Message>, pc: Pc)

  /** What the holder of the manager's lock is waiting for. */
  datatype Manager = Free | AwaitDetach | AwaitState | AwaitExit

  /** The thread of the subject, if any, and the observers attached through the manager and not detached since. */
  datatype Sys = Sys(thread: Option<Thread>, manager: Manager, members: seq<Observer>)

  const IDLE: Sys := Sys(None, Free, [])

  datatype Event =
    | AttachObserver(o: Observer)
    | DetachObserver(o: Observer)
    | SetMode(mode: Mode, sync: bool)
    | HandleMessage
    | LeaveMessages
    | Observe
    | Notify(pause: bool, error: bool)
    | Join

  function Sent(t: Thread, m: Message): Option<Thread> { Some(t.(queue := t.queue + [m])) }

  /** Manager calls take the lock; thread steps follow threadLoop; nothing when the step is not enabled. */
  function Do(s: Sys, e: Event): Option<Sys> {
    match e
    case AttachObserver(o) =>
      if s.manager != Free then None
      else
        var t := if s.thread.None? then Thread(Local(Paused, [], 0), [], AtMessages) else s.thread.value;
        Some(s.(thread := Sent(t, Attach(o)), members := s.members + [o]))
    case DetachObserver(o) =>
      if s.manager != Free then None
      else if s.thread.None? then Some(s)
      else Some(Sys(Sent(s.thread.value, Detach(o)), AwaitDetach, Without(s.members, o)))
    case SetMode(mode, sync) =>
      if s.manager != Free then None
      else if s.thread.None? then Some(s)
      else Some(s.(thread := Sent(s.thread.value, SetState(mode, sync)), manager := if sync then AwaitState else Free))
    case HandleMessage =>
      if s.thread.None? || s.thread.value.pc != AtMessages || s.thread.value.queue == [] then None
      else
        var t := s.thread.value;
        var m := t.queue[0];
        var manager := match ReplyTo(t.local, m)
          case NoReply => s.manager
          case Answer(mode) => if mode == Some(Stopped) then AwaitExit else Free;
        Some(s.(thread := Some(t.(local := Handled(t.local, m), queue := t.queue[1..])), manager := manager))
    case LeaveMessages =>
      if s.thread.None? || s.thread.value.pc != AtMessages || s.thread.value.queue != [] then None
      else if s.thread.value.local.mode == Paused then None
      else
        var t := s.thread.value;
        Some(s.(thread := Some(t.(pc := if t.local.mode == Stopped then Done else Observing))))
    case Observe =>
      if s.thread.None? || s.thread.value.pc != Observing then None
      else Some(s.(thread := Some(s.thread.value.(pc := Notifying))))
    case Notify(pause, error) =>
      if s.thread.None? || s.thread.value.pc != Notifying then None
      else
        var t := s.thread.value;
        var more := (if pause then 1 else 0) + (if error then 1 else 0);
        var local := t.local.(mode := if more > 0 then Paused else t.local.mode, notices := t.local.notices + 1 + more);
        Some(s.(thread := Some(t.(pc := AtMessages, local := local))))
    case Join =>
      if s.thread.None? || s.manager != AwaitExit || s.thread.value.pc != Done then None
      else Some(s.(thread := None, manager := Free))
  }

  /** How clients use the manager: no observer is attached twice, and no thread is set to stopped. */
  predicate Allowed(s: Sys, e: Event) {
    && (e.AttachObserver? ==> e.o !in s.members)
    && (e.SetMode? && s.thread.Some? ==> e.mode != Stopped)
  }

  // ----- the invariant -----

  function Effect(obs: seq<Observer>, m: Message): seq<Observer> {
    match m
    case Attach(o) => obs + [o]
    case Detach(o) => Without(obs, o)
    case SetState(_, _) => obs
  }

  /** An attach that is not repeated, a mode other than stopped. */
  predicate Admits(obs: seq<Observer>, m: Message) {
    (m.Attach? ==> m.o !in obs) && (m.SetState? ==> m.mode != Stopped)
  }

  /** The observers once the queued messages have been handled. */
  function Applied(obs: seq<Observer>, q: seq<Message>): seq<Observer>
    decreases |q|
  {
    if q == [] then obs else Applied(Effect(obs, q[0]), q[1..])
  }

  /** No queued attach will be a repeated one, and no queued message asks to stop. */
  predicate Orderly(obs: seq<Observer>, q: seq<Message>)
    decreases |q|
  {
    q == [] || (Admits(obs, q[0]) && Orderly(Effect(obs, q[0]), q[1..]))
  }

  /** A message somebody waits for is the last in the queue, and it is there as long as somebody waits. */
  predicate Awaited(m: Message) { m.Detach? || (m.SetState? && m.sync) }

  predicate WaitsForLast(q: seq<Message>, manager: Manager) {
    && (forall i :: 0 <= i < |q| - 1 ==> !Awaited(q[i]))
    && match manager
       case Free => q == [] || !Awaited(q[|q| - 1])
       case AwaitExit => q == []
       case AwaitDetach => q != [] && q[|q| - 1].Detach?
       case AwaitState => q != [] && q[|q| - 1].SetState? && q[|q| - 1].sync
  }

  predicate Inv(s: Sys) {
    match s.thread
    case None => s.manager == Free && s.members == []
    case Some(t) =>
      && Applied(t.local.observers, t.queue) == s.members
      && Orderly(t.local.observers, t.queue)
      && WaitsForLast(t.queue, s.manager)
      && (t.local.mode == Stopped <==> s.manager == AwaitExit)
      && (t.local.mode == Stopped ==> t.local.observers == [])
      && (t.local.observers == [] && t.local.mode != Stopped ==>
            t.local.mode == Paused && t.queue != [] && t.queue[0].Attach?)
      && (t.pc == Done ==> t.local.mode == Stopped)
      && (t.pc == Observing || t.pc == Notifying ==> t.local.mode == Running)
      && (s.manager == Free || s.manager == AwaitState ==> s.members != [])
  }

  lemma {:induction false} AppliedPush(obs: seq<Observer>, q: seq<Message>, m: Message)
    ensures Applied(obs, q + [m]) == Effect(Applied(obs, q), m)
    ensures Orderly(obs, q + [m]) <==> Orderly(obs, q) && Admits(Applied(obs, q), m)
    decreases |q|
  {
    if q == [] {
      assert ([] + [m])[1..] == [];
    } else {
      assert (q + [m])[1..] == q[1..] + [m];
      AppliedPush(Effect(obs, q[0]), q[1..], m);
    }
  }

  function MessageOf(e: Event): Message
    requires e.AttachObserver? || e.DetachObserver? || e.SetMode?
  {
    if e.AttachObserver? then Attach(e.o) else if e.DetachObserver? then Detach(e.o) else SetState(e.mode, e.sync)
  }

  predicate Sends(e: Event) { e.AttachObserver? || e.DetachObserver? || e.SetMode? }

  lemma SendKeepsInv(s: Sys, e: Event)
    requires Inv(s) && Do(s, e).Some? && Sends(e)
    ensures Inv(Do(s, e).value) <==> Allowed(s, e)
  {
    var t := if s.thread.None? then Thread(Local(Paused, [], 0), [], AtMessages) else s.thread.value;
    AppliedPush(t.local.observers, t.queue, MessageOf(e));
    hide Applied, Orderly, Handled, ReplyTo;
  }

  lemma HandleKeepsInv(s: Sys)
    requires Inv(s) && Do(s, HandleMessage).Some?
    ensures Inv(Do(s, HandleMessage).value)
  {
    var t := s.thread.value;
    var m, rest := t.queue[0], t.queue[1..];
    assert rest != [] ==> rest[|rest| - 1] == t.queue[|t.queue| - 1];
    assert Awaited(m) ==> rest == [];
  }

  /** A step of the manager or the thread keeps the invariant exactly when it is allowed. */
  lemma StepKeepsInv(s: Sys, e: Event)
    requires Inv(s) && Do(s, e).Some?
    ensures Inv(Do(s, e).value) <==> Allowed(s, e)
  {
    if Sends(e) {
      SendKeepsInv(s, e);
    } else if e.HandleMessage? {
      HandleKeepsInv(s);
    }
  }

  // ----- whole runs -----

  /** The state after a run, if every step was enabled and allowed. */
  function Play(events: seq<Event>): Option<Sys> {
    if events == [] then Some(IDLE)
    else
      var e := events[|events| - 1];
      match Play(events[..|events| - 1])
      case None => None
      case Some(s) => if Allowed(s, e) then Do(s, e) else None
  }

  lemma {:induction false} Reachable(events: seq<Event>)
    requires Play(events).Some?
    ensures Inv(Play(events).value)
  {
    if events != [] {
      var front := events[..|events| - 1];
      Reachable(front);
      StepKeepsInv(Play(front).value, events[|events| - 1]);
    }
  }

  /**
   * In every reachable state the thread has stopped exactly when the detach of its last observer
   * has been answered; by then it has handled every message, and nobody else is attached.
   */
  lemma StopsWithLastDetach(events: seq<Event>)
    requires Play(events).Some? && Play(events).value.thread.Some?
    ensures var s := Play(events).value;
            var t := s.thread.value;
            && (t.local.mode == Stopped <==> s.manager == AwaitExit)
            && (t.local.mode == Stopped ==> t.queue == [] && t.local.observers == [] && s.members == [])
            && (s.manager == Free ==> s.members != [] && t.pc != Done)
  {
    Reachable(events);
  }

  /** A thread exists whenever somebody is attached, and the subject is never observed without an observer. */
  lemma ObservedOnlyWithObservers(events: seq<Event>)
    requires Play(events).Some?
    ensures var s := Play(events).value;
            && (s.members != [] ==> s.thread.Some?)
            && (s.thread.Some? && s.thread.value.pc in {Observing, Notifying} ==>
                  s.thread.value.local.observers != [] && s.thread.value.local.mode == Running)
  {
    Reachable(events);
  }

  /** Once that detach is answered no observe or notify call is made: the thread leaves its loop and is joined. */
  lemma SilentAfterLastDetach(events: seq<Event>, e: Event)
    requires Play(events).Some? && Play(events).value.manager == AwaitExit && Do(Play(events).value, e).Some?
    ensures var s' := Do(Play(events).value, e).value;
            || (e == LeaveMessages && s'.manager == AwaitExit && s'.thread.Some? && s'.thread.value.pc == Done &&
                s'.thread.value.local == Play(events).value.thread.value.local)
            || (e == Join && s' == IDLE)
  {
    Reachable(events);
  }

  /** Steps left until the lock is released. */
  function Left(s: Sys): nat {
    if s.thread.None? || s.manager == Free then 0
    else 1 + 3 * |s.thread.value.queue| +
         match s.thread.value.pc case Observing => 3 case Notifying => 2 case AtMessages => 1 case Done => 0
  }

  /** The step a waiting manager relies on. */
  function NextStep(s: Sys): Event
    requires s.thread.Some?
  {
    match s.thread.value.pc
    case Observing => Observe
    case Notifying => Notify(false, false)
    case Done => Join
    case AtMessages => if s.thread.value.queue != [] then HandleMessage else LeaveMessages
  }

  /** Whoever holds the lock gets it back: some step is enabled, and every step brings the release nearer. */
  lemma ManagerIsServed(events: seq<Event>, e: Event)
    requires Play(events).Some? && Play(events).value.manager != Free
    ensures var s := Play(events).value;
            && s.thread.Some? && Do(s, NextStep(s)).Some?
            && (Do(s, e).Some? ==> Left(Do(s, e).value) < Left(s))
  {
    hide Do, Inv, Left, NextStep;
    Reachable(events);
    var s := Play(events).value;
    ServedStep(s);
    if Do(s, e).Some? {
      NearerStep(s, e);
    }
  }

  lemma ServedStep(s: Sys)
    requires Inv(s) && s.manager != Free
    ensures s.thread.Some? && Do(s, NextStep(s)).Some?
  {
    hide Applied, Orderly, Handled;
  }

  lemma NearerStep(s: Sys, e: Event)
    requires Inv(s) && s.manager != Free && Do(s, e).Some?
    ensures Left(Do(s, e).value) < Left(s)
  {
    hide Applied, Orderly, Handled;
  }

  // ----- running and pausing, over whole runs -----

  /** The mode once a queue has been handled, if nothing else interferes. */
  function ModeAfter(mode: Mode, q: seq<Message>): Mode {
    if q == [] then mode
    else if q[|q| - 1].SetState? then q[|q| - 1].mode
    else ModeAfter(mode, q[..|q| - 1])
  }

  lemma {:induction false} ModeAfterHead(mode: Mode, q: seq<Message>)
    requires q != []
    ensures ModeAfter(mode, q) == ModeAfter(if q[0].SetState? then q[0].mode else mode, q[1..])
  {
    if |q| > 1 && !q[|q| - 1].SetState? {
      ModeAfterHead(mode, q[..|q| - 1]);
      assert q[..|q| - 1][1..] == q[1..][..|q| - 2];
    }
  }

  /** A pause on the way changes nothing for a thread that is to pause. */
  lemma {:induction false} ModeAfterPaused(mode: Mode, q: seq<Message>)
    requires ModeAfter(mode, q) == Paused
    ensures ModeAfter(Paused, q) == Paused
  {
    if q != [] && !q[|q| - 1].SetState? {
      ModeAfterPaused(mode, q[..|q| - 1]);
    }
  }

  /** The thread is on its way to a mode, or its last observer has left. */
  predicate Heading(s: Sys, m: Mode) {
    s.thread.Some? &&
    var t := s.thread.value;
    t.local.mode == Stopped || ModeAfter(t.local.mode, t.queue) == m
  }

  /** Events that do not change where the thread is heading: no other mode, no new thread, no pause while running. */
  predicate Keeps(e: Event, m: Mode) {
    !e.SetMode? && !e.Join? && (e.Notify? && m == Running ==> !e.pause && !e.error)
  }

  lemma HeadingStep(s: Sys, e: Event, m: Mode)
    requires Inv(s) && Allowed(s, e) && Do(s, e).Some? && Keeps(e, m) && Heading(s, m) && (m == Running || m == Paused)
    ensures Heading(Do(s, e).value, m)
  {
    hide Applied, Orderly;
    var t := s.thread.value;
    if e.AttachObserver? || e.DetachObserver? {
      assert (t.queue + [MessageOf(e)])[..|t.queue|] == t.queue;
    } else if e.HandleMessage? {
      HeadAdmitted(t.local.observers, t.queue);
      ModeAfterHead(t.local.mode, t.queue);
    } else if e.Notify? && m == Paused && t.local.mode != Stopped {
      ModeAfterPaused(t.local.mode, t.queue);
    }
  }

  lemma HeadAdmitted(obs: seq<Observer>, q: seq<Message>)
    requires Orderly(obs, q) && q != []
    ensures Admits(obs, q[0])
  {
  }

  lemma {:induction false} HeadingRun(before: seq<Event>, after: seq<Event>, m: Mode)
    requires Play(before + after).Some? && (m == Running || m == Paused)
    requires Play(before).Some? && Heading(Play(before).value, m) && forall e :: e in after ==> Keeps(e, m)
    ensures Heading(Play(before + after).value, m)
    decreases |after|
  {
    hide Inv, Heading, Keeps, Allowed, Do;
    var all := before + after;
    if after == [] {
      assert all == before;
    } else {
      var n := |after| - 1;
      assert all[..|all| - 1] == before + after[..n] && all[|all| - 1] == after[n];
      HeadingRun(before, after[..n], m);
      Reachable(before + after[..n]);
      HeadingStep(Play(before + after[..n]).value, after[n], m);
    }
  }

  /** A thread that is asked to run or to pause is on its way there. */
  lemma AskedHeading(before: seq<Event>, m: Mode, sync: bool)
    requires Play(before + [SetMode(m, sync)]).Some? && Play(before).Some? && Play(before).value.thread.Some?
    ensures Heading(Play(before + [SetMode(m, sync)]).value, m)
  {
    var all := before + [SetMode(m, sync)];
    assert all[..|before|] == before;
    var q := Play(before).value.thread.value.queue + [SetState(m, sync)];
    assert q[|q| - 1] == SetState(m, sync);
  }

  /**
   * In every run: if the last mode asked for is running and nothing has paused the thread since, then with
   * its messages handled and somebody attached it goes on to observe its subject.
   */
  lemma RunsWhenAsked(before: seq<Event>, sync: bool, after: seq<Event>)
    requires Play(before + [SetMode(Running, sync)] + after).Some?
    requires Play(before).Some? && Play(before).value.thread.Some?
    requires forall e :: e in after ==> !e.SetMode? && !e.Join? && (e.Notify? ==> !e.pause && !e.error)
    ensures var s := Play(before + [SetMode(Running, sync)] + after).value;
            s.thread.Some? && s.thread.value.queue == [] && s.members != [] && s.thread.value.pc == AtMessages ==>
              && Do(s, LeaveMessages).Some?
              && var s' := Do(s, LeaveMessages).value;
                 s'.thread.value.pc == Observing && Do(s', Observe).Some?
  {
    var all := before + [SetMode(Running, sync)] + after;
    PrefixPlays(before + [SetMode(Running, sync)], after);
    AskedHeading(before, Running, sync);
    HeadingRun(before + [SetMode(Running, sync)], after, Running);
    Reachable(all);
  }

  /** If it is paused, the thread stays at its messages, whatever else happens. */
  lemma PausesWhenAsked(before: seq<Event>, sync: bool, after: seq<Event>)
    requires Play(before + [SetMode(Paused, sync)] + after).Some?
    requires Play(before).Some? && Play(before).value.thread.Some?
    requires forall e :: e in after ==> !e.SetMode? && !e.Join?
    ensures var s := Play(before + [SetMode(Paused, sync)] + after).value;
            s.thread.Some? && s.thread.value.queue == [] && s.members != [] ==>
              s.thread.value.pc == AtMessages && Do(s, LeaveMessages).None?
  {
    var all := before + [SetMode(Paused, sync)] + after;
    PrefixPlays(before + [SetMode(Paused, sync)], after);
    AskedHeading(before, Paused, sync);
    HeadingRun(before + [SetMode(Paused, sync)], after, Paused);
    HeadingPaused(all);
  }

  /** A pause or an error that a notification brings back pauses the thread, unless a mode is already asked for. */
  lemma PausesOnNotice(before: seq<Event>, pause: bool, error: bool, after: seq<Event>)
    requires Play(before + [Notify(pause, error)] + after).Some? && (pause || error)
    requires Play(before).Some? && Play(before).value.thread.Some?
    requires forall m :: m in Play(before).value.thread.value.queue ==> !m.SetState?
    requires forall e :: e in after ==> !e.SetMode? && !e.Join?
    ensures var s := Play(before + [Notify(pause, error)] + after).value;
            s.thread.Some? && s.thread.value.queue == [] && s.members != [] ==>
              s.thread.value.pc == AtMessages && Do(s, LeaveMessages).None?
  {
    hide Play, Heading, Do;
    var e := Notify(pause, error);
    PrefixPlays(before + [e], after);
    PlaysOn(before, e);
    NoticeHeading(Play(before).value, pause, error);
    HeadingRun(before + [e], after, Paused);
    HeadingPaused(before + [e] + after);
  }

  lemma NoticeHeading(s: Sys, pause: bool, error: bool)
    requires s.thread.Some? && (forall m :: m in s.thread.value.queue ==> !m.SetState?) && (pause || error)
    requires Do(s, Notify(pause, error)).Some?
    ensures Heading(Do(s, Notify(pause, error)).value, Paused)
  {
    NoModeAsked(Paused, s.thread.value.queue);
  }

  lemma {:induction false} NoModeAsked(mode: Mode, q: seq<Message>)
    requires forall m :: m in q ==> !m.SetState?
    ensures ModeAfter(mode, q) == mode
  {
    if q != [] {
      assert q[|q| - 1] in q;
      NoModeAsked(mode, q[..|q| - 1]);
    }
  }

  /** A new thread is paused until it is asked to run. */
  lemma StartsPaused(before: seq<Event>, o: Observer, after: seq<Event>)
    requires Play(before + [AttachObserver(o)] + after).Some?
    requires Play(before).Some? && Play(before).value.thread.None?
    requires forall e :: e in after ==> !e.SetMode? && !e.Join?
    ensures var s := Play(before + [AttachObserver(o)] + after).value;
            s.thread.Some? && s.thread.value.queue == [] && s.members != [] ==>
              s.thread.value.pc == AtMessages && Do(s, LeaveMessages).None?
  {
    PrefixPlays(before + [AttachObserver(o)], after);
    NewHeading(before, o);
    HeadingRun(before + [AttachObserver(o)], after, Paused);
    HeadingPaused(before + [AttachObserver(o)] + after);
  }

  lemma NewHeading(before: seq<Event>, o: Observer)
    requires Play(before + [AttachObserver(o)]).Some? && Play(before).Some? && Play(before).value.thread.None?
    ensures Heading(Play(before + [AttachObserver(o)]).value, Paused)
  {
    hide Play, Heading, Do, Allowed;
    PlaysOn(before, AttachObserver(o));
    NewThread(Play(before).value, o);
  }

  lemma PlaysOn(before: seq<Event>, e: Event)
    requires Play(before + [e]).Some?
    ensures Play(before).Some? && Play(before + [e]) == Do(Play(before).value, e) && Allowed(Play(before).value, e)
  {
    hide Do, Allowed;
    assert (before + [e])[..|before|] == before;
  }

  lemma NewThread(s: Sys, o: Observer)
    requires s.thread.None? && Do(s, AttachObserver(o)).Some?
    ensures Heading(Do(s, AttachObserver(o)).value, Paused)
  {
    hide ModeAfter;
    ModeAfterPush(Paused, [], Attach(o));
    assert ModeAfter(Paused, []) == Paused by { NoMessages(Paused); }
  }

  lemma NoMessages(mode: Mode)
    ensures ModeAfter(mode, []) == mode
  {
  }

  lemma ModeAfterPush(mode: Mode, q: seq<Message>, m: Message)
    requires !m.SetState?
    ensures ModeAfter(mode, q + [m]) == ModeAfter(mode, q)
  {
    assert (q + [m])[..|q|] == q;
  }

  lemma HeadingPaused(events: seq<Event>)
    requires Play(events).Some? && Heading(Play(events).value, Paused)
    ensures var s := Play(events).value;
            s.thread.Some? && s.thread.value.queue == [] && s.members != [] ==>
              s.thread.value.pc == AtMessages && Do(s, LeaveMessages).None?
  {
    hide Play;
    Reachable(events);
  }

  lemma {:induction false} PrefixPlays(before: seq<Event>, after: seq<Event>)
    requires Play(before + after).Some?
    ensures Play(before).Some?
    decreases |after|
  {
    hide Do, Allowed;
    if after == [] {
      assert before + after == before;
    } else {
      var n := |after| - 1;
      assert (before + after)[..|before + after| - 1] == before + after[..n];
      PrefixPlays(before, after[..n]);
    }
  }

  // ----- who is attached -----

  /** Whether the last that was said about an observer is that it is attached. */
  predicate LastAttached(events: seq<Event>, o: Observer) {
    events != [] &&
    var e := events[|events| - 1];
    if e.AttachObserver? && e.o == o then true
    else if e.DetachObserver? && e.o == o then false
    else LastAttached(events[..|events| - 1], o)
  }

  predicate Once(s: seq<Observer>) { forall i, j :: 0 <= i < j < |s| ==> s[i] != s[j] }

  lemma {:induction false} WithoutOnce(s: seq<Observer>, o: Observer)
    requires Once(s)
    ensures Once(Without(s, o)) && o !in Without(s, o)
  {
    if s != [] {
      assert Once(s[1..]) && s[0] !in s[1..];
      WithoutOnce(s[1..], o);
      assert s[0] !in Without(s[1..], o);
    }
  }

  /** The observers attached are those whose last call was an attach, each once. */
  lemma {:induction false} MembersExact(events: seq<Event>, o: Observer)
    requires Play(events).Some?
    ensures Once(Play(events).value.members)
    ensures o in Play(events).value.members <==> LastAttached(events, o)
  {
    if events != [] {
      var front, e := events[..|events| - 1], events[|events| - 1];
      MembersExact(front, o);
      Reachable(front);
      var s := Play(front).value;
      if e.DetachObserver? {
        WithoutOnce(s.members, e.o);
      }
    }
  }

  // ----- notifications -----

  /** How many calls of notifyObservers a step makes. */
  lemma NoticesExact(s: Sys, e: Event)
    requires s.thread.Some? && Do(s, e).Some? && Do(s, e).value.thread.Some?
    ensures var l, l' := s.thread.value.local, Do(s, e).value.thread.value.local;
            l'.notices - l.notices ==
              if e.HandleMessage? then
                var m := s.thread.value.queue[0];
                if (m.Attach? && m.o in l.observers) || (m.SetState? && m.mode != l.mode) then 1 else 0
              else if e.Notify? then 1 + (if e.pause then 1 else 0) + (if e.error then 1 else 0)
              else 0
  {
  }

  // ----- what a step that is not allowed leads to -----

  /** The last message in the queue is one that will not be admitted when its turn comes. */
  predicate Condemned(s: Sys) {
    s.thread.Some? &&
    var t := s.thread.value;
    t.queue != [] &&
    var front, m := t.queue[..|t.queue| - 1], t.queue[|t.queue| - 1];
    && Orderly(t.local.observers, front) && !Admits(Applied(t.local.observers, front), m)
    && Applied(t.local.observers, front) != [] && (forall i :: 0 <= i < |front| ==> !Awaited(front[i]))
    && t.local.mode != Stopped && t.pc != Done && s.manager == if Awaited(m) then AwaitState else Free
  }

  /** The thread has stopped although somebody is attached, and nobody waits for it. */
  predicate Dead(s: Sys) {
    && s.thread.Some? && s.manager == Free && s.thread.value.pc in {AtMessages, Done}
    && s.thread.value.queue == [] && s.thread.value.local.mode == Stopped && s.thread.value.local.observers != []
  }

  /** In every state of the protocol a step that is not allowed condemns the thread. */
  lemma NotAllowedCondemns(s: Sys, e: Event)
    requires Inv(s) && Do(s, e).Some? && !Allowed(s, e)
    ensures Condemned(Do(s, e).value)
  {
    var t := s.thread.value;
    assert (t.queue + [MessageOf(e)])[..|t.queue|] == t.queue;
  }

  predicate ThreadStep(e: Event) { e.HandleMessage? || e.LeaveMessages? || e.Observe? || e.Notify? }

  /** Steps the thread takes at most until it has handled its queue. */
  function Pending(s: Sys): nat {
    if s.thread.None? then 0
    else 3 * |s.thread.value.queue| + match s.thread.value.pc case Observing => 2 case Notifying => 1 case _ => 0
  }

  /** A condemned thread always has a step to take, and whichever it takes, it is nearer to its death or dead. */
  lemma CondemnedDies(s: Sys, e: Event)
    requires Condemned(s)
    ensures ThreadStep(NextStep(s)) && Do(s, NextStep(s)).Some?
    ensures ThreadStep(e) && Do(s, e).Some? ==>
              var s' := Do(s, e).value;
              Dead(s') || (Condemned(s') && Pending(s') < Pending(s))
  {
    var t := s.thread.value;
    var front, m := t.queue[..|t.queue| - 1], t.queue[|t.queue| - 1];
    if e.HandleMessage? && Do(s, e).Some? {
      var q := t.queue[1..];
      if front == [] {
        assert q == [] && t.queue[0] == m;
      } else {
        assert q[..|q| - 1] == front[1..] && q[|q| - 1] == m && t.queue[0] == front[0];
        assert !Awaited(front[0]) && (forall i :: 0 <= i < |front[1..]| ==> front[1..][i] == front[i + 1]);
      }
    }
  }

  /** Once dead the thread only leaves its loop: no message, observe or notify step follows. */
  lemma DeadStaysDead(s: Sys, e: Event)
    requires Dead(s) && ThreadStep(e) && Do(s, e).Some?
    ensures e == LeaveMessages && Dead(Do(s, e).value) && Do(s, e).value.thread.value.pc == Done
  {
  }
}

/**
 * The pre-flash stage machine of the 3A thread: enter and exit messages and new preview
 * frames drive it, and a caller may block until a stage is reached.
 */
module FlashSequence {
  import opened Basics

  datatype Stage = NA | Exit | PreStart | PrePhase1 | PrePhase2 | PreWaiting | PreExposed | ShotWaiting | ShotExposed

  datatype Status = NoError | AlreadyExists | UnknownError

  datatype FrameStatus = FrameOk | FlashExposed | FlashPartial | FrameBad

  const FLASH_FRAME_TIMEOUT: nat := 5

  /** mFlashStage, mBlockForStage, mSkipForEv and mFramesTillExposed. */
  datatype State = State(stage: Stage, block: Stage, skip: nat, frames: nat)

  const INITIAL: State := State(NA, NA, 0, 0)

  /**
   * A new frame with the answers the 3A controls give while it is handled: the exposure delay,
   * whether the pre-flash or flash request succeeds, and whether another pre-flash is needed.
   */
  datatype Frame = Frame(status: FrameStatus, delay: nat, ok: bool, again: bool)

  datatype Event = EnterFlash(blockFor: Stage) | ExitFlash | NewFrame(frame: Frame)

  // ----- one step -----

  /** handleMessageFlashStage for an enter request: the new state and the reply sent, if any. */
  function Entered(s: State, blockFor: Stage): (State, Option<Status>) {
    if s.stage != NA then (s, if blockFor != NA then Some(AlreadyExists) else None)
    else (s.(block := blockFor, stage := if blockFor == ShotExposed then ShotWaiting else PreStart), None)
  }

  /** handleMessageFlashStage for an exit request. */
  function Exited(s: State): (State, Option<Status>) {
    (s.(stage := NA, block := NA), if s.block != NA then Some(NoError) else None)
  }

  /** The stage machine proper, on a new frame: the state and the status it comes to. */
  function Advanced(s: State, f: Frame): (State, Status) {
    var asked := if f.ok then NoError else UnknownError;
    match s.stage
    case PreStart =>
      if s.skip < f.delay then (s.(skip := s.skip + 1), NoError)
      else (s.(frames := 0, skip := f.delay, stage := PrePhase1), asked)
    case PrePhase1 =>
      if s.skip > 0 then (s.(skip := s.skip - 1), NoError)
      else (s.(skip := f.delay, stage := PrePhase2), asked)
    case PrePhase2 =>
      if s.skip > 0 then (s.(skip := s.skip - 1), NoError)
      else (s.(skip := 0, stage := PreWaiting), asked)
    case PreWaiting => Waited(s.(frames := s.frames + 1), f)
    case ShotWaiting => Waited(s.(frames := s.frames + 1), f)
    case PreExposed => (s, NoError)
    case ShotExposed => (s, NoError)
    case _ => (s, UnknownError)
  }

  function Waited(s: State, f: Frame): (State, Status) {
    if f.status == FlashExposed then
      if s.stage == ShotWaiting then (s.(stage := ShotExposed), NoError)
      else if f.again then (s.(frames := 0, skip := f.delay, stage := PrePhase2), NoError)
      else (s.(stage := PreExposed), NoError)
    else if s.frames > FLASH_FRAME_TIMEOUT || f.status == FrameBad then (s, UnknownError)
    else (s, NoError)
  }

  /** handleFlashSequence: the new state and the reply sent, if any. */
  function Framed(s: State, f: Frame): (State, Option<Status>) {
    if s.stage == NA then
      (s.(block := NA), if s.block != NA then Some(UnknownError) else None)
    else
      var (s', status) := Advanced(s, f);
      var reached := s'.block == s'.stage;
      var failed := status != NoError;
      var released := reached || (failed && s'.block != NA);
      (State(if failed then NA else s'.stage, if released then NA else s'.block,
             if failed then 0 else s'.skip, if failed then 0 else s'.frames),
       if released then Some(status) else None)
  }

  function Step(s: State, e: Event): (State, Option<Status>) {
    match e
    case EnterFlash(b) => Entered(s, b)
    case ExitFlash => Exited(s)
    case NewFrame(f) => Framed(s, f)
  }

  // ----- the handlers -----

  class FlashMachine {
    var mFlashStage: Stage
    var mBlockForStage: Stage
    var mSkipForEv: nat
    var mFramesTillExposed: nat

    function View(): State
      reads this
    {
      State(mFlashStage, mBlockForStage, mSkipForEv, mFramesTillExposed)
    }

    constructor ()
      ensures View() == INITIAL
    {
      mFlashStage, mBlockForStage, mSkipForEv, mFramesTillExposed := NA, NA, 0, 0;
    }

    method HandleMessageFlashStage(value: Stage) returns (reply: Option<Status>)
      modifies this
      ensures (View(), reply) == if value == Exit then Exited(old(View())) else Entered(old(View()), value)
    {
      reply := None;
      if value == Exit {
        if mBlockForStage != NA {
          reply := Some(NoError);
          mBlockForStage := NA;
        }
        mFlashStage := NA;
        return;
      }
      if mFlashStage != NA {
        if value != NA {
          reply := Some(AlreadyExists);
        }
        return;
      }
      mBlockForStage := value;
      mFlashStage := if mBlockForStage == ShotExposed then ShotWaiting else PreStart;
    }

    method HandleFlashSequence(f: Frame) returns (running: bool, reply: Option<Status>)
      modifies this
      ensures (View(), reply) == Framed(old(View()), f)
      ensures running <==> mFlashStage != NA
    {
      reply := None;
      if mFlashStage == NA {
        if mBlockForStage != NA {
          reply := Some(UnknownError);
          mBlockForStage := NA;
        }
        return false, reply;
      }
      var status := NoError;
      if mFlashStage == PreStart {
        var wait := mSkipForEv < f.delay;
        mSkipForEv := mSkipForEv + 1;
        if !wait {
          mFramesTillExposed := 0;
          mSkipForEv := f.delay;
          status := if f.ok then NoError else UnknownError;
          mFlashStage := PrePhase1;
        }
      } else if mFlashStage == PrePhase1 {
        if mSkipForEv > 0 {
          mSkipForEv := mSkipForEv - 1;
        } else {
          mSkipForEv := f.delay;
          status := if f.ok then NoError else UnknownError;
          mFlashStage := PrePhase2;
        }
      } else if mFlashStage == PrePhase2 {
        if mSkipForEv > 0 {
          mSkipForEv := mSkipForEv - 1;
        } else {
          mSkipForEv := 0;
          status := if f.ok then NoError else UnknownError;
          mFlashStage := PreWaiting;
        }
      } else if mFlashStage == ShotWaiting || mFlashStage == PreWaiting {
        mFramesTillExposed := mFramesTillExposed + 1;
        if f.status == FlashExposed {
          if mFlashStage == ShotWaiting {
            mFlashStage := ShotExposed;
          } else if f.again {
            mFramesTillExposed := 0;
            mSkipForEv := f.delay;
            mFlashStage := PrePhase2;
          } else {
            mFlashStage := PreExposed;
          }
        } else if mFramesTillExposed > FLASH_FRAME_TIMEOUT || f.status == FrameBad {
          status := UnknownError;
        }
      } else if mFlashStage != PreExposed && mFlashStage != ShotExposed {
        status := UnknownError;
      }
      if mBlockForStage == mFlashStage {
        reply := Some(status);
        mBlockForStage := NA;
      }
      if status != NoError {
        mFramesTillExposed := 0;
        mSkipForEv := 0;
        mFlashStage := NA;
        if mBlockForStage != NA {
          reply := Some(status);
          mBlockForStage := NA;
        }
        return false, reply;
      }
      return true, reply;
    }
  }

  // ----- the handshake over whole runs -----

  /** A request whose sender waits for a reply. */
  predicate Blocking(e: Event) { e.EnterFlash? && e.blockFor != NA }

  /** A reply: the request it answers, the event at which it is sent, and its status. */
  datatype Answer = Answer(owner: nat, at: nat, status: Status)

  /** A run: the state, the request that waits, and all replies so far. */
  datatype Run = Run(state: State, pending: Option<nat>, answers: seq<Answer>)

  /**
   * A reply to a request goes to its sender at once; any other reply goes to the one that waits.  A reply
   * nobody waits for would be logged under the event that caused it.
   */
  function After(r: Run, e: Event, at: nat): Run {
    var (s, reply) := Step(r.state, e);
    var owner := if e.EnterFlash? || r.pending.None? then at else r.pending.value;
    var pending :=
      if Blocking(e) && reply.None? then Some(at) else if reply.Some? && !e.EnterFlash? then None else r.pending;
    Run(s, pending, if reply.None? then r.answers else r.answers + [Answer(owner, at, reply.value)])
  }

  function RunOf(events: seq<Event>): Run {
    if events == [] then Run(INITIAL, None, [])
    else After(RunOf(events[..|events| - 1]), events[|events| - 1], |events| - 1)
  }

  /** The stage after the first n events. */
  function StageAfter(events: seq<Event>, n: nat): Stage
    requires n <= |events|
  {
    RunOf(events[..n]).state.stage
  }

  predicate ValidRequests(events: seq<Event>) {
    forall i :: 0 <= i < |events| && events[i].EnterFlash? ==> events[i].blockFor != Exit
  }

  /** What each status means: refused while a sequence runs; reached or exited; abandoned. */
  predicate Justified(events: seq<Event>, a: Answer) {
    && a.owner <= a.at < |events| && Blocking(events[a.owner])
    && match a.status
       case AlreadyExists => a.at == a.owner && StageAfter(events, a.owner) != NA
       case NoError =>
         && a.owner < a.at && StageAfter(events, a.owner) == NA
         && (events[a.at].ExitFlash? ||
             (events[a.at].NewFrame? && StageAfter(events, a.at + 1) == events[a.owner].blockFor))
       case UnknownError =>
         && a.owner < a.at && StageAfter(events, a.owner) == NA
         && events[a.at].NewFrame? && StageAfter(events, a.at + 1) == NA
  }

  ghost predicate Answered(r: Run, i: nat) {
    exists k :: 0 <= k < |r.answers| && r.answers[k].owner == i
  }

  /**
   * Every blocking request has one reply and no more, but for the one that waits.  That one has none, and no
   * frame has brought the stage it waits for.
   */
  ghost predicate Handshake(events: seq<Event>, r: Run) {
    && r.state.block != Exit && r.state.stage != Exit && (r.state.block != NA <==> r.pending.Some?)
    && (r.pending.Some? ==>
          var p := r.pending.value;
          && p < |events| && Blocking(events[p]) && r.state.block == events[p].blockFor && r.state.stage != NA
          && StageAfter(events, p) == NA && !Answered(r, p)
          && (events[|events| - 1].NewFrame? ==> r.state.stage != events[p].blockFor))
    && (forall k :: 0 <= k < |r.answers| ==> Justified(events, r.answers[k]))
    && (forall k, l :: 0 <= k < l < |r.answers| ==> r.answers[k].owner != r.answers[l].owner)
    && (forall i :: 0 <= i < |events| && Blocking(events[i]) ==> r.pending == Some(i) || Answered(r, i))
  }

  lemma JustifiedLater(events: seq<Event>, n: nat, a: Answer)
    requires n <= |events| && Justified(events[..n], a)
    ensures Justified(events, a)
  {
    assert events[..n][..a.owner] == events[..a.owner] && events[..n][..a.at + 1] == events[..a.at + 1];
  }

  /** The parts of the handshake that do not speak of replies. */
  ghost predicate Waiting(events: seq<Event>, r: Run) {
    && r.state.block != Exit && r.state.stage != Exit && (r.state.block != NA <==> r.pending.Some?)
    && (r.pending.Some? ==>
          var p := r.pending.value;
          && p < |events| && Blocking(events[p]) && r.state.block == events[p].blockFor && r.state.stage != NA
          && StageAfter(events, p) == NA && (events[|events| - 1].NewFrame? ==> r.state.stage != events[p].blockFor))
  }

  predicate Sane(s: State) { s.block != Exit && s.stage != Exit && (s.block != NA ==> s.stage != NA) }

  /** What a step does to the one that waits. */
  lemma StepReplies(s: State, e: Event)
    requires Sane(s) && (e.EnterFlash? ==> e.blockFor != Exit)
    ensures var (s', reply) := Step(s, e);
            && Sane(s')
            && (e.EnterFlash? ==>
                  if s.stage == NA then reply.None? && s'.block == e.blockFor && s'.stage != NA
                  else s' == s && reply == if e.blockFor != NA then Some(AlreadyExists) else None)
            && (e.ExitFlash? ==>
                  s'.stage == NA && s'.block == NA && reply == if s.block != NA then Some(NoError) else None)
            && (e.NewFrame? && reply.None? ==> s'.block == s.block && (s.block != NA ==> s'.stage != s.block))
            && (e.NewFrame? && reply.Some? ==>
                  && s.block != NA && s'.block == NA
                  && ((reply == Some(NoError) && s'.stage == s.block) ||
                      (reply == Some(UnknownError) && s'.stage == NA)))
  {
  }

  /** One event: a request starts to wait or is answered, or the one that waits is answered, or nothing happens. */
  lemma PendingStep(events: seq<Event>, n: nat)
    requires |events| == n + 1 && (events[n].EnterFlash? ==> events[n].blockFor != Exit)
    requires Waiting(events[..n], RunOf(events[..n]))
    ensures Waiting(events, RunOf(events))
    ensures var r, r', e := RunOf(events[..n]), RunOf(events), events[n];
            || (Blocking(e) && r.pending.None? && r'.pending == Some(n) && r'.answers == r.answers)
            || (Blocking(e) && r'.pending == r.pending && r'.answers == r.answers + [Answer(n, n, AlreadyExists)])
            || (!Blocking(e) && r'.pending == r.pending && r'.answers == r.answers)
            || (!Blocking(e) && r.pending.Some? && r'.pending.None? &&
                exists status :: r'.answers == r.answers + [Answer(r.pending.value, n, status)])
  {
    hide Step, RunOf, StageAfter;
    var r, e, r' := RunOf(events[..n]), events[n], RunOf(events);
    RunStep(events, n);
    StepReplies(r.state, e);
    SameStage(events, n, n);
    if r.pending.Some? {
      SameStage(events, n, r.pending.value);
      assert events[..n][r.pending.value] == events[r.pending.value];
    }
    var reply := Step(r.state, e).1;
    if reply.Some? {
      var owner := if e.EnterFlash? || r.pending.None? then n else r.pending.value;
      assert r'.answers == r.answers + [Answer(owner, n, reply.value)];
    }
  }

  lemma RunStep(events: seq<Event>, n: nat)
    requires |events| == n + 1
    ensures RunOf(events) == After(RunOf(events[..n]), events[n], n)
  {
  }

  lemma SameStage(events: seq<Event>, n: nat, p: nat)
    requires p <= n <= |events|
    ensures StageAfter(events[..n], p) == StageAfter(events, p)
    ensures p == n ==> StageAfter(events, p) == RunOf(events[..n]).state.stage
  {
    assert events[..n][..p] == events[..p];
  }

  lemma HandshakeStep(events: seq<Event>, n: nat)
    requires |events| == n + 1 && (events[n].EnterFlash? ==> events[n].blockFor != Exit)
    requires Handshake(events[..n], RunOf(events[..n]))
    ensures Handshake(events, RunOf(events))
  {
    hide Justified, RunOf, StageAfter;
    var front, e, r, r' := events[..n], events[n], RunOf(events[..n]), RunOf(events);
    forall k | 0 <= k < |r.answers| ensures Justified(events, r.answers[k]) && r.answers[k].owner < n {
      JustifiedLater(events, n, r.answers[k]);
      OwnerBefore(front, r.answers[k]);
    }
    PendingStep(events, n);
    if |r'.answers| > |r.answers| {
      NewAnswer(events, n);
    }
    forall i | 0 <= i < |events| && Blocking(events[i]) ensures r'.pending == Some(i) || Answered(r', i) {
      if i < n {
        assert front[i] == events[i];
        if Answered(r, i) {
          var k :| 0 <= k < |r.answers| && r.answers[k].owner == i;
          assert r'.answers[k].owner == i;
        } else if r'.pending != Some(i) {
          assert r'.answers[|r.answers|].owner == i;
        }
      } else if r'.pending != Some(i) {
        assert r'.answers[|r.answers|].owner == i;
      }
    }
  }

  lemma OwnerBefore(events: seq<Event>, a: Answer)
    requires Justified(events, a)
    ensures a.owner < |events|
  {
  }

  /** The reply that the last event causes is justified. */
  lemma NewAnswer(events: seq<Event>, n: nat)
    requires |events| == n + 1 && Handshake(events[..n], RunOf(events[..n]))
    requires events[n].EnterFlash? ==> events[n].blockFor != Exit
    requires |RunOf(events).answers| > |RunOf(events[..n]).answers|
    ensures var r, r' := RunOf(events[..n]), RunOf(events);
            && Justified(events, r'.answers[|r.answers|])
            && (!events[n].EnterFlash? ==> r.pending.Some?)
            && r'.answers[|r.answers|].owner == if events[n].EnterFlash? then n else r.pending.value
  {
    hide Step;
    var r := RunOf(events[..n]);
    var e, r' := events[n], RunOf(events);
    StepReplies(r.state, e);
    assert events[..n + 1] == events;
    assert r' == After(r, e, n);
    assert StageAfter(events, n + 1) == r'.state.stage && StageAfter(events, n) == r.state.stage;
    var reply := Step(r.state, e).1;
    assert reply.Some?;
    var a := r'.answers[|r.answers|];
    if !e.EnterFlash? {
      assert e.ExitFlash? || e.NewFrame?;
      assert r.state.block != NA;
      var p := r.pending.value;
      assert events[..n][..p] == events[..p];
      assert a == Answer(p, n, a.status) && StageAfter(events, p) == NA && events[p] == events[..n][p];
    }
  }

  /**
   * Over every run each blocking request gets exactly one reply by the time the sequence is over, rejected
   * ones at once; a running sequence may still owe one.  The status of every reply is justified.
   */
  lemma {:induction false} HandshakeHolds(events: seq<Event>)
    requires ValidRequests(events)
    ensures Handshake(events, RunOf(events))
    ensures RunOf(events).state.stage == NA ==>
              forall i :: 0 <= i < |events| && Blocking(events[i]) ==> Answered(RunOf(events), i)
  {
    hide Justified;
    if events != [] {
      var n := |events| - 1;
      assert ValidRequests(events[..n]) by {
        assert forall i :: 0 <= i < n ==> events[..n][i] == events[i];
      }
      HandshakeHolds(events[..n]);
      HandshakeStep(events, n);
    }
  }

  /** The release of a caller whose sequence was never started cannot occur. */
  lemma {:induction false} NoStrayRelease(events: seq<Event>)
    requires ValidRequests(events)
    ensures RunOf(events).state.stage == NA ==> RunOf(events).state.block == NA
  {
    HandshakeHolds(events);
  }

  /** In particular a second blocking request while a sequence runs is told so at once. */
  lemma SecondRequestRefused(events: seq<Event>, e: Event)
    requires ValidRequests(events) && Blocking(e) && e.blockFor != Exit && RunOf(events).state.stage != NA
    ensures var r := RunOf(events + [e]);
            && r.answers == RunOf(events).answers + [Answer(|events|, |events|, AlreadyExists)]
            && r.state == RunOf(events).state
  {
    var all := events + [e];
    assert all[..|events|] == events;
    assert all[..|all|] == all;
    HandshakeHolds(events);
    HandshakeStep(all, |events|);
    var r := RunOf(all);
    assert StageAfter(all, |events|) != NA;
    assert Answered(r, |events|) || r.pending == Some(|events|);
  }

  // ----- what happens when -----

  /** A frame that brings nothing new: everything asked for succeeds, and the flash is not seen yet. */
  predicate Quiet(f: Frame, d: nat) { f.delay == d && f.ok && (f.status == FrameOk || f.status == FlashPartial) }

  predicate AllQuiet(fs: seq<Frame>, d: nat) { forall i :: 0 <= i < |fs| ==> Quiet(fs[i], d) }

  /** The stage and counters after n quiet frames of a fresh pre-flash sequence with exposure delay d. */
  function Schedule(n: nat, d: nat): (Stage, nat, nat) {
    if n <= d then (PreStart, n, 0)
    else if n <= 2 * d + 1 then (PrePhase1, 2 * d + 1 - n, 0)
    else if n <= 3 * d + 2 then (PrePhase2, 3 * d + 2 - n, 0)
    else (PreWaiting, 0, n - (3 * d + 3))
  }

  /** Each of the three phases takes the exposure delay and one frame more; then five frames may pass. */
  lemma {:induction false} PreFlashSchedule(block: Stage, fs: seq<Frame>, d: nat, n: nat)
    requires block in {NA, PreExposed, ShotExposed} && AllQuiet(fs, d) && n <= |fs| && n <= 3 * d + 8
    ensures RunFrames(State(PreStart, block, 0, 0), fs[..n]) ==
            State(Schedule(n, d).0, block, Schedule(n, d).1, Schedule(n, d).2)
  {
    if n == 0 {
      assert fs[..0] == [];
    } else {
      hide Framed, Schedule;
      PreFlashSchedule(block, fs, d, n - 1);
      LastFrame(State(PreStart, block, 0, 0), fs[..n]);
      assert fs[..n][..n - 1] == fs[..n - 1] && fs[..n][n - 1] == fs[n - 1] && Quiet(fs[n - 1], d);
      ScheduleStep(block, fs[n - 1], d, n - 1);
    }
  }

  lemma ScheduleStep(block: Stage, f: Frame, d: nat, n: nat)
    requires block in {NA, PreExposed, ShotExposed} && Quiet(f, d) && n + 1 <= 3 * d + 8
    ensures Framed(State(Schedule(n, d).0, block, Schedule(n, d).1, Schedule(n, d).2), f).0 ==
            State(Schedule(n + 1, d).0, block, Schedule(n + 1, d).1, Schedule(n + 1, d).2)
  {
  }

  lemma {:induction false} LastFrame(s: State, fs: seq<Frame>)
    requires fs != []
    ensures RunFrames(s, fs) == Framed(RunFrames(s, fs[..|fs| - 1]), fs[|fs| - 1]).0
    decreases |fs|
  {
    hide Framed;
    if |fs| == 1 {
      assert fs[..0] == [] && fs[1..] == [];
      assert RunFrames(Framed(s, fs[0]).0, []) == Framed(s, fs[0]).0;
    } else {
      LastFrame(Framed(s, fs[0]).0, fs[1..]);
      assert fs[1..][..|fs| - 2] == fs[..|fs| - 1][1..];
    }
  }

  lemma {:induction false} CountsDown(s: State, fs: seq<Frame>)
    requires s.stage in {PrePhase1, PrePhase2} && |fs| <= s.skip
    ensures RunFrames(s, fs).stage == s.stage && RunFrames(s, fs).skip == s.skip - |fs|
    decreases |fs|
  {
    if fs != [] {
      CountsDown(Framed(s, fs[0]).0, fs[1..]);
    }
  }

  /**
   * Whatever delays are reported later, a phase lasts for the delay reported when it began and one frame more,
   * and that last frame asks for the next phase.
   */
  lemma PhaseLasts(s: State, f: Frame, fs: seq<Frame>, next: Frame)
    requires var p := Framed(s, f).0.stage; p in {PrePhase1, PrePhase2} && s.stage != p && |fs| <= f.delay
    ensures var s' := Framed(s, f).0;
            && RunFrames(s', fs).stage == s'.stage
            && (|fs| == f.delay ==>
                  Framed(RunFrames(s', fs), next).0.stage ==
                    if !next.ok then NA else if s'.stage == PrePhase1 then PrePhase2 else PreWaiting)
  {
    CountsDown(Framed(s, f).0, fs);
  }

  /** What the frame with the flash, the last quiet frame and a bad frame bring to a sequence that waits for it. */
  lemma WaitingEnds(s: State, f: Frame)
    requires s.stage in {PreWaiting, ShotWaiting} && s.block in {NA, PreExposed, ShotExposed}
    ensures var (s', reply) := Framed(s, f);
            if f.status == FlashExposed && s.stage == PreWaiting && f.again then
              s' == State(PrePhase2, s.block, f.delay, 0) && reply.None?
            else if f.status == FlashExposed then
              && s'.stage == (if s.stage == PreWaiting then PreExposed else ShotExposed)
              && reply == (if s.block == s'.stage then Some(NoError) else None)
            else if f.status == FrameBad || s.frames >= 5 then
              s' == INITIAL && reply == (if s.block != NA then Some(UnknownError) else None)
            else
              s' == s.(frames := s.frames + 1) && reply.None?
  {
  }

  /** A request that fails at once, at any of the three points where one is made, abandons the sequence. */
  lemma FailureAbandons(s: State, f: Frame)
    requires !f.ok && s.block in {NA, PreExposed, ShotExposed}
    requires s.stage == PreStart ==> s.skip >= f.delay
    requires s.stage in {PreStart, PrePhase1, PrePhase2} && (s.stage != PreStart ==> s.skip == 0)
    ensures Framed(s, f) == (INITIAL, if s.block != NA then Some(UnknownError) else None)
  {
  }

  /** A sequence that has been entered starts over: for a shot it waits for the flash, otherwise a pre-flash is due. */
  lemma EnteredWhere(s: State, b: Stage)
    requires s.stage == NA && b != Exit
    ensures Entered(s, b).0.stage == (if b == ShotExposed then ShotWaiting else PreStart)
    ensures Entered(s, b).0.block == b && Entered(s, b).1.None?
  {
  }

  // ----- the sequence is bounded -----

  predicate PreFlash(s: State) {
    s.stage in {PreStart, PrePhase1, PrePhase2, PreWaiting}
  }

  predicate Over(s: State) {
    s.stage == PreExposed || s.stage == NA
  }

  /** Counters stay within the exposure delay and the timeout. */
  predicate Within(s: State, d: nat) {
    && (s.stage in {PreStart, PrePhase1, PrePhase2} ==> s.skip <= d)
    && (s.stage == PreWaiting ==> s.frames <= FLASH_FRAME_TIMEOUT)
    && (s.stage in {PrePhase1, PrePhase2} ==> s.frames == 0)
  }

  /** The largest number of frames a pre-flash sequence can still take without being repeated. */
  function Straight(s: State, d: nat): nat
    requires Within(s, d)
  {
    match s.stage
    case PreStart => (d - s.skip + 1) + 2 * (d + 1) + 6
    case PrePhase1 => (s.skip + 1) + (d + 1) + 6
    case PrePhase2 => (s.skip + 1) + 6
    case PreWaiting => 6 - s.frames
    case _ => 0
  }

  /** The same with r repetitions to come. */
  function Remaining(s: State, d: nat, r: nat): nat
    requires Within(s, d)
  {
    Straight(s, d) + r * (d + 7)
  }

  predicate Repeats(s: State, f: Frame) {
    s.stage == PreWaiting && f.status == FlashExposed && f.again
  }

  /** Each frame ends the sequence or uses up one of the remaining frames. */
  lemma FrameProgress(s: State, f: Frame, d: nat, r: nat)
    requires PreFlash(s) && Within(s, d) && f.delay <= d && (Repeats(s, f) ==> r > 0)
    ensures var s' := Framed(s, f).0;
            Over(s') || (PreFlash(s') && Within(s', d) &&
                         Remaining(s', d, if Repeats(s, f) then r - 1 else r) < Remaining(s, d, r))
  {
    if Repeats(s, f) {
      Distribute(r, d + 7);
    }
  }

  lemma Distribute(r: nat, k: nat)
    requires r > 0
    ensures (r - 1) * k == r * k - k
  {
  }

  function RunFrames(s: State, fs: seq<Frame>): State
    decreases |fs|
  {
    if fs == [] then s else RunFrames(Framed(s, fs[0]).0, fs[1..])
  }

  function RepeatCount(s: State, fs: seq<Frame>): nat
    decreases |fs|
  {
    if fs == [] then 0 else (if Repeats(s, fs[0]) then 1 else 0) + RepeatCount(Framed(s, fs[0]).0, fs[1..])
  }

  /** The exposure delay may change from frame to frame, but is at most d. */
  predicate DelaysWithin(fs: seq<Frame>, d: nat) {
    forall i :: 0 <= i < |fs| ==> fs[i].delay <= d
  }

  lemma {:induction false} OverStaysOver(s: State, fs: seq<Frame>)
    requires Over(s)
    ensures Over(RunFrames(s, fs))
    decreases |fs|
  {
    if fs != [] {
      OverStaysOver(Framed(s, fs[0]).0, fs[1..]);
    }
  }

  lemma {:induction false} EndsWithin(s: State, fs: seq<Frame>, d: nat, r: nat)
    requires PreFlash(s) && Within(s, d) && DelaysWithin(fs, d) && RepeatCount(s, fs) <= r
    requires |fs| >= Remaining(s, d, r)
    ensures Over(RunFrames(s, fs))
    decreases |fs|
  {
    FrameProgress(s, fs[0], d, r);
    var s' := Framed(s, fs[0]).0;
    if Over(s') {
      OverStaysOver(s', fs[1..]);
    } else {
      EndsWithin(s', fs[1..], d, if Repeats(s, fs[0]) then r - 1 else r);
    }
  }

  /** The number of frames within which a fresh sequence is over. */
  function Bound(d: nat, r: nat): nat { 3 * (d + 1) + 6 + r * (d + 7) }

  /**
   * With exposure delays of at most d and at most r answers asking for another pre-flash, a sequence reaches
   * the exposed stage or is abandoned within Bound(d, r) frames of being entered.
   */
  lemma SequenceBounded(s: State, fs: seq<Frame>, d: nat, r: nat)
    requires s.stage == PreStart && s.skip <= d && DelaysWithin(fs, d) && RepeatCount(s, fs) <= r && |fs| >= Bound(d, r)
    ensures Over(RunFrames(s, fs))
  {
    EndsWithin(s, fs, d, r);
  }

  predicate RunWithin(events: seq<Event>, d: nat) {
    forall i :: 0 <= i < |events| && events[i].NewFrame? ==> events[i].frame.delay <= d
  }

  /** However earlier sequences ended, the frame counter never exceeds the exposure delay. */
  lemma {:induction false} SkipWithinDelay(events: seq<Event>, d: nat)
    requires RunWithin(events, d)
    ensures RunOf(events).state.skip <= d
  {
    hide Step;
    if events != [] {
      var n := |events| - 1;
      assert RunWithin(events[..n], d) by {
        assert forall i :: 0 <= i < n ==> events[..n][i] == events[i];
      }
      SkipWithinDelay(events[..n], d);
      SkipStep(RunOf(events[..n]).state, events[n], d);
    }
  }

  lemma SkipStep(s: State, e: Event, d: nat)
    requires s.skip <= d && (e.NewFrame? ==> e.frame.delay <= d)
    ensures Step(s, e).0.skip <= d
  {
  }

  /** In every run, a sequence just entered is over within Bound(d, r) further frames. */
  lemma {:induction false} EveryEntryBounded(events: seq<Event>, fs: seq<Frame>, d: nat, r: nat)
    requires RunWithin(events, d) && RunOf(events).state.stage == PreStart
    requires DelaysWithin(fs, d) && RepeatCount(RunOf(events).state, fs) <= r && |fs| >= Bound(d, r)
    ensures Over(RunFrames(RunOf(events).state, fs))
  {
    SkipWithinDelay(events, d);
    SequenceBounded(RunOf(events).state, fs, d, r);
  }

  /** A frame that uses up exactly one of the remaining frames. */
  function Slow(s: State, d: nat, r: nat): Frame {
    if s.stage == PreWaiting && s.frames == 5 && r > 0 then Frame(FlashExposed, d, true, true)
    else Frame(FrameOk, d, true, true)
  }

  lemma SlowStep(s: State, d: nat, r: nat)
    requires PreFlash(s) && Within(s, d)
    ensures Remaining(s, d, r) > 0
    ensures var f := Slow(s, d, r);
            var s', r' := Framed(s, f).0, if Repeats(s, f) then r - 1 else r;
            && f.delay == d && (Repeats(s, f) ==> r > 0)
            && (Remaining(s, d, r) > 1 ==>
                  PreFlash(s') && Within(s', d) && Remaining(s', d, r') == Remaining(s, d, r) - 1)
  {
    SlowFrame(s, d, r);
    hide Straight, Framed, Slow, Repeats, Within;
    if r > 0 {
      Distribute(r, d + 7);
    }
  }

  lemma SlowFrame(s: State, d: nat, r: nat)
    requires PreFlash(s) && Within(s, d)
    ensures Straight(s, d) > 0
    ensures var f := Slow(s, d, r);
            var s' := Framed(s, f).0;
            && f.delay == d && (Repeats(s, f) ==> r > 0)
            && (Straight(s, d) > 1 || r > 0 ==>
                  PreFlash(s') && Within(s', d) &&
                  Straight(s', d) == Straight(s, d) - 1 + if Repeats(s, f) then d + 7 else 0)
  {
  }

  /** The bound is the best possible: some run of one frame less is not over. */
  lemma {:induction false} BoundIsTight(s: State, d: nat, r: nat) returns (fs: seq<Frame>)
    requires PreFlash(s) && Within(s, d)
    ensures |fs| == Remaining(s, d, r) - 1 && DelaysWithin(fs, d) && RepeatCount(s, fs) <= r
    ensures PreFlash(RunFrames(s, fs))
    decreases Remaining(s, d, r)
  {
    hide Remaining, Framed, Repeats, Slow, Within;
    SlowStep(s, d, r);
    if Remaining(s, d, r) == 1 {
      return [];
    }
    var f := Slow(s, d, r);
    var rest := BoundIsTight(Framed(s, f).0, d, if Repeats(s, f) then r - 1 else r);
    fs := [f] + rest;
  }
}

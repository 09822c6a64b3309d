/**
 * The auto-exposure history: a delay line of AE results on a ring buffer.  The feedback
 * given to the statistics is the result that was stored some frames ago.
 */
module AeHistory {
  import opened Basics

  // ----- AtomFifo -----

  function Wrap(i: int, depth: nat): int {
    if i >= depth then i - depth else i
  }

  /** The n elements of a ring from a start position on. */
  function Ring<X>(buf: seq<X>, start: nat, n: nat): (s: seq<X>)
    requires start < |buf| && n <= |buf|
    ensures |s| == n
    ensures forall i :: 0 <= i < n ==> s[i] == buf[Wrap(start + i, |buf|)]
  {
    if start + n <= |buf| then buf[start..start + n] else buf[start..] + buf[..start + n - |buf|]
  }

  lemma RingRest<X>(buf: seq<X>, start: nat, n: nat)
    requires start < |buf| && 0 < n <= |buf|
    ensures Ring(buf, Wrap(start + 1, |buf|), n - 1) == Ring(buf, start, n)[1..] && Ring(buf, start, n)[0] == buf[start]
  {
    hide Ring;
    var rest := Ring(buf, Wrap(start + 1, |buf|), n - 1);
    forall i | 0 <= i < n - 1 ensures rest[i] == Ring(buf, start, n)[i + 1] {
      assert Wrap(Wrap(start + 1, |buf|) + i, |buf|) == Wrap(start + (i + 1), |buf|);
    }
  }

  class AtomFifo<X(0)> {
    const buffer: array<X>
    var count: nat
    var eqIdx: nat
    var dqIdx: nat

    ghost predicate Valid()
      reads this, buffer
    {
      && 0 < buffer.Length && count <= buffer.Length && dqIdx < buffer.Length
      && eqIdx == Wrap(dqIdx + count, buffer.Length)
    }

    /** The queued elements, oldest first. */
    ghost function Contents(): (s: seq<X>)
      requires Valid()
      reads this, buffer
      ensures |s| == count
    {
      Ring(buffer[..], dqIdx, count)
    }

    constructor (depth: nat)
      requires depth > 0
      ensures Valid() && fresh(buffer) && buffer.Length == depth && Contents() == []
    {
      buffer := new X[depth];
      count, eqIdx, dqIdx := 0, 0, 0;
    }

    method Enqueue(val: X) returns (ret: int)
      requires Valid()
      modifies this, buffer
      ensures Valid()
      ensures old(count) == buffer.Length ==> ret == -1 && Contents() == old(Contents())
      ensures old(count) < buffer.Length ==> ret == 0 && Contents() == old(Contents()) + [val]
    {
      if count == buffer.Length {
        return -1;
      }
      buffer[eqIdx] := val;
      eqIdx, count := eqIdx + 1, count + 1;
      if eqIdx >= buffer.Length {
        eqIdx := 0;
      }
      return 0;
    }

    /** The position of the element queued index elements ago, whose address the source returns. */
    method Peek(index: nat) returns (slot: Option<nat>)
      requires Valid()
      ensures slot.Some? <==> index < count
      ensures slot.Some? ==> slot.value < buffer.Length && buffer[slot.value] == Contents()[count - 1 - index]
      ensures slot.Some? ==> slot.value == Wrap(dqIdx + (count - 1 - index), buffer.Length)
    {
      if index >= count {
        return None;
      }
      ModuloWrap(eqIdx + buffer.Length - 1 - index, buffer.Length);
      return Some((eqIdx + buffer.Length - 1 - index) % buffer.Length);
    }

    method Dequeue() returns (ret: int, val: Option<X>)
      requires Valid()
      modifies this
      ensures Valid()
      ensures old(count) == 0 ==> ret == -1 && Contents() == []
      ensures old(count) > 0 ==> ret == 0 && val == Some(old(Contents())[0]) && Contents() == old(Contents())[1..]
    {
      if count == 0 {
        return -1, None;
      }
      hide Ring;
      RingRest(buffer[..], dqIdx, count);
      val := Some(buffer[dqIdx]);
      dqIdx, count := dqIdx + 1, count - 1;
      if dqIdx >= buffer.Length {
        dqIdx := 0;
      }
      ret := 0;
    }

    /** A store at the address that a peek returns. */
    method Replace(index: nat, slot: nat, val: X)
      requires Valid() && index < count && slot == Wrap(dqIdx + (count - 1 - index), buffer.Length)
      modifies buffer
      ensures Valid() && Contents() == old(Contents())[count - 1 - index := val]
    {
      buffer[slot] := val;
    }

    method Reset()
      requires Valid()
      modifies this
      ensures Valid() && Contents() == []
    {
      count, eqIdx, dqIdx := 0, 0, 0;
    }
  }

  lemma ModuloWrap(x: nat, depth: nat)
    requires depth > 0 && x < 2 * depth
    ensures x % depth == Wrap(x, depth)
  {
    if x >= depth {
      assert x == 1 * depth + (x - depth);
    }
  }

  // ----- what a run of AE does to the history -----

  const AE_DELAY_FRAMES_DEFAULT: nat := 2

  /** getExposureDelay: the sensor's delay, or a default when it reports none. */
  function ExposureDelay(sensor: nat): (d: nat)
    ensures d > 0 && (sensor > 0 ==> d == sensor) && (sensor == 0 ==> d == 2)
  {
    if sensor == 0 then AE_DELAY_FRAMES_DEFAULT else sensor
  }

  /**
   * The inputs of one call of runAeMain: the AE lock, the assist light and whether it has just been
   * turned off, the results kept from before it, the results the AE library computes, and still mode.
   */
  datatype Input<R> = Input(
    locked: bool, assistLight: bool, assistOver: bool, preAssist: R, computed: Option<R>, still: bool)

  /** Every result pushed so far, oldest first, and whether there are current results at all. */
  datatype View<R> = View(log: seq<R>, current: bool)

  function NewResults<R>(x: Input<R>): Option<R> {
    if x.assistOver then Some(x.preAssist) else x.computed
  }

  predicate Invalidated<R>(v: View<R>, x: Input<R>) { !v.current || x.assistOver }

  predicate UpdatesHistory<R>(x: Input<R>) { !x.still || x.assistLight }

  function Copies<R>(r: R, n: nat): (s: seq<R>)
    ensures |s| == n && forall i :: 0 <= i < n ==> s[i] == r
  {
    seq(n, _ => r)
  }

  /** A still-mode run rewrites the head; an invalidated one fills the whole history; others push once. */
  function Ran<R>(v: View<R>, x: Input<R>, depth: nat): View<R> {
    if (v.current && x.locked) || NewResults(x).None? then v
    else
      var r := NewResults(x).value;
      if !UpdatesHistory(x) then
        View(if v.log == [] then [] else v.log[|v.log| - 1 := r], true)
      else
        View(v.log + (if Invalidated(v, x) then Copies(r, depth) else []) + [r], true)
  }

  /** The last n entries of the log. */
  function Last<R>(log: seq<R>, n: nat): (s: seq<R>)
    requires n <= |log|
  {
    log[|log| - n..]
  }

  /** What is in the history: the last results pushed, up to its depth. */
  function History<R>(log: seq<R>, depth: nat): (s: seq<R>)
    ensures |s| == Min(|log|, depth)
  {
    Last(log, Min(|log|, depth))
  }

  lemma HistoryPush<R>(log: seq<R>, r: R, depth: nat)
    requires depth > 0
    ensures History(log + [r], depth) ==
            (if |log| >= depth then History(log, depth)[1..] else History(log, depth)) + [r]
  {
  }

  lemma HistoryRewrite<R>(log: seq<R>, r: R, depth: nat, i: nat)
    requires i < Min(|log|, depth)
    ensures History(log[|log| - 1 - i := r], depth) == History(log, depth)[Min(|log|, depth) - 1 - i := r]
  {
  }

  /** The entry given as feedback: the result pushed delay pushes ago, if the history reaches that far. */
  function Feedback<R>(log: seq<R>, depth: nat, delay: nat): Option<R> {
    if delay < Min(|log|, depth) then Some(log[|log| - 1 - delay]) else None
  }

  class AeState<R(0)> {
    const stored: AtomFifo<R>
    var aeResults: bool
    var feedbackDelay: nat
    ghost var log: seq<R>

    ghost predicate Valid()
      reads this, stored, stored.buffer
    {
      stored.Valid() && stored.Contents() == History(log, stored.buffer.Length)
    }

    ghost function Now(): View<R>
      reads this
    {
      View(log, aeResults)
    }

    ghost function Here(): Session<R>
      reads this
    {
      Session(Now(), feedbackDelay)
    }

    /** run3aInit: room for the exposure delay and the current results. */
    constructor (sensorDelay: nat)
      ensures Valid() && Here() == START()
      ensures stored.buffer.Length == ExposureDelay(sensorDelay) + 1
      ensures fresh(stored) && fresh(stored.buffer)
    {
      stored := new AtomFifo<R>(ExposureDelay(sensorDelay) + 1);
      aeResults, feedbackDelay, log := false, 0, [];
    }

    /** storeAeResults: pushes, dropping the oldest when full, or replaces the entry at updateIdx. */
    method StoreAeResults(r: R, updateIdx: int) returns (ok: bool)
      requires Valid()
      modifies this`log, stored, stored.buffer
      ensures Valid()
      ensures updateIdx < 0 ==> ok && log == old(log) + [r]
      ensures updateIdx >= 0 ==> (ok <==> updateIdx < Min(|old(log)|, stored.buffer.Length))
      ensures updateIdx >= 0 ==> log == if ok then old(log)[|old(log)| - 1 - updateIdx := r] else old(log)
    {
      hide Ring, History, Wrap;
      if updateIdx >= 0 {
        var slot := stored.Peek(updateIdx);
        if slot.None? {
          return false;
        }
        HistoryRewrite(log, r, stored.buffer.Length, updateIdx);
        stored.Replace(updateIdx, slot.value, r);
        log := log[|log| - 1 - updateIdx := r];
        return true;
      }
      HistoryPush(log, r, stored.buffer.Length);
      if stored.count >= stored.buffer.Length {
        var _, _ := stored.Dequeue();
      }
      var ret := stored.Enqueue(r);
      log := log + [r];
      return true;
    }

    /** The history logic of runAeMain. */
    method RunAeMain(x: Input<R>)
      requires Valid()
      modifies this`log, this`aeResults, stored, stored.buffer
      ensures Valid() && Now() == Ran(old(Now()), x, stored.buffer.Length)
      ensures Here() == After(old(Here()), RunAe(x), stored.buffer.Length - 1)
    {
      hide Ring, History, Wrap;
      var invalidated := !aeResults;
      if !invalidated && x.locked {
        return;
      }
      var fresh' := x.computed;
      if x.assistOver {
        invalidated := true;
        fresh' := Some(x.preAssist);
      }
      if fresh'.None? {
        return;
      }
      var r := fresh'.value;
      ghost var before := log;
      if invalidated && UpdatesHistory(x) {
        for i := 0 to stored.buffer.Length
          invariant Valid() && log == before + Copies(r, i)
        {
          var _ := StoreAeResults(r, -1);
          assert Copies(r, i) + [r] == Copies(r, i + 1);
        }
      }
      var _ := StoreAeResults(r, if UpdatesHistory(x) then -1 else 0);
      aeResults := true;
      assert before + [] == before;
    }

    /** pickAeFeedbackResults. */
    method PickAeFeedbackResults() returns (r: Option<R>)
      requires Valid()
      ensures r == Feedback(log, stored.buffer.Length, feedbackDelay)
    {
      var slot := stored.Peek(feedbackDelay);
      if slot.None? {
        return None;
      }
      return Some(stored.buffer[slot.value]);
    }

    /** The history part of applyPreFlashProcess: frames are skipped by the caller, so nothing is delayed. */
    method PreFlash()
      requires Valid()
      modifies this`feedbackDelay
      ensures Valid() && feedbackDelay == 0
      ensures Here() == After(old(Here()), Event.PreFlash, stored.buffer.Length - 1)
    {
      feedbackDelay := 0;
    }

    /** The history part of switchModeAndRate: the results are invalidated and computed again. */
    method SwitchMode(still: bool, sensorDelay: nat, x: Input<R>)
      requires Valid() && x.still == still
      modifies this`log, this`aeResults, this`feedbackDelay, stored, stored.buffer
      ensures Valid() && Now() == Ran(View(old(log), false), x, stored.buffer.Length)
      ensures feedbackDelay == if still then 0 else ExposureDelay(sensorDelay)
      ensures Here() == After(old(Here()), Event.SwitchMode(x, sensorDelay), stored.buffer.Length - 1)
    {
      feedbackDelay := if still then 0 else ExposureDelay(sensorDelay);
      aeResults := false;
      RunAeMain(x);
    }
  }

  // ----- whole sessions -----

  /**
   * A run of AE, a mode switch with the delay the sensor then reports, or a pre-flash step, which sets the
   * feedback delay to zero.
   */
  datatype Event<R> = RunAe(x: Input<R>) | SwitchMode(x: Input<R>, sensor: nat) | PreFlash

  datatype Session<R> = Session(view: View<R>, delay: nat)

  function After<R>(s: Session<R>, e: Event<R>, d: nat): Session<R> {
    match e
    case RunAe(x) => s.(view := Ran(s.view, x, d + 1))
    case SwitchMode(x, sensor) =>
      Session(Ran(View(s.view.log, false), x, d + 1), if x.still then 0 else ExposureDelay(sensor))
    case PreFlash => s.(delay := 0)
  }

  /** A session from some point on, with the history sized for delay d. */
  function Play<R>(s: Session<R>, events: seq<Event<R>>, d: nat): Session<R>
    decreases |events|
  {
    if events == [] then s else Play(After(s, events[0], d), events[1..], d)
  }

  function START<R>(): Session<R> { Session(View([], false), 0) }

  function FeedbackIn<R>(s: Session<R>, d: nat): Option<R> { Feedback(s.view.log, d + 1, s.delay) }

  /** The run that fills the history: results arrive while there are none, outside still mode. */
  predicate Fills<R>(s: Session<R>, e: Event<R>) {
    match e
    case RunAe(x) => Invalidated(s.view, x) && !(s.view.current && x.locked) && UpdatesHistory(x) && NewResults(x).Some?
    case SwitchMode(x, _) => UpdatesHistory(x) && NewResults(x).Some?
    case PreFlash => false
  }

  predicate Full<R>(s: Session<R>, d: nat) { |s.view.log| >= d + 1 }

  lemma FillsWhole<R>(s: Session<R>, e: Event<R>, d: nat, i: nat)
    requires Fills(s, e) && i <= d
    ensures Full(After(s, e, d), d)
    ensures Feedback(After(s, e, d).view.log, d + 1, i) == Some(NewResults(e.x).value)
  {
  }

  lemma {:induction false} StaysFull<R>(s: Session<R>, events: seq<Event<R>>, d: nat)
    requires Full(s, d)
    ensures Full(Play(s, events, d), d)
    decreases |events|
  {
    if events != [] {
      StaysFull(After(s, events[0], d), events[1..], d);
    }
  }

  /** A switch out of still mode at which the sensor reports more delay than the history was sized for. */
  predicate Exceeds<R>(e: Event<R>, d: nat) {
    e.SwitchMode? && !e.x.still && ExposureDelay(e.sensor) > d
  }

  ghost predicate AlwaysFed<R>(s: Session<R>, events: seq<Event<R>>, d: nat) {
    forall k :: 0 <= k <= |events| ==> FeedbackIn(Play(s, events[..k], d), d).Some?
  }

  lemma AlwaysFedStep<R>(s: Session<R>, events: seq<Event<R>>, d: nat)
    requires events != []
    ensures AlwaysFed(s, events, d) <==> FeedbackIn(s, d).Some? && AlwaysFed(After(s, events[0], d), events[1..], d)
  {
    hide FeedbackIn, After;
    var s', rest := After(s, events[0], d), events[1..];
    forall k | 0 <= k <= |rest| ensures Play(s, events[..k + 1], d) == Play(s', rest[..k], d) {
      assert events[..k + 1][1..] == rest[..k];
    }
    if AlwaysFed(s, events, d) {
      assert Play(s, events[..0], d) == s;
      forall k | 0 <= k <= |rest| ensures FeedbackIn(Play(s', rest[..k], d), d).Some? {
        assert FeedbackIn(Play(s, events[..k + 1], d), d).Some?;
      }
    }
    if FeedbackIn(s, d).Some? && AlwaysFed(s', rest, d) {
      forall k | 0 <= k <= |events| ensures FeedbackIn(Play(s, events[..k], d), d).Some? {
        if k > 0 {
          assert Play(s, events[..k - 1 + 1], d) == Play(s', rest[..k - 1], d);
        }
      }
    }
  }

  /** From a full history on, feedback never fails exactly when the delay fits now and no switch exceeds it. */
  lemma {:induction false} AlwaysFedExact<R>(s: Session<R>, events: seq<Event<R>>, d: nat)
    requires Full(s, d)
    ensures AlwaysFed(s, events, d) <==> s.delay <= d && forall e :: e in events ==> !Exceeds(e, d)
    decreases |events|
  {
    if events == [] {
      assert events[..0] == [];
    } else {
      var e, rest := events[0], events[1..];
      AlwaysFedStep(s, events, d);
      AlwaysFedExact(After(s, e, d), rest, d);
      assert events == [e] + rest;
      assert s.delay <= d ==> (After(s, e, d).delay <= d <==> !Exceeds(e, d));
    }
  }

  /**
   * After the first run that fills the history, feedback never fails exactly when the delay fits the history
   * and no later switch reports more than it was sized for; whenever it does not fail it is the result pushed
   * feedback-delay pushes ago.
   */
  lemma FeedbackNeverFails<R>(before: seq<Event<R>>, fill: Event<R>, after: seq<Event<R>>, d: nat)
    requires Fills(Play(START<R>(), before, d), fill)
    ensures var s0 := After(Play(START<R>(), before, d), fill, d);
            var s := Play(s0, after, d);
            && (AlwaysFed(s0, after, d) <==> s0.delay <= d && forall e :: e in after ==> !Exceeds(e, d))
            && ((forall e :: e in before + [fill] ==> !Exceeds(e, d)) ==> s0.delay <= d)
            && |s.view.log| > d
            && FeedbackIn(s, d) == if s.delay <= d then Some(s.view.log[|s.view.log| - 1 - s.delay]) else None
  {
    hide After, Play, Fills, AlwaysFed, Exceeds;
    var s := Play(START<R>(), before, d);
    var s0 := After(s, fill, d);
    FillsWhole(s, fill, d, 0);
    StaysFull(s0, after, d);
    AlwaysFedExact(s0, after, d);
    if forall e :: e in before + [fill] ==> !Exceeds(e, d) {
      DelayBounded(START<R>(), before, d);
      DelayStep(s, fill, d);
    }
  }

  lemma DelayStep<R>(s: Session<R>, e: Event<R>, d: nat)
    requires s.delay <= d && !Exceeds(e, d)
    ensures After(s, e, d).delay <= d
  {
  }

  lemma {:induction false} DelayBounded<R>(s: Session<R>, events: seq<Event<R>>, d: nat)
    requires s.delay <= d && forall e :: e in events ==> !Exceeds(e, d)
    ensures Play(s, events, d).delay <= d
    decreases |events|
  {
    if events != [] {
      assert events[0] in events;
      DelayBounded(After(s, events[0], d), events[1..], d);
    }
  }

  /** Without such a run it can fail: a session that starts in still mode has results but no feedback. */
  lemma {:induction false} StillFirstHasNoFeedback<R>(r: R, sensor: nat, d: nat)
    ensures var s := Play(START<R>(), [SwitchMode(Input(false, false, false, r, Some(r), true), sensor)], d);
            s.view.current && FeedbackIn(s, d).None?
  {
    var e := SwitchMode(Input(false, false, false, r, Some(r), true), sensor);
    assert [e][1..] == [];
    assert Play(START<R>(), [e], d) == Play(After(START<R>(), e, d), [], d);
  }

  /** A still-mode run changes no feedback but the latest. */
  lemma StillKeepsHistory<R>(s: Session<R>, x: Input<R>, d: nat, i: nat)
    requires !UpdatesHistory(x) && i > 0
    ensures Feedback(After(s, RunAe(x), d).view.log, d + 1, i) == Feedback(s.view.log, d + 1, i)
  {
  }

  /**
   * What a run leaves, entry by entry.  A lock over current results, or no results at all, changes nothing.
   * Otherwise the new result, which is the one kept from before the assist light when that has just been
   * turned off, is the latest; the others are kept by a still-mode run, replaced by an invalidated one and
   * moved back by one place by any other.
   */
  lemma EntriesAfterRun<R>(s: Session<R>, x: Input<R>, d: nat, i: nat)
    requires i <= d
    ensures var t := After(s, RunAe(x), d);
            && t.delay == s.delay
            && (if (s.view.current && x.locked) || (!x.assistOver && x.computed.None?) then t == s
                else
                  var r := if x.assistOver then x.preAssist else x.computed.value;
                  var inPlace := x.still && !x.assistLight;
                  && t.view.current
                  && Feedback(t.view.log, d + 1, i) ==
                     if i == 0 then (if inPlace && s.view.log == [] then None else Some(r))
                     else if inPlace then Feedback(s.view.log, d + 1, i)
                     else if !s.view.current || x.assistOver then Some(r)
                     else Feedback(s.view.log, d + 1, i - 1))
  {
  }

  /** After a pre-flash step, and in still mode, the feedback is the latest result. */
  lemma LatestFeedback<R>(s: Session<R>, e: Event<R>, d: nat)
    requires e.PreFlash? || (e.SwitchMode? && e.x.still)
    ensures var t := After(s, e, d);
            FeedbackIn(t, d) == if t.view.log == [] then None else Some(t.view.log[|t.view.log| - 1])
  {
  }

  /** A run of AE outside still mode whose results are the library's. */
  predicate Ordinary<R>(e: Event<R>) {
    e.RunAe? && !e.x.locked && !e.x.assistOver && !e.x.still && e.x.computed.Some?
  }

  lemma {:induction false} PlaySnoc<R>(s: Session<R>, events: seq<Event<R>>, e: Event<R>, d: nat)
    ensures Play(s, events + [e], d) == After(Play(s, events, d), e, d)
    decreases |events|
  {
    hide After;
    if events == [] {
      assert [e][1..] == [];
    } else {
      assert (events + [e])[1..] == events[1..] + [e];
      PlaySnoc(After(s, events[0], d), events[1..], e, d);
    }
  }

  /**
   * The delay line: over any number of ordinary runs, entry i is what the library computed i runs ago, and
   * beyond them it is what was there before.
   */
  lemma {:induction false} DelayLine<R>(s: Session<R>, runs: seq<Event<R>>, d: nat, i: nat)
    requires s.view.current && i <= d
    requires forall e :: e in runs ==> Ordinary(e)
    ensures Play(s, runs, d).view.current && Play(s, runs, d).delay == s.delay
    ensures i < |runs| ==>
              var e := runs[|runs| - 1 - i];
              Ordinary(e) && Feedback(Play(s, runs, d).view.log, d + 1, i) == e.x.computed
    ensures i >= |runs| ==>
              Feedback(Play(s, runs, d).view.log, d + 1, i) == Feedback(s.view.log, d + 1, i - |runs|)
    decreases |runs|
  {
    if runs != [] {
      hide After, Play, Feedback;
      var rest, e := runs[..|runs| - 1], runs[|runs| - 1];
      assert runs == rest + [e];
      assert e in runs;
      PlaySnoc(s, rest, e, d);
      DelayLine(s, rest, d, if i == 0 then 0 else i - 1);
      EntriesAfterRun(Play(s, rest, d), e.x, d, i);
    }
  }

  /** While AE is locked over current results, no number of runs changes the history. */
  lemma {:induction false} LockFreezes<R>(s: Session<R>, events: seq<Event<R>>, d: nat)
    requires s.view.current && forall e :: e in events ==> e.PreFlash? || (e.RunAe? && e.x.locked)
    ensures Play(s, events, d).view == s.view
    decreases |events|
  {
    if events != [] {
      assert events[0] in events;
      LockFreezes(After(s, events[0], d), events[1..], d);
    }
  }

  /** A plain push delays everything by one. */
  lemma PushDelays<R>(s: Session<R>, x: Input<R>, d: nat, i: nat)
    requires UpdatesHistory(x) && s.view.current && !x.locked && !x.assistOver && x.computed.Some? && i < d
    requires |s.view.log| > i
    ensures Feedback(After(s, RunAe(x), d).view.log, d + 1, i + 1) == Feedback(s.view.log, d + 1, i)
  {
  }
}

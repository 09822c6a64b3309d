/**
 * The callbacks thread pairs compressed pictures with the client's requests for them,
 * whichever comes first, and gives the raw buffers of each picture back.
 */
module JpegMatching {
  import opened Basics

  /** A compressed picture (none when the encoding failed) with its snapshot and postview buffers. */
  datatype Ready<J, B> = Ready(jpeg: Option<J>, raw: B)

  datatype Event<J, B> = DataRequest | DataReady(msg: Ready<J, B>)

  /** mJpegRequested and mBuffers, the pictures delivered and the raw buffers given back so far. */
  datatype State<J, B> = State(requested: nat, buffers: seq<Ready<J, B>>, delivered: seq<J>, returned: seq<B>)

  function Delivered<J, B>(s: State<J, B>, msg: Ready<J, B>): State<J, B>
    requires msg.jpeg.Some?
  {
    s.(delivered := s.delivered + [msg.jpeg.value], returned := s.returned + [msg.raw])
  }

  /** Only complete pictures are queued. */
  predicate Queued<J, B>(s: State<J, B>) {
    forall i :: 0 <= i < |s.buffers| ==> s.buffers[i].jpeg.Some?
  }

  function Step<J, B>(s: State<J, B>, e: Event<J, B>): State<J, B>
    requires Queued(s)
  {
    match e
    case DataReady(msg) =>
      if msg.jpeg.None? then s.(returned := s.returned + [msg.raw])
      else if s.requested > 0 then Delivered(s, msg).(requested := s.requested - 1)
      else s.(buffers := s.buffers + [msg])
    case DataRequest =>
      if s.buffers != [] then Delivered(s, s.buffers[0]).(buffers := s.buffers[1..])
      else s.(requested := s.requested + 1)
  }

  class CallbacksThread<J, B> {
    var mJpegRequested: nat
    var mBuffers: seq<Ready<J, B>>
    var delivered: seq<J>
    var returned: seq<B>

    function View(): State<J, B>
      reads this
    {
      State(mJpegRequested, mBuffers, delivered, returned)
    }

    constructor ()
      ensures View() == State(0, [], [], [])
    {
      mJpegRequested, mBuffers, delivered, returned := 0, [], [], [];
    }

    method CompressedFrameDone(jpeg: J)
      modifies this`delivered
      ensures delivered == old(delivered) + [jpeg]
    {
      delivered := delivered + [jpeg];
    }

    method PictureDone(raw: B)
      modifies this`returned
      ensures returned == old(returned) + [raw]
    {
      returned := returned + [raw];
    }

    method HandleMessageJpegDataReady(msg: Ready<J, B>)
      requires Queued(View())
      modifies this
      ensures View() == Step(old(View()), DataReady(msg)) && Queued(View())
    {
      if msg.jpeg.None? {
        PictureDone(msg.raw);
        return;
      }
      if mJpegRequested > 0 {
        CompressedFrameDone(msg.jpeg.value);
        mJpegRequested := mJpegRequested - 1;
        PictureDone(msg.raw);
      } else {
        mBuffers := mBuffers + [msg];
      }
    }

    method HandleMessageJpegDataRequest()
      requires Queued(View())
      modifies this
      ensures View() == Step(old(View()), DataRequest) && Queued(View())
    {
      if mBuffers != [] {
        var msg := mBuffers[0];
        CompressedFrameDone(msg.jpeg.value);
        PictureDone(msg.raw);
        mBuffers := mBuffers[1..];
      } else {
        mJpegRequested := mJpegRequested + 1;
      }
    }
  }

  // ----- every interleaving -----

  function Requests<J, B>(events: seq<Event<J, B>>): nat {
    if events == [] then 0
    else Requests(events[..|events| - 1]) + if events[|events| - 1].DataRequest? then 1 else 0
  }

  /** The pictures that became ready, in order. */
  function Pictures<J, B>(events: seq<Event<J, B>>): (s: seq<Ready<J, B>>)
    ensures forall i :: 0 <= i < |s| ==> s[i].jpeg.Some?
  {
    if events == [] then []
    else
      var e := events[|events| - 1];
      Pictures(events[..|events| - 1]) + if e.DataReady? && e.msg.jpeg.Some? then [e.msg] else []
  }

  /** All raw buffers handed over with ready messages. */
  ghost function Raws<J, B>(events: seq<Event<J, B>>): multiset<B> {
    if events == [] then multiset{}
    else
      var e := events[|events| - 1];
      Raws(events[..|events| - 1]) + if e.DataReady? then multiset{e.msg.raw} else multiset{}
  }

  function Jpegs<J, B>(s: seq<Ready<J, B>>): (r: seq<J>)
    requires forall i :: 0 <= i < |s| ==> s[i].jpeg.Some?
    ensures |r| == |s| && forall i :: 0 <= i < |s| ==> r[i] == s[i].jpeg.value
  {
    seq(|s|, i requires 0 <= i < |s| => s[i].jpeg.value)
  }

  ghost function RawsOf<J, B>(s: seq<Ready<J, B>>): multiset<B> {
    if s == [] then multiset{} else RawsOf(s[..|s| - 1]) + multiset{s[|s| - 1].raw}
  }

  /** Matching: as many pictures as possible are delivered, in order, the rest is queued or requested. */
  ghost predicate Matched<J, B>(s: State<J, B>, n: nat, pictures: seq<Ready<J, B>>)
    requires forall i :: 0 <= i < |pictures| ==> pictures[i].jpeg.Some?
  {
    var m := Min(n, |pictures|);
    && s.requested == n - m
    && s.buffers == pictures[m..]
    && s.delivered == Jpegs(pictures[..m])
  }

  /** Each raw buffer handed over has been given back exactly once or is still queued. */
  ghost predicate Conserved<J, B>(s: State<J, B>, raws: multiset<B>) {
    multiset(s.returned) + RawsOf(s.buffers) == raws
  }

  function Play<J, B>(events: seq<Event<J, B>>): (s: State<J, B>)
    ensures Queued(s)
  {
    if events == [] then State(0, [], [], [])
    else Step(Play(events[..|events| - 1]), events[|events| - 1])
  }

  lemma MatchedStep<J, B>(s: State<J, B>, n: nat, pictures: seq<Ready<J, B>>, e: Event<J, B>)
    requires Queued(s) && (forall i :: 0 <= i < |pictures| ==> pictures[i].jpeg.Some?) && Matched(s, n, pictures)
    ensures var n' := if e.DataRequest? then n + 1 else n;
            var pictures' := pictures + if e.DataReady? && e.msg.jpeg.Some? then [e.msg] else [];
            (forall i :: 0 <= i < |pictures'| ==> pictures'[i].jpeg.Some?) && Matched(Step(s, e), n', pictures')
  {
    var m := Min(n, |pictures|);
    if e.DataRequest? {
      if s.buffers != [] {
        assert pictures[..m + 1] == pictures[..m] + [pictures[m]];
      }
      assert pictures + [] == pictures;
    } else if e.msg.jpeg.None? {
      assert pictures + [] == pictures;
    } else if s.requested > 0 {
      assert m == |pictures| && (pictures + [e.msg])[..m + 1] == pictures[..m] + [e.msg];
    } else {
      assert (pictures + [e.msg])[..m] == pictures[..m] && (pictures + [e.msg])[m..] == pictures[m..] + [e.msg];
    }
  }

  lemma {:induction false} RawsOfFirst<J, B>(s: seq<Ready<J, B>>)
    requires s != []
    ensures RawsOf(s) == multiset{s[0].raw} + RawsOf(s[1..])
    decreases |s|, 1
  {
    if |s| == 1 {
      assert s[..0] == [] && s[1..] == [];
    } else {
      RawsOfFirstLonger(s);
    }
  }

  lemma {:induction false} RawsOfFirstLonger<J, B>(s: seq<Ready<J, B>>)
    requires |s| > 1
    ensures RawsOf(s) == multiset{s[0].raw} + RawsOf(s[1..])
    decreases |s|, 0
  {
    hide RawsOf;
    var front, last := s[..|s| - 1], s[|s| - 1];
    RawsOfFirst(front);
    RawsOfPush(front, last);
    RawsOfPush(front[1..], last);
    assert s == front + [last] && s[1..] == front[1..] + [last];
  }

  lemma ConservedStep<J, B>(s: State<J, B>, raws: multiset<B>, e: Event<J, B>)
    requires Queued(s) && Conserved(s, raws)
    ensures Conserved(Step(s, e), raws + if e.DataReady? then multiset{e.msg.raw} else multiset{})
  {
    hide RawsOf, Queued;
    if e.DataRequest? {
      if s.buffers != [] {
        RawsOfFirst(s.buffers);
      }
    } else if e.msg.jpeg.Some? && s.requested == 0 {
      RawsOfPush(s.buffers, e.msg);
    }
  }

  lemma RawsOfPush<J, B>(s: seq<Ready<J, B>>, msg: Ready<J, B>)
    ensures RawsOf(s + [msg]) == RawsOf(s) + multiset{msg.raw}
  {
    assert (s + [msg])[..|s|] == s;
  }

  lemma NeverBoth<J, B>(s: State<J, B>, n: nat, pictures: seq<Ready<J, B>>)
    requires (forall i :: 0 <= i < |pictures| ==> pictures[i].jpeg.Some?) && Matched(s, n, pictures)
    ensures s.requested == 0 || s.buffers == []
  {
  }

  /**
   * Over every interleaving of requests and ready messages: outstanding requests and queued
   * pictures are never both there, the pictures delivered are the first min(requests, ready)
   * ones in order, and no raw buffer is lost or given back twice.
   */
  lemma {:induction false} EveryInterleaving<J, B>(events: seq<Event<J, B>>)
    ensures Matched(Play(events), Requests(events), Pictures(events))
    ensures Conserved(Play(events), Raws(events))
    ensures Play(events).requested == 0 || Play(events).buffers == []
  {
    if events != [] {
      var front, e := events[..|events| - 1], events[|events| - 1];
      EveryInterleaving(front);
      InterleavingStep(events, front, e);
    }
    NeverBoth(Play(events), Requests(events), Pictures(events));
  }

  lemma InterleavingStep<J, B>(events: seq<Event<J, B>>, front: seq<Event<J, B>>, e: Event<J, B>)
    requires events != [] && front == events[..|events| - 1] && e == events[|events| - 1]
    requires Matched(Play(front), Requests(front), Pictures(front)) && Conserved(Play(front), Raws(front))
    ensures Matched(Play(events), Requests(events), Pictures(events)) && Conserved(Play(events), Raws(events))
  {
    hide Step, Matched, Conserved, Queued;
    MatchedStep(Play(front), Requests(front), Pictures(front), e);
    ConservedStep(Play(front), Raws(front), e);
  }
}

/**
 * The recording side of recording.cpp as functions on `RecState`:
 * Recording_new, new_milestone and Recording_record, and the invariant they keep.
 */
module RecordLog {
  import opened Host
  import opened Opcodes
  import opened RecordingTypes
  import opened Tracking

  /** Recording_new: no steps, nothing tracked, one empty milestone, new_milestone set. */
  function Fresh(): (s: RecState)
    ensures Inv(s)
  {
    RecState(true, Null, [], [], {}, [], [], [])
  }

  /**
   * A fresh recording has exactly one milestone, the active one, and it is
   * empty; nothing is logged, stepped or tracked, and new_milestone is set.
   */
  lemma FreshState()
    ensures var s := Fresh();
      && Milestones(s) == [Milestone([], [], [])] && Log(s) == []
      && s.steps == [] && s.tracked == {} && s.newMilestone && s.globalFrame == Null
  {
    assert Milestones(Fresh())[..0] == [];
  }

  /** new_milestone: the active milestone is kept and a new empty one becomes active. */
  function NewMilestoneF(s: RecState): RecState {
    s.(milestones := s.milestones + [Active(s)], pickler := [], pickleOrder := [], mutations := [],
       newMilestone := true)
  }

  function TrackerOf(s: RecState): Tracker {
    Tracker(s.tracked, s.pickleOrder, s.pickler)
  }

  /** The recording with its tracked set, pickle order and dump buffer replaced by those of `t`. */
  function WithTracker(s: RecState, t: Tracker): RecState {
    s.(tracked := t.tracked, pickleOrder := t.order, pickler := t.bytes)
  }

  /** track_object applied to the recording. */
  function TrackInto(h: Heap, s: RecState, p: Ptr): RecState
    requires h.Valid() && h.Live(p)
  {
    WithTracker(s, Track(h, TrackerOf(s), p))
  }

  /** What Recording_record needs of its arguments: operands it tracks are live, a step's frame is a frame. */
  predicate RecordArgsOk(h: Heap, event: int, a: Ptr, b: Ptr, c: Ptr) {
    && (IsNameStore(event) ==> h.Live(c))
    && (IsStore(event) ==> h.Live(b))
    && (IsTraceEvent(event) ==> h.IsFrame(a))
  }

  /**
   * Recording_record: a name store tracks `c` and falls through into the
   * object-store case, which tracks `b` and appends a Mutation stamped with the
   * number of steps so far; a trace event appends a Step; anything else appends
   * nothing.  Then a log that reached the threshold is closed: the tracked set
   * is cleared and a new milestone begins.
   */
  function RecordF(h: Heap, s: RecState, event: int, a: Ptr, b: Ptr, c: Ptr): RecState
    requires h.Valid() && RecordArgsOk(h, event, a, b, c)
  {
    var s1 := if IsNameStore(event) then TrackInto(h, s, c) else s;
    Close(StoreOrStep(h, s1, event, a, b, c))
  }

  /** The end of Recording_record: a log that reached the threshold clears the tracked set and starts a new milestone. */
  function Close(s: RecState): RecState {
    if |s.mutations| >= Threshold then NewMilestoneF(s.(tracked := {})) else s
  }

  /** The object-store case (track `b`, append the mutation) or the trace-event case (append the step) of Recording_record. */
  function StoreOrStep(h: Heap, s: RecState, event: int, a: Ptr, b: Ptr, c: Ptr): RecState
    requires h.Valid() && RecordArgsOk(h, event, a, b, c)
  {
    if IsStore(event) then
      var s3 := TrackInto(h, s, b);
      s3.(mutations := s3.mutations + [Mutation(|s3.steps|, event as Byte, a, b, c)])
    else if IsTraceEvent(event) then
      s.(steps := s.steps + [Step(h.frames[a.id].lineno, event, a)])
    else
      s
  }

  /** The logs of a sequence of milestones, concatenated in order. */
  function Flatten(ms: seq<Milestone>): seq<Mutation> {
    if ms == [] then [] else Flatten(ms[..|ms| - 1]) + ms[|ms| - 1].mutations
  }

  /** Every mutation recorded so far, across all milestones. */
  function Log(s: RecState): seq<Mutation> {
    Flatten(Milestones(s))
  }

  lemma FlattenSnoc(ms: seq<Milestone>, m: Milestone)
    ensures Flatten(ms + [m]) == Flatten(ms) + m.mutations
  {
    assert (ms + [m])[..|ms|] == ms;
  }

  lemma StampsSameLogs(ms: seq<Milestone>, ms': seq<Milestone>, bound: int)
    requires |ms| == |ms'| && forall k :: 0 <= k < |ms| ==> ms'[k].mutations == ms[k].mutations
    requires StampsOrdered(ms) && StampsBounded(ms, bound)
    ensures StampsOrdered(ms') && StampsBounded(ms', bound)
  {
  }

  lemma StampsAppend(ms: seq<Milestone>, ms': seq<Milestone>, m: Mutation)
    requires |ms| == |ms'| > 0 && StampsOrdered(ms) && StampsBounded(ms, m.step)
    requires forall k :: 0 <= k < |ms| - 1 ==> ms'[k].mutations == ms[k].mutations
    requires ms'[|ms| - 1].mutations == ms[|ms| - 1].mutations + [m]
    ensures StampsOrdered(ms') && StampsBounded(ms', m.step)
  {
    var n := |ms| - 1;
    forall k, i | 0 <= k < |ms'| && 0 <= i < |ms'[k].mutations|
      ensures ms'[k].mutations[i] == m || (i < |ms[k].mutations| && ms'[k].mutations[i] == ms[k].mutations[i])
    {
      if k == n && i == |ms[n].mutations| {
      } else {
        assert i < |ms[k].mutations|;
      }
    }
  }

  lemma StampsExtend(ms: seq<Milestone>, m: Milestone, bound: int)
    requires StampsOrdered(ms) && StampsBounded(ms, bound) && m.mutations == []
    ensures StampsOrdered(ms + [m]) && StampsBounded(ms + [m], bound)
  {
    assert forall k :: 0 <= k < |ms| ==> (ms + [m])[k] == ms[k];
  }

  /** track_object changes only the tracked set and the active pickle order and buffer, and keeps the invariant. */
  lemma TrackIntoInv(h: Heap, s: RecState, p: Ptr)
    requires h.Valid() && h.Live(p) && LogInv(s)
    ensures var r := TrackInto(h, s, p);
      && LogInv(r)
      && r.milestones == s.milestones && r.mutations == s.mutations && r.steps == s.steps
      && r.newMilestone == s.newMilestone && r.globalFrame == s.globalFrame
      && Log(r) == Log(s)
  {
    var r := TrackInto(h, s, p);
    TrackGrows(h, TrackerOf(s), p);
    assert Consistent(TrackerOf(s));
    StampsSameLogs(Milestones(s), Milestones(r), |s.steps|);
    assert Milestones(r)[..|s.milestones|] == Milestones(s)[..|s.milestones|];
    FlattenSnoc(s.milestones, Active(s));
    FlattenSnoc(r.milestones, Active(r));
  }

  /** Appending a mutation stamped with the current step count keeps the log invariant. */
  lemma AppendInv(s: RecState, m: Mutation)
    requires Inv(s) && m.step == |s.steps|
    ensures LogInv(s.(mutations := s.mutations + [m]))
    ensures Log(s.(mutations := s.mutations + [m])) == Log(s) + [m]
  {
    var r := s.(mutations := s.mutations + [m]);
    StampsAppend(Milestones(s), Milestones(r), m);
    FlattenSnoc(s.milestones, Active(s));
    FlattenSnoc(r.milestones, Active(r));
  }

  /** Closing a full log: the invariant holds again, with an empty active milestone. */
  lemma RolloverInv(s: RecState)
    requires LogInv(s) && |s.mutations| == Threshold
    ensures Inv(NewMilestoneF(s.(tracked := {})))
    ensures Log(NewMilestoneF(s.(tracked := {}))) == Log(s)
  {
    var r := NewMilestoneF(s.(tracked := {}));
    assert Milestones(r) == Milestones(s) + [Milestone([], [], [])];
    StampsExtend(Milestones(s), Milestone([], [], []), |s.steps|);
    FlattenSnoc(Milestones(s), Milestone([], [], []));
  }

  /** Recording_record keeps the invariant. */
  lemma RecordPreservesInv(h: Heap, s: RecState, event: int, a: Ptr, b: Ptr, c: Ptr)
    requires h.Valid() && RecordArgsOk(h, event, a, b, c) && Inv(s)
    ensures Inv(RecordF(h, s, event, a, b, c))
  {
    RecordEffect(h, s, event, a, b, c);
  }

  /**
   * What Recording_record does to the timeline: a store appends exactly one
   * mutation, stamped with the number of steps, to the overall log; a trace
   * event appends exactly one step and no mutation; anything else changes
   * nothing.  Earlier milestones are never altered.
   */
  lemma RecordEffect(h: Heap, s: RecState, event: int, a: Ptr, b: Ptr, c: Ptr)
    requires h.Valid() && RecordArgsOk(h, event, a, b, c) && Inv(s)
    ensures var r := RecordF(h, s, event, a, b, c);
      && Inv(r)
      && |s.milestones| <= |r.milestones| && r.milestones[..|s.milestones|] == s.milestones
      && r.globalFrame == s.globalFrame
      && (IsStore(event) ==>
            && Log(r) == Log(s) + [Mutation(|s.steps|, event as Byte, a, b, c)]
            && r.steps == s.steps)
      && (IsTraceEvent(event) ==>
            && Log(r) == Log(s)
            && r.steps == s.steps + [Step(h.frames[a.id].lineno, event, a)]
            && TrackerOf(r) == TrackerOf(s) && r.milestones == s.milestones)
      && (!IsStore(event) && !IsTraceEvent(event) ==> r == s)
  {
    if IsStore(event) {
      StoreEffect(h, s, event, a, b, c);
    } else if IsTraceEvent(event) {
      StepEffect(h, s, event, a, b, c);
    } else {
      assert StoreOrStep(h, s, event, a, b, c) == s;
    }
  }

  lemma StoreEffect(h: Heap, s: RecState, event: int, a: Ptr, b: Ptr, c: Ptr)
    requires h.Valid() && RecordArgsOk(h, event, a, b, c) && Inv(s) && IsStore(event)
    ensures var r := RecordF(h, s, event, a, b, c);
      && Inv(r)
      && |s.milestones| <= |r.milestones| && r.milestones[..|s.milestones|] == s.milestones
      && r.globalFrame == s.globalFrame && r.steps == s.steps
      && Log(r) == Log(s) + [Mutation(|s.steps|, event as Byte, a, b, c)]
  {
    var s1 := if IsNameStore(event) then TrackInto(h, s, c) else s;
    if IsNameStore(event) {
      TrackIntoInv(h, s, c);
    }
    var s3 := TrackInto(h, s1, b);
    TrackIntoInv(h, s1, b);
    var m := Mutation(|s3.steps|, event as Byte, a, b, c);
    var s2 := s3.(mutations := s3.mutations + [m]);
    assert StoreOrStep(h, s1, event, a, b, c) == s2;
    AppendInv(s3, m);
    if |s2.mutations| >= Threshold {
      RolloverInv(s2);
    }
  }

  lemma StepEffect(h: Heap, s: RecState, event: int, a: Ptr, b: Ptr, c: Ptr)
    requires h.Valid() && RecordArgsOk(h, event, a, b, c) && Inv(s) && IsTraceEvent(event)
    ensures var r := RecordF(h, s, event, a, b, c);
      && r == s.(steps := s.steps + [Step(h.frames[a.id].lineno, event, a)])
      && Inv(r) && Log(r) == Log(s)
  {
    var s2 := s.(steps := s.steps + [Step(h.frames[a.id].lineno, event, a)]);
    assert StoreOrStep(h, s, event, a, b, c) == s2;
    assert Milestones(s2) == Milestones(s);
  }

  /**
   * The rollover: a store that brings the active log to the threshold closes
   * it; the tracked set is emptied and a new, empty milestone becomes active
   * with new_milestone set.  Any other record keeps the active milestone.
   */
  lemma RecordRollover(h: Heap, s: RecState, event: int, a: Ptr, b: Ptr, c: Ptr)
    requires h.Valid() && RecordArgsOk(h, event, a, b, c) && Inv(s)
    ensures var r := RecordF(h, s, event, a, b, c);
      if IsStore(event) && |s.mutations| + 1 == Threshold then
        && |r.milestones| == |s.milestones| + 1
        && r.milestones[|s.milestones|].mutations == s.mutations + [Mutation(|s.steps|, event as Byte, a, b, c)]
        && r.tracked == {} && Active(r) == Milestone([], [], []) && r.newMilestone
      else
        r.milestones == s.milestones && r.newMilestone == s.newMilestone
  {
    var s1 := if IsNameStore(event) then TrackInto(h, s, c) else s;
    if IsStore(event) {
      var s3 := TrackInto(h, s1, b);
      assert s3.mutations == s.mutations && s3.milestones == s.milestones && s3.steps == s.steps;
      assert StoreOrStep(h, s1, event, a, b, c) == s3.(mutations := s3.mutations + [Mutation(|s.steps|, event as Byte, a, b, c)]);
    } else if IsTraceEvent(event) {
      assert StoreOrStep(h, s, event, a, b, c) == s.(steps := s.steps + [Step(h.frames[a.id].lineno, event, a)]);
    } else {
      assert StoreOrStep(h, s, event, a, b, c) == s;
    }
  }

  /**
   * Which operands Recording_record tracks: a name store tracks its value `c`
   * and its name `b`, an object store only its key `b`; everything newly
   * tracked is one of those or reached from them through objects that dumped
   * and expanded.  (A rollover empties the tracked set afterwards.)
   */
  lemma RecordTracks(h: Heap, s: RecState, event: int, a: Ptr, b: Ptr, c: Ptr)
    requires h.Valid() && RecordArgsOk(h, event, a, b, c)
    requires IsStore(event) && |s.mutations| + 1 < Threshold
    ensures var r := RecordF(h, s, event, a, b, c);
      var roots := if IsNameStore(event) then [c, b] else [b];
      && AllTracked(h, roots, r.tracked)
      && FromRoots(h, TrackerOf(s), TrackerOf(r), roots)
  {
    RecordTracker(h, s, event, a, b, c);
    TrackAllGrows(h, TrackerOf(s), if IsNameStore(event) then [c, b] else [b]);
  }

  /** Below the threshold, a store leaves the tracker as tp_traverse-style tracking of its operands, in order, makes it. */
  lemma RecordTracker(h: Heap, s: RecState, event: int, a: Ptr, b: Ptr, c: Ptr)
    requires h.Valid() && RecordArgsOk(h, event, a, b, c)
    requires IsStore(event) && |s.mutations| + 1 < Threshold
    ensures TrackerOf(RecordF(h, s, event, a, b, c)) == TrackAll(h, TrackerOf(s), if IsNameStore(event) then [c, b] else [b])
  {
    var t0 := TrackerOf(s);
    var s1 := if IsNameStore(event) then TrackInto(h, s, c) else s;
    var s3 := TrackInto(h, s1, b);
    assert StoreOrStep(h, s1, event, a, b, c) == s3.(mutations := s3.mutations + [Mutation(|s3.steps|, event as Byte, a, b, c)]);
    assert |s3.mutations| == |s.mutations|;
    if IsNameStore(event) {
      var t1 := Track(h, t0, c);
      assert [c, b][1..] == [b] && [b][1..] == [];
      assert TrackAll(h, t1, [b]) == TrackAll(h, Track(h, t1, b), []);
      assert TrackAll(h, t0, [c, b]) == TrackAll(h, t1, [b]);
    } else {
      assert [b][1..] == [];
      assert TrackAll(h, t0, [b]) == TrackAll(h, Track(h, t0, b), []);
    }
  }

  /** Step stamps across milestones: every stamp of milestone k is at most every stamp of a later one. */
  lemma MilestonesOrdered(s: RecState, k: nat)
    requires Inv(s) && k + 1 < |Milestones(s)|
    requires Milestones(s)[k + 1].mutations != []
    ensures var ms := Milestones(s);
      ms[k].mutations[|ms[k].mutations| - 1].step <= ms[k + 1].mutations[0].step
  {
    assert |Milestones(s)[k].mutations| == Threshold;
  }
}

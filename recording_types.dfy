/**
 * The tuple types of recording.h and the state of a RecordingObject, as values.
 */
module RecordingTypes {
  import opened Wrappers
  import opened Host

  /** Mutations store their opcode in an `unsigned char`. */
  newtype Byte = x: int | 0 <= x < 256

  /** One traced event: (line, event, frame). */
  datatype Step = Step(line: int, event: int, frame: Ptr)

  /** One observed store: (step, opcode, a, b, c). */
  datatype Mutation = Mutation(step: int, op: Byte, a: Ptr, b: Ptr, c: Ptr)

  /**
   * A checkpoint: its mutation list, the order in which objects were dumped,
   * and the dump buffer, one captured state per entry of the pickle order.
   */
  datatype Milestone = Milestone(mutations: seq<Mutation>, pickleOrder: seq<ObjId>, bytes: seq<ObjState>)

  /** A log reaching this many mutations is closed and a new milestone begins. */
  const Threshold: nat := 200000

  /**
   * The fields of a RecordingObject that recording.cpp updates.  The active
   * milestone's lists are the fields `mutations`, `pickleOrder` and `pickler`
   * (the buffer the pickler writes to); `milestones` holds the milestones
   * that came before it.
   */
  datatype RecState = RecState(
    newMilestone: bool,
    globalFrame: Ptr,
    steps: seq<Step>,
    milestones: seq<Milestone>,
    tracked: set<ObjId>,
    pickler: seq<ObjState>,
    pickleOrder: seq<ObjId>,
    mutations: seq<Mutation>)

  /** The milestone the current pointers refer to. */
  function Active(s: RecState): Milestone {
    Milestone(s.mutations, s.pickleOrder, s.pickler)
  }

  /** The whole milestone vector: the earlier ones followed by the active one. */
  function Milestones(s: RecState): (ms: seq<Milestone>)
    ensures |ms| == |s.milestones| + 1 && ms[|ms| - 1] == Active(s)
  {
    s.milestones + [Active(s)]
  }

  predicate NoDup<T(==)>(xs: seq<T>) {
    forall i, j :: 0 <= i < j < |xs| ==> xs[i] != xs[j]
  }

  /** A milestone's dump buffer has one entry per object and no object is dumped twice. */
  ghost predicate MilestoneOk(m: Milestone) {
    NoDup(m.pickleOrder) && |m.bytes| == |m.pickleOrder|
  }

  /** Step stamps never decrease along the milestones and their logs. */
  ghost predicate StampsOrdered(ms: seq<Milestone>) {
    forall k1, i, k2, j ::
      0 <= k1 < |ms| && 0 <= k2 < |ms| &&
      0 <= i < |ms[k1].mutations| && 0 <= j < |ms[k2].mutations| &&
      (k1 < k2 || (k1 == k2 && i <= j))
      ==> ms[k1].mutations[i].step <= ms[k2].mutations[j].step
  }

  /** No stamp is ahead of the step counter. */
  ghost predicate StampsBounded(ms: seq<Milestone>, bound: int) {
    forall k, i :: 0 <= k < |ms| && 0 <= i < |ms[k].mutations| ==> ms[k].mutations[i].step <= bound
  }

  /** The invariant every operation of recording.cpp keeps: the active log is below the threshold. */
  ghost predicate Inv(s: RecState) {
    |s.mutations| < Threshold && LogInv(s)
  }

  /**
   * Every earlier milestone was closed when its log reached the threshold, so
   * none is empty; pickle orders have no duplicates and match their buffers;
   * the active pickle order lists tracked objects; stamps never decrease and
   * never pass the step counter.
   */
  ghost predicate LogInv(s: RecState) {
    && |s.mutations| <= Threshold
    && (forall k :: 0 <= k < |s.milestones| ==> |s.milestones[k].mutations| == Threshold)
    && (forall k :: 0 <= k < |s.milestones| ==> MilestoneOk(s.milestones[k]))
    && MilestoneOk(Active(s))
    && (forall i :: 0 <= i < |s.pickleOrder| ==> s.pickleOrder[i] in s.tracked)
    && StampsOrdered(Milestones(s))
    && StampsBounded(Milestones(s), |s.steps|)
  }
}

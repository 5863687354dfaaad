/**
 * RecordingObject (recording.h:12-31) and the operations of recording.cpp
 * that update it in place: Recording_new, new_milestone, track_object,
 * Recording_record and Recording_state.  Each method is proved against the
 * function of RecordLog, Tracking or Replay that specifies it.
 */
module Recording {
  import opened Host
  import opened Opcodes
  import opened RecordingTypes
  import opened Tracking
  import opened RecordLog
  import opened Replay

  class Recording {
    var newMilestone: bool
    var globalFrame: Ptr
    var steps: seq<Step>
    /** The milestones before the active one. */
    var milestones: seq<Milestone>
    var trackedObjects: set<ObjId>
    /** The dump buffer of the active milestone, written through its pickler. */
    var pickler: seq<ObjState>
    /** The pickle order of the active milestone. */
    var pickleOrder: seq<ObjId>
    /** The mutation list of the active milestone. */
    var mutations: seq<Mutation>

    ghost function Model(): RecState
      reads this
    {
      RecState(newMilestone, globalFrame, steps, milestones, trackedObjects, pickler, pickleOrder, mutations)
    }

    ghost function TrackerState(): Tracker
      reads this
    {
      Tracker(trackedObjects, pickleOrder, pickler)
    }

    ghost predicate Valid()
      reads this
    {
      Inv(Model())
    }

    /** Recording_new: no steps, nothing tracked, and the first, empty, milestone active. */
    constructor ()
      ensures Model() == Fresh() && Valid()
    {
      newMilestone := true;
      globalFrame := Null;
      steps := [];
      milestones := [];
      trackedObjects := {};
      pickler := [];
      pickleOrder := [];
      mutations := [];
    }

    /** new_milestone: keep the active milestone and start an empty one. */
    method NewMilestone()
      modifies this
      ensures Model() == NewMilestoneF(old(Model()))
    {
      milestones := milestones + [Milestone(mutations, pickleOrder, pickler)];
      pickleOrder := [];
      mutations := [];
      pickler := [];
      newMilestone := true;
    }

    /**
     * track_object: a non-NULL object that is not a module and not yet
     * tracked is marked tracked and dumped; if the dump succeeds it joins the
     * pickle order, and an object of a heap type with tp_traverse has each
     * child tracked in turn.
     */
    method TrackObject(h: Heap, p: Ptr)
      requires h.Valid() && h.Live(p)
      modifies this
      ensures Model() == TrackInto(h, old(Model()), p)
      decreases |h.children.Keys - trackedObjects|, 0
    {
      if p.Addr? && p.id !in h.modules && p.id !in trackedObjects {
        ghost var t0 := TrackerState();
        trackedObjects := trackedObjects + {p.id};
        if p.id in h.picklable {
          pickler := pickler + [h.state[p.id]];
          pickleOrder := pickleOrder + [p.id];
          if p.id in h.heapTypes && p.id in h.traversable {
            RemoveOneSmaller(h.children.Keys, t0.tracked, p.id);
            TrackChildren(h, h.children[p.id]);
          }
        }
      }
    }

    /** tp_traverse: track_object on each child of an expanded object, in order. */
    method TrackChildren(h: Heap, kids: seq<Ptr>)
      requires h.Valid() && forall k :: 0 <= k < |kids| ==> h.Live(kids[k])
      modifies this
      ensures Model() == WithTracker(old(Model()), TrackAll(h, old(TrackerState()), kids))
      decreases |h.children.Keys - trackedObjects|, 1
    {
      ghost var s0, t0 := Model(), TrackerState();
      var k := 0;
      while k < |kids|
        invariant 0 <= k <= |kids|
        invariant t0.tracked <= trackedObjects
        invariant TrackAll(h, TrackerState(), kids[k..]) == TrackAll(h, t0, kids)
        invariant Model() == WithTracker(s0, TrackerState())
      {
        SubsetNotLarger(h.children.Keys, t0.tracked, trackedObjects);
        ghost var before := TrackerState();
        TrackObject(h, kids[k]);
        assert kids[k..][1..] == kids[k + 1..];
        assert TrackerState() == Track(h, before, kids[k]);
        k := k + 1;
      }
      assert kids[k..] == [];
    }

    /**
     * Recording_record: a name store tracks `c` and falls through into the
     * object-store case, which tracks `b` and appends the mutation stamped
     * with the number of steps; a trace event appends a step; then a log
     * that reached the threshold clears the tracked set and starts a new
     * milestone.  The source returns nothing; `ok` is what its caller reads.
     */
    method Record(h: Heap, event: int, a: Ptr, b: Ptr, c: Ptr) returns (ok: bool)
      requires h.Valid() && RecordArgsOk(h, event, a, b, c)
      modifies this
      ensures ok
      ensures old(Valid()) ==> Valid()
      ensures Model() == RecordF(h, old(Model()), event, a, b, c)
    {
      if IsNameStore(event) {
        TrackObject(h, c);
      }
      AppendEvent(h, event, a, b, c);
      if |mutations| >= Threshold {
        trackedObjects := {};
        NewMilestone();
      }
      ok := true;
      if old(Valid()) {
        RecordPreservesInv(h, old(Model()), event, a, b, c);
      }
    }

    /** The object-store case and the trace-event case of Recording_record. */
    method AppendEvent(h: Heap, event: int, a: Ptr, b: Ptr, c: Ptr)
      requires h.Valid() && RecordArgsOk(h, event, a, b, c)
      modifies this
      ensures Model() == StoreOrStep(h, old(Model()), event, a, b, c)
    {
      if IsStore(event) {
        TrackObject(h, b);
        mutations := mutations + [Mutation(|steps|, event as Byte, a, b, c)];
      } else if IsTraceEvent(event) {
        steps := steps + [Step(h.frames[a.id].lineno, event, a)];
      }
    }

    /**
     * Recording_state: clamp the step to the last one recorded, take the last
     * of the leading milestones whose first mutation is at or before it,
     * unpickle its objects in pickle order, and replay its mutations up to
     * the step into fresh globals and locals.  The replay is the corrected
     * one: a store into an object with no restored copy is skipped.
     */
    method State(step: int) returns (env: Env)
      requires Valid() && StateDefined(Model(), step)
      ensures env == StateF(Model(), step)
    {
      var st := if |steps| - 1 < step then |steps| - 1 else step;
      var frame := steps[st].frame;
      var all := milestones + [Milestone(mutations, pickleOrder, pickler)];
      assert all == Milestones(Model());
      var sel := FindMilestone(all, st);
      var m := all[sel];
      assert MilestoneOk(m);
      var objects := Unpickle(m.pickleOrder, m.bytes);
      env := ReplayUpTo(Env(map[], map[], objects), m.mutations, st, globalFrame, frame);
    }
  }

  /**
   * The milestone scan of Recording_state: remember each milestone whose
   * first mutation is at or before the step, and stop at the first empty
   * milestone or the first whose first mutation is later.
   */
  method FindMilestone(all: seq<Milestone>, st: int) returns (sel: nat)
    requires |all| > 0 && Qualifies(all[0], st)
    ensures sel == Leading(all, st) - 1
  {
    sel := 0;
    var i := 0;
    while i < |all|
      invariant 0 <= i <= |all|
      invariant forall j :: 0 <= j < i ==> Qualifies(all[j], st)
      invariant 0 < i ==> sel == i - 1
    {
      if all[i].mutations == [] {
        break;
      }
      if all[i].mutations[0].step <= st {
        sel := i;
      } else {
        break;
      }
      i := i + 1;
    }
    assert i == Leading(all, st);
  }

  /** Unpickling: the k-th load is stored under the k-th id of the pickle order. */
  method Unpickle(order: seq<ObjId>, bytes: seq<ObjState>) returns (objects: map<ObjId, ObjState>)
    requires |bytes| == |order|
    ensures objects == Restore(order, bytes)
  {
    objects := map[];
    var j := 0;
    while j < |order|
      invariant 0 <= j <= |order|
      invariant objects == Restore(order[..j], bytes[..j])
    {
      assert order[..j + 1][..j] == order[..j];
      assert bytes[..j + 1][..j] == bytes[..j];
      objects := objects[order[j] := bytes[j]];
      j := j + 1;
    }
    assert order[..j] == order && bytes[..j] == bytes;
  }

  /**
   * The replay loop of Recording_state ("baby VM"): apply each mutation
   * stamped at or before the step, stopping at the first later one.  A store
   * into an object without a restored copy is skipped.
   */
  method ReplayUpTo(env0: Env, muts: seq<Mutation>, st: int, globalFrame: Ptr, frame: Ptr) returns (env: Env)
    ensures env == ReplayF(env0, muts, st, globalFrame, frame)
  {
    var globals: map<Ptr, Value>, locals: map<Ptr, Value>, objects: map<ObjId, ObjState> :=
      env0.globals, env0.locals, env0.objects;
    var q := 0;
    while q < |muts|
      invariant 0 <= q <= |muts|
      invariant ReplayF(Env(globals, locals, objects), muts[q..], st, globalFrame, frame)
             == ReplayF(env0, muts, st, globalFrame, frame)
    {
      var mu := muts[q];
      assert muts[q..][1..] == muts[q + 1..];
      if mu.step > st {
        break;
      }
      var op := mu.op as int;
      if op == STORE_ATTR || op == STORE_SUBSCR {
        if mu.a.Addr? && mu.a.id in objects {
          var o := objects[mu.a.id];
          if op == STORE_ATTR {
            objects := objects[mu.a.id := o.(attrs := o.attrs[mu.b := mu.c])];
          } else {
            objects := objects[mu.a.id := o.(items := o.items[mu.b := mu.c])];
          }
        }
      } else if op == STORE_GLOBAL {
        globals := globals[mu.b := Resolve(objects, mu.c)];
      } else if op == STORE_FAST || op == STORE_NAME {
        if mu.a == globalFrame {
          globals := globals[mu.b := Resolve(objects, mu.c)];
        } else if mu.a == frame {
          locals := locals[mu.b := Resolve(objects, mu.c)];
        }
      }
      q := q + 1;
    }
    env := Env(globals, locals, objects);
  }
}

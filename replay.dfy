/**
 * Recording_state (recording.cpp:51-123) as functions: clamp the step, pick
 * the milestone, restore its dumped objects in pickle order and replay its
 * mutations up to the step into a globals and a locals map.
 */
module Replay {
  import opened Host
  import opened Opcodes
  import opened RecordingTypes
  import opened Wrappers

  /** What replay binds a name to: the restored copy of an object, or the recorded pointer itself. */
  datatype Value = Restored(id: ObjId) | Raw(p: Ptr)

  /** The replay state: the globals and locals dicts being rebuilt and the restored objects by original id. */
  datatype Env = Env(globals: map<Ptr, Value>, locals: map<Ptr, Value>, objects: map<ObjId, ObjState>)

  /** The requested step, clamped from above only, to the last recorded step. */
  function ClampStep(s: RecState, step: int): (st: int)
    ensures st <= step && st <= |s.steps| - 1
    ensures st == step || st == |s.steps| - 1
  {
    if |s.steps| - 1 < step then |s.steps| - 1 else step
  }

  /** A milestone is taken if it is not empty and its first mutation is at or before the step. */
  predicate Qualifies(m: Milestone, step: int) {
    m.mutations != [] && m.mutations[0].step <= step
  }

  /** How many milestones, from the first, qualify before the scan breaks off. */
  function Leading(ms: seq<Milestone>, step: int): (n: nat)
    ensures n <= |ms|
    ensures forall k :: 0 <= k < n ==> Qualifies(ms[k], step)
    ensures n < |ms| ==> !Qualifies(ms[n], step)
  {
    if ms == [] || !Qualifies(ms[0], step) then 0 else 1 + Leading(ms[1..], step)
  }

  /** Unpickling the buffer: the k-th load is stored under the k-th id of the pickle order. */
  function Restore(order: seq<ObjId>, bytes: seq<ObjState>): map<ObjId, ObjState>
    requires |bytes| == |order|
  {
    if order == [] then map[]
    else Restore(order[..|order| - 1], bytes[..|bytes| - 1])[order[|order| - 1] := bytes[|bytes| - 1]]
  }

  /** `objects[c]`, falling back to `c` itself when there is no restored copy. */
  function Resolve(objects: map<ObjId, ObjState>, c: Ptr): Value {
    if c.Addr? && c.id in objects then Restored(c.id) else Raw(c)
  }

  /**
   * One mutation: STORE_ATTR and STORE_SUBSCR update the restored target;
   * STORE_GLOBAL binds in globals; STORE_FAST and STORE_NAME bind in globals
   * when made in the global frame, in locals when made in the queried frame,
   * and are skipped otherwise.  A target without a restored copy is skipped.
   */
  function Apply(env: Env, m: Mutation, globalFrame: Ptr, frame: Ptr): Env {
    var op := m.op as int;
    if op == STORE_ATTR || op == STORE_SUBSCR then
      if m.a.Addr? && m.a.id in env.objects then
        var o := env.objects[m.a.id];
        var o' := if op == STORE_ATTR then o.(attrs := o.attrs[m.b := m.c]) else o.(items := o.items[m.b := m.c]);
        env.(objects := env.objects[m.a.id := o'])
      else
        env
    else if op == STORE_GLOBAL then
      env.(globals := env.globals[m.b := Resolve(env.objects, m.c)])
    else if op == STORE_FAST || op == STORE_NAME then
      if m.a == globalFrame then env.(globals := env.globals[m.b := Resolve(env.objects, m.c)])
      else if m.a == frame then env.(locals := env.locals[m.b := Resolve(env.objects, m.c)])
      else env
    else
      env
  }

  /** The replay loop: apply mutations in order, stopping at the first one stamped after the step. */
  function ReplayF(env: Env, muts: seq<Mutation>, step: int, globalFrame: Ptr, frame: Ptr): Env
    decreases |muts|
  {
    if muts == [] || muts[0].step > step then env
    else ReplayF(Apply(env, muts[0], globalFrame, frame), muts[1..], step, globalFrame, frame)
  }

  /** What state() needs: at least one step, a non-negative step, and a first milestone that qualifies. */
  ghost predicate StateDefined(s: RecState, step: int) {
    |s.steps| > 0 && 0 <= step && Qualifies(Milestones(s)[0], ClampStep(s, step))
  }

  /** Index of the milestone state() replays. */
  function Selected(s: RecState, step: int): (k: nat)
    requires StateDefined(s, step)
    ensures k < |Milestones(s)|
  {
    Leading(Milestones(s), ClampStep(s, step)) - 1
  }

  /** Recording_state: the globals and locals at the step, with the restored objects. */
  function StateF(s: RecState, step: int): Env
    requires Inv(s) && StateDefined(s, step)
  {
    var st := ClampStep(s, step);
    var m := Milestones(s)[Selected(s, step)];
    assert MilestoneOk(m);
    ReplayF(Env(map[], map[], Restore(m.pickleOrder, m.bytes)), m.mutations, st, s.globalFrame, s.steps[st].frame)
  }

  // ---- Milestone selection ----

  /**
   * The scan's early stop loses nothing: the milestone state() picks is the
   * last one, over all milestones, whose first mutation is at or before the step.
   */
  lemma SelectedIsLast(s: RecState, step: int)
    requires Inv(s) && StateDefined(s, step)
    ensures var ms, st := Milestones(s), ClampStep(s, step);
      Qualifies(ms[Selected(s, step)], st) &&
      forall k :: Selected(s, step) < k < |ms| ==> !Qualifies(ms[k], st)
  {
    var ms, st := Milestones(s), ClampStep(s, step);
    var n := Leading(ms, st);
    forall k | n < k < |ms|
      ensures !Qualifies(ms[k], st)
    {
      assert ms[n] == s.milestones[n];
      assert |ms[n].mutations| == Threshold;
      if ms[k].mutations != [] {
        assert ms[n].mutations[0].step <= ms[k].mutations[0].step;
      }
    }
  }

  // ---- Restoring the snapshot ----

  /** With no object dumped twice, each id of the pickle order gets its own dump back. */
  lemma {:induction false} RestoreAt(order: seq<ObjId>, bytes: seq<ObjState>)
    requires |bytes| == |order| && NoDup(order)
    ensures Restore(order, bytes).Keys == set i | 0 <= i < |order| :: order[i]
    ensures forall i :: 0 <= i < |order| ==> Restore(order, bytes)[order[i]] == bytes[i]
  {
    if order != [] {
      var n := |order| - 1;
      RestoreAt(order[..n], bytes[..n]);
      assert (set i | 0 <= i < |order| :: order[i]) == (set i | 0 <= i < n :: order[..n][i]) + {order[n]};
    }
  }

  // ---- Replaying mutations ----

  /** The mutations the replay loop reaches: the longest prefix stamped at or before the step. */
  function Upto(muts: seq<Mutation>, step: int): (p: seq<Mutation>)
    ensures |p| <= |muts| && p == muts[..|p|]
  {
    if muts == [] || muts[0].step > step then [] else [muts[0]] + Upto(muts[1..], step)
  }

  ghost predicate Sorted(muts: seq<Mutation>) {
    forall i, j :: 0 <= i <= j < |muts| ==> muts[i].step <= muts[j].step
  }

  /** On a log whose stamps never decrease, the loop reaches exactly the mutations stamped at or before the step. */
  lemma {:induction false} UptoSorted(muts: seq<Mutation>, step: int)
    requires Sorted(muts)
    ensures forall i :: 0 <= i < |muts| ==> (i < |Upto(muts, step)| <==> muts[i].step <= step)
  {
    if muts != [] && muts[0].step <= step {
      UptoSorted(muts[1..], step);
      forall i | 0 < i < |muts|
        ensures (i < |Upto(muts, step)| <==> muts[i].step <= step)
      {
        assert muts[i] == muts[1..][i - 1];
      }
    }
  }

  /** Replaying a whole sequence, as a fold from the left. */
  function ReplayAll(env: Env, muts: seq<Mutation>, globalFrame: Ptr, frame: Ptr): Env {
    if muts == [] then env
    else Apply(ReplayAll(env, muts[..|muts| - 1], globalFrame, frame), muts[|muts| - 1], globalFrame, frame)
  }

  lemma {:induction false} ReplayAllCons(env: Env, m: Mutation, muts: seq<Mutation>, globalFrame: Ptr, frame: Ptr)
    ensures ReplayAll(env, [m] + muts, globalFrame, frame)
         == ReplayAll(Apply(env, m, globalFrame, frame), muts, globalFrame, frame)
    decreases |muts|
  {
    if muts != [] {
      var n := |muts| - 1;
      assert ([m] + muts)[..|muts|] == [m] + muts[..n];
      ReplayAllCons(env, m, muts[..n], globalFrame, frame);
    }
  }

  /** The replay loop is the fold over the mutations it reaches. */
  lemma {:induction false} ReplayCut(env: Env, muts: seq<Mutation>, step: int, globalFrame: Ptr, frame: Ptr)
    ensures ReplayF(env, muts, step, globalFrame, frame) == ReplayAll(env, Upto(muts, step), globalFrame, frame)
    decreases |muts|
  {
    if muts != [] && muts[0].step <= step {
      ReplayCut(Apply(env, muts[0], globalFrame, frame), muts[1..], step, globalFrame, frame);
      ReplayAllCons(env, muts[0], Upto(muts[1..], step), globalFrame, frame);
    }
  }

  /** Replay never adds or drops a restored object: it only updates those the snapshot restored. */
  lemma {:induction false} ReplayKeepsObjects(env: Env, muts: seq<Mutation>, globalFrame: Ptr, frame: Ptr)
    ensures ReplayAll(env, muts, globalFrame, frame).objects.Keys == env.objects.Keys
  {
    if muts != [] {
      ReplayKeepsObjects(env, muts[..|muts| - 1], globalFrame, frame);
    }
  }

  /** `m` binds the name `n` in the globals dict of the replay. */
  predicate BindsGlobal(m: Mutation, globalFrame: Ptr, n: Ptr) {
    var op := m.op as int;
    m.b == n && (op == STORE_GLOBAL || ((op == STORE_FAST || op == STORE_NAME) && m.a == globalFrame))
  }

  /** `m` binds the name `n` in the locals dict of the replay for `frame`. */
  predicate BindsLocal(m: Mutation, globalFrame: Ptr, frame: Ptr, n: Ptr) {
    var op := m.op as int;
    m.b == n && (op == STORE_FAST || op == STORE_NAME) && m.a != globalFrame && m.a == frame
  }

  /** One mutation binds `n` in globals exactly when BindsGlobal says so, and touches no other global. */
  lemma ApplyGlobal(env: Env, m: Mutation, globalFrame: Ptr, frame: Ptr, n: Ptr)
    ensures var r := Apply(env, m, globalFrame, frame);
      && r.objects.Keys == env.objects.Keys
      && (BindsGlobal(m, globalFrame, n) ==> n in r.globals && r.globals[n] == Resolve(env.objects, m.c))
      && (!BindsGlobal(m, globalFrame, n) ==> (n in r.globals <==> n in env.globals) && (n in env.globals ==> r.globals[n] == env.globals[n]))
  {
  }

  /** One mutation binds `n` in locals exactly when BindsLocal says so, and touches no other local. */
  lemma ApplyLocal(env: Env, m: Mutation, globalFrame: Ptr, frame: Ptr, n: Ptr)
    ensures var r := Apply(env, m, globalFrame, frame);
      && r.objects.Keys == env.objects.Keys
      && (BindsLocal(m, globalFrame, frame, n) ==> n in r.locals && r.locals[n] == Resolve(env.objects, m.c))
      && (!BindsLocal(m, globalFrame, frame, n) ==> (n in r.locals <==> n in env.locals) && (n in env.locals ==> r.locals[n] == env.locals[n]))
  {
  }

  /** Replayed globals: a name is bound if and only if it was bound before or some replayed mutation binds it there. */
  lemma {:induction false} ReplayGlobalBound(env: Env, muts: seq<Mutation>, globalFrame: Ptr, frame: Ptr, n: Ptr)
    ensures n in ReplayAll(env, muts, globalFrame, frame).globals <==>
      n in env.globals || exists i :: 0 <= i < |muts| && BindsGlobal(muts[i], globalFrame, n)
  {
    if muts != [] {
      var k := |muts| - 1;
      var p := muts[..k];
      ReplayGlobalBound(env, p, globalFrame, frame, n);
      ApplyGlobal(ReplayAll(env, p, globalFrame, frame), muts[k], globalFrame, frame, n);
      if !BindsGlobal(muts[k], globalFrame, n) {
        if exists i :: 0 <= i < k && BindsGlobal(p[i], globalFrame, n) {
          var i :| 0 <= i < k && BindsGlobal(p[i], globalFrame, n);
          assert muts[i] == p[i];
        }
        if exists i :: 0 <= i < |muts| && BindsGlobal(muts[i], globalFrame, n) {
          var i :| 0 <= i < |muts| && BindsGlobal(muts[i], globalFrame, n);
          assert i < k && p[i] == muts[i];
        }
      }
    }
  }

  /** Replayed globals, last write wins: a name gets the value of the last replayed mutation that binds it there, resolved against the restored objects. */
  lemma {:induction false} ReplayGlobalLast(env: Env, muts: seq<Mutation>, globalFrame: Ptr, frame: Ptr, n: Ptr, i: nat)
    requires i < |muts| && BindsGlobal(muts[i], globalFrame, n)
    requires forall j :: i < j < |muts| ==> !BindsGlobal(muts[j], globalFrame, n)
    ensures var r := ReplayAll(env, muts, globalFrame, frame);
      n in r.globals && r.globals[n] == Resolve(env.objects, muts[i].c)
  {
    var k := |muts| - 1;
    var p := muts[..k];
    ReplayKeepsObjects(env, p, globalFrame, frame);
    ApplyGlobal(ReplayAll(env, p, globalFrame, frame), muts[k], globalFrame, frame, n);
    if i < k {
      assert p[i] == muts[i];
      assert forall j :: i < j < k ==> p[j] == muts[j];
      ReplayGlobalLast(env, p, globalFrame, frame, n, i);
    }
  }

  /** Replayed globals: a name no replayed mutation binds there keeps the value it had before. */
  lemma {:induction false} ReplayGlobalKept(env: Env, muts: seq<Mutation>, globalFrame: Ptr, frame: Ptr, n: Ptr)
    requires n in env.globals && forall i :: 0 <= i < |muts| ==> !BindsGlobal(muts[i], globalFrame, n)
    ensures var r := ReplayAll(env, muts, globalFrame, frame);
      n in r.globals && r.globals[n] == env.globals[n]
  {
    if muts != [] {
      var k := |muts| - 1;
      var p := muts[..k];
      assert forall i :: 0 <= i < k ==> p[i] == muts[i];
      ReplayGlobalKept(env, p, globalFrame, frame, n);
      ApplyGlobal(ReplayAll(env, p, globalFrame, frame), muts[k], globalFrame, frame, n);
    }
  }

  /** Replayed locals: a name is bound if and only if it was bound before or some replayed mutation binds it there. */
  lemma {:induction false} ReplayLocalBound(env: Env, muts: seq<Mutation>, globalFrame: Ptr, frame: Ptr, n: Ptr)
    ensures n in ReplayAll(env, muts, globalFrame, frame).locals <==>
      n in env.locals || exists i :: 0 <= i < |muts| && BindsLocal(muts[i], globalFrame, frame, n)
  {
    if muts != [] {
      var k := |muts| - 1;
      var p := muts[..k];
      ReplayLocalBound(env, p, globalFrame, frame, n);
      ApplyLocal(ReplayAll(env, p, globalFrame, frame), muts[k], globalFrame, frame, n);
      if !BindsLocal(muts[k], globalFrame, frame, n) {
        if exists i :: 0 <= i < k && BindsLocal(p[i], globalFrame, frame, n) {
          var i :| 0 <= i < k && BindsLocal(p[i], globalFrame, frame, n);
          assert muts[i] == p[i];
        }
        if exists i :: 0 <= i < |muts| && BindsLocal(muts[i], globalFrame, frame, n) {
          var i :| 0 <= i < |muts| && BindsLocal(muts[i], globalFrame, frame, n);
          assert i < k && p[i] == muts[i];
        }
      }
    }
  }

  /** Replayed locals, last write wins: a name gets the value of the last replayed mutation that binds it there, resolved against the restored objects. */
  lemma {:induction false} ReplayLocalLast(env: Env, muts: seq<Mutation>, globalFrame: Ptr, frame: Ptr, n: Ptr, i: nat)
    requires i < |muts| && BindsLocal(muts[i], globalFrame, frame, n)
    requires forall j :: i < j < |muts| ==> !BindsLocal(muts[j], globalFrame, frame, n)
    ensures var r := ReplayAll(env, muts, globalFrame, frame);
      n in r.locals && r.locals[n] == Resolve(env.objects, muts[i].c)
  {
    var k := |muts| - 1;
    var p := muts[..k];
    ReplayKeepsObjects(env, p, globalFrame, frame);
    ApplyLocal(ReplayAll(env, p, globalFrame, frame), muts[k], globalFrame, frame, n);
    if i < k {
      assert p[i] == muts[i];
      assert forall j :: i < j < k ==> p[j] == muts[j];
      ReplayLocalLast(env, p, globalFrame, frame, n, i);
    }
  }

  /** Replayed locals: a name no replayed mutation binds there keeps the value it had before. */
  lemma {:induction false} ReplayLocalKept(env: Env, muts: seq<Mutation>, globalFrame: Ptr, frame: Ptr, n: Ptr)
    requires n in env.locals && forall i :: 0 <= i < |muts| ==> !BindsLocal(muts[i], globalFrame, frame, n)
    ensures var r := ReplayAll(env, muts, globalFrame, frame);
      n in r.locals && r.locals[n] == env.locals[n]
  {
    if muts != [] {
      var k := |muts| - 1;
      var p := muts[..k];
      assert forall i :: 0 <= i < k ==> p[i] == muts[i];
      ReplayLocalKept(env, p, globalFrame, frame, n);
      ApplyLocal(ReplayAll(env, p, globalFrame, frame), muts[k], globalFrame, frame, n);
    }
  }

  // ---- state() in terms of the reference definitions ----

  /**
   * What state() returns: the restored snapshot of the selected milestone, with
   * exactly the objects of its pickle order, and the fold of exactly those of
   * its mutations stamped at or before the clamped step.
   */
  lemma StateIsReplay(s: RecState, step: int)
    requires Inv(s) && StateDefined(s, step)
    ensures var st, m := ClampStep(s, step), Milestones(s)[Selected(s, step)];
      var env0 := Env(map[], map[], Restore(m.pickleOrder, m.bytes));
      && env0.objects.Keys == (set i | 0 <= i < |m.pickleOrder| :: m.pickleOrder[i])
      && StateF(s, step) == ReplayAll(env0, Upto(m.mutations, st), s.globalFrame, s.steps[st].frame)
      && StateF(s, step).objects.Keys == env0.objects.Keys
      && forall i :: 0 <= i < |m.mutations| ==> (i < |Upto(m.mutations, st)| <==> m.mutations[i].step <= st)
  {
    var st, m := ClampStep(s, step), Milestones(s)[Selected(s, step)];
    var env0 := Env(map[], map[], Restore(m.pickleOrder, m.bytes));
    var k := Selected(s, step);
    assert MilestoneOk(m);
    RestoreAt(m.pickleOrder, m.bytes);
    assert Sorted(m.mutations) by {
      forall i, j | 0 <= i <= j < |m.mutations|
        ensures m.mutations[i].step <= m.mutations[j].step
      {
        assert Milestones(s)[k].mutations[i].step <= Milestones(s)[k].mutations[j].step;
      }
    }
    UptoSorted(m.mutations, st);
    ReplayCut(env0, m.mutations, st, s.globalFrame, s.steps[st].frame);
    ReplayKeepsObjects(env0, Upto(m.mutations, st), s.globalFrame, s.steps[st].frame);
  }

  // ---- The replay as written in the source ----

  /**
   * A mutation whose target has no restored copy: for STORE_ATTR and
   * STORE_SUBSCR the source looks the target up in the restored objects and
   * passes the NULL it gets for a missing one straight to the setter.
   */
  predicate DerefsNull(restored: set<ObjId>, m: Mutation) {
    (m.op as int == STORE_ATTR || m.op as int == STORE_SUBSCR) && !(m.a.Addr? && m.a.id in restored)
  }

  /** Some mutation the replay loop reaches stores into an object without a restored copy. */
  predicate ReachesNull(restored: set<ObjId>, muts: seq<Mutation>, step: int)
    decreases |muts|
  {
    muts != [] && muts[0].step <= step && (DerefsNull(restored, muts[0]) || ReachesNull(restored, muts[1..], step))
  }

  /** The replay loop as written: `None` where it would hand a NULL target to the setter. */
  function ReplayAsWritten(env: Env, muts: seq<Mutation>, step: int, globalFrame: Ptr, frame: Ptr): Option<Env>
    decreases |muts|
  {
    if muts == [] || muts[0].step > step then Some(env)
    else if DerefsNull(env.objects.Keys, muts[0]) then None
    else ReplayAsWritten(Apply(env, muts[0], globalFrame, frame), muts[1..], step, globalFrame, frame)
  }

  /** Recording_state as written. */
  function StateAsWritten(s: RecState, step: int): Option<Env>
    requires Inv(s) && StateDefined(s, step)
  {
    var st := ClampStep(s, step);
    var m := Milestones(s)[Selected(s, step)];
    assert MilestoneOk(m);
    ReplayAsWritten(Env(map[], map[], Restore(m.pickleOrder, m.bytes)), m.mutations, st, s.globalFrame, s.steps[st].frame)
  }

  /** Some mutation of `ms` stores into an object without a restored copy. */
  predicate AnyNull(restored: set<ObjId>, ms: seq<Mutation>) {
    exists i :: 0 <= i < |ms| && DerefsNull(restored, ms[i])
  }

  /** The loop reaches a NULL target exactly when one of the mutations stamped up to the step has one. */
  lemma {:induction false} ReachesNullIff(restored: set<ObjId>, muts: seq<Mutation>, step: int)
    ensures ReachesNull(restored, muts, step) <==> AnyNull(restored, Upto(muts, step))
    decreases |muts|
  {
    var u := Upto(muts, step);
    if muts != [] && muts[0].step <= step {
      ReachesNullIff(restored, muts[1..], step);
      var u1 := Upto(muts[1..], step);
      assert u == [muts[0]] + u1;
      if ReachesNull(restored, muts, step) {
        if DerefsNull(restored, muts[0]) {
          assert DerefsNull(restored, u[0]);
        } else {
          var i :| 0 <= i < |u1| && DerefsNull(restored, u1[i]);
          assert DerefsNull(restored, u[i + 1]);
        }
      } else {
        forall i | 0 <= i < |u|
          ensures !DerefsNull(restored, u[i])
        {
          if i > 0 {
            assert u[i] == u1[i - 1];
          }
        }
      }
    } else {
      assert u == [];
    }
  }

  /**
   * The source and the corrected replay agree unless the loop reaches a
   * mutation storing into an object without a restored copy; then the source fails.
   */
  lemma {:induction false} AsWrittenAgrees(env: Env, muts: seq<Mutation>, step: int, globalFrame: Ptr, frame: Ptr)
    ensures ReplayAsWritten(env, muts, step, globalFrame, frame) ==
      if ReachesNull(env.objects.Keys, muts, step) then None else Some(ReplayF(env, muts, step, globalFrame, frame))
    decreases |muts|
  {
    if muts != [] && muts[0].step <= step && !DerefsNull(env.objects.Keys, muts[0]) {
      var env1 := Apply(env, muts[0], globalFrame, frame);
      assert env1.objects.Keys == env.objects.Keys;
      AsWrittenAgrees(env1, muts[1..], step, globalFrame, frame);
    }
  }
}

/**
 * A recorded STORE_ATTR on an object whose pickle dump failed.
 *
 * track_object (recording.cpp:157-178) marks an object tracked before it
 * tries to dump it, and appends it to the pickle order only if the dump
 * succeeded.  Execorder_Mutate (execorder.cpp:174-177) records a store into
 * any tracked object.  Recording_state (recording.cpp:93-98) then looks the
 * target up among the restored objects and hands what it finds, NULL for an
 * object that was never dumped, to PyObject_SetAttr or PyObject_SetItem.
 */
module NullTarget {
  import opened Wrappers
  import opened Host
  import opened Opcodes
  import opened RecordingTypes
  import opened Tracking
  import opened RecordLog
  import opened Replay
  import opened Execorder

  /** Tracking never appends an object whose dump fails to the pickle order. */
  lemma TrackSkipsUnpicklable(h: Heap, t: Tracker, p: Ptr, x: ObjId)
    requires h.Valid() && h.Live(p) && x !in h.picklable && x !in t.order
    ensures x !in Track(h, t, p).order
  {
    TrackGrows(h, t, p);
    OnlyDumpedAppended(h, t, Track(h, t, p), x);
  }

  lemma OnlyDumpedAppended(h: Heap, t: Tracker, r: Tracker, x: ObjId)
    requires OrderExtends(t, r) && AppendedDumped(h, t, r)
    requires x !in h.picklable && x !in t.order
    ensures x !in r.order
  {
    var n := Appended(t, r);
    assert forall i :: 0 <= i < |n| ==> n[i] in h.picklable;
    assert r.order == t.order + n;
  }

  /** No recorded event puts an object whose dump fails into the active pickle order. */
  lemma RecordSkipsUnpicklable(h: Heap, s: RecState, event: int, a: Ptr, b: Ptr, c: Ptr, x: ObjId)
    requires h.Valid() && RecordArgsOk(h, event, a, b, c)
    requires x !in h.picklable && x !in s.pickleOrder
    ensures x !in RecordF(h, s, event, a, b, c).pickleOrder
  {
    var s1 := if IsNameStore(event) then TrackInto(h, s, c) else s;
    if IsNameStore(event) {
      TrackSkipsUnpicklable(h, TrackerOf(s), c, x);
    }
    if IsStore(event) {
      TrackSkipsUnpicklable(h, TrackerOf(s1), b, x);
    }
  }

  /** A store below the threshold appends its mutation to the active log and untracks nothing. */
  lemma StoreStep(h: Heap, s: RecState, event: int, a: Ptr, b: Ptr, c: Ptr)
    requires h.Valid() && RecordArgsOk(h, event, a, b, c) && Inv(s)
    requires IsStore(event) && |s.mutations| + 1 < Threshold
    ensures var r := RecordF(h, s, event, a, b, c);
      && Inv(r) && r.steps == s.steps && r.milestones == s.milestones && r.newMilestone == s.newMilestone
      && r.mutations == s.mutations + [Mutation(|s.steps|, event as Byte, a, b, c)]
      && s.tracked <= r.tracked && r.globalFrame == s.globalFrame
  {
    RecordEffect(h, s, event, a, b, c);
    RecordRollover(h, s, event, a, b, c);
    var s1 := if IsNameStore(event) then TrackInto(h, s, c) else s;
    assert s.tracked <= s1.tracked;
    assert s1.tracked <= TrackInto(h, s1, b).tracked;
  }

  /** A name store tracks its value. */
  lemma NameStoreTracks(h: Heap, s: RecState, event: int, a: Ptr, b: Ptr, x: ObjId)
    requires h.Valid() && RecordArgsOk(h, event, a, b, Addr(x)) && Inv(s)
    requires IsNameStore(event) && |s.mutations| + 1 < Threshold && x !in h.modules
    ensures x in RecordF(h, s, event, a, b, Addr(x)).tracked
  {
    var s1 := TrackInto(h, s, Addr(x));
    assert x in s1.tracked;
    assert s1.tracked <= TrackInto(h, s1, b).tracked;
  }

  // ---- A recorded program ----

  /**
   * The program
   *
   *     def g():
   *         f = lambda: 0
   *         f.x = 1
   *     g()
   *
   * as the host sees it.  `m` is the module frame; its locals are its
   * globals, which hold only `__builtins__` (the name `bn` bound to `bm`,
   * the builtins dict PyEval_GetBuiltins gives; nothing here depends on what
   * kind of object it is).  `g` is the frame of the call: its caller is `m`, its code
   * comes from the same registered file, its co_varnames is `(f,)` and it
   * has no locals when it is called.  `x` is the lambda: not a module, and
   * its dump fails.  `xn` is the attribute name `x`, `one` the constant 1.
   */
  datatype Scene = Scene(m: ObjId, g: ObjId, bn: Ptr, bm: ObjId, x: ObjId, xn: Ptr, one: Ptr)

  ghost predicate SceneOk(h: Heap, sc: Scene) {
    && h.Valid() && sc.m in h.frames && sc.g in h.frames && sc.m != sc.g
    && h.frames[sc.m].globals == [Entry(sc.bn, Addr(sc.bm))] && h.frames[sc.m].locals == h.frames[sc.m].globals
    && h.frames[sc.g].back == Addr(sc.m) && h.frames[sc.g].filename == h.frames[sc.m].filename
    && |h.frames[sc.g].varnames| == 1 && h.frames[sc.g].varnames[0].Addr? && h.frames[sc.g].locals == []
    && sc.x in h.children && sc.x !in h.modules && sc.x !in h.picklable
    && h.Live(sc.xn) && h.Live(sc.one)
  }

  /**
   * A call Recording_record receives: from trace, an event of a frame (with
   * the sweep trace may do first); from Execorder_Mutate, a store with its
   * operands as check_const returned them.
   */
  datatype Event = Traced(frame: Ptr, what: int) | Recorded(event: int, a: Ptr, b: Ptr, c: Ptr)

  predicate EventOk(h: Heap, e: Event) {
    match e
    case Traced(frame, _) => h.IsFrame(frame)
    case Recorded(event, a, b, c) => RecordArgsOk(h, event, a, b, c)
  }

  function Deliver(h: Heap, s: RecState, e: Event): RecState
    requires h.Valid() && EventOk(h, e)
  {
    match e
    case Traced(frame, what) => TraceF(h, s, frame, what)
    case Recorded(event, a, b, c) => RecordF(h, s, event, a, b, c)
  }

  /** The recording after the events, in order. */
  function DeliverAll(h: Heap, s: RecState, es: seq<Event>): RecState
    requires h.Valid() && forall i :: 0 <= i < |es| ==> EventOk(h, es[i])
    decreases |es|
  {
    if es == [] then s else DeliverAll(h, Deliver(h, s, es[0]), es[1..])
  }

  lemma {:induction false} DeliverAllAppend(h: Heap, s: RecState, a: seq<Event>, b: seq<Event>)
    requires h.Valid() && (forall i :: 0 <= i < |a| ==> EventOk(h, a[i])) && (forall i :: 0 <= i < |b| ==> EventOk(h, b[i]))
    ensures forall i :: 0 <= i < |a + b| ==> EventOk(h, (a + b)[i])
    ensures DeliverAll(h, s, a + b) == DeliverAll(h, DeliverAll(h, s, a), b)
    decreases |a|
  {
    assert forall i :: 0 <= i < |a + b| ==> EventOk(h, (a + b)[i]) by {
      forall i | 0 <= i < |a + b| ensures EventOk(h, (a + b)[i]) {
        if i < |a| { assert (a + b)[i] == a[i]; } else { assert (a + b)[i] == b[i - |a|]; }
      }
    }
    if a == [] {
      assert a + b == b;
    } else {
      assert (a + b)[0] == a[0] && (a + b)[1..] == a[1..] + b;
      DeliverAllAppend(h, Deliver(h, s, a[0]), a[1..], b);
    }
  }

  lemma DeliverOne(h: Heap, s: RecState, e: Event)
    requires h.Valid() && EventOk(h, e)
    ensures DeliverAll(h, s, [e]) == Deliver(h, s, e)
  {
    assert [e][1..] == [];
  }

  /**
   * A recording in its first milestone after the first sweep: no rollover
   * and no pending sweep, the module frame is the global frame, the log
   * starts at stamp 0, and the lambda is not in the pickle order.
   */
  ghost predicate Early(s: RecState, sc: Scene) {
    && Inv(s) && s.milestones == [] && !s.newMilestone && s.globalFrame == Addr(sc.m)
    && sc.x !in s.pickleOrder && s.mutations != [] && s.mutations[0].step == 0
  }

  /**
   * The sweep at the module's call: the module's locals are its globals and
   * the position carries over, so `__builtins__` is recorded once.
   */
  lemma ModuleSweep(h: Heap, sc: Scene)
    requires SceneOk(h, sc)
    ensures var s1 := Fresh().(globalFrame := Addr(sc.m));
      && h.Live(sc.bn) && h.Live(Addr(sc.bm))
      && SweepStage(h, s1, Addr(sc.m), CALL)
         == RecordF(h, s1.(newMilestone := false), STORE_NAME, Addr(sc.m), sc.bn, Addr(sc.bm))
  {
    var M := Addr(sc.m);
    var gl := h.frames[sc.m].globals;
    assert h.FrameOk(h.frames[sc.m]);
    assert h.Live(gl[0].key) && h.Live(gl[0].value);
    SweepVisits(gl, gl);
    assert From(gl, 1) == [];
    assert From(gl, 0) == [(sc.bn, Addr(sc.bm))];
    var es := SweepFrom(Dicts(h.frames[sc.m], true), 0);
    assert es == [(sc.bn, Addr(sc.bm))];
    var s0 := Fresh().(globalFrame := M, newMilestone := false);
    RecordEntriesCons(h, s0, M, es);
    assert es[1..] == [];
  }

  /** The sweep at the module's call leaves a recording in its first milestone with `__builtins__` logged. */
  lemma ModuleSwept(h: Heap, sc: Scene)
    requires SceneOk(h, sc)
    ensures var s2 := SweepStage(h, Fresh().(globalFrame := Addr(sc.m)), Addr(sc.m), CALL);
      && Early(s2, sc) && s2.steps == []
      && s2.mutations == [Mutation(0, STORE_NAME as Byte, Addr(sc.m), sc.bn, Addr(sc.bm))]
  {
    var M := Addr(sc.m);
    ModuleSweep(h, sc);
    var s0 := Fresh().(globalFrame := M, newMilestone := false);
    assert Milestones(s0) == Milestones(Fresh());
    StoreStep(h, s0, STORE_NAME, M, sc.bn, Addr(sc.bm));
    RecordSkipsUnpicklable(h, s0, STORE_NAME, M, sc.bn, Addr(sc.bm), sc.x);
  }

  /**
   * The call of the module: its frame becomes the global frame, the sweep at
   * the new milestone records `__builtins__`, and the call is the first step.
   */
  lemma FirstCall(h: Heap, sc: Scene)
    requires SceneOk(h, sc)
    ensures var r := Deliver(h, Fresh(), Traced(Addr(sc.m), CALL));
      && Early(r, sc) && |r.steps| == 1
      && r.mutations == [Mutation(0, STORE_NAME as Byte, Addr(sc.m), sc.bn, Addr(sc.bm))]
  {
    var M := Addr(sc.m);
    ModuleSwept(h, sc);
    StepEffect(h, SweepStage(h, Fresh().(globalFrame := M), M, CALL), CALL, M, Null, Null);
  }

  /**
   * A trace event once the global frame is set and no sweep is pending: a
   * call sweeps the frame's locals, here none, and the event adds its step
   * and nothing else.
   */
  lemma QuietTrace(h: Heap, s: RecState, frame: Ptr, what: int)
    requires h.Valid() && h.IsFrame(frame) && IsTraceEvent(what) && Inv(s)
    requires s.globalFrame.Addr? && !s.newMilestone
    requires what == CALL ==> h.frames[frame.id].locals == []
    ensures var r := TraceF(h, s, frame, what);
      r == s.(steps := s.steps + [Step(h.frames[frame.id].lineno, what, frame)]) && Inv(r)
  {
    if what == CALL {
      SweepVisits(h.frames[frame.id].locals, []);
      assert SweepFrom(Dicts(h.frames[frame.id], false), 0) == [];
      assert s.(newMilestone := false) == s;
    }
    assert SweepStage(h, s, frame, what) == s;
    StepEffect(h, s, what, frame, Null, Null);
  }

  /** Trace events that sweep nothing: no pending sweep, and a called frame without locals. */
  predicate Quiet(h: Heap, es: seq<Event>) {
    forall i :: 0 <= i < |es| ==>
      && es[i].Traced? && h.IsFrame(es[i].frame) && IsTraceEvent(es[i].what)
      && (es[i].what == CALL ==> h.frames[es[i].frame.id].locals == [])
  }

  lemma {:induction false} QuietTraces(h: Heap, s: RecState, es: seq<Event>, sc: Scene)
    requires h.Valid() && Quiet(h, es) && Early(s, sc)
    ensures forall i :: 0 <= i < |es| ==> EventOk(h, es[i])
    ensures var r := DeliverAll(h, s, es);
      Early(r, sc) && |r.steps| == |s.steps| + |es| && r.mutations == s.mutations && r.tracked == s.tracked
    decreases |es|
  {
    if es != [] {
      QuietTrace(h, s, es[0].frame, es[0].what);
      var s1 := Deliver(h, s, es[0]);
      assert Quiet(h, es[1..]) by {
        forall i | 0 <= i < |es[1..]| ensures es[1..][i] == es[i + 1] {}
      }
      QuietTraces(h, s1, es[1..], sc);
    }
  }

  /**
   * `f = lambda: 0` in g: Execorder_Mutate reports STORE_FAST under the name
   * co_varnames[0] with the lambda, and Recording_record tracks the lambda
   * but cannot dump it.
   */
  lemma BindStage(h: Heap, s: RecState, sc: Scene)
    requires SceneOk(h, sc) && Early(s, sc) && |s.mutations| + 1 < Threshold
    ensures var fn := h.frames[sc.g].varnames[0];
      var r := Deliver(h, s, Recorded(STORE_FAST, Addr(sc.g), fn, Addr(sc.x)));
      && Early(r, sc) && sc.x in r.tracked && r.steps == s.steps
      && r.mutations == s.mutations + [Mutation(|s.steps|, STORE_FAST as Byte, Addr(sc.g), fn, Addr(sc.x))]
  {
    var fn := h.frames[sc.g].varnames[0];
    assert h.FrameOk(h.frames[sc.g]);
    StoreStep(h, s, STORE_FAST, Addr(sc.g), fn, Addr(sc.x));
    NameStoreTracks(h, s, STORE_FAST, Addr(sc.g), fn, sc.x);
    RecordSkipsUnpicklable(h, s, STORE_FAST, Addr(sc.g), fn, Addr(sc.x), sc.x);
  }

  /** `f.x = 1`: the store into the tracked lambda goes into the log. */
  lemma AttrStage(h: Heap, s: RecState, sc: Scene, k: Ptr)
    requires SceneOk(h, sc) && Early(s, sc) && h.Live(k) && |s.mutations| + 1 < Threshold
    ensures var r := Deliver(h, s, Recorded(STORE_ATTR, Addr(sc.x), k, sc.one));
      && Early(r, sc) && r.steps == s.steps
      && r.mutations == s.mutations + [Mutation(|s.steps|, STORE_ATTR as Byte, Addr(sc.x), k, sc.one)]
  {
    StoreStep(h, s, STORE_ATTR, Addr(sc.x), k, sc.one);
    RecordSkipsUnpicklable(h, s, STORE_ATTR, Addr(sc.x), k, sc.one, sc.x);
  }

  /**
   * state(step) on a recording still in its first milestone, when a
   * mutation stamped at or before the step stores an attribute of the
   * lambda: the source's replay reaches it with no restored object.
   */
  lemma ReplayFails(s: RecState, sc: Scene, i: nat, step: int)
    requires Early(s, sc) && 0 <= step < |s.steps| && i < |s.mutations|
    requires s.mutations[i].op as int == STORE_ATTR && s.mutations[i].a == Addr(sc.x) && s.mutations[i].step <= step
    ensures StateDefined(s, step) && StateAsWritten(s, step) == None
  {
    var ms := Milestones(s);
    var m := Active(s);
    assert ms == [m] && ms[1..] == [];
    assert ClampStep(s, step) == step;
    assert Qualifies(ms[0], step);
    assert Leading(ms, step) == 1;
    assert Sorted(m.mutations) by {
      assert StampsOrdered(ms);
      forall a, b | 0 <= a <= b < |m.mutations| ensures m.mutations[a].step <= m.mutations[b].step {
        assert ms[0].mutations[a] == m.mutations[a] && ms[0].mutations[b] == m.mutations[b];
      }
    }
    RestoreAt(m.pickleOrder, m.bytes);
    var env := Env(map[], map[], Restore(m.pickleOrder, m.bytes));
    assert sc.x !in env.objects.Keys;
    UptoSorted(m.mutations, step);
    var u := Upto(m.mutations, step);
    assert i < |u| && u[i] == m.mutations[i];
    assert DerefsNull(env.objects.Keys, u[i]);
    ReachesNullIff(env.objects.Keys, m.mutations, step);
    AsWrittenAgrees(env, m.mutations, step, s.globalFrame, s.steps[step].frame);
  }

  /** The module's call, its lines 1 and 4, g's call and g's line 2. */
  function OpenEvents(sc: Scene): seq<Event> {
    [Traced(Addr(sc.m), CALL)] + [Traced(Addr(sc.m), LINE), Traced(Addr(sc.m), LINE), Traced(Addr(sc.g), CALL), Traced(Addr(sc.g), LINE)]
  }

  /** `f = lambda: 0`, reported under co_varnames[0], and g's line 3. */
  function BindEvents(h: Heap, sc: Scene, f: Ptr): seq<Event>
    requires sc.g in h.frames && |h.frames[sc.g].varnames| == 1
  {
    [Recorded(STORE_FAST, Addr(sc.g), h.frames[sc.g].varnames[0], f), Traced(Addr(sc.g), LINE)]
  }

  /** `f.x = 1` with the interned name `k`, g's return and the module's return. */
  function AttrEvents(sc: Scene, k: Ptr): seq<Event> {
    [Recorded(STORE_ATTR, Addr(sc.x), k, sc.one), Traced(Addr(sc.g), RETURN), Traced(Addr(sc.m), RETURN)]
  }

  /**
   * What trace and Execorder_Mutate hand Recording_record for the program
   * of `Scene`, from the call of the module to its return, with check_const
   * starting from the table `t0`.  Line 1 binds `g` with STORE_NAME, which
   * Execorder_Mutate does not see: the patched call sits in the error branch
   * of STORE_NAME (ceval.cpp:2154-2160).
   */
  function Script(h: Heap, sc: Scene, t0: map<int, ObjId>): seq<Event>
    requires sc.g in h.frames && |h.frames[sc.g].varnames| == 1
  {
    var fx := Intern(h, t0, Addr(sc.x));
    var kx := Intern(h, fx.table, sc.xn);
    OpenEvents(sc) + BindEvents(h, sc, fx.obj) + AttrEvents(sc, kx.obj)
  }

  /** The module's call as a script of one event. */
  lemma OpeningCall(h: Heap, sc: Scene)
    requires SceneOk(h, sc)
    ensures EventOk(h, Traced(Addr(sc.m), CALL))
    ensures var s := DeliverAll(h, Fresh(), [Traced(Addr(sc.m), CALL)]);
      Early(s, sc) && |s.steps| == 1 && |s.mutations| == 1
  {
    DeliverOne(h, Fresh(), Traced(Addr(sc.m), CALL));
    FirstCall(h, sc);
  }

  /** The module's lines 1 and 4, g's call and g's line 2 sweep nothing and add four steps. */
  lemma OpeningLines(h: Heap, sc: Scene, s: RecState)
    requires SceneOk(h, sc) && Early(s, sc)
    ensures var q := OpenEvents(sc)[1..];
      && (forall i :: 0 <= i < |q| ==> EventOk(h, q[i]))
      && var r := DeliverAll(h, s, q);
      && Early(r, sc) && |r.steps| == |s.steps| + 4 && r.mutations == s.mutations
  {
    var q := OpenEvents(sc)[1..];
    assert Quiet(h, q);
    QuietTraces(h, s, q, sc);
  }

  /** The module's call, its two lines, g's call and its line 2. */
  lemma Opening(h: Heap, sc: Scene)
    requires SceneOk(h, sc)
    ensures var es := OpenEvents(sc);
      && (forall i :: 0 <= i < |es| ==> EventOk(h, es[i]))
      && var s := DeliverAll(h, Fresh(), es);
      && Early(s, sc) && |s.steps| == 5 && |s.mutations| == 1
  {
    var e := [Traced(Addr(sc.m), CALL)];
    OpeningCall(h, sc);
    OpeningLines(h, sc, DeliverAll(h, Fresh(), e));
    assert OpenEvents(sc) == e + OpenEvents(sc)[1..];
    DeliverAllAppend(h, Fresh(), e, OpenEvents(sc)[1..]);
  }

  /** `f = lambda: 0` and line 3: the lambda is now tracked. */
  lemma Binding(h: Heap, sc: Scene, s: RecState)
    requires SceneOk(h, sc) && Early(s, sc) && |s.steps| == 5 && |s.mutations| == 1
    ensures var es := BindEvents(h, sc, Addr(sc.x));
      && (forall i :: 0 <= i < |es| ==> EventOk(h, es[i]))
      && var r := DeliverAll(h, s, es);
      && Early(r, sc) && sc.x in r.tracked && |r.steps| == 6 && |r.mutations| == 2
  {
    assert h.FrameOk(h.frames[sc.g]);
    var bind := Recorded(STORE_FAST, Addr(sc.g), h.frames[sc.g].varnames[0], Addr(sc.x));
    var q2 := [Traced(Addr(sc.g), LINE)];
    BindStage(h, s, sc);
    DeliverOne(h, s, bind);
    QuietTraces(h, DeliverAll(h, s, [bind]), q2, sc);
    DeliverAllAppend(h, s, [bind], q2);
  }

  /** From `f.x = 1` on: the store, g's return and the module's return. */
  lemma Closing(h: Heap, sc: Scene, s: RecState, k: Ptr)
    requires SceneOk(h, sc) && Early(s, sc) && h.Live(k) && |s.steps| == 6 && |s.mutations| == 2
    ensures var es := AttrEvents(sc, k);
      && (forall i :: 0 <= i < |es| ==> EventOk(h, es[i]))
      && var r := DeliverAll(h, s, es);
      && Early(r, sc) && |r.steps| == 8 && |r.mutations| == 3
      && r.mutations[2] == Mutation(6, STORE_ATTR as Byte, Addr(sc.x), k, sc.one)
  {
    var attr := Recorded(STORE_ATTR, Addr(sc.x), k, sc.one);
    var q3 := [Traced(Addr(sc.g), RETURN), Traced(Addr(sc.m), RETURN)];
    AttrStage(h, s, sc, k);
    DeliverOne(h, s, attr);
    QuietTraces(h, DeliverAll(h, s, [attr]), q3, sc);
    DeliverAllAppend(h, s, [attr], q3);
  }

  /** The first two parts in one: by g's line 3 the lambda is tracked. */
  lemma UpToAttribute(h: Heap, sc: Scene)
    requires SceneOk(h, sc)
    ensures var es := OpenEvents(sc) + BindEvents(h, sc, Addr(sc.x));
      && (forall i :: 0 <= i < |es| ==> EventOk(h, es[i]))
      && var s := DeliverAll(h, Fresh(), es);
      && Early(s, sc) && sc.x in s.tracked && |s.steps| == 6 && |s.mutations| == 2
  {
    Opening(h, sc);
    Binding(h, sc, DeliverAll(h, Fresh(), OpenEvents(sc)));
    DeliverAllAppend(h, Fresh(), OpenEvents(sc), BindEvents(h, sc, Addr(sc.x)));
  }

  /** The whole program with the attribute name `k`: the attribute store is stamped 6. */
  lemma WholeProgram(h: Heap, sc: Scene, k: Ptr)
    requires SceneOk(h, sc) && h.Live(k)
    ensures var es := OpenEvents(sc) + BindEvents(h, sc, Addr(sc.x)) + AttrEvents(sc, k);
      && (forall i :: 0 <= i < |es| ==> EventOk(h, es[i]))
      && var s := DeliverAll(h, Fresh(), es);
      && Early(s, sc) && |s.steps| == 8 && |s.mutations| == 3 && s.mutations[2] == Mutation(6, STORE_ATTR as Byte, Addr(sc.x), k, sc.one)
  {
    var a := OpenEvents(sc) + BindEvents(h, sc, Addr(sc.x));
    UpToAttribute(h, sc);
    Closing(h, sc, DeliverAll(h, Fresh(), a), k);
    DeliverAllAppend(h, Fresh(), a, AttrEvents(sc, k));
  }

  /**
   * Recording the program of `Scene` from a fresh recording: when `f.x = 1`
   * runs, the lambda is tracked, so Execorder_Mutate records the store
   * (execorder.cpp:175); afterwards state(6), the step of g's return, makes
   * the source hand a NULL target to PyObject_SetAttr.
   */
  lemma LambdaAttributeFails(h: Heap, sc: Scene, t0: map<int, ObjId>)
    requires SceneOk(h, sc) && TableOk(h, t0) && (sc.x in h.hashKey ==> h.hashKey[sc.x] !in t0)
    ensures forall i :: 0 <= i < |Script(h, sc, t0)| ==> EventOk(h, Script(h, sc, t0)[i])
    ensures sc.x in DeliverAll(h, Fresh(), Script(h, sc, t0)[..7]).tracked
    ensures var s := DeliverAll(h, Fresh(), Script(h, sc, t0));
      Inv(s) && StateDefined(s, 6) && StateAsWritten(s, 6) == None
  {
    var fx := Intern(h, t0, Addr(sc.x));
    InternSameValue(h, t0, Addr(sc.x));
    InternSameValue(h, fx.table, sc.xn);
    var k := Intern(h, fx.table, sc.xn).obj;
    var a := OpenEvents(sc) + BindEvents(h, sc, Addr(sc.x));
    assert Script(h, sc, t0) == a + AttrEvents(sc, k);
    assert Script(h, sc, t0)[..7] == a;
    UpToAttribute(h, sc);
    WholeProgram(h, sc, k);
    ReplayFails(DeliverAll(h, Fresh(), a + AttrEvents(sc, k)), sc, 2, 6);
  }
}

/**
 * track_object (recording.cpp:157-178): mark an object as tracked in the
 * active milestone, dump it, and visit its children, as functions over the
 * part of the recording it updates.
 */
module Tracking {
  import opened Wrappers
  import opened Host
  import opened RecordingTypes

  /** The tracked set, the active pickle order and the active dump buffer. */
  datatype Tracker = Tracker(tracked: set<ObjId>, order: seq<ObjId>, bytes: seq<ObjState>)

  /** track_object acts only on a non-NULL object that is not a module. */
  predicate Trackable(h: Heap, p: Ptr) {
    p.Addr? && p.id !in h.modules
  }

  /** The children of an object are visited only if it dumped successfully and its type is a heap type with tp_traverse. */
  predicate Expands(h: Heap, q: ObjId) {
    q in h.picklable && q in h.heapTypes && q in h.traversable
  }

  predicate ChildOf(h: Heap, q: ObjId, parent: ObjId) {
    parent in h.children && Addr(q) in h.children[parent]
  }

  /** Every trackable child of `q` is in `tracked`. */
  ghost predicate ChildrenTracked(h: Heap, q: ObjId, tracked: set<ObjId>)
    requires q in h.children
  {
    forall k :: 0 <= k < |h.children[q]| && Trackable(h, h.children[q][k]) ==> h.children[q][k].id in tracked
  }

  /** The pickle order lists tracked objects, none twice, one dump per entry. */
  ghost predicate Consistent(t: Tracker) {
    && NoDup(t.order)
    && |t.bytes| == |t.order|
    && (forall i :: 0 <= i < |t.order| ==> t.order[i] in t.tracked)
  }

  /** The dump buffer contents for a run of objects: the state of each, in order. */
  function Dumps(h: Heap, ids: seq<ObjId>): (r: seq<ObjState>)
    requires forall i :: 0 <= i < |ids| ==> ids[i] in h.state
    ensures |r| == |ids| && forall i :: 0 <= i < |ids| ==> r[i] == h.state[ids[i]]
  {
    if ids == [] then [] else [h.state[ids[0]]] + Dumps(h, ids[1..])
  }

  /** `q` was first tracked between `t` and `r`. */
  predicate NewlyTracked(t: Tracker, r: Tracker, q: ObjId) {
    q in r.tracked && q !in t.tracked
  }

  /** The pickle order of `t` is a prefix of that of `r`. */
  ghost predicate OrderExtends(t: Tracker, r: Tracker) {
    |t.order| <= |r.order| && r.order[..|t.order|] == t.order
  }

  /** What `r` appended to the pickle order of `t`. */
  function Appended(t: Tracker, r: Tracker): seq<ObjId>
    requires |t.order| <= |r.order|
  {
    r.order[|t.order|..]
  }

  /** Appended entries were newly tracked and dumped successfully. */
  ghost predicate AppendedDumped(h: Heap, t: Tracker, r: Tracker)
    requires |t.order| <= |r.order|
  {
    forall i :: 0 <= i < |Appended(t, r)| ==>
      var q := Appended(t, r)[i]; NewlyTracked(t, r, q) && q in h.picklable && q in h.state
  }

  /** Every newly tracked object that dumped successfully was appended. */
  ghost predicate DumpedAppended(h: Heap, t: Tracker, r: Tracker)
    requires |t.order| <= |r.order|
  {
    forall q :: NewlyTracked(t, r, q) && q in h.picklable ==> q in Appended(t, r)
  }

  /**
   * From `t` to `r` nothing is untracked; the pickle order is extended, only
   * with newly tracked objects that dumped successfully, and with every one of
   * them; the buffer gains exactly their dumps, in the same order.
   */
  ghost predicate Grows(h: Heap, t: Tracker, r: Tracker) {
    && t.tracked <= r.tracked
    && OrderExtends(t, r)
    && AppendedDumped(h, t, r)
    && DumpedAppended(h, t, r)
    && r.bytes == t.bytes + Dumps(h, Appended(t, r))
    && (Consistent(t) ==> Consistent(r))
  }

  /** Every newly tracked object that expands has all its trackable children tracked. */
  ghost predicate Closed(h: Heap, t: Tracker, r: Tracker) {
    forall q :: NewlyTracked(t, r, q) && Expands(h, q) && q in h.children ==> ChildrenTracked(h, q, r.tracked)
  }

  /** `q` is the child of an object that was newly tracked and expanded. */
  ghost predicate HasNewParent(h: Heap, t: Tracker, r: Tracker, q: ObjId) {
    exists p :: NewlyTracked(t, r, p) && Expands(h, p) && ChildOf(h, q, p)
  }

  lemma RemoveOneSmaller(u: set<ObjId>, tracked: set<ObjId>, x: ObjId)
    requires x in u && x !in tracked
    ensures |u - (tracked + {x})| < |u - tracked|
  {
    assert u - (tracked + {x}) == (u - tracked) - {x};
  }

  lemma SubsetNotLarger(u: set<ObjId>, t1: set<ObjId>, t2: set<ObjId>)
    requires t1 <= t2
    ensures |u - t2| <= |u - t1|
  {
    var small, big := u - t2, u - t1;
    assert big == small + (big - small);
  }

  lemma DumpsAppend(h: Heap, a: seq<ObjId>, b: seq<ObjId>)
    requires forall i :: 0 <= i < |a| ==> a[i] in h.state
    requires forall i :: 0 <= i < |b| ==> b[i] in h.state
    ensures forall i :: 0 <= i < |a + b| ==> (a + b)[i] in h.state
    ensures Dumps(h, a + b) == Dumps(h, a) + Dumps(h, b)
  {
    assert forall i :: 0 <= i < |a + b| ==> (a + b)[i] in h.state;
  }

  lemma AppendedTrans(t: Tracker, m: Tracker, r: Tracker)
    requires OrderExtends(t, m) && OrderExtends(m, r)
    ensures OrderExtends(t, r) && Appended(t, r) == Appended(t, m) + Appended(m, r)
  {
    assert r.order[..|t.order|] == r.order[..|m.order|][..|t.order|];
  }

  lemma GrowsTrans(h: Heap, t: Tracker, m: Tracker, r: Tracker)
    requires Grows(h, t, m) && Grows(h, m, r)
    ensures Grows(h, t, r)
  {
    AppendedTrans(t, m, r);
    AppendedDumpedTrans(h, t, m, r);
    DumpedAppendedTrans(h, t, m, r);
    BytesTrans(h, t.bytes, m.bytes, r.bytes, Appended(t, m), Appended(m, r));
    ConsistentTrans(h, t, m, r);
  }

  lemma BytesTrans(h: Heap, b0: seq<ObjState>, b1: seq<ObjState>, b2: seq<ObjState>, n1: seq<ObjId>, n2: seq<ObjId>)
    requires forall i :: 0 <= i < |n1| ==> n1[i] in h.state
    requires forall i :: 0 <= i < |n2| ==> n2[i] in h.state
    requires b1 == b0 + Dumps(h, n1) && b2 == b1 + Dumps(h, n2)
    ensures forall i :: 0 <= i < |n1 + n2| ==> (n1 + n2)[i] in h.state
    ensures b2 == b0 + Dumps(h, n1 + n2)
  {
    DumpsAppend(h, n1, n2);
    AppendAssoc(b0, Dumps(h, n1), Dumps(h, n2));
  }

  lemma AppendedDumpedTrans(h: Heap, t: Tracker, m: Tracker, r: Tracker)
    requires OrderExtends(t, m) && OrderExtends(m, r) && t.tracked <= m.tracked <= r.tracked
    requires AppendedDumped(h, t, m) && AppendedDumped(h, m, r)
    requires Appended(t, r) == Appended(t, m) + Appended(m, r)
    ensures AppendedDumped(h, t, r)
  {
    var n1, n2 := Appended(t, m), Appended(m, r);
    forall i | 0 <= i < |n1 + n2|
      ensures var q := (n1 + n2)[i]; NewlyTracked(t, r, q) && q in h.picklable && q in h.state
    {
      if i < |n1| {
        assert (n1 + n2)[i] == n1[i];
      } else {
        assert (n1 + n2)[i] == n2[i - |n1|];
      }
    }
  }

  lemma DumpedAppendedTrans(h: Heap, t: Tracker, m: Tracker, r: Tracker)
    requires OrderExtends(t, m) && OrderExtends(m, r) && t.tracked <= m.tracked <= r.tracked
    requires DumpedAppended(h, t, m) && DumpedAppended(h, m, r)
    requires Appended(t, r) == Appended(t, m) + Appended(m, r)
    ensures DumpedAppended(h, t, r)
  {
    forall q | NewlyTracked(t, r, q) && q in h.picklable
      ensures q in Appended(t, r)
    {
      if q in m.tracked {
        assert q in Appended(t, m);
      } else {
        assert q in Appended(m, r);
      }
    }
  }

  lemma ConsistentTrans(h: Heap, t: Tracker, m: Tracker, r: Tracker)
    requires Grows(h, t, m) && Grows(h, m, r)
    ensures Consistent(t) ==> Consistent(r)
  {
  }

  lemma ClosedTrans(h: Heap, t: Tracker, m: Tracker, r: Tracker)
    requires Closed(h, t, m) && Closed(h, m, r) && m.tracked <= r.tracked
    ensures Closed(h, t, r)
  {
  }

  /** Marking an object that fails to dump. */
  lemma GrowsMark(h: Heap, t: Tracker, q: ObjId)
    requires q !in t.tracked && q !in h.picklable
    ensures Grows(h, t, t.(tracked := t.tracked + {q}))
  {
    var r := t.(tracked := t.tracked + {q});
    assert Appended(t, r) == [];
  }

  /** Marking and dumping an object. */
  lemma GrowsDump(h: Heap, t: Tracker, q: ObjId)
    requires q !in t.tracked && q in h.picklable && q in h.state
    ensures Grows(h, t, Tracker(t.tracked + {q}, t.order + [q], t.bytes + [h.state[q]]))
  {
    var r := Tracker(t.tracked + {q}, t.order + [q], t.bytes + [h.state[q]]);
    assert Appended(t, r) == [q];
    if Consistent(t) {
      assert forall i :: 0 <= i < |t.order| ==> r.order[i] == t.order[i];
    }
  }

  /** Each newly tracked object is `p` itself or a child of a newly tracked object that expanded. */
  ghost predicate FromRoot(h: Heap, t: Tracker, r: Tracker, p: Ptr) {
    forall q :: NewlyTracked(t, r, q) ==> Addr(q) == p || HasNewParent(h, t, r, q)
  }

  /** Each newly tracked object is one of `ps` or a child of a newly tracked object that expanded. */
  ghost predicate FromRoots(h: Heap, t: Tracker, r: Tracker, ps: seq<Ptr>) {
    forall q :: NewlyTracked(t, r, q) ==> Addr(q) in ps || HasNewParent(h, t, r, q)
  }

  /** Every trackable pointer of `ps` is tracked. */
  ghost predicate AllTracked(h: Heap, ps: seq<Ptr>, tracked: set<ObjId>) {
    forall k :: 0 <= k < |ps| && Trackable(h, ps[k]) ==> ps[k].id in tracked
  }

  /** The expanding case of Track: the dumped object's children were all tracked after it. */
  lemma ExpandStep(h: Heap, t: Tracker, p: Ptr, t2: Tracker, r: Tracker)
    requires Trackable(h, p) && p.id !in t.tracked && Expands(h, p.id) && p.id in h.children && p.id in h.state
    requires t2 == Tracker(t.tracked + {p.id}, t.order + [p.id], t.bytes + [h.state[p.id]])
    requires Grows(h, t, t2) && Grows(h, t2, r) && Closed(h, t2, r)
    requires AllTracked(h, h.children[p.id], r.tracked)
    requires FromRoots(h, t2, r, h.children[p.id])
    ensures Grows(h, t, r) && Closed(h, t, r) && FromRoot(h, t, r, p) && p.id in r.tracked
  {
    GrowsTrans(h, t, t2, r);
    forall q | NewlyTracked(t, r, q) && Expands(h, q) && q in h.children
      ensures ChildrenTracked(h, q, r.tracked)
    {
      if q != p.id {
        assert NewlyTracked(t2, r, q);
      }
    }
    forall q | NewlyTracked(t, r, q) && Addr(q) != p
      ensures HasNewParent(h, t, r, q)
    {
      assert NewlyTracked(t2, r, q);
      if Addr(q) in h.children[p.id] {
        assert ChildOf(h, q, p.id);
      } else {
        var pp :| NewlyTracked(t2, r, pp) && Expands(h, pp) && ChildOf(h, q, pp);
        assert NewlyTracked(t, r, pp);
      }
    }
  }

  /** The sequencing case of TrackAll. */
  lemma SequenceStep(h: Heap, t: Tracker, ps: seq<Ptr>, t1: Tracker, r: Tracker)
    requires ps != []
    requires Grows(h, t, t1) && Closed(h, t, t1) && FromRoot(h, t, t1, ps[0])
    requires Trackable(h, ps[0]) ==> ps[0].id in t1.tracked
    requires Grows(h, t1, r) && Closed(h, t1, r) && FromRoots(h, t1, r, ps[1..])
    requires AllTracked(h, ps[1..], r.tracked)
    ensures Grows(h, t, r) && Closed(h, t, r) && FromRoots(h, t, r, ps) && AllTracked(h, ps, r.tracked)
  {
    GrowsTrans(h, t, t1, r);
    ClosedTrans(h, t, t1, r);
    forall k | 0 <= k < |ps| && Trackable(h, ps[k])
      ensures ps[k].id in r.tracked
    {
      if k > 0 {
        assert ps[k] == ps[1..][k - 1];
      }
    }
    forall q | NewlyTracked(t, r, q) && Addr(q) !in ps
      ensures HasNewParent(h, t, r, q)
    {
      if q in t1.tracked {
        var pp :| NewlyTracked(t, t1, pp) && Expands(h, pp) && ChildOf(h, q, pp);
        assert NewlyTracked(t, r, pp);
      } else {
        assert Addr(q) !in ps[1..];
        var pp :| NewlyTracked(t1, r, pp) && Expands(h, pp) && ChildOf(h, q, pp);
        assert NewlyTracked(t, r, pp);
      }
    }
  }

  /**
   * track_object: ignore NULL, modules and objects already tracked; otherwise
   * mark the object tracked, dump it, and if the dump succeeded append it to
   * the pickle order and, for a heap type with tp_traverse, track each child.
   */
  function Track(h: Heap, t: Tracker, p: Ptr): (r: Tracker)
    requires h.Valid() && h.Live(p)
    ensures t.tracked <= r.tracked
    ensures Trackable(h, p) ==> p.id in r.tracked
    decreases |h.children.Keys - t.tracked|, 0
  {
    if !Trackable(h, p) || p.id in t.tracked then
      t
    else if p.id !in h.picklable then
      t.(tracked := t.tracked + {p.id})
    else
      var t2 := Tracker(t.tracked + {p.id}, t.order + [p.id], t.bytes + [h.state[p.id]]);
      if p.id in h.heapTypes && p.id in h.traversable then
        RemoveOneSmaller(h.children.Keys, t.tracked, p.id);
        TrackAll(h, t2, h.children[p.id])
      else
        t2
  }

  /** tp_traverse calling track_object on each child in turn. */
  function TrackAll(h: Heap, t: Tracker, ps: seq<Ptr>): (r: Tracker)
    requires h.Valid() && forall k :: 0 <= k < |ps| ==> h.Live(ps[k])
    ensures t.tracked <= r.tracked
    decreases |h.children.Keys - t.tracked|, |ps|
  {
    if ps == [] then
      t
    else
      var t1 := Track(h, t, ps[0]);
      SubsetNotLarger(h.children.Keys, t.tracked, t1.tracked);
      TrackAll(h, t1, ps[1..])
  }

  /**
   * What track_object promises: nothing is untracked; exactly the newly
   * tracked objects that dumped successfully join the pickle order, in
   * visiting order, with their dumps; every newly tracked object that
   * expanded has all its trackable children tracked; and everything newly
   * tracked is `p` or a child of something newly tracked that expanded.
   */
  lemma {:induction false} TrackGrows(h: Heap, t: Tracker, p: Ptr)
    requires h.Valid() && h.Live(p)
    ensures var r := Track(h, t, p);
      Grows(h, t, r) && Closed(h, t, r) && FromRoot(h, t, r, p)
    decreases |h.children.Keys - t.tracked|, 0
  {
    if !Trackable(h, p) || p.id in t.tracked {
      assert Appended(t, t) == [];
    } else if p.id !in h.picklable {
      GrowsMark(h, t, p.id);
    } else {
      var t2 := Tracker(t.tracked + {p.id}, t.order + [p.id], t.bytes + [h.state[p.id]]);
      GrowsDump(h, t, p.id);
      if p.id in h.heapTypes && p.id in h.traversable {
        RemoveOneSmaller(h.children.Keys, t.tracked, p.id);
        TrackAllGrows(h, t2, h.children[p.id]);
        ExpandStep(h, t, p, t2, TrackAll(h, t2, h.children[p.id]));
      }
    }
  }

  /** The same for tp_traverse over a list of children: and every trackable child is tracked. */
  lemma {:induction false} TrackAllGrows(h: Heap, t: Tracker, ps: seq<Ptr>)
    requires h.Valid() && forall k :: 0 <= k < |ps| ==> h.Live(ps[k])
    ensures var r := TrackAll(h, t, ps);
      Grows(h, t, r) && Closed(h, t, r) && AllTracked(h, ps, r.tracked) && FromRoots(h, t, r, ps)
    decreases |h.children.Keys - t.tracked|, |ps|
  {
    if ps == [] {
      assert Appended(t, t) == [];
    } else {
      var t1 := Track(h, t, ps[0]);
      TrackGrows(h, t, ps[0]);
      SubsetNotLarger(h.children.Keys, t.tracked, t1.tracked);
      TrackAllGrows(h, t1, ps[1..]);
      var r := TrackAll(h, t1, ps[1..]);
      assert TrackAll(h, t, ps) == r;
      SequenceStep(h, t, ps, t1, r);
    }
  }

  /** Tracking an object twice in one milestone is the same as tracking it once. */
  lemma TrackIdempotent(h: Heap, t: Tracker, p: Ptr)
    requires h.Valid() && h.Live(p)
    ensures Track(h, Track(h, t, p), p) == Track(h, t, p)
  {
  }
}

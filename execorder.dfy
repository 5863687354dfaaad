/**
 * execorder.cpp: the constant table of check_const, get_recording, the
 * classifier and dispatch of Execorder_Mutate, and the trace function with
 * its capture of the global frame and its sweep of a frame's dictionaries.
 */
module Execorder {
  import opened Wrappers
  import opened Host
  import opened Opcodes
  import opened RecordingTypes
  import opened RecordLog
  import opened Recording

  // ---- check_const ----

  /** What check_const returns, and the constant table after the call. */
  datatype Interned = Interned(obj: Ptr, table: map<int, ObjId>)

  /**
   * check_const over the `consts` dict: NULL stays NULL; an unhashable object
   * is returned as is (the lookup error is cleared); the first object of each
   * value is saved and returned; a later equal object gets the saved one.
   * The dict is keyed by value: `hashKey` gives each hashable object's value.
   * InternSameValue and InternCanonical state what the result is.
   */
  function Intern(h: Heap, table: map<int, ObjId>, p: Ptr): (r: Interned)
    ensures TableOk(h, table) && h.Live(p) ==> h.Live(r.obj)
  {
    if p.Null? then Interned(Null, table)
    else if p.id !in h.hashKey then Interned(p, table)
    else if h.hashKey[p.id] in table then
      var key := h.hashKey[p.id];
      assert TableOk(h, table) ==> table[key] in h.children;
      Interned(Addr(table[key]), table)
    else Interned(p, table[h.hashKey[p.id] := p.id])
  }

  /** Every saved constant is a live object saved under its own value. */
  ghost predicate TableOk(h: Heap, table: map<int, ObjId>) {
    forall key :: key in table ==> table[key] in h.children && table[key] in h.hashKey && h.hashKey[table[key]] == key
  }

  /** The dict only gains entries: a saved constant is never replaced. */
  ghost predicate TableGrows(t: map<int, ObjId>, t': map<int, ObjId>) {
    forall key :: key in t ==> key in t' && t'[key] == t[key]
  }

  /**
   * check_const returns the object itself or a live object of the same
   * value, and it keeps the table well formed and only adds to it.
   */
  lemma InternSameValue(h: Heap, table: map<int, ObjId>, p: Ptr)
    requires TableOk(h, table) && h.Live(p)
    ensures var r := Intern(h, table, p);
      && (r.obj == p || (p.Addr? && r.obj.Addr? && p.id in h.hashKey && r.obj.id in h.hashKey
                          && h.hashKey[r.obj.id] == h.hashKey[p.id]))
      && h.Live(r.obj) && TableOk(h, r.table) && TableGrows(table, r.table)
      && (r.table != table ==> p.Addr? && p.id in h.hashKey && r.table == table[h.hashKey[p.id] := p.id])
  {
    if p.Addr? && p.id in h.hashKey && h.hashKey[p.id] in table {
      var key := h.hashKey[p.id];
      assert table[key] in h.children && h.hashKey[table[key]] == key;
    }
  }

  /** Passing a constant through check_const a second time changes nothing. */
  lemma InternIdempotent(h: Heap, table: map<int, ObjId>, p: Ptr)
    requires TableOk(h, table) && h.Live(p)
    ensures var r := Intern(h, table, p); Intern(h, r.table, r.obj) == r
  {
    InternSameValue(h, table, p);
  }

  /**
   * Two hashable objects of the same value are mapped to one representative,
   * whichever comes second: the first one seen.
   */
  lemma InternCanonical(h: Heap, table: map<int, ObjId>, p: ObjId, q: ObjId)
    requires TableOk(h, table) && p in h.children && q in h.children
    requires p in h.hashKey && q in h.hashKey && h.hashKey[p] == h.hashKey[q]
    ensures var r1 := Intern(h, table, Addr(p)); var r2 := Intern(h, r1.table, Addr(q));
      r2.obj == r1.obj && r2.table == r1.table
  {
  }

  /** The `consts` dict of execorder.cpp. */
  class ConstTable {
    var table: map<int, ObjId>

    constructor ()
      ensures table == map[]
    {
      table := map[];
    }

    /** check_const. */
    method CheckConst(h: Heap, p: Ptr) returns (r: Ptr)
      modifies this
      ensures Interned(r, table) == Intern(h, old(table), p)
    {
      if p.Null? {
        return Null;
      }
      if p.id !in h.hashKey {
        return p;
      }
      var key := h.hashKey[p.id];
      if key in table {
        r := Addr(table[key]);
      } else {
        table := table[key := p.id];
        r := p;
      }
    }
  }

  // ---- get_recording ----

  function FrameRank(h: Heap, frame: Ptr): nat
    requires frame.Null? || h.IsFrame(frame)
  {
    if frame.Null? then 0 else h.frames[frame.id].depth + 1
  }

  /**
   * get_recording: the recording registered under the filename of the
   * frame's code; with `backtrack`, of the nearest caller along f_back that
   * has one.  NULL if there is none.  LookupFirstRegistered and
   * LookupNoBacktrack state which recording that is.
   */
  function Lookup(h: Heap, reg: map<string, Recording>, frame: Ptr, backtrack: bool): (r: Recording?)
    requires h.Valid() && (frame.Null? || h.IsFrame(frame))
    ensures r != null ==> r in reg.Values
    decreases FrameRank(h, frame)
  {
    if frame.Null? then null
    else if h.frames[frame.id].filename in reg then reg[h.frames[frame.id].filename]
    else if backtrack then Lookup(h, reg, h.frames[frame.id].back, true)
    else null
  }

  /** The frame and its callers, innermost first. */
  function Chain(h: Heap, frame: Ptr): (c: seq<ObjId>)
    requires h.Valid() && (frame.Null? || h.IsFrame(frame))
    ensures forall i :: 0 <= i < |c| ==> c[i] in h.frames
    ensures frame.Addr? ==> |c| > 0 && c[0] == frame.id
    decreases FrameRank(h, frame)
  {
    if frame.Null? then [] else [frame.id] + Chain(h, h.frames[frame.id].back)
  }

  /** A chain is its first frame followed by the chain of that frame's caller. */
  lemma ChainCons(h: Heap, frame: Ptr)
    requires h.Valid() && h.IsFrame(frame)
    ensures Chain(h, frame) == [frame.id] + Chain(h, h.frames[frame.id].back)
  {
  }

  /** No frame of `c` has a registered filename. */
  ghost predicate NoneRegistered(h: Heap, reg: map<string, Recording>, c: seq<ObjId>) {
    forall i :: 0 <= i < |c| ==> c[i] in h.frames && h.frames[c[i]].filename !in reg
  }

  lemma NoneRegisteredCons(h: Heap, reg: map<string, Recording>, f: ObjId, c: seq<ObjId>)
    ensures NoneRegistered(h, reg, [f] + c) <==> f in h.frames && h.frames[f].filename !in reg && NoneRegistered(h, reg, c)
  {
    var fc := [f] + c;
    assert fc[0] == f;
    assert forall i :: 0 <= i < |c| ==> fc[i + 1] == c[i];
    if NoneRegistered(h, reg, fc) {
      forall i | 0 <= i < |c| ensures c[i] in h.frames && h.frames[c[i]].filename !in reg {
        assert fc[i + 1] == c[i];
      }
    }
  }

  /** With backtracking, get_recording returns NULL exactly when no frame of the chain is registered. */
  lemma {:induction false} LookupNullIff(h: Heap, reg: map<string, Recording>, frame: Ptr)
    requires h.Valid() && (frame.Null? || h.IsFrame(frame))
    ensures Lookup(h, reg, frame, true) == null <==> NoneRegistered(h, reg, Chain(h, frame))
    decreases FrameRank(h, frame)
  {
    if frame.Addr? {
      var back := h.frames[frame.id].back;
      ChainCons(h, frame);
      NoneRegisteredCons(h, reg, frame.id, Chain(h, back));
      if h.frames[frame.id].filename !in reg {
        LookupNullIff(h, reg, back);
      }
    }
  }

  /**
   * A recording found with backtracking belongs to a frame of the chain at
   * index `i`, and no frame before it is registered.
   */
  lemma {:induction false} LookupWitness(h: Heap, reg: map<string, Recording>, frame: Ptr) returns (i: nat)
    requires h.Valid() && (frame.Null? || h.IsFrame(frame)) && Lookup(h, reg, frame, true) != null
    ensures var c := Chain(h, frame);
      && i < |c| && h.frames[c[i]].filename in reg
      && Lookup(h, reg, frame, true) == reg[h.frames[c[i]].filename]
      && NoneRegistered(h, reg, c[..i])
    decreases FrameRank(h, frame)
  {
    var back := h.frames[frame.id].back;
    ChainCons(h, frame);
    var c, c1 := Chain(h, frame), Chain(h, back);
    if h.frames[frame.id].filename in reg {
      i := 0;
      assert c[..0] == [];
    } else {
      var j := LookupWitness(h, reg, back);
      i := j + 1;
      assert c[i] == c1[j];
      assert c[..i] == [frame.id] + c1[..j];
      NoneRegisteredCons(h, reg, frame.id, c1[..j]);
    }
  }

  /**
   * With backtracking, get_recording finds the recording of the first frame
   * along the chain of callers whose filename is registered, and NULL when
   * there is no such frame.
   */
  lemma LookupFirstRegistered(h: Heap, reg: map<string, Recording>, frame: Ptr)
    requires h.Valid() && (frame.Null? || h.IsFrame(frame))
    ensures var r, c := Lookup(h, reg, frame, true), Chain(h, frame);
      && (r == null <==> forall i :: 0 <= i < |c| ==> h.frames[c[i]].filename !in reg)
      && (r != null ==> exists i :: 0 <= i < |c| && h.frames[c[i]].filename in reg
                          && r == reg[h.frames[c[i]].filename]
                          && forall j :: 0 <= j < i ==> h.frames[c[j]].filename !in reg)
  {
    var c := Chain(h, frame);
    LookupNullIff(h, reg, frame);
    if Lookup(h, reg, frame, true) != null {
      var i := LookupWitness(h, reg, frame);
      assert forall j :: 0 <= j < i ==> c[..i][j] == c[j];
    }
  }

  /**
   * Without backtracking only the frame itself is looked at: what it finds is
   * what the backtracking search finds first, and when it finds nothing, the
   * backtracking search can only find the recording of a caller.
   */
  lemma LookupNoBacktrack(h: Heap, reg: map<string, Recording>, frame: Ptr)
    requires h.Valid() && h.IsFrame(frame)
    ensures var r := Lookup(h, reg, frame, false);
      && (r != null ==> r == Lookup(h, reg, frame, true))
      && (r == null ==> h.frames[frame.id].filename !in reg &&
                        Lookup(h, reg, frame, true) == Lookup(h, reg, h.frames[frame.id].back, true))
  {
  }

  /** get_recording. */
  method GetRecording(h: Heap, reg: map<string, Recording>, frame: Ptr, backtrack: bool) returns (r: Recording?)
    requires h.Valid() && (frame.Null? || h.IsFrame(frame))
    ensures r == Lookup(h, reg, frame, backtrack)
  {
    var cur := frame;
    while cur.Addr?
      invariant cur.Null? || h.IsFrame(cur)
      invariant Lookup(h, reg, cur, backtrack) == Lookup(h, reg, frame, backtrack)
      decreases FrameRank(h, cur)
    {
      var f := h.frames[cur.id];
      if f.filename in reg {
        return reg[f.filename];
      }
      cur := if backtrack then f.back else Null;
    }
    return null;
  }

  // ---- Execorder_Mutate ----

  /** PyTuple_GetItem on co_varnames: NULL when the index is out of range. */
  function VarName(h: Heap, frame: Ptr, i: int): Ptr
    requires h.IsFrame(frame)
  {
    var names := h.frames[frame.id].varnames;
    if 0 <= i < |names| then names[i] else Null
  }

  /** What Execorder_Mutate does with an opcode. */
  datatype Action =
    | Bind(name: Ptr)     // record in the recording of this frame, under this name
    | MutateObject        // record in the recording of the frame or a caller, if the target is tracked
    | Skip

  /** The switch of Execorder_Mutate. */
  function Classify(h: Heap, frame: Ptr, opcode: int, i: int, a: Ptr, b: Ptr): Action
    requires h.IsFrame(frame)
  {
    if opcode == STORE_NAME || opcode == DELETE_NAME then Bind(b)
    else if opcode == STORE_GLOBAL || opcode == DELETE_GLOBAL then Bind(a)
    else if opcode == STORE_FAST || opcode == DELETE_FAST then Bind(VarName(h, frame, i))
    else if IsObjectMutation(opcode) then MutateObject
    else Skip
  }

  /**
   * The classifier sorts the opcodes into the two families and nothing else:
   * name binds become Bind, object mutations become MutateObject, and every
   * other opcode is skipped.  Deletions and in-place operators are neither
   * stores nor trace events, so Recording_record leaves the recording
   * unchanged for them (RecordLog.RecordEffect).
   */
  lemma ClassifyFamilies(h: Heap, frame: Ptr, opcode: int, i: int, a: Ptr, b: Ptr)
    requires h.IsFrame(frame)
    ensures Classify(h, frame, opcode, i, a, b).Bind? <==> IsNameBind(opcode)
    ensures Classify(h, frame, opcode, i, a, b).MutateObject? <==> IsObjectMutation(opcode)
    ensures !IsNameBind(opcode) && !IsObjectMutation(opcode) ==> Classify(h, frame, opcode, i, a, b).Skip?
    ensures IsNameBind(opcode) || IsObjectMutation(opcode) ==> !IsTraceEvent(opcode)
  {
  }

  /** Every registered recording other than `except` has the abstract state it had before. */
  twostate predicate Untouched(reg: map<string, Recording>, except: Recording?)
    reads reg.Values
  {
    forall o :: o in reg.Values && o != except ==> o.Model() == old(o.Model())
  }

  /**
   * The object-mutation branch of Execorder_Mutate: the mutation is recorded,
   * with its key passed through check_const, in the recording of the frame or
   * its nearest recorded caller, and only if its target is tracked there.
   */
  method RecordObject(h: Heap, consts: ConstTable, reg: map<string, Recording>, frame: Ptr, opcode: int, a: Ptr, b: Ptr, c: Ptr)
    requires h.Valid() && h.IsFrame(frame) && h.Live(b) && TableOk(h, consts.table) && IsObjectMutation(opcode)
    modifies consts, reg.Values
    ensures TableOk(h, consts.table)
    ensures var r := Lookup(h, reg, frame, true);
      if r != null && a.Addr? && a.id in old(r.trackedObjects) then
        var k := Intern(h, old(consts.table), b);
        consts.table == k.table && r.Model() == RecordF(h, old(r.Model()), opcode, a, k.obj, c) && Untouched(reg, r)
      else
        consts.table == old(consts.table) && Untouched(reg, null)
  {
    var rec := GetRecording(h, reg, frame, true);
    if rec != null && a.Addr? && a.id in rec.trackedObjects {
      InternSameValue(h, consts.table, b);
      var key := consts.CheckConst(h, b);
      var _ := rec.Record(h, opcode, a, key, c);
    }
  }

  /**
   * The name-bind branch of Execorder_Mutate once the name is known: the
   * bind is recorded, with its value passed through check_const, in the
   * recording of this frame, if it has one.
   */
  method RecordBind(h: Heap, consts: ConstTable, reg: map<string, Recording>, frame: Ptr, opcode: int, name: Ptr, c: Ptr)
    requires h.Valid() && h.IsFrame(frame) && h.Live(name) && h.Live(c) && TableOk(h, consts.table) && IsNameBind(opcode)
    modifies consts, reg.Values
    ensures TableOk(h, consts.table)
    ensures var r := Lookup(h, reg, frame, false);
      if r != null then
        var k := Intern(h, old(consts.table), c);
        consts.table == k.table && r.Model() == RecordF(h, old(r.Model()), opcode, frame, name, k.obj) && Untouched(reg, r)
      else
        consts.table == old(consts.table) && Untouched(reg, null)
  {
    var rec := GetRecording(h, reg, frame, false);
    if rec != null {
      InternSameValue(h, consts.table, c);
      var value := consts.CheckConst(h, c);
      var _ := rec.Record(h, opcode, frame, name, value);
    }
  }

  /**
   * Execorder_Mutate: the switch picks the name of a bind (NULL when
   * co_varnames has no entry at the index) or sends an object mutation to
   * its branch; a bind with a non-NULL name is then recorded; any other
   * opcode changes nothing.
   */
  method Mutate(h: Heap, consts: ConstTable, reg: map<string, Recording>, frame: Ptr, opcode: int, i: int, a: Ptr, b: Ptr, c: Ptr)
    requires h.Valid() && h.IsFrame(frame) && h.Live(a) && h.Live(b) && h.Live(c)
    requires TableOk(h, consts.table)
    modifies consts, reg.Values
    ensures TableOk(h, consts.table)
    ensures match Classify(h, frame, opcode, i, a, b)
      case Skip =>
        consts.table == old(consts.table) && Untouched(reg, null)
      case MutateObject =>
        var r := Lookup(h, reg, frame, true);
        if r != null && a.Addr? && a.id in old(r.trackedObjects) then
          var k := Intern(h, old(consts.table), b);
          consts.table == k.table && r.Model() == RecordF(h, old(r.Model()), opcode, a, k.obj, c) && Untouched(reg, r)
        else
          consts.table == old(consts.table) && Untouched(reg, null)
      case Bind(name) =>
        var r := Lookup(h, reg, frame, false);
        if name.Addr? && r != null then
          var k := Intern(h, old(consts.table), c);
          consts.table == k.table && r.Model() == RecordF(h, old(r.Model()), opcode, frame, name, k.obj) && Untouched(reg, r)
        else
          consts.table == old(consts.table) && Untouched(reg, null)
  {
    var name: Ptr := Null;
    if opcode == STORE_NAME || opcode == DELETE_NAME {
      name := b;
    } else if opcode == STORE_GLOBAL || opcode == DELETE_GLOBAL {
      name := a;
    } else if opcode == STORE_FAST || opcode == DELETE_FAST {
      var names := h.frames[frame.id].varnames;
      name := if 0 <= i < |names| then names[i] else Null;
      assert h.FrameOk(h.frames[frame.id]);
    } else if IsObjectMutation(opcode) {
      RecordObject(h, consts, reg, frame, opcode, a, b, c);
    }

    if name.Addr? {
      RecordBind(h, consts, reg, frame, opcode, name, c);
    }
  }

  // ---- trace ----

  function Max(x: nat, y: nat): nat {
    if x < y then y else x
  }

  /** What PyDict_Next hands back: the position just past the entry, and the entry. */
  datatype Next = Next(pos: nat, key: Ptr, value: Ptr)

  /**
   * PyDict_Next from slot `pos`: the first live slot at or after `pos`,
   * with the position just past it; None, leaving the position where it
   * is, when no live slot is left.
   */
  function DictNext(d: seq<Slot>, pos: nat): (r: Option<Next>)
    ensures r.Some? ==> pos < r.value.pos <= |d| && d[r.value.pos - 1] == Entry(r.value.key, r.value.value)
    ensures r.Some? ==> forall k :: pos <= k < r.value.pos - 1 ==> d[k].Deleted?
    ensures r.None? <==> forall k :: pos <= k < |d| ==> d[k].Deleted?
    decreases |d| - pos
  {
    if pos >= |d| then None
    else if d[pos].Entry? then Some(Next(pos + 1, d[pos].key, d[pos].value))
    else DictNext(d, pos + 1)
  }

  /** The entries of the live slots of `d` from slot `pos` on, in slot order. */
  function From(d: seq<Slot>, pos: nat): seq<(Ptr, Ptr)>
    decreases |d| - pos
  {
    if pos >= |d| then []
    else if d[pos].Entry? then [(d[pos].key, d[pos].value)] + From(d, pos + 1)
    else From(d, pos + 1)
  }

  /** The index of the last live slot of `d`, or -1 when there is none. */
  function LastEntry(d: seq<Slot>): (r: int)
    ensures -1 <= r < |d| && (r >= 0 ==> d[r].Entry?)
    ensures forall k :: r < k < |d| ==> d[k].Deleted?
  {
    if d == [] then -1
    else if d[|d| - 1].Entry? then |d| - 1
    else
      var r := LastEntry(d[..|d| - 1]);
      assert forall k :: r < k < |d| - 1 ==> d[..|d| - 1][k] == d[k];
      r
  }

  /**
   * Where the position is once PyDict_Next has run out of `d`: just past
   * its last live slot, or where it started if no live slot lies at or after that.
   */
  function EndPos(d: seq<Slot>, pos: nat): nat {
    Max(pos, (LastEntry(d) + 1) as nat)
  }

  /**
   * One call of PyDict_Next: an entry it yields is the first of the entries
   * from `pos`, the others follow from the new position, and the end
   * position stays the same; when it yields nothing, no entry is left and
   * the position already is the end position.
   */
  lemma {:induction false} DictNextFrom(d: seq<Slot>, pos: nat)
    ensures match DictNext(d, pos)
      case None => From(d, pos) == [] && EndPos(d, pos) == pos
      case Some(n) => From(d, pos) == [(n.key, n.value)] + From(d, n.pos) && EndPos(d, n.pos) == EndPos(d, pos)
    decreases |d| - pos
  {
    if pos < |d| && d[pos].Deleted? {
      DictNextFrom(d, pos + 1);
    }
  }

  /** The entries from slot `pos` on are the live slots at or after `pos`, and only those. */
  lemma {:induction false} FromMembers(d: seq<Slot>, pos: nat)
    ensures forall k :: pos <= k < |d| && d[k].Entry? ==> (d[k].key, d[k].value) in From(d, pos)
    ensures forall e :: e in From(d, pos) ==> exists k :: pos <= k < |d| && d[k] == Entry(e.0, e.1)
    decreases |d| - pos
  {
    if pos < |d| {
      FromMembers(d, pos + 1);
    }
  }

  /** No entry lies past the last live slot. */
  lemma {:induction false} FromPastLast(d: seq<Slot>, pos: nat)
    requires LastEntry(d) < pos
    ensures From(d, pos) == []
    decreases |d| - pos
  {
    if pos < |d| {
      FromPastLast(d, pos + 1);
    }
  }

  /**
   * The entries the sweep of trace visits: PyDict_Next over each dict in
   * turn, with one position that is not reset between the dicts.
   */
  function SweepFrom(dicts: seq<seq<Slot>>, pos: nat): seq<(Ptr, Ptr)>
    decreases |dicts|
  {
    if dicts == [] then [] else From(dicts[0], pos) + SweepFrom(dicts[1..], EndPos(dicts[0], pos))
  }

  /**
   * Sweeping one dict visits all its entries.  Sweeping globals then locals
   * visits all the globals, but the locals only from the slot just past the
   * last live slot of the globals.  A module frame, whose locals are its
   * globals, has each of them visited once.
   */
  lemma SweepVisits(d1: seq<Slot>, d2: seq<Slot>)
    ensures SweepFrom([d1], 0) == From(d1, 0)
    ensures SweepFrom([d1, d2], 0) == From(d1, 0) + From(d2, LastEntry(d1) + 1)
    ensures SweepFrom([d1, d1], 0) == From(d1, 0)
  {
    assert [d1][1..] == [] && [d1, d2][1..] == [d2] && [d2][1..] == [] && [d1, d1][1..] == [d1];
    assert SweepFrom([d1], 0) == From(d1, 0) + SweepFrom([], EndPos(d1, 0));
    var p := EndPos(d1, 0);
    assert SweepFrom([d2], p) == From(d2, p) + SweepFrom([], EndPos(d2, p));
    assert SweepFrom([d1], p) == From(d1, p) + SweepFrom([], EndPos(d1, p));
    FromPastLast(d1, p);
  }

  /**
   * A global deleted before a function call moves where its locals are read
   * from: with globals `__builtins__`, a deleted slot and `g`, and locals
   * `p`, `q` and `r`, the sweep at a new milestone records the two globals
   * and none of the locals.
   */
  lemma SweepAfterDeletedGlobal(b: (Ptr, Ptr), g: (Ptr, Ptr), p: (Ptr, Ptr), q: (Ptr, Ptr), r: (Ptr, Ptr))
    ensures SweepFrom([[Entry(b.0, b.1), Deleted, Entry(g.0, g.1)], [Entry(p.0, p.1), Entry(q.0, q.1), Entry(r.0, r.1)]], 0) == [b, g]
  {
    var gs := [Entry(b.0, b.1), Deleted, Entry(g.0, g.1)];
    var ls := [Entry(p.0, p.1), Entry(q.0, q.1), Entry(r.0, r.1)];
    SweepVisits(gs, ls);
    assert From(gs, 3) == [] && From(gs, 2) == [g] && From(gs, 1) == [g] && From(gs, 0) == [b, g];
    assert LastEntry(gs) == 2;
    assert From(ls, 3) == [];
  }

  /** Every key and value among the entries is a live object. */
  predicate AllLive(h: Heap, es: seq<(Ptr, Ptr)>) {
    forall k :: 0 <= k < |es| ==> h.Live(es[k].0) && h.Live(es[k].1)
  }

  lemma {:induction false} FromLive(h: Heap, d: seq<Slot>, pos: nat)
    requires h.SlotsLive(d)
    ensures AllLive(h, From(d, pos))
    decreases |d| - pos
  {
    if pos < |d| {
      FromLive(h, d, pos + 1);
    }
  }

  /**
   * Recording_record(recording, STORE_NAME, frame, key, value) for each entry
   * in turn (an entry whose key or value is not a live object, which a frame's
   * dicts never hold, is passed over).
   */
  function RecordEntries(h: Heap, s: RecState, frame: Ptr, es: seq<(Ptr, Ptr)>): RecState
    requires h.Valid()
    decreases |es|
  {
    if es == [] then s
    else
      var s1 := if h.Live(es[0].0) && h.Live(es[0].1) then RecordF(h, s, STORE_NAME, frame, es[0].0, es[0].1) else s;
      RecordEntries(h, s1, frame, es[1..])
  }

  lemma RecordEntriesCons(h: Heap, s: RecState, frame: Ptr, es: seq<(Ptr, Ptr)>)
    requires h.Valid() && es != [] && h.Live(es[0].0) && h.Live(es[0].1)
    ensures RecordEntries(h, s, frame, es) == RecordEntries(h, RecordF(h, s, STORE_NAME, frame, es[0].0, es[0].1), frame, es[1..])
  {
  }

  /** Recording the entries of `a + b` is recording those of `a`, then those of `b`. */
  lemma {:induction false} RecordEntriesAppend(h: Heap, s: RecState, frame: Ptr, a: seq<(Ptr, Ptr)>, b: seq<(Ptr, Ptr)>)
    requires h.Valid()
    ensures RecordEntries(h, s, frame, a + b) == RecordEntries(h, RecordEntries(h, s, frame, a), frame, b)
    decreases |a|
  {
    if a == [] {
      assert a + b == b;
    } else {
      var s1 := if h.Live(a[0].0) && h.Live(a[0].1) then RecordF(h, s, STORE_NAME, frame, a[0].0, a[0].1) else s;
      assert (a + b)[0] == a[0] && (a + b)[1..] == a[1..] + b;
      RecordEntriesAppend(h, s1, frame, a[1..], b);
    }
  }

  /** The mutations the sweep appends: one STORE_NAME per entry, stamped with the current step count. */
  function SweepLog(stamp: int, frame: Ptr, es: seq<(Ptr, Ptr)>): (ms: seq<Mutation>)
    ensures |ms| == |es|
  {
    seq(|es|, k requires 0 <= k < |es| => Mutation(stamp, STORE_NAME as Byte, frame, es[k].0, es[k].1))
  }

  /**
   * Recording the swept entries keeps the invariant and the steps, and adds
   * to the log exactly one STORE_NAME mutation per entry, in order.
   */
  lemma {:induction false} RecordEntriesLog(h: Heap, s: RecState, frame: Ptr, es: seq<(Ptr, Ptr)>)
    requires h.Valid() && Inv(s) && AllLive(h, es)
    ensures var r := RecordEntries(h, s, frame, es);
      && Inv(r) && r.steps == s.steps && r.globalFrame == s.globalFrame
      && Log(r) == Log(s) + SweepLog(|s.steps|, frame, es)
    decreases |es|
  {
    if es != [] {
      NameStoreEffect(h, s, frame, es[0].0, es[0].1);
      var s1 := RecordF(h, s, STORE_NAME, frame, es[0].0, es[0].1);
      AllLiveTail(h, es);
      RecordEntriesLog(h, s1, frame, es[1..]);
      SweepLogCons(|s.steps|, frame, es);
      AppendAssoc(Log(s), [Mutation(|s.steps|, STORE_NAME as Byte, frame, es[0].0, es[0].1)], SweepLog(|s.steps|, frame, es[1..]));
    }
  }

  lemma AllLiveTail(h: Heap, es: seq<(Ptr, Ptr)>)
    requires es != [] && AllLive(h, es)
    ensures AllLive(h, es[1..])
  {
    forall k | 0 <= k < |es[1..]| ensures h.Live(es[1..][k].0) && h.Live(es[1..][k].1) {
      assert es[1..][k] == es[k + 1];
    }
  }

  /**
   * Recording the swept entries never alters an earlier milestone, and
   * new_milestone ends up set exactly when it was set before or a rollover
   * started a new milestone.
   */
  lemma {:induction false} RecordEntriesMilestones(h: Heap, s: RecState, frame: Ptr, es: seq<(Ptr, Ptr)>)
    requires h.Valid() && Inv(s) && AllLive(h, es)
    ensures var r := RecordEntries(h, s, frame, es);
      && |s.milestones| <= |r.milestones| && r.milestones[..|s.milestones|] == s.milestones
      && (r.newMilestone <==> s.newMilestone || |r.milestones| > |s.milestones|)
    decreases |es|
  {
    if es != [] {
      var s1 := RecordF(h, s, STORE_NAME, frame, es[0].0, es[0].1);
      RecordEffect(h, s, STORE_NAME, frame, es[0].0, es[0].1);
      RecordRollover(h, s, STORE_NAME, frame, es[0].0, es[0].1);
      AllLiveTail(h, es);
      RecordEntriesMilestones(h, s1, frame, es[1..]);
      var r := RecordEntries(h, s1, frame, es[1..]);
      assert r.milestones[..|s.milestones|] == r.milestones[..|s1.milestones|][..|s.milestones|];
    }
  }

  lemma NameStoreEffect(h: Heap, s: RecState, frame: Ptr, key: Ptr, value: Ptr)
    requires h.Valid() && h.Live(key) && h.Live(value) && Inv(s)
    ensures var r := RecordF(h, s, STORE_NAME, frame, key, value);
      && Inv(r) && r.steps == s.steps && r.globalFrame == s.globalFrame
      && Log(r) == Log(s) + [Mutation(|s.steps|, STORE_NAME as Byte, frame, key, value)]
  {
    RecordEffect(h, s, STORE_NAME, frame, key, value);
  }

  lemma SweepLogCons(stamp: int, frame: Ptr, es: seq<(Ptr, Ptr)>)
    requires es != []
    ensures SweepLog(stamp, frame, es) == [Mutation(stamp, STORE_NAME as Byte, frame, es[0].0, es[0].1)] + SweepLog(stamp, frame, es[1..])
  {
  }

  /** The dicts trace sweeps: globals then locals at a new milestone, else only the locals. */
  function Dicts(f: Frame, newMilestone: bool): seq<seq<Slot>> {
    if newMilestone then [f.globals, f.locals] else [f.locals]
  }

  lemma SweptLive(h: Heap, frame: Ptr, newMilestone: bool)
    requires h.Valid() && h.IsFrame(frame)
    ensures AllLive(h, SweepFrom(Dicts(h.frames[frame.id], newMilestone), 0))
  {
    var f := h.frames[frame.id];
    assert h.FrameOk(f);
    SweepVisits(f.globals, f.locals);
    FromLive(h, f.locals, 0);
    if newMilestone {
      var a, b := From(f.globals, 0), From(f.locals, LastEntry(f.globals) + 1);
      FromLive(h, f.globals, 0);
      FromLive(h, f.locals, LastEntry(f.globals) + 1);
      assert forall k :: 0 <= k < |b| ==> (a + b)[|a| + k] == b[k];
    }
  }

  /**
   * trace on a frame whose recording is `s`: the first traced frame becomes
   * the global frame; at a new milestone, or on a call, the flag is cleared
   * and the swept entries are recorded as STORE_NAME in this frame; then the
   * event itself is recorded.
   */
  function TraceF(h: Heap, s: RecState, frame: Ptr, what: int): RecState
    requires h.Valid() && h.IsFrame(frame)
  {
    var s1 := if s.globalFrame == Null then s.(globalFrame := frame) else s;
    RecordF(h, SweepStage(h, s1, frame, what), what, frame, Null, Null)
  }

  /** The sweep part of trace, on a recording whose global frame is already set. */
  function SweepStage(h: Heap, s: RecState, frame: Ptr, what: int): RecState
    requires h.Valid() && h.IsFrame(frame)
  {
    if s.newMilestone || what == CALL then
      var es := SweepFrom(Dicts(h.frames[frame.id], s.newMilestone), 0);
      RecordEntries(h, s.(newMilestone := false), frame, es)
    else s
  }

  /**
   * The sweep keeps the invariant, the steps and the global frame, adds one
   * STORE_NAME mutation per swept entry, keeps the earlier milestones, and
   * leaves new_milestone set only when it rolled over into a new milestone.
   */
  lemma SweepStageEffect(h: Heap, s: RecState, frame: Ptr, what: int)
    requires h.Valid() && h.IsFrame(frame) && Inv(s)
    ensures var r := SweepStage(h, s, frame, what);
      var es := SweepFrom(Dicts(h.frames[frame.id], s.newMilestone), 0);
      && Inv(r) && r.steps == s.steps && r.globalFrame == s.globalFrame
      && Log(r) == Log(s) + (if s.newMilestone || what == CALL then SweepLog(|s.steps|, frame, es) else [])
      && |s.milestones| <= |r.milestones| && r.milestones[..|s.milestones|] == s.milestones
      && (r.newMilestone <==> |r.milestones| > |s.milestones|)
  {
    if s.newMilestone || what == CALL {
      SweptLive(h, frame, s.newMilestone);
      var s0 := s.(newMilestone := false);
      var es := SweepFrom(Dicts(h.frames[frame.id], s.newMilestone), 0);
      assert Log(s0) == Log(s) && Milestones(s0) == Milestones(s);
      RecordEntriesLog(h, s0, frame, es);
      RecordEntriesMilestones(h, s0, frame, es);
    } else {
      assert Log(s) + [] == Log(s);
    }
  }

  /**
   * What trace does to a recording: it keeps the invariant; the global frame
   * is the first frame traced and never changes after; the log gains one
   * STORE_NAME mutation per swept entry, stamped with the step count, and
   * nothing else; a trace event adds exactly one step; earlier milestones
   * are kept, and new_milestone is cleared unless the sweep itself rolled
   * over into a new milestone.
   */
  lemma TraceEffect(h: Heap, s: RecState, frame: Ptr, what: int)
    requires h.Valid() && h.IsFrame(frame) && Inv(s) && CALL <= what <= OPCODE
    ensures var r := TraceF(h, s, frame, what);
      var sweep := s.newMilestone || what == CALL;
      var es := SweepFrom(Dicts(h.frames[frame.id], s.newMilestone), 0);
      && Inv(r)
      && r.globalFrame == (if s.globalFrame == Null then frame else s.globalFrame)
      && Log(r) == Log(s) + (if sweep then SweepLog(|s.steps|, frame, es) else [])
      && r.steps == s.steps + (if IsTraceEvent(what) then [Step(h.frames[frame.id].lineno, what, frame)] else [])
      && |s.milestones| <= |r.milestones| && r.milestones[..|s.milestones|] == s.milestones
      && (r.newMilestone <==> |r.milestones| > |s.milestones|)
  {
    var s1 := if s.globalFrame == Null then s.(globalFrame := frame) else s;
    assert Log(s1) == Log(s) && Milestones(s1) == Milestones(s);
    SweepStageEffect(h, s1, frame, what);
    var s2 := SweepStage(h, s1, frame, what);
    assert TraceF(h, s, frame, what) == RecordF(h, s2, what, frame, Null, Null);
    EventEffect(h, s2, frame, what);
  }

  /**
   * The event that trace records last: a trace event adds its step, the
   * other events change nothing; neither touches the milestones or new_milestone.
   */
  lemma EventEffect(h: Heap, s: RecState, frame: Ptr, what: int)
    requires h.Valid() && h.IsFrame(frame) && Inv(s) && CALL <= what <= OPCODE
    ensures var r := RecordF(h, s, what, frame, Null, Null);
      && Inv(r) && Log(r) == Log(s) && r.globalFrame == s.globalFrame
      && r.milestones == s.milestones && r.newMilestone == s.newMilestone
      && r.steps == s.steps + (if IsTraceEvent(what) then [Step(h.frames[frame.id].lineno, what, frame)] else [])
  {
    if IsTraceEvent(what) {
      StepEffect(h, s, what, frame, Null, Null);
    } else {
      assert StoreOrStep(h, s, what, frame, Null, Null) == s;
      assert s.steps + [] == s.steps;
    }
  }

  /**
   * One dict of the sweep of trace: PyDict_Next from position `pos` until it
   * runs out, recording every entry as a STORE_NAME in `frame`.
   */
  method SweepDict(h: Heap, rec: Recording, frame: Ptr, d: seq<Slot>, pos0: nat) returns (pos: nat)
    requires h.Valid() && h.SlotsLive(d)
    modifies rec
    ensures pos == EndPos(d, pos0)
    ensures rec.Model() == RecordEntries(h, old(rec.Model()), frame, From(d, pos0))
  {
    pos := pos0;
    ghost var goal := RecordEntries(h, rec.Model(), frame, From(d, pos0));
    var next := DictNext(d, pos);
    while next.Some?
      invariant next == DictNext(d, pos)
      invariant EndPos(d, pos) == EndPos(d, pos0)
      invariant RecordEntries(h, rec.Model(), frame, From(d, pos)) == goal
      decreases |d| - pos
    {
      var n := next.value;
      DictNextFrom(d, pos);
      RecordEntriesCons(h, rec.Model(), frame, From(d, pos));
      var _ := rec.Record(h, STORE_NAME, frame, n.key, n.value);
      pos := n.pos;
      next := DictNext(d, pos);
    }
    DictNextFrom(d, pos);
  }

  /**
   * The sweep of trace: PyDict_Next over each dict in turn with one shared
   * position, recording every entry it yields as a STORE_NAME in `frame`.
   */
  method Sweep(h: Heap, rec: Recording, frame: Ptr, dicts: seq<seq<Slot>>)
    requires h.Valid() && forall j :: 0 <= j < |dicts| ==> h.SlotsLive(dicts[j])
    modifies rec
    ensures rec.Model() == RecordEntries(h, old(rec.Model()), frame, SweepFrom(dicts, 0))
  {
    ghost var goal := RecordEntries(h, rec.Model(), frame, SweepFrom(dicts, 0));
    var pos := 0;
    for k := 0 to |dicts|
      invariant RecordEntries(h, rec.Model(), frame, SweepFrom(dicts[k..], pos)) == goal
    {
      ghost var m, p0 := rec.Model(), pos;
      ghost var rest := SweepFrom(dicts[k + 1..], EndPos(dicts[k], p0));
      assert dicts[k..][0] == dicts[k] && dicts[k..][1..] == dicts[k + 1..];
      assert SweepFrom(dicts[k..], p0) == From(dicts[k], p0) + rest;
      RecordEntriesAppend(h, m, frame, From(dicts[k], p0), rest);
      pos := SweepDict(h, rec, frame, dicts[k], pos);
    }
    assert dicts[|dicts|..] == [];
    assert SweepFrom([], pos) == [];
  }

  /**
   * trace: find the recording of this frame (without backtracking); if
   * there is one, set its global frame the first time, sweep the frame's
   * dicts at a new milestone or on a call, and record the event.  Always
   * returns 0: Recording_record never reports failure.
   */
  method Trace(h: Heap, reg: map<string, Recording>, frame: Ptr, what: int) returns (ret: int)
    requires h.Valid() && h.IsFrame(frame)
    modifies reg.Values
    ensures ret == 0
    ensures var r := Lookup(h, reg, frame, false);
      && (r != null ==> r.Model() == TraceF(h, old(r.Model()), frame, what))
      && forall o :: o in reg.Values && o != r ==> o.Model() == old(o.Model())
  {
    var rec := GetRecording(h, reg, frame, false);
    if rec != null {
      if rec.globalFrame == Null {
        rec.globalFrame := frame;
      }
      if rec.newMilestone || what == CALL {
        var f := h.frames[frame.id];
        var atMilestone := rec.newMilestone;
        rec.newMilestone := false;
        assert h.FrameOk(f);
        SweptLive(h, frame, atMilestone);
        Sweep(h, rec, frame, Dicts(f, atMilestone));
      }
      var _ := rec.Record(h, what, frame, Null, Null);
    }
    return 0;
  }
}

/**
 * The part of the host interpreter the recorder observes, as a value.
 *
 * Objects are opaque ids; a `Ptr` is a possibly-NULL object pointer.  What the
 * recorder asks of the host (tp_traverse, the heap-type flag, PyModule_Check,
 * whether Pickler.dump succeeds, hashing, frame fields) is a field of `Heap`.
 */
module Host {

  type ObjId = nat

  datatype Ptr = Null | Addr(id: ObjId)

  /** The state a pickle dump captures and an unpickle restores: attributes and items. */
  datatype ObjState = ObjState(attrs: map<Ptr, Ptr>, items: map<Ptr, Ptr>)

  /**
   * One slot of a dict's entry table, in insertion order: a live entry, or
   * the slot a deleted entry leaves behind (its value is NULL, so PyDict_Next
   * steps over it).
   */
  datatype Slot = Deleted | Entry(key: Ptr, value: Ptr)

  /**
   * A frame: its caller (f_back), the filename of its code object, the line
   * it is on, co_varnames, and the entry tables of its globals and locals
   * dicts.  `depth` is the frame's distance from the bottom of the
   * frame stack; it only serves to show that walking f_back terminates.
   */
  datatype Frame = Frame(
    back: Ptr,
    filename: string,
    lineno: int,
    varnames: seq<Ptr>,
    globals: seq<Slot>,
    locals: seq<Slot>,
    depth: nat)

  datatype Heap = Heap(
    children: map<ObjId, seq<Ptr>>,   // the live objects and what tp_traverse visits, in order
    state: map<ObjId, ObjState>,      // what a dump of each object would write
    modules: set<ObjId>,              // PyModule_Check holds
    heapTypes: set<ObjId>,            // Py_TPFLAGS_HEAPTYPE is set on the object's type
    traversable: set<ObjId>,          // the object's type has a tp_traverse
    picklable: set<ObjId>,            // Pickler.dump of the object succeeds
    hashKey: map<ObjId, int>,         // hashable objects; equal keys mean equal values
    frames: map<ObjId, Frame>)
  {
    predicate Live(p: Ptr) {
      p.Null? || p.id in children
    }

    predicate IsFrame(p: Ptr) {
      p.Addr? && p.id in frames
    }

    /** Every entry of the table has a live key and value. */
    predicate SlotsLive(d: seq<Slot>) {
      forall k :: 0 <= k < |d| && d[k].Entry? ==> Live(d[k].key) && Live(d[k].value)
    }

    ghost predicate FrameOk(f: Frame) {
      && (f.back.Addr? ==> f.back.id in frames && frames[f.back.id].depth < f.depth)
      && (forall k :: 0 <= k < |f.varnames| ==> Live(f.varnames[k]))
      && SlotsLive(f.globals) && SlotsLive(f.locals)
    }

    ghost predicate Valid() {
      && state.Keys == children.Keys
      && (forall q, k :: q in children && 0 <= k < |children[q]| ==> Live(children[q][k]))
      && (forall f :: f in frames ==> FrameOk(frames[f]))
    }
  }
}

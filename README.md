# Execorder, modelled in Dafny

Execorder records the execution of Python code so that the bindings of any
past step can be rebuilt. It has four parts.

- A patched CPython evaluation loop calls `Execorder_Mutate` at the stores,
  deletions and in-place operators `make_src.py` hooks. STORE_NAME's call
  sits in that opcode's error branch, so a successful module-level bind is
  not reported.
- `Execorder_Mutate` and the trace function feed a `RecordingObject`.
- The recording keeps a timeline of steps. It also keeps a log of mutations,
  cut into milestones of 200000 entries. Each milestone holds pickled
  snapshots of the objects it tracks.
- `state(step)` restores a milestone's snapshot and replays its log up to the
  step, giving the globals and locals of that moment.

The model covers:

- **recording.h / recording.cpp**
  - `host.dfy`: the host heap as a value.
  - `recording_types.dfy`: the `Step`, `Mutation` and `Milestone` tuples, the
    recording state, and its invariant.
  - `tracking.dfy`: `track_object`.
  - `record_log.dfy`: `Recording_new`, `new_milestone` and `Recording_record`
    as functions on the state.
  - `replay.dfy`: `Recording_state` as functions.
  - `recording.dfy`: the class `Recording`. Its fields are the
    `RecordingObject` fields, and its methods update them in place. Each
    method is proved equal to the function that specifies it.
- **execorder.cpp** (`execorder.dfy`)
  - `check_const` over a `ConstTable` class.
  - `get_recording`.
  - The classifier and dispatch of `Execorder_Mutate`.
  - `trace`, with its capture of the global frame and its sweep of the
    frame's dicts.
- **make_src.py** (`make_src.dfy`)
  - The loop that patches `Execorder_Mutate` calls into the text of
    `ceval.c`, as a method proved equal to a fold.
  - The `extern "C"` wrapper.
- **The finding** (`findings.dfy`): the replay of `state()`, as written,
  dereferences a NULL target. A whole recorded program shows it: the events
  trace and `Execorder_Mutate` deliver, from the module's call to its
  return. See "## Findings".

Host services become values:

- `tp_traverse` is a `children` map.
- Whether `Pickler.dump` succeeds is the `picklable` set.
- What a dump captures is the `state` map, and unpickling restores it.
- Hashing is the `hashKey` map.
- Frames are the `frames` map. Each dict of a frame is its entry table: a
  sequence of slots, each live or deleted, in `PyDict_Next` order.
- Object pointers are `Ptr = Null | Addr(id)`.

## Model

| member | source | states |
|---|---|---|
| Recording.Recording.constructor | recording.cpp:42-49 | Recording_new: the state is the fresh recording: no steps, nothing tracked, one empty milestone, new_milestone set; the invariant holds |
| RecordLog.Fresh | recording.cpp:42-49 | the fresh recording satisfies the invariant every operation keeps |
| RecordLog.FreshState | recording.cpp:29-49 | a fresh recording has exactly one milestone, which is empty, an empty log, no steps, an empty tracked set and new_milestone set |
| Recording.Recording.NewMilestone | recording.cpp:29-40 | the active milestone is appended to the milestones; empty pickle order, dump buffer and mutation list become active; new_milestone is set |
| Recording.Recording.TrackObject | recording.cpp:157-178 | track_object updates the tracked set, pickle order and dump buffer exactly as the tracking function `Track` says, and nothing else |
| Recording.Recording.TrackChildren | recording.cpp:167-171 | tp_traverse with track_object as visitor: the tracker becomes `TrackAll` over the children in order |
| Recording.Recording.Record | recording.cpp:181-207 | Recording_record changes the state exactly as `RecordF` says, keeps the invariant, and reports success |
| Recording.Recording.AppendEvent | recording.cpp:183-201 | the switch of Recording_record: a store tracks `b` and appends the mutation stamped with the step count; a trace event appends the step; any other event changes nothing |
| Recording.Recording.State | recording.cpp:51-123 | state() returns exactly `StateF`: clamp, select the milestone, restore, and the corrected replay, in which a store into an object without a restored copy is skipped |
| Recording.FindMilestone | recording.cpp:58-72 | the scan ends on the last of the leading milestones whose first mutation is at or before the step |
| Recording.Unpickle | recording.cpp:74-82 | the k-th unpickled object is stored under the k-th id of the pickle order |
| Recording.ReplayUpTo | recording.cpp:88-118 | the corrected replay loop: it applies mutations in order, skips a store into an object without a restored copy, and stops at the first mutation stamped after the step |
| Tracking.Track | recording.cpp:157-178 | track_object never untracks, and a trackable object (non-NULL, not a module) is tracked afterwards |
| Tracking.TrackAll | recording.cpp:168-171 | tracking a list of objects never untracks |
| Tracking.TrackGrows | recording.cpp:159-174 | track_object adds to the pickle order exactly the newly tracked objects that dumped, in visiting order, with their dumps; an object that dumped, has a heap type and a traverse function has all its trackable children tracked; every newly tracked object is the root or reached from it through such objects |
| Tracking.TrackAllGrows | recording.cpp:165-171 | the same for a list of objects, and every trackable object of the list ends up tracked |
| Tracking.TrackIdempotent | recording.cpp:157-161 | tracking an object twice is the same as tracking it once |
| RecordLog.TrackIntoInv | recording.cpp:157-178 | tracking keeps the log invariant (no duplicate in the pickle order, which lists only tracked objects and matches the buffer) and leaves the log, steps and milestones alone |
| RecordLog.AppendInv | recording.cpp:191-192 | appending a mutation stamped with the step count keeps stamps ordered and adds exactly that mutation to the log |
| RecordLog.RolloverInv | recording.cpp:203-206 | closing a full log and starting a new milestone restores the invariant and loses no mutation |
| RecordLog.RecordPreservesInv | recording.cpp:181-207 | Recording_record keeps the invariant |
| RecordLog.RecordEffect | recording.cpp:181-207 | a store adds exactly one mutation (step count, event, a, b, c) to the log; a trace event adds exactly one step (line, event, frame) and no mutation; any other event changes nothing; earlier milestones are kept and the global frame is unchanged |
| RecordLog.StoreEffect | recording.cpp:184-193 | the five stores: exactly one mutation stamped with the step count joins the log, steps unchanged, earlier milestones kept |
| RecordLog.StepEffect | recording.cpp:194-201 | the four trace events append exactly one step (line, event, frame) and change nothing else |
| RecordLog.RecordRollover | recording.cpp:203-206 | a store that brings the log to 200000 closes it as a new earlier milestone, clears the tracked set and activates an empty milestone with new_milestone set; any other record keeps the milestones and the flag |
| RecordLog.RecordTracks | recording.cpp:184-190 | a name bind tracks `c` then `b`, an object store only `b`; everything newly tracked is reached from those roots |
| RecordLog.RecordTracker | recording.cpp:184-190 | below the threshold, the tracker after a store is exactly `TrackAll` of [c, b] (name binds) or [b] |
| RecordLog.MilestonesOrdered | recording.cpp:191-206 | the last stamp of a milestone is at most the first stamp of the next |
| Replay.ClampStep | recording.cpp:55 | the step used is the requested one or the last recorded step, whichever is smaller |
| Replay.Leading | recording.cpp:60-72 | the number of leading milestones whose first mutation is at or before the step, stopping at the first empty or later one |
| Replay.SelectedIsLast | recording.cpp:60-72 | the selected milestone qualifies and no later milestone does |
| Replay.RestoreAt | recording.cpp:80-82 | the restored objects are exactly the pickle order, each holding its own dump |
| Replay.Upto | recording.cpp:89-117 | the replayed mutations are a prefix of the log |
| Replay.UptoSorted | recording.cpp:91-117 | on a log with ordered stamps, a mutation is replayed exactly when its stamp is at or before the step |
| Replay.ReplayAllCons | recording.cpp:89-114 | replaying m then the rest is replaying the rest from the result of m |
| Replay.ReplayCut | recording.cpp:89-118 | the loop with its early stop is the replay of the prefix up to the step |
| Replay.ReplayKeepsObjects | recording.cpp:93-98 | replay never adds or drops restored objects |
| Replay.ApplyGlobal | recording.cpp:100-108 | one mutation binds a name in globals exactly when it is STORE_GLOBAL, or STORE_FAST/STORE_NAME in the global frame; the value is the restored copy of `c` if there is one, else `c` |
| Replay.ApplyLocal | recording.cpp:104-112 | one mutation binds a name in locals exactly when it is STORE_FAST/STORE_NAME in the queried frame (and that is not the global frame) |
| Replay.ReplayGlobalBound | recording.cpp:100-108 | after replay, a name is in globals exactly when it was before or some mutation binds it there |
| Replay.ReplayGlobalLast | recording.cpp:100-108 | a name's global value is the one its last binding mutation gave it |
| Replay.ReplayGlobalKept | recording.cpp:100-108 | a global no mutation binds keeps its value |
| Replay.ReplayLocalBound | recording.cpp:104-112 | after replay, a name is in locals exactly when it was before or some mutation binds it there |
| Replay.ReplayLocalLast | recording.cpp:104-112 | a name's local value is the one its last binding mutation gave it |
| Replay.ReplayLocalKept | recording.cpp:104-112 | a local no mutation binds keeps its value |
| Replay.StateIsReplay | recording.cpp:51-118 | state(step) replays, from the selected milestone's restored objects, exactly the mutations stamped at or before the clamped step, in order, in the frame of that step |
| Replay.ReachesNullIff | recording.cpp:89-98 | the loop reaches a store into an unrestored object exactly when one of the mutations up to the step is such a store |
| Replay.AsWrittenAgrees | recording.cpp:89-98 | the replay as written fails exactly when it reaches a store into an unrestored object, and otherwise equals the corrected replay |
| NullTarget.TrackSkipsUnpicklable | recording.cpp:160-165 | an object whose dump fails never joins the pickle order |
| NullTarget.OnlyDumpedAppended | recording.cpp:162-165 | only objects that dumped are appended to the pickle order |
| NullTarget.RecordSkipsUnpicklable | recording.cpp:184-192 | Recording_record never puts an object whose dump fails into the pickle order |
| NullTarget.StoreStep | recording.cpp:184-193 | below the threshold a store appends exactly its mutation to the active log, and keeps the steps, the milestones, new_milestone and the global frame |
| NullTarget.NameStoreTracks | recording.cpp:184-187 | a name bind tracks the bound object |
| NullTarget.ModuleSweep | execorder.cpp:33-53 | in the recorded program, the sweep at the module's call records `__builtins__` once, since the module's locals are its globals |
| NullTarget.ModuleSwept | execorder.cpp:33-53 | in the recorded program, after that sweep the recording is in its first milestone with new_milestone cleared, and only the `__builtins__` bind is logged, at stamp 0 |
| NullTarget.FirstCall | execorder.cpp:26-62 | in the recorded program, the module's call makes the module frame the global frame, logs `__builtins__` and is the first step |
| NullTarget.QuietTrace | execorder.cpp:26-62 | with the global frame set and no pending sweep, an event of a frame without locals adds exactly its step |
| NullTarget.QuietTraces | execorder.cpp:26-62 | a run of such events adds one step each and changes neither the log nor the tracked set |
| NullTarget.DeliverAllAppend | execorder.cpp:26-62 | delivering `a + b` is delivering `a`, then `b` |
| NullTarget.BindStage | execorder.cpp:181-187 | in the recorded program, `f = lambda: 0` logs the STORE_FAST under co_varnames[0] and tracks the lambda, which stays out of the pickle order |
| NullTarget.AttrStage | execorder.cpp:174-177 | in the recorded program, `f.x = 1` on the tracked lambda logs the STORE_ATTR stamped with the step count |
| NullTarget.Opening | execorder.cpp:26-62 | in the recorded program, the module's call and lines and g's call and line 2 leave five steps and the one `__builtins__` mutation |
| NullTarget.OpeningLines | execorder.cpp:26-62 | in the recorded program, the four events after the module's call add four steps and nothing else |
| NullTarget.OpeningCall | execorder.cpp:26-62 | in the recorded program, the module's call alone leaves one step and one mutation |
| NullTarget.Binding | execorder.cpp:181-187 | in the recorded program, the bind and g's line 3 track the lambda and leave six steps and two mutations |
| NullTarget.Closing | execorder.cpp:174-177 | in the recorded program, `f.x = 1` and the two returns log the store as the third mutation, stamped 6 |
| NullTarget.UpToAttribute | execorder.cpp:26-62 | in the recorded program, the lambda is tracked by g's line 3 |
| NullTarget.WholeProgram | execorder.cpp:26-62 | in the recorded program, the whole run leaves eight steps, with the attribute store stamped 6 |
| NullTarget.ReplayFails | recording.cpp:93-98 | in the first milestone, a logged STORE_ATTR into the lambda stamped at or before the step makes state(step), as written, fail |
| NullTarget.LambdaAttributeFails | recording.cpp:93-98 | recording `def g(): f = lambda: 0; f.x = 1` then `g()` from a fresh recording tracks the lambda before `f.x = 1`, and then state(6), as written, hands a NULL target to PyObject_SetAttr |
| Execorder.Intern | execorder.cpp:116-133 | check_const returns a live object when given one |
| Execorder.InternSameValue | execorder.cpp:116-133 | the result is the argument or an equal-valued stored object; the table only grows, and only by the argument under its value |
| Execorder.InternIdempotent | execorder.cpp:121-131 | check_const of its own result changes nothing |
| Execorder.InternCanonical | execorder.cpp:121-131 | equal hashable values intern to the identical object |
| Execorder.ConstTable.CheckConst | execorder.cpp:116-133 | returns and stores exactly what `Intern` says: NULL for NULL, the argument if unhashable, else the stored representative, inserting the argument the first time |
| Execorder.Lookup | execorder.cpp:15-24 | a recording found is one of the registered recordings |
| Execorder.Chain | execorder.cpp:15-24 | the f_back chain starts at the frame and holds only frames |
| Execorder.LookupFirstRegistered | execorder.cpp:15-24 | with backtracking: NULL exactly when no frame of the chain has a registered filename, else the recording of the first frame that has one |
| Execorder.LookupNullIff | execorder.cpp:15-24 | with backtracking: NULL exactly when no frame of the f_back chain has a registered filename |
| Execorder.LookupWitness | execorder.cpp:15-24 | with backtracking, a recording found is that of a frame of the chain whose filename is registered, and no earlier frame of the chain is registered |
| Execorder.LookupNoBacktrack | execorder.cpp:15-24 | without backtracking only the frame itself is checked |
| Execorder.GetRecording | execorder.cpp:15-24 | the loop returns exactly `Lookup` |
| Execorder.ClassifyFamilies | execorder.cpp:140-179 | name binds and only they are Bind, object mutations and only they are MutateObject, every other opcode is skipped; neither family is a trace event |
| Execorder.RecordObject | execorder.cpp:174-177 | with a backtracking lookup and a tracked `a`: `b` is interned and the recording gets `(opcode, a, interned b, c)`; otherwise nothing changes; other recordings are untouched |
| Execorder.RecordBind | execorder.cpp:181-187 | with a lookup without backtracking: `c` is interned and the recording gets `(opcode, frame, name, interned c)`; otherwise nothing changes; other recordings are untouched |
| Execorder.Mutate | execorder.cpp:136-188 | the name is `b`, `a` or co_varnames[i] by opcode and is recorded as above; object mutations as above; any other opcode changes nothing |
| Execorder.DictNext | execorder.cpp:48 | PyDict_Next yields the first live slot at or after `pos` and the position just past it; it yields nothing exactly when every slot from `pos` on is deleted |
| Execorder.LastEntry | execorder.cpp:48 | the index of the last live slot, every later slot being deleted, or -1 when there is none |
| Execorder.DictNextFrom | execorder.cpp:48-51 | a yielded entry is the first of the entries from `pos` and the rest follow from the new position, with the same end position; yielding nothing means no entry is left and the position is already the end |
| Execorder.FromMembers | execorder.cpp:48-51 | the entries from `pos` are exactly the live slots at or after `pos` |
| Execorder.FromPastLast | execorder.cpp:48-51 | no entry lies past the last live slot |
| Execorder.SweepAfterDeletedGlobal | execorder.cpp:46-52 | with globals `__builtins__`, a deleted slot and `g`, and locals `p`, `q`, `r`, the sweep at a new milestone records the two globals and none of the locals |
| Execorder.FromLive | execorder.cpp:48-51 | every entry of a valid frame's dict is a live key and value |
| Execorder.RecordEntriesMilestones | execorder.cpp:47-51 | recording the swept entries keeps the earlier milestones, and new_milestone ends set exactly when it was set or a rollover started a new milestone |
| Execorder.SweepVisits | execorder.cpp:46-52 | sweeping one dict visits all its live slots; globals then locals visits every global and only the locals in slots past the last live global slot; a module frame, whose locals are its globals, has each entry visited once |
| Execorder.SweptLive | execorder.cpp:34-44 | every swept key and value is a live object |
| Execorder.RecordEntriesCons | execorder.cpp:47-51 | recording the entries is recording the first, then the rest |
| Execorder.RecordEntriesAppend | execorder.cpp:47-51 | recording the entries of `a + b` is recording `a` then `b` |
| Execorder.RecordEntriesLog | execorder.cpp:47-51 | the sweep keeps the invariant and the steps, and adds one STORE_NAME mutation per entry, in order, stamped with the step count |
| Execorder.NameStoreEffect | execorder.cpp:49 | one swept entry adds exactly its STORE_NAME mutation to the log |
| Execorder.SweepStageEffect | execorder.cpp:33-53 | on CALL or at a new milestone the sweep adds one STORE_NAME per swept entry, otherwise nothing; steps, global frame and earlier milestones are kept; new_milestone ends set exactly when the sweep rolled over into a new milestone |
| Execorder.TraceEffect | execorder.cpp:26-62 | trace keeps the invariant; the global frame becomes the traced frame only if unset; the log gains exactly the swept entries; a trace event adds exactly one step; earlier milestones are kept; new_milestone ends set exactly when the sweep rolled over into a new milestone |
| Execorder.EventEffect | execorder.cpp:55 | the event trace records last adds its step if it is a trace event and otherwise nothing; it keeps the log, the milestones and new_milestone |
| Execorder.SweepDict | execorder.cpp:48-51 | PyDict_Next from slot `pos` records each live entry from there on, in slot order, and leaves `pos` just past the last live slot, or where it was if no live slot lies at or after it |
| Execorder.Sweep | execorder.cpp:46-52 | the sweep records exactly the entries `SweepFrom` visits, in order |
| Execorder.Trace | execorder.cpp:26-62 | trace returns 0 and changes the recording of the frame exactly as `TraceF` says, and no other recording |
| MakeSrc.Find | make_src.py:37-39 | the first occurrence at or after the start, or none exactly when there is no occurrence there |
| MakeSrc.LastNewline | make_src.py:40 | the last newline before the position, or -1 when there is none |
| MakeSrc.Words | make_src.py:36 | the split words are non-empty, hold no whitespace, and together are the input without its whitespace |
| MakeSrc.WordsFromAreWords | make_src.py:36 | no split word is empty or holds whitespace |
| MakeSrc.WordsFromSolid | make_src.py:36 | the split words hold all the non-whitespace characters in order |
| MakeSrc.MutateCallArgs | make_src.py:42 | the five operands become, in order, the five arguments after `f` |
| MakeSrc.PatchEntry | make_src.py:36-45 | one iteration of the loop computes exactly `PatchOne` |
| MakeSrc.PatchCeval | make_src.py:33-45 | the loop computes exactly `PatchAll`, the fold of the entries in table order |
| MakeSrc.PatchOneCases | make_src.py:36-45 | IndexError exactly when there are no operands; NOT FOUND, with the text unchanged, exactly when the target is absent; ValueError exactly when no end marker follows the target; a patch needs five operands |
| MakeSrc.PatchOneInserts | make_src.py:38-43 | a patch inserts only the call line, right before the first end marker after the first target; removing it gives back the old text |
| MakeSrc.InsertionColumns | make_src.py:40-43 | the call starts at the end marker's column and the end marker keeps its column on the next line |
| MakeSrc.PrefixColumn | make_src.py:40 | texts that agree before a position give it the same column |
| MakeSrc.LastNewlineAt | make_src.py:40 | a newline with no newline after it before the position is the last one |
| MakeSrc.PatchFromAppend | make_src.py:35-45 | the loop over `a + b` is the loop over `a`, then over `b` from its result; an error stops it |
| MakeSrc.PatchFromUntouched | make_src.py:35-45 | a text with no target of the table comes through unchanged, with one NOT FOUND line per entry, in order |
| MakeSrc.Unwrap | make_src.py:47-65 | the output is the fixed header, the patched code verbatim, and the fixed footer |
| MakeSrc.WrapInjective | make_src.py:47-65 | two codes with the same output are the same |

## Left out

- Recording.Recording.Record: `Recording_record` is `void` in recording.cpp, but recording.h declares it to return a pointer, and trace tests that result. The model returns a flag that is always true, so trace's error path (turn tracing off, return -1) is never taken.
- `Recording_new` sets a `current_step` field that recording.h does not declare. It is not part of the model. The constructor builds the first milestone directly, rather than by calling new_milestone.
- `state()`'s argument unpacking and its NULL return are not modelled. Nor is the truncation of `PyLong_AsLong` and of `steps.size()` to `int`. Recording.Recording.State takes an integer step. It requires what the source leaves undefined: at least one step, a non-negative step, and a first milestone whose first mutation is at or before the step (else `mutations` is uninitialised).
- Recording.Recording.State: it ends in the corrected replay. A STORE_ATTR or STORE_SUBSCR into an object with no restored copy is skipped. The source instead hands NULL to `PyObject_SetAttr` / `PyObject_SetItem` (recording.cpp:93-98). `Replay.StateAsWritten` models the source's replay, and `Replay.AsWrittenAgrees` states when the two agree; see "## Findings".
- Recording.ReplayUpTo: the corrected replay loop, with the same skip; the source's loop is `Replay.ReplayAsWritten`, related to it by `Replay.AsWrittenAgrees`.
- Replay.Apply: dicts are keyed by the name pointer `b`, not by string equality as `PyDict_SetItem` keys them. Restored objects are keyed by pointer, as in the source's hash map.
- Pickling, unpickling and `BytesIO` are a snapshot map and a `picklable` set. Byte-level pickle formats and shared references between snapshots are not modelled.
- Refcounting, `Recording_dealloc`, `max_steps`, `callback`, `exec`, `compile_and_exec`, `PyInit_execorder` and the sparsepp internals are left out. These are interpreter plumbing that the recorded state never reads.
- `PyFrame_FastToLocals` is not modelled. A frame's dicts are given as entry tables: slots, live or deleted, in `PyDict_Next` order. Split-table dicts (shared keys) are not told apart from combined ones; both are walked slot by slot. The computed `opcode` of trace is unused in the source, so it is not modelled.
- Execorder.RecordEntries passes over an entry whose key or value is not a live object. A valid heap never holds one in a frame's dicts (`Execorder.SweptLive`), so the sweep of trace records every entry.
- Execorder.VarName: an index out of range of `co_varnames` gives NULL and no binding. The `IndexError` that `PyTuple_GetItem` leaves set is not modelled.
- ceval.cpp, the vendored CPython evaluation loop, is not modelled. Only the operand conventions and the placement of its `Execorder_Mutate` call sites are used; the placement of the STORE_NAME call inside the error branch (ceval.cpp:2154-2160) is the reason the module-level bind of `g` is absent from `NullTarget.Script`.
- MakeSrc.Words: whitespace is the six ASCII whitespace characters. Python's `str.split()` also splits on other Unicode whitespace, which does not occur in the table.
- make_src.py's file reading and writing, its `print` output (modelled as the list of printed lines) and its header copying are I/O.
- Interrupts of the Python script other than the three exceptions of the loop are not modelled.

## Findings

| source | as written | input that shows it | evidently intended | confidence | as-written member | corrected member |
|---|---|---|---|---|---|---|
| recording.cpp:93-98 | `state()` replays STORE_ATTR and STORE_SUBSCR on `objects[a]`. A tracked object whose pickle dump failed is not in the pickle order, so `objects[a]` default-inserts NULL, and that NULL is passed to `PyObject_SetAttr` / `PyObject_SetItem`. | `def g():` / `    f = lambda: 0` / `    f.x = 1` / `g()` recorded (a lambda does not pickle; STORE_FAST is hooked at ceval.cpp:1207 and STORE_ATTR at ceval.cpp:2244), then `state(6)`, the step of g's return | skip, or report, a store into an object that has no restored copy | not executed | NullTarget.LambdaAttributeFails | Replay.AsWrittenAgrees |

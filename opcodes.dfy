/**
 * Numeric event codes that reach the recorder: the CPython 3.8 opcodes the
 * patched evaluation loop reports, and the four trace events of
 * PyEval_SetTrace.  The values are those of CPython 3.8's opcode.h and
 * pystate.h; those headers are not part of this model.
 */
module Opcodes {

  // Trace events (PyTrace_*)
  const CALL: int := 0
  const EXCEPTION: int := 1
  const LINE: int := 2
  const RETURN: int := 3
  // The other PyTrace_* codes a trace function can be handed; the recorder keeps no step for them
  const C_CALL: int := 4
  const C_EXCEPTION: int := 5
  const C_RETURN: int := 6
  const OPCODE: int := 7

  // Object mutations
  const INPLACE_MATRIX_MULTIPLY: int := 17
  const INPLACE_FLOOR_DIVIDE: int := 28
  const INPLACE_TRUE_DIVIDE: int := 29
  const INPLACE_ADD: int := 55
  const INPLACE_SUBTRACT: int := 56
  const INPLACE_MULTIPLY: int := 57
  const INPLACE_MODULO: int := 59
  const STORE_SUBSCR: int := 60
  const DELETE_SUBSCR: int := 61
  const INPLACE_POWER: int := 67
  const INPLACE_LSHIFT: int := 75
  const INPLACE_RSHIFT: int := 76
  const INPLACE_AND: int := 77
  const INPLACE_XOR: int := 78
  const INPLACE_OR: int := 79
  const STORE_ATTR: int := 95
  const DELETE_ATTR: int := 96

  // Name bindings
  const STORE_NAME: int := 90
  const DELETE_NAME: int := 91
  const STORE_GLOBAL: int := 97
  const DELETE_GLOBAL: int := 98
  const STORE_FAST: int := 125
  const DELETE_FAST: int := 126

  /** The three name stores that Recording_record tracks `c` for before falling through. */
  predicate IsNameStore(op: int) {
    op == STORE_GLOBAL || op == STORE_FAST || op == STORE_NAME
  }

  /** The two object stores that share the tail of the name-store case. */
  predicate IsObjectStore(op: int) {
    op == STORE_SUBSCR || op == STORE_ATTR
  }

  /** Every event that appends a Mutation. */
  predicate IsStore(op: int) {
    IsNameStore(op) || IsObjectStore(op)
  }

  predicate IsTraceEvent(op: int) {
    op == CALL || op == EXCEPTION || op == LINE || op == RETURN
  }

  predicate IsInplace(op: int) {
    || op == INPLACE_POWER || op == INPLACE_MULTIPLY || op == INPLACE_MATRIX_MULTIPLY
    || op == INPLACE_TRUE_DIVIDE || op == INPLACE_FLOOR_DIVIDE || op == INPLACE_MODULO
    || op == INPLACE_ADD || op == INPLACE_SUBTRACT || op == INPLACE_LSHIFT
    || op == INPLACE_RSHIFT || op == INPLACE_AND || op == INPLACE_XOR || op == INPLACE_OR
  }

  /** The "bound object mutates" family of Execorder_Mutate. */
  predicate IsObjectMutation(op: int) {
    op == STORE_SUBSCR || op == DELETE_SUBSCR || op == STORE_ATTR || op == DELETE_ATTR || IsInplace(op)
  }

  /** The "name bind" family of Execorder_Mutate. */
  predicate IsNameBind(op: int) {
    || op == STORE_NAME || op == DELETE_NAME
    || op == STORE_GLOBAL || op == DELETE_GLOBAL
    || op == STORE_FAST || op == DELETE_FAST
  }
}

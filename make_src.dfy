/**
 * make_src.py: the generator of ceval.cpp.  For each (arguments, end marker)
 * pair it finds `TARGET(op)` in the text of CPython's ceval.c and inserts an
 * `Execorder_Mutate(f, ...);` line, indented to the column of the end
 * marker, just before the first occurrence of the marker after the target;
 * the patched text is then wrapped in an `extern "C"` block.
 */
module MakeSrc {
  import opened Wrappers

  /** One entry of the patch table: five space-separated operands and the end marker. */
  datatype Call = Call(args: string, end: string)

  /** The Python exceptions the patch loop can raise; each aborts the script. */
  datatype PyError =
    | IndexError   // args.split() is empty, so args[0] does not exist
    | ValueError   // str.index finds no end marker after the target
    | TypeError    // the format string takes exactly five operands

  /** The result of patching with one entry: the new text and the lines printed. */
  datatype Patched = Patched(code: string, printed: seq<string>)

  /** The patch table: the opcode, the operands passed to Execorder_Mutate, and the line to insert before. */
  const Calls: seq<Call> := [
    Call("STORE_FAST oparg NULL NULL value", "FAST_DISPATCH();"),
    Call("INPLACE_POWER 0 base exp NULL", "Py_DECREF(base);"),
    Call("INPLACE_MULTIPLY 0 left right NULL", "Py_DECREF(left);"),
    Call("INPLACE_MATRIX_MULTIPLY 0 left right NULL", "Py_DECREF(left);"),
    Call("INPLACE_TRUE_DIVIDE 0 dividend divisor NULL", "Py_DECREF(dividend);"),
    Call("INPLACE_FLOOR_DIVIDE 0 dividend divisor NULL", "Py_DECREF(dividend);"),
    Call("INPLACE_MODULO 0 left right NULL", "Py_DECREF(left);"),
    Call("INPLACE_ADD 0 left right NULL", "Py_DECREF(right);"),
    Call("INPLACE_SUBTRACT 0 left right NULL", "Py_DECREF(left);"),
    Call("INPLACE_LSHIFT 0 left right NULL", "Py_DECREF(left);"),
    Call("INPLACE_RSHIFT 0 left right NULL", "Py_DECREF(left);"),
    Call("INPLACE_AND 0 left right NULL", "Py_DECREF(left);"),
    Call("INPLACE_XOR 0 left right NULL", "Py_DECREF(left);"),
    Call("INPLACE_OR 0 left right NULL", "Py_DECREF(left);"),
    Call("STORE_SUBSCR 0 container sub v", "Py_DECREF(v);"),
    Call("DELETE_SUBSCR 0 container sub NULL", "Py_DECREF(container);"),
    Call("STORE_NAME 0 ns name v", "Py_DECREF(v);"),
    Call("DELETE_NAME 0 ns name NULL", "if (err != 0) {"),
    Call("STORE_ATTR 0 owner name v", "Py_DECREF(v);"),
    Call("DELETE_ATTR 0 owner name NULL", "Py_DECREF(owner);"),
    Call("STORE_GLOBAL 0 name NULL v", "Py_DECREF(v);"),
    Call("DELETE_GLOBAL 0 name NULL NULL", "if (err != 0) {"),
    Call("DELETE_FAST oparg NULL NULL NULL", "DISPATCH();")
  ]

  // ---- the string operations of Python the loop relies on ----

  /** `sub` occurs in `s` at position `k`. */
  predicate OccursAt(s: string, sub: string, k: nat) {
    k + |sub| <= |s| && s[k..k + |sub|] == sub
  }

  /** s.index(sub, from) / s.find(sub, from): the first occurrence of `sub` at or after `from`. */
  function Find(s: string, sub: string, from: nat): (r: Option<nat>)
    ensures r.Some? ==> from <= r.value && OccursAt(s, sub, r.value)
    ensures r.Some? ==> forall k :: from <= k < r.value ==> !OccursAt(s, sub, k)
    ensures r.None? ==> forall k :: from <= k ==> !OccursAt(s, sub, k)
    decreases |s| - from
  {
    if from + |sub| > |s| then None
    else if OccursAt(s, sub, from) then Some(from)
    else Find(s, sub, from + 1)
  }

  /** s.rfind('\n', 0, i): the last newline before position `i`, or -1. */
  function LastNewline(s: string, i: nat): (r: int)
    requires i <= |s|
    ensures -1 <= r < i
    ensures r >= 0 ==> s[r] == '\n'
    ensures forall k :: r < k < i ==> s[k] != '\n'
    decreases i
  {
    if i == 0 then -1
    else if s[i - 1] == '\n' then i - 1
    else LastNewline(s, i - 1)
  }

  /** The column of position `i`: how many characters precede it on its line. */
  function Column(s: string, i: nat): nat
    requires i <= |s|
  {
    i - LastNewline(s, i) - 1
  }

  /** ' ' * n */
  function Spaces(n: nat): (r: string)
    ensures |r| == n && forall k :: 0 <= k < n ==> r[k] == ' '
  {
    seq(n, _ => ' ')
  }

  /** The whitespace characters of str.split(). */
  predicate IsSpace(c: char) {
    c == ' ' || c == '\t' || c == '\n' || c == '\r' || c == '\U{0b}' || c == '\U{0c}'
  }

  /** The characters of `s` that are not whitespace, in order. */
  function Solid(s: string): string {
    if s == [] then [] else (if IsSpace(s[0]) then [] else [s[0]]) + Solid(s[1..])
  }

  function Concat(ws: seq<string>): string {
    if ws == [] then [] else ws[0] + Concat(ws[1..])
  }

  /** A word of str.split(): non-empty and free of whitespace. */
  predicate IsWord(w: string) {
    w != [] && forall k :: 0 <= k < |w| ==> !IsSpace(w[k])
  }

  predicate AllWords(ws: seq<string>) {
    forall k :: 0 <= k < |ws| ==> IsWord(ws[k])
  }

  /** str.split() with no separator, scanning `s` with the word `cur` begun. */
  function WordsFrom(s: string, cur: string): seq<string>
    decreases |s|
  {
    if s == [] then
      if cur == [] then [] else [cur]
    else if IsSpace(s[0]) then
      if cur == [] then WordsFrom(s[1..], []) else [cur] + WordsFrom(s[1..], [])
    else
      WordsFrom(s[1..], cur + [s[0]])
  }

  /** Every word split off is non-empty and free of whitespace. */
  lemma {:induction false} WordsFromAreWords(s: string, cur: string)
    requires cur == [] || IsWord(cur)
    ensures AllWords(WordsFrom(s, cur))
    decreases |s|
  {
    if s != [] {
      if IsSpace(s[0]) {
        var rest := WordsFrom(s[1..], []);
        WordsFromAreWords(s[1..], []);
        if cur == [] {
          assert WordsFrom(s, cur) == rest;
        } else {
          assert WordsFrom(s, cur) == [cur] + rest;
          assert ([cur] + rest)[0] == cur;
          assert forall k :: 1 <= k < |[cur] + rest| ==> ([cur] + rest)[k] == rest[k - 1];
        }
      } else {
        var c := cur + [s[0]];
        assert forall k :: 0 <= k < |c| ==> c[k] == if k < |cur| then cur[k] else s[0];
        assert IsWord(c);
        WordsFromAreWords(s[1..], c);
        assert WordsFrom(s, cur) == WordsFrom(s[1..], c);
      }
    }
  }

  /** The words hold all the non-whitespace characters, in order, and nothing else. */
  lemma {:induction false} WordsFromSolid(s: string, cur: string)
    ensures Concat(WordsFrom(s, cur)) == cur + Solid(s)
    decreases |s|
  {
    if s == [] {
      if cur == [] {
      } else {
        assert Concat([cur]) == cur + Concat([]);
      }
    } else if IsSpace(s[0]) {
      WordsFromSolid(s[1..], []);
      var rest := WordsFrom(s[1..], []);
      assert Solid(s) == Solid(s[1..]);
      if cur != [] {
        assert ([cur] + rest)[1..] == rest;
      }
    } else {
      WordsFromSolid(s[1..], cur + [s[0]]);
      assert Solid(s) == [s[0]] + Solid(s[1..]);
      AppendAssoc(cur, [s[0]], Solid(s[1..]));
    }
  }

  /** str.split(): the words of `s`, with all its whitespace dropped and nothing else. */
  function Words(s: string): (ws: seq<string>)
    ensures AllWords(ws)
    ensures Concat(ws) == Solid(s)
  {
    WordsFromAreWords(s, []);
    WordsFromSolid(s, []);
    WordsFrom(s, [])
  }

  // ---- the patch loop ----

  /** 'TARGET(%s)' % op */
  function Target(op: string): string {
    "TARGET(" + op + ")"
  }

  /** 'Execorder_Mutate(f, %s, %s, %s, %s, %s);' % tuple(args) for five operands. */
  function MutateCall(ws: seq<string>): string
    requires |ws| == 5
  {
    "Execorder_Mutate(f, " + ws[0] + ", " + ws[1] + ", " + ws[2] + ", " + ws[3] + ", " + ws[4] + ");"
  }

  /** The operands separated by ", ". */
  function Join(ws: seq<string>): string {
    if ws == [] then [] else if |ws| == 1 then ws[0] else ws[0] + ", " + Join(ws[1..])
  }

  /** The five operands become, in order, the five arguments after `f`. */
  lemma MutateCallArgs(ws: seq<string>)
    requires |ws| == 5
    ensures MutateCall(ws) == "Execorder_Mutate(f, " + Join(ws) + ");"
  {
    assert ws[1..][1..] == ws[2..] && ws[2..][1..] == ws[3..] && ws[3..][1..] == ws[4..];
    assert Join(ws[4..]) == ws[4];
    assert Join(ws[3..]) == ws[3] + ", " + ws[4];
    assert Join(ws[2..]) == ws[2] + ", " + ws[3] + ", " + ws[4];
    assert Join(ws[1..]) == ws[1] + ", " + ws[2] + ", " + ws[3] + ", " + ws[4];
  }

  /** What one iteration inserts before position `i`: the call, a newline, and the indentation of `i`. */
  function Insertion(code: string, ws: seq<string>, i: nat): string
    requires |ws| == 5 && i <= |code|
  {
    MutateCall(ws) + "\n" + Spaces(Column(code, i))
  }

  /**
   * One iteration of the loop: split the operands; if `TARGET(op)` occurs,
   * insert the call before the first end marker after it, else print
   * "NOT FOUND: TARGET(op)" and leave the text alone.
   */
  function PatchOne(code: string, call: Call): Result<Patched, PyError> {
    var ws := Words(call.args);
    if |ws| == 0 then Err(IndexError)
    else
      var start := Target(ws[0]);
      match Find(code, start, 0)
      case None => Ok(Patched(code, ["NOT FOUND: " + start]))
      case Some(t) =>
        match Find(code, call.end, t)
        case None => Err(ValueError)
        case Some(i) =>
          if |ws| != 5 then Err(TypeError)
          else Ok(Patched(code[..i] + Insertion(code, ws, i) + code[i..], []))
  }

  /** The loop from some point on: `printed` is what the earlier iterations printed. */
  function PatchFrom(code: string, printed: seq<string>, calls: seq<Call>): Result<Patched, PyError>
    decreases |calls|
  {
    if calls == [] then Ok(Patched(code, printed))
    else
      match PatchOne(code, calls[0])
      case Err(e) => Err(e)
      case Ok(p) => PatchFrom(p.code, printed + p.printed, calls[1..])
  }

  /** The whole loop: each entry, in table order, patches the result of the one before. */
  function PatchAll(code: string, calls: seq<Call>): Result<Patched, PyError> {
    PatchFrom(code, [], calls)
  }

  /** The for loop of make_src.py, rebinding `code` once per entry; an exception ends it. */
  method PatchCeval(code0: string, calls: seq<Call>) returns (r: Result<Patched, PyError>)
    ensures r == PatchAll(code0, calls)
  {
    var code := code0;
    var printed: seq<string> := [];
    for k := 0 to |calls|
      invariant PatchFrom(code, printed, calls[k..]) == PatchAll(code0, calls)
    {
      assert calls[k..][0] == calls[k] && calls[k..][1..] == calls[k + 1..];
      var step := PatchEntry(code, calls[k]);
      match step
      case Err(e) =>
        return Err(e);
      case Ok(p) =>
        code, printed := p.code, printed + p.printed;
    }
    assert calls[|calls|..] == [];
    return Ok(Patched(code, printed));
  }

  /** The body of the loop for one entry. */
  method PatchEntry(code: string, call: Call) returns (r: Result<Patched, PyError>)
    ensures r == PatchOne(code, call)
  {
    var args := Words(call.args);
    if |args| == 0 {
      return Err(IndexError);
    }
    var start := Target(args[0]);
    var t := Find(code, start, 0);
    if t.None? {
      return Ok(Patched(code, ["NOT FOUND: " + start]));
    }
    var i := Find(code, call.end, t.value);
    if i.None? {
      return Err(ValueError);
    }
    var j := LastNewline(code, i.value);
    var indent := Spaces(i.value - j - 1);
    if |args| != 5 {
      return Err(TypeError);
    }
    var mutate := MutateCall(args);
    var inserted := mutate + "\n" + indent;
    assert inserted == Insertion(code, args, i.value);
    return Ok(Patched(code[..i.value] + inserted + code[i.value..], []));
  }

  // ---- what one iteration does ----

  /**
   * The outcome of one entry, case by case: no operands is an IndexError;
   * a missing target prints NOT FOUND and changes nothing; a target with no
   * end marker after it is a ValueError; other than five operands is a
   * TypeError; otherwise the text is patched and nothing is printed.
   */
  lemma PatchOneCases(code: string, call: Call)
    ensures var ws := Words(call.args);
      var r := PatchOne(code, call);
      && (ws == [] <==> r == Err(IndexError))
      && (ws != [] ==>
            && ((forall k :: !OccursAt(code, Target(ws[0]), k)) <==> r == Ok(Patched(code, ["NOT FOUND: " + Target(ws[0])])))
            && ((exists t :: OccursAt(code, Target(ws[0]), t)) && (forall k :: Find(code, Target(ws[0]), 0).value <= k ==> !OccursAt(code, call.end, k))
                <==> r == Err(ValueError)))
      && (r.Ok? && r.value.printed == [] ==> |ws| == 5)
  {
    var ws := Words(call.args);
    if ws != [] {
      var start := Target(ws[0]);
      var t := Find(code, start, 0);
      if t.Some? {
        assert OccursAt(code, start, t.value);
      }
    }
  }

  /**
   * A patching iteration inserts exactly one text, right before the first end
   * marker after the first `TARGET(op)`: removing it gives back the old text.
   */
  lemma PatchOneInserts(code: string, call: Call)
    requires PatchOne(code, call).Ok? && PatchOne(code, call).value.printed == []
    ensures var ws := Words(call.args);
      var r := PatchOne(code, call).value.code;
      var t := Find(code, Target(ws[0]), 0);
      |ws| == 5 && t.Some? &&
      var i := Find(code, call.end, t.value);
      && i.Some? && t.value <= i.value
      && OccursAt(code, Target(ws[0]), t.value) && OccursAt(code, call.end, i.value)
      && (forall k :: t.value <= k < i.value ==> !OccursAt(code, call.end, k))
      && var ins := Insertion(code, ws, i.value);
      && |r| == |code| + |ins|
      && r[..i.value] == code[..i.value]
      && r[i.value..i.value + |ins|] == ins
      && r[i.value + |ins|..] == code[i.value..]
      && r[..i.value] + r[i.value + |ins|..] == code
  {
    var ws := Words(call.args);
    var t := Find(code, Target(ws[0]), 0);
    var i := Find(code, call.end, t.value).value;
    var ins := Insertion(code, ws, i);
    var r := code[..i] + ins + code[i..];
    assert r[..i] == code[..i];
    assert r[i..i + |ins|] == ins;
    assert r[i + |ins|..] == code[i..];
  }

  /**
   * The inserted call starts at the column of the end marker, and the end
   * marker keeps that column on the new line that follows the call: the
   * generated line is indented like the line it precedes.
   */
  lemma InsertionColumns(code: string, ws: seq<string>, i: nat)
    requires |ws| == 5 && i <= |code|
    ensures var ins := Insertion(code, ws, i);
      var r := code[..i] + ins + code[i..];
      && Column(r, i) == Column(code, i)
      && Column(r, i + |ins|) == Column(code, i)
      && r[i + |MutateCall(ws)|] == '\n'
  {
    var m := MutateCall(ws);
    var col := Column(code, i);
    var ins := Insertion(code, ws, i);
    var r := code[..i] + ins + code[i..];
    assert r[..i] == code[..i];
    PrefixColumn(code, r, i);
    var nl := i + |m|;
    assert r[nl] == ins[|m|] == '\n';
    forall k | nl < k < i + |ins|
      ensures r[k] != '\n'
    {
      assert r[k] == ins[k - i] == Spaces(col)[k - i - |m| - 1];
    }
    LastNewlineAt(r, i + |ins|, nl);
  }

  /** Positions up to `i` have the same column in two texts that agree before `i`. */
  lemma {:induction false} PrefixColumn(a: string, b: string, i: nat)
    requires i <= |a| && i <= |b| && a[..i] == b[..i]
    ensures LastNewline(a, i) == LastNewline(b, i)
    decreases i
  {
    if i > 0 {
      assert a[i - 1] == a[..i][i - 1] == b[..i][i - 1] == b[i - 1];
      assert a[..i - 1] == a[..i][..i - 1] == b[..i][..i - 1] == b[..i - 1];
      PrefixColumn(a, b, i - 1);
    }
  }

  /** A newline at `j` with none between it and `i` is the last newline before `i`. */
  lemma {:induction false} LastNewlineAt(s: string, i: nat, j: nat)
    requires j < i <= |s| && s[j] == '\n'
    requires forall k :: j < k < i ==> s[k] != '\n'
    ensures LastNewline(s, i) == j
    decreases i
  {
    if i - 1 != j {
      LastNewlineAt(s, i - 1, j);
    }
  }

  // ---- the loop as a whole ----

  /** Running the loop over `a + b` runs it over `a`, then over `b` from where `a` left off; an error stops it. */
  lemma {:induction false} PatchFromAppend(code: string, printed: seq<string>, a: seq<Call>, b: seq<Call>)
    ensures PatchFrom(code, printed, a + b) ==
      match PatchFrom(code, printed, a)
      case Err(e) => Err(e)
      case Ok(p) => PatchFrom(p.code, p.printed, b)
    decreases |a|
  {
    if a == [] {
      assert a + b == b;
    } else {
      assert (a + b)[0] == a[0] && (a + b)[1..] == a[1..] + b;
      match PatchOne(code, a[0])
      case Err(e) =>
      case Ok(p) => PatchFromAppend(p.code, printed + p.printed, a[1..], b);
    }
  }

  /** The NOT FOUND line of each entry, in table order. */
  function NotFoundLines(calls: seq<Call>): seq<string>
    requires forall k :: 0 <= k < |calls| ==> Words(calls[k].args) != []
  {
    seq(|calls|, k requires 0 <= k < |calls| => "NOT FOUND: " + Target(Words(calls[k].args)[0]))
  }

  /**
   * A text in which no target of the table occurs comes through the loop
   * unchanged, and one NOT FOUND line is printed per entry, in order.
   */
  lemma {:induction false} PatchFromUntouched(code: string, printed: seq<string>, calls: seq<Call>)
    requires forall k :: 0 <= k < |calls| ==> Words(calls[k].args) != []
    requires forall k, n :: 0 <= k < |calls| ==> !OccursAt(code, Target(Words(calls[k].args)[0]), n)
    ensures PatchFrom(code, printed, calls) == Ok(Patched(code, printed + NotFoundLines(calls)))
    decreases |calls|
  {
    if calls == [] {
      assert NotFoundLines(calls) == [];
      assert printed + [] == printed;
    } else {
      var line := "NOT FOUND: " + Target(Words(calls[0].args)[0]);
      assert PatchOne(code, calls[0]) == Ok(Patched(code, [line]));
      assert forall k :: 0 <= k < |calls[1..]| ==> calls[1..][k] == calls[k + 1];
      PatchFromUntouched(code, printed + [line], calls[1..]);
      assert NotFoundLines(calls) == [line] + NotFoundLines(calls[1..]);
      assert (printed + [line]) + NotFoundLines(calls[1..]) == printed + NotFoundLines(calls);
    }
  }

  // ---- the extern "C" wrapper ----

  const Header: string := "\n// This is a near-exact copy of ceval.c, with calls to Execorder_Mutate()\n// added so that we can efficiently record mutations of objects\n\n#define Py_BUILD_CORE\n#include \"execorder.h\"\nextern \"C\" {\n\n//=====================================================================================\n//==================================== ceval.c ========================================\n//=====================================================================================\n\n"

  const Footer: string := "\n\n} // extern \"C\"\n"

  /** extern % code: the text written to ceval.cpp. */
  function Wrap(code: string): string {
    Header + code + Footer
  }

  /** The wrapped text holds the patched code verbatim between the fixed header and footer. */
  lemma Unwrap(code: string)
    ensures var w := Wrap(code);
      && |w| == |Header| + |code| + |Footer|
      && w[..|Header|] == Header
      && w[|Header|..|Header| + |code|] == code
      && w[|Header| + |code|..] == Footer
  {
    var w := Wrap(code);
    assert w == Header + (code + Footer);
    assert w[..|Header|] == Header;
    assert w[|Header|..|Header| + |code|] == code;
  }

  /** Wrapping is one-to-one: two texts that generate the same ceval.cpp are the same. */
  lemma WrapInjective(a: string, b: string)
    requires Wrap(a) == Wrap(b)
    ensures a == b
  {
    Unwrap(a);
    Unwrap(b);
  }
}

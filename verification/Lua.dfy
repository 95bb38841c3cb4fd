/** The parts of Lua 5.1 that the msgpack bridge uses: values, tables on a heap, and the stack of its C interface. */
module Lua {
  import opened Bytes
  import opened Objects
  import opened Equality

  /** A number is its 64-bit pattern; a table is known by its place on the heap. */
  datatype Value =
    | LNil
    | LBoolean(b: bool)
    | LNumber(bits: nat)
    | LString(bytes: seq<byte>)
    | LTable(id: nat)
    | LOther                   // functions, userdata, threads

  datatype Field = Field(key: Value, val: Value)

  /** items are the values at 1 .. luaL_getn. If there are none, fields are all fields, in the order of lua_next. */
  datatype Table = Table(items: seq<Value>, fields: seq<Field>)

  type Heap = map<nat, Table>

  function Get(h: Heap, id: nat): Table
  {
    if id in h then h[id] else Table([], [])
  }

  predicate ValueOk(v: Value)
  {
    match v
    case LNumber(bits) => bits < TWO_64
    case LString(bytes) => |bytes| < TWO_32
    case _ => true
  }

  /** Raw equality of Lua. */
  predicate KeyEquals(v: Value, w: Value)
  {
    if v.LNumber? && w.LNumber? then DoubleEquals(v.bits, w.bits) else v == w
  }

  /** What may be the key of a field: no nil and no NaN. */
  predicate IsKey(v: Value)
  {
    v != LNil && KeyEquals(v, v)
  }

  ghost predicate FieldsOk(fs: seq<Field>)
  {
    && (forall i | 0 <= i < |fs| :: IsKey(fs[i].key) && fs[i].val != LNil && ValueOk(fs[i].key) && ValueOk(fs[i].val))
    && (forall i, j | 0 <= i < j < |fs| :: !KeyEquals(fs[i].key, fs[j].key))
  }

  ghost predicate TableOk(t: Table)
  {
    && |t.items| < TWO_32 && |t.fields| < TWO_32
    && (forall i | 0 <= i < |t.items| :: ValueOk(t.items[i]))
    && FieldsOk(t.fields)
  }

  ghost predicate HeapOk(h: Heap)
  {
    forall id {:trigger TableOk(h[id])} | id in h :: TableOk(h[id])
  }

  /** The place of the field with key k, or the number of fields. */
  function FieldIndex(fs: seq<Field>, k: Value): (i: nat)
    ensures i <= |fs|
    ensures i < |fs| ==> KeyEquals(fs[i].key, k)
    ensures forall j | 0 <= j < i :: !KeyEquals(fs[j].key, k)
  {
    if fs == [] || KeyEquals(fs[0].key, k) then 0 else 1 + FieldIndex(fs[1..], k)
  }

  /** lua_rawset of a key that is allowed. */
  function Assign(fs: seq<Field>, k: Value, v: Value): seq<Field>
  {
    var i := FieldIndex(fs, k);
    if i == |fs| then if v == LNil then fs else fs + [Field(k, v)]
    else if v == LNil then fs[..i] + fs[i + 1..]
    else fs[i := Field(fs[i].key, v)]
  }

  lemma FieldIndexOfField(fs: seq<Field>, i: nat)
    requires FieldsOk(fs) && i < |fs|
    ensures FieldIndex(fs, fs[i].key) == i
  {
    var j := FieldIndex(fs, fs[i].key);
    assert j == i || j < i || i < j;
  }

  // ----- The C interface -----

  class State {
    var stack: seq<Value>
    var heap: Heap
    var next: nat              // no table has this or a larger number

    ghost predicate Valid()
      reads this
    {
      forall id | id in heap :: id < next
    }

    constructor (s: seq<Value>, h: Heap, n: nat)
      requires forall id | id in h :: id < n
      ensures Valid() && stack == s && heap == h && next == n
    {
      stack, heap, next := s, h, n;
    }

    /** The position that a stack index stands for. */
    function Absolute(index: int): int
      reads this
    {
      if index < 0 then |stack| + index + 1 else index
    }

    method Push(v: Value)
      modifies this`stack
      ensures stack == old(stack) + [v]
    {
      stack := stack + [v];
    }

    method Pop(n: nat)
      requires n <= |stack|
      modifies this`stack
      ensures stack == old(stack)[..|old(stack)| - n]
    {
      stack := stack[..|stack| - n];
    }

    method SetTop(n: nat)
      requires n <= |stack|
      modifies this`stack
      ensures stack == old(stack)[..n]
    {
      stack := stack[..n];
    }

    /** lua_next: the key on top gives way to the next key and its value, if there is one. */
    method Next(index: nat) returns (more: bool)
      requires 0 < index < |stack| && stack[index - 1].LTable?
      requires var fs, k := Get(heap, stack[index - 1].id).fields, stack[|stack| - 1];
        k == LNil || FieldIndex(fs, k) < |fs|
      modifies this`stack
      ensures var fs, k := Get(heap, old(stack)[index - 1].id).fields, old(stack)[|old(stack)| - 1];
        var i := if k == LNil then 0 else FieldIndex(fs, k) + 1;
        && (more <==> i < |fs|)
        && stack == old(stack)[..|old(stack)| - 1] + if i < |fs| then [fs[i].key, fs[i].val] else []
    {
      var fs, k := Get(heap, stack[index - 1].id).fields, stack[|stack| - 1];
      var i := if k == LNil then 0 else FieldIndex(fs, k) + 1;
      stack := stack[..|stack| - 1];
      more := i < |fs|;
      if more {
        stack := stack + [fs[i].key, fs[i].val];
      }
    }

    method NewTable()
      requires Valid()
      modifies this
      ensures Valid() && next == old(next) + 1
      ensures stack == old(stack) + [LTable(old(next))] && heap == old(heap)[old(next) := Table([], [])]
    {
      stack := stack + [LTable(next)];
      heap := heap[next := Table([], [])];
      next := next + 1;
    }

    /** lua_rawseti at the place after the last one assigned: the value on top is taken off. */
    method AppendItem(index: nat)
      requires 0 < index < |stack| && stack[index - 1].LTable? && stack[index - 1].id in heap && Valid()
      modifies this`stack, this`heap
      ensures Valid() && stack == old(stack)[..|old(stack)| - 1]
      ensures var id, v := old(stack)[index - 1].id, old(stack)[|old(stack)| - 1];
        heap == old(heap)[id := old(heap)[id].(items := old(heap)[id].items + [v])]
    {
      var id, v := stack[index - 1].id, stack[|stack| - 1];
      heap := heap[id := heap[id].(items := heap[id].items + [v])];
      stack := stack[..|stack| - 1];
    }

    /** lua_rawset: a key and a value are taken off; a key that is not allowed raises an error. */
    method RawSet(index: nat) returns (raised: bool)
      requires 0 < index && index + 1 < |stack| && stack[index - 1].LTable? && stack[index - 1].id in heap && Valid()
      modifies this`stack, this`heap
      ensures Valid() && raised == !IsKey(old(stack)[|old(stack)| - 2])
      ensures raised ==> stack == old(stack) && heap == old(heap)
      ensures !raised ==> stack == old(stack)[..|old(stack)| - 2]
      ensures !raised ==>
        var id := old(stack)[index - 1].id;
        heap == old(heap)[id := old(heap)[id].(fields :=
          Assign(old(heap)[id].fields, old(stack)[|old(stack)| - 2], old(stack)[|old(stack)| - 1]))]
    {
      var id, k, v := stack[index - 1].id, stack[|stack| - 2], stack[|stack| - 1];
      if !IsKey(k) {
        return true;
      }
      raised := false;
      heap := heap[id := heap[id].(fields := Assign(heap[id].fields, k, v))];
      stack := stack[..|stack| - 2];
    }
  }
}

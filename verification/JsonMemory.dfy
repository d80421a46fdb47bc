// json_free of src/json/json_parser_module.c on the heap: blocks that malloc gave out, and pointers
// to their starts or into them.  A value is freed together with the place it stands in, which is
// right for a value that was allocated by itself and wrong for one inside an array or an object.
module JsonMemory {
  import opened Json

  type Block = nat

  // A pointer into a block; offset 0 is its start, the only place that free accepts.
  datatype Pointer = Pointer(block: Block, offset: nat)

  datatype Option<T> = None | Some(value: T)

  // What a json_value_t holds. elems stand in the block of values, element i at offset i. In the block
  // of pairs each value has its key in front of it; member i is at offset i + lead.
  datatype Cell =
    | Plain
    | Str(text: Block)
    | Arr(header: Block, values: Option<Block>, elems: seq<Cell>)
    | Obj(header: Block, pairs: Option<Block>, lead: nat, keys: seq<Block>, members: seq<Cell>)

  // The blocks that malloc has given out and that are not freed.
  type Live = set<Block>

  // ---------------------------------------------------------------------------------------
  // What the calls come to; None is behaviour that C leaves undefined
  // ---------------------------------------------------------------------------------------

  function Free(live: Live, p: Pointer): Option<Live> {
    if p.offset == 0 && p.block in live then Some(live - {p.block}) else None
  }

  // if (p) free(p);
  function FreeIfSet(live: Live, b: Option<Block>): Option<Live> {
    if b.None? then Some(live) else Free(live, Pointer(b.value, 0))
  }

  // json_free of a value that stands at the given place.
  function FreeValue(c: Cell, at: Pointer, live: Live): Option<Live>
    decreases c, 1
  {
    if at.block !in live then None
    else
      match FreeContent(c, live)
      case None => None
      case Some(l) => Free(l, at)
  }

  function FreeContent(c: Cell, live: Live): Option<Live>
    decreases c, 0
  {
    match c
    case Plain => Some(live)
    case Str(text) => Free(live, Pointer(text, 0))
    case Arr(header, values, elems) => FreeEnd(FreeElems(header, values, elems, 0, live), values, header)
    case Obj(header, pairs, lead, keys, members) => FreeEnd(FreeMembers(header, pairs, lead, keys, members, 0, live), pairs, header)
  }

  // The loop of json_free_array, from element i on: the header is read for the count and the pointer.
  function FreeElems(header: Block, values: Option<Block>, elems: seq<Cell>, i: nat, live: Live): Option<Live>
    requires i <= |elems|
    decreases elems, |elems| - i
  {
    if header !in live then None
    else if i == |elems| then Some(live)
    else if values.None? then None
    else
      match FreeValue(elems[i], Pointer(values.value, i), live)
      case None => None
      case Some(l) => FreeElems(header, values, elems, i + 1, l)
  }

  // The loop of json_free_object.
  function FreeMembers(header: Block, pairs: Option<Block>, lead: nat, keys: seq<Block>, members: seq<Cell>, i: nat, live: Live): Option<Live>
    requires i <= |members|
    decreases members, |members| - i
  {
    if header !in live then None
    else if i == |members| then Some(live)
    else if pairs.None? || pairs.value !in live || i >= |keys| then None
    else
      match Free(live, Pointer(keys[i], 0))
      case None => None
      case Some(l) =>
        match FreeValue(members[i], Pointer(pairs.value, i + lead), l)
        case None => None
        case Some(m) => FreeMembers(header, pairs, lead, keys, members, i + 1, m)
  }

  // What follows either loop: the block of elements is freed, and the header.
  function FreeEnd(live: Option<Live>, block: Option<Block>, header: Block): Option<Live> {
    if live.None? || FreeIfSet(live.value, block).None? then None
    else Free(FreeIfSet(live.value, block).value, Pointer(header, 0))
  }

  // ---------------------------------------------------------------------------------------
  // Exactly when it is defined
  // ---------------------------------------------------------------------------------------

  // A pointer into a block is never freed rightly, whatever the value.
  lemma InsideNever(c: Cell, at: Pointer, live: Live)
    requires at.offset != 0
    ensures FreeValue(c, at, live).None?
  {
  }

  // The first element is freed with the block that it begins; what comes next uses that block again.
  lemma ArrayNever(header: Block, values: Option<Block>, elems: seq<Cell>, live: Live)
    requires elems != []
    ensures FreeEnd(FreeElems(header, values, elems, 0, live), values, header).None?
  {
    if header in live && values.Some? {
      var r := FreeValue(elems[0], Pointer(values.value, 0), live);
      if r.Some? && |elems| > 1 {
        assert FreeValue(elems[1], Pointer(values.value, 1), r.value).None?;
      }
    }
  }

  // The value of the first pair stands behind its key.
  lemma ObjectNever(header: Block, pairs: Option<Block>, lead: nat, keys: seq<Block>, members: seq<Cell>, live: Live)
    requires members != [] && lead > 0
    ensures FreeMembers(header, pairs, lead, keys, members, 0, live).None?
  {
    if pairs.Some? {
      forall l: Live ensures FreeValue(members[0], Pointer(pairs.value, lead), l).None? {
        InsideNever(members[0], Pointer(pairs.value, lead), l);
      }
    }
  }

  // The cell has what the value says.
  predicate Holds(c: Cell, v: Value)
    decreases v
  {
    match v
    case String(_) => c.Str?
    case Array(values) =>
      && c.Arr? && |c.elems| == |values|
      && forall i :: 0 <= i < |values| ==> Holds(c.elems[i], values[i])
    case Object(pairs) =>
      && c.Obj? && c.lead > 0 && |c.members| == |pairs|
      && forall i :: 0 <= i < |pairs| ==> Holds(c.members[i], pairs[i].value)
    case _ => c.Plain?
  }

  // The blocks that belong to the cell itself.
  function Blocks(c: Cell): set<Block> {
    match c
    case Plain => {}
    case Str(text) => {text}
    case Arr(header, values, _) => {header} + BlockOf(values)
    case Obj(header, pairs, _, _, _) => {header} + BlockOf(pairs)
  }

  function BlockOf(b: Option<Block>): set<Block> {
    if b.Some? then {b.value} else {}
  }

  // All of them are live, and none is another's or the one the value stands in.
  predicate Separate(c: Cell, own: Block, live: Live) {
    && own in live && Blocks(c) <= live && own !in Blocks(c)
    && (c.Arr? ==> c.header !in BlockOf(c.values))
    && (c.Obj? ==> c.header !in BlockOf(c.pairs))
  }

  // json_free on a value in a block of its own is defined if and only if the value is a scalar or an
  // empty container, and then it frees exactly what belongs to the value.
  lemma FreeExactly(v: Value, c: Cell, own: Block, live: Live)
    requires Holds(c, v) && Separate(c, own, live)
    ensures FreeValue(c, Pointer(own, 0), live).Some? <==> Freeable(v)
    ensures Freeable(v) ==> FreeValue(c, Pointer(own, 0), live) == Some(live - Blocks(c) - {own})
  {
    match c
    case Plain =>
      assert live - {} == live;
    case Str(text) =>
    case Arr(header, values, elems) =>
      if elems != [] {
        ArrayNever(header, values, elems, live);
      } else {
        assert FreeElems(header, values, elems, 0, live) == Some(live);
        EmptyFreed(header, values, live);
      }
    case Obj(header, pairs, lead, keys, members) =>
      if members != [] {
        ObjectNever(header, pairs, lead, keys, members, live);
      } else {
        assert FreeMembers(header, pairs, lead, keys, members, 0, live) == Some(live);
        EmptyFreed(header, pairs, live);
      }
  }

  lemma EmptyFreed(header: Block, block: Option<Block>, live: Live)
    requires header in live && BlockOf(block) <= live && header !in BlockOf(block)
    ensures FreeEnd(Some(live), block, header) == Some(live - ({header} + BlockOf(block)))
  {
    assert live - BlockOf(block) - {header} == live - ({header} + BlockOf(block));
    assert block.None? ==> live - BlockOf(block) == live;
  }

  // A value that was copied out of the way stays whole: its blocks are others, and remain live.
  lemma CopyRemains(v: Value, c: Cell, own: Block, copy: set<Block>, live: Live)
    requires Holds(c, v) && Separate(c, own, live) && Freeable(v)
    requires copy <= live && copy !! Blocks(c) && own !in copy
    ensures FreeValue(c, Pointer(own, 0), live).Some? && copy <= FreeValue(c, Pointer(own, 0), live).value
  {
    FreeExactly(v, c, own, live);
  }

  // ---------------------------------------------------------------------------------------
  // The code
  // ---------------------------------------------------------------------------------------

  class Heap {
    var live: Live

    constructor (blocks: Live)
      ensures live == blocks
    {
      live := blocks;
    }

    method FreeAt(p: Pointer) returns (ok: bool)
      modifies this
      ensures ok == Free(old(live), p).Some?
      ensures live == if ok then Free(old(live), p).value else old(live)
    {
      ok := p.offset == 0 && p.block in live;
      if ok {
        live := live - {p.block};
      }
    }

    // json_free; ok says that nothing undefined has happened, and otherwise it stops.
    method JsonFree(c: Cell, at: Pointer) returns (ok: bool)
      modifies this
      ensures ok == FreeValue(c, at, old(live)).Some?
      ensures ok ==> live == FreeValue(c, at, old(live)).value
      decreases c, 1
    {
      if at.block !in live {
        return false;
      }
      ok := FreeByType(c);
      if ok {
        ok := FreeAt(at);
      }
    }

    // The switch of json_free.
    method FreeByType(c: Cell) returns (ok: bool)
      modifies this
      ensures ok == FreeContent(c, old(live)).Some?
      ensures ok ==> live == FreeContent(c, old(live)).value
      decreases c, 0
    {
      match c
      case Plain => ok := true;
      case Str(text) => ok := FreeAt(Pointer(text, 0));
      case Arr(header, values, elems) => ok := JsonFreeArray(header, values, elems);
      case Obj(header, pairs, lead, keys, members) => ok := JsonFreeObject(header, pairs, lead, keys, members);
    }

    // json_free_array
    method JsonFreeArray(header: Block, values: Option<Block>, elems: seq<Cell>) returns (ok: bool)
      modifies this
      ensures var r := FreeEnd(FreeElems(header, values, elems, 0, old(live)), values, header);
        ok == r.Some? && (ok ==> live == r.value)
      decreases elems
    {
      var i := 0;
      while header in live && i < |elems|
        invariant i <= |elems| && FreeElems(header, values, elems, i, live) == FreeElems(header, values, elems, 0, old(live))
      {
        if values.None? {
          return false;
        }
        ok := JsonFree(elems[i], Pointer(values.value, i));
        if !ok {
          return;
        }
        i := i + 1;
      }
      ok := header in live;
      if ok {
        ok := FreeRest(values, header);
      }
    }

    // json_free_object
    method JsonFreeObject(header: Block, pairs: Option<Block>, lead: nat, keys: seq<Block>, members: seq<Cell>) returns (ok: bool)
      modifies this
      ensures var r := FreeEnd(FreeMembers(header, pairs, lead, keys, members, 0, old(live)), pairs, header);
        ok == r.Some? && (ok ==> live == r.value)
      decreases members
    {
      var i := 0;
      while header in live && i < |members|
        invariant i <= |members|
        invariant FreeMembers(header, pairs, lead, keys, members, i, live) == FreeMembers(header, pairs, lead, keys, members, 0, old(live))
      {
        if pairs.None? || pairs.value !in live || i >= |keys| {
          return false;
        }
        ok := FreeAt(Pointer(keys[i], 0));
        if !ok {
          return;
        }
        ok := JsonFree(members[i], Pointer(pairs.value, i + lead));
        if !ok {
          return;
        }
        i := i + 1;
      }
      ok := header in live;
      if ok {
        ok := FreeRest(pairs, header);
      }
    }

    method FreeRest(block: Option<Block>, header: Block) returns (ok: bool)
      modifies this
      ensures var r := FreeEnd(Some(old(live)), block, header); ok == r.Some? && (ok ==> live == r.value)
    {
      if block.Some? {
        ok := FreeAt(Pointer(block.value, 0));
        if !ok {
          return;
        }
      }
      ok := FreeAt(Pointer(header, 0));
    }
  }

  // Memory for a value, from block next on, and the next block then.
  function LayOut(v: Value, next: Block): (r: (Cell, Block))
    ensures Holds(r.0, v) && next <= r.1
    ensures forall b :: b in Blocks(r.0) ==> next <= b < r.1
    ensures Separate(r.0, r.1, Blocks(r.0) + {r.1})
    decreases v, 1
  {
    match v
    case String(_) => (Str(next), next + 1)
    case Array(values) =>
      var r := LayOutAll(values, next + 2);
      (Arr(next, if values == [] then None else Some(next + 1), r.0), r.1)
    case Object(pairs) =>
      var r := LayOutPairs(pairs, next + 2);
      (Obj(next, if pairs == [] then None else Some(next + 1), 1, seq(|pairs|, i requires 0 <= i < |pairs| => r.1 + i), r.0), r.1 + |pairs|)
    case _ => (Plain, next)
  }

  function LayOutAll(values: seq<Value>, next: Block): (r: (seq<Cell>, Block))
    ensures next <= r.1 && |r.0| == |values| && forall i :: 0 <= i < |values| ==> Holds(r.0[i], values[i])
    decreases values, 0
  {
    if values == [] then ([], next)
    else
      var first := LayOut(values[0], next);
      var rest := LayOutAll(values[1..], first.1);
      ([first.0] + rest.0, rest.1)
  }

  function LayOutPairs(pairs: seq<Pair>, next: Block): (r: (seq<Cell>, Block))
    ensures next <= r.1 && |r.0| == |pairs| && forall i :: 0 <= i < |pairs| ==> Holds(r.0[i], pairs[i].value)
    decreases pairs, 0
  {
    if pairs == [] then ([], next)
    else
      var first := LayOut(pairs[0].value, next);
      var rest := LayOutPairs(pairs[1..], first.1);
      ([first.0] + rest.0, rest.1)
  }

  // malloc has given out the blocks up to last.
  predicate Given(b: Block, last: Block) {
    b <= last
  }

  // json_free on a value that was just allocated, in a block of its own.
  method Release(v: Value) returns (valid: bool)
    ensures valid <==> Freeable(v)
  {
    var cell, own := LayOut(v, 0).0, LayOut(v, 0).1;
    var heap := new Heap(set b: Block | 0 <= b <= own && Given(b, own));
    FreeExactly(v, cell, own, heap.live);
    valid := heap.JsonFree(cell, Pointer(own, 0));
  }

  // json_free on the value of pair i, where it stands among the pairs of an object.
  method ReleaseMember(v: Value, i: nat) returns (valid: bool)
    ensures !valid
  {
    var cell, block := LayOut(v, 0).0, LayOut(v, 0).1;
    var heap := new Heap(set b: Block | 0 <= b <= block && Given(b, block));
    InsideNever(cell, Pointer(block, i + 1), heap.live);
    valid := heap.JsonFree(cell, Pointer(block, i + 1));
  }
}

/** Canonical command serialisation (src/kernel/command-fingerprint.ts): a recursive
    printer over a heap graph that carries a mutable set of ancestors. */
module Canonical {
  import opened Text
  import opened Json
  import opened Sorting

  // ------------------------------------------------------------- heap values

  /** A JavaScript number as its shortest decimal: an integer that prints plainly, a number
      that prints with a point or an exponent, minus zero, or one of NaN and the infinities. */
  datatype JsNumber = Int(n: SafePrint) | Scientific(x: Float) | MinusZero | NonFinite
  type SafePrint = n: int | -1_000_000_000_000_000_000_000 < n < 1_000_000_000_000_000_000_000

  datatype JsValue =
    | Undefined
    | FunctionValue
    | SymbolValue
    | Null
    | Bool(b: bool)
    | String(s: Str)
    | Number(num: JsNumber)
    | BigInt
    | Ref(cell: Cell)

  datatype Prototype = ArrayPrototype | PlainPrototype | OtherPrototype

  /** An object: an array with its slots (a hole reads as undefined) or a record
      of own enumerable properties in insertion order. */
  class Cell {
    const proto: Prototype
    var slots: seq<JsValue>
    var props: seq<Entry<JsValue>>

    constructor (proto: Prototype)
      ensures this.proto == proto && slots == [] && props == []
    {
      this.proto := proto;
      slots := [];
      props := [];
    }
  }

  /** One step down: a slot of an array, a property of a record. */
  predicate ChildOf(v: JsValue, c: Cell)
    reads c
  {
    if c.proto.ArrayPrototype? then v in c.slots
    else exists i | 0 <= i < |c.props| :: c.props[i].val == v
  }

  predicate Within(v: JsValue, heap: set<Cell>) {
    v.Ref? ==> v.cell in heap
  }

  /** A finite graph: every reference stays inside it, and property names are distinct. */
  ghost predicate Graph(heap: set<Cell>)
    reads heap
  {
    forall c | c in heap ::
      && (forall i | 0 <= i < |c.slots| :: Within(c.slots[i], heap))
      && (forall i | 0 <= i < |c.props| :: Within(c.props[i].val, heap))
      && Distinct(c.props)
  }

  // -------------------------------------------------- the printer, as a function

  datatype Fault = BigIntFault | CyclicFault | PrototypeFault
  datatype Outcome = Text(t: Str) | Absent | Throw(why: Fault)
  datatype Listed<T> = Listing(all: seq<T>) | Stop(why: Fault)

  function Cons<T>(x: T, l: Listed<T>): Listed<T> {
    match l
    case Listing(all) => Listing([x] + all)
    case Stop(why) => Stop(why)
  }

  ghost function Serialized(v: JsValue, ancestors: set<Cell>, heap: set<Cell>): Outcome
    requires Graph(heap) && Within(v, heap)
    reads heap
    decreases heap - ancestors, 0
  {
    match v
    case Undefined => Absent
    case FunctionValue => Absent
    case SymbolValue => Absent
    case Null => Text(NULL)
    case Bool(b) => Text(if b then TRUE else FALSE)
    case String(s) => Text(Quote(s))
    case Number(num) => Text(PrintNumber(num))
    case BigInt => Throw(BigIntFault)
    case Ref(c) =>
      if c in ancestors then Throw(CyclicFault)
      else if c.proto.ArrayPrototype? then
        match SerializedSlots(c.slots, ancestors + {c}, heap)
        case Stop(why) => Throw(why)
        case Listing(items) => Text([91] + Join(items, 44) + [93])
      else if c.proto.OtherPrototype? then Throw(PrototypeFault)
      else
        SortedWithin(c, heap);
        match SerializedProps(Sort(c.props), ancestors + {c}, heap)
        case Stop(why) => Throw(why)
        case Listing(fields) => Text([123] + Join(fields, 44) + [125])
  }

  lemma SortedWithin(c: Cell, heap: set<Cell>)
    requires Graph(heap) && c in heap
    ensures forall i | 0 <= i < |Sort(c.props)| :: Within(Sort(c.props)[i].val, heap)
  {
    SortMembers(c.props);
    forall i | 0 <= i < |Sort(c.props)| ensures Within(Sort(c.props)[i].val, heap) {
      assert Sort(c.props)[i] in c.props;
    }
  }

  function PrintNumber(num: JsNumber): Str {
    match num
    case Int(n) => Decimal(n)
    case Scientific(x) => PrintFloat(x)
    case MinusZero => [48]
    case NonFinite => NULL
  }

  ghost function SerializedSlots(slots: seq<JsValue>, ancestors: set<Cell>, heap: set<Cell>): Listed<Str>
    requires Graph(heap) && forall i | 0 <= i < |slots| :: Within(slots[i], heap)
    reads heap
    decreases heap - ancestors, |slots| + 1
  {
    if slots == [] then Listing([])
    else
      match Serialized(slots[0], ancestors, heap)
      case Throw(why) => Stop(why)
      case Absent => Cons(NULL, SerializedSlots(slots[1..], ancestors, heap))
      case Text(t) => Cons(t, SerializedSlots(slots[1..], ancestors, heap))
  }

  ghost function SerializedProps(props: seq<Entry<JsValue>>, ancestors: set<Cell>, heap: set<Cell>): Listed<Str>
    requires Graph(heap) && forall i | 0 <= i < |props| :: Within(props[i].val, heap)
    reads heap
    decreases heap - ancestors, |props| + 1
  {
    if props == [] then Listing([])
    else
      match Serialized(props[0].val, ancestors, heap)
      case Throw(why) => Stop(why)
      case Absent => SerializedProps(props[1..], ancestors, heap)
      case Text(t) => Cons(Quote(props[0].key) + [58] + t, SerializedProps(props[1..], ancestors, heap))
  }

  // ------------------------------------------------ the printer, as it is written

  /** The `Set` of ancestors, updated in place. */
  class AncestorSet {
    var members: set<Cell>

    constructor ()
      ensures members == {}
    {
      members := {};
    }

    method Add(c: Cell)
      modifies this
      ensures members == old(members) + {c}
    {
      members := members + {c};
    }

    method Delete(c: Cell)
      modifies this
      ensures members == old(members) - {c}
    {
      members := members - {c};
    }
  }

  /** Terminates on every finite graph, computes `Serialized`, and leaves the
      ancestors as it found them on every exit. */
  method SerializeCanonicalValue(value: JsValue, ancestors: AncestorSet, ghost heap: set<Cell>)
    returns (r: Outcome)
    requires Graph(heap) && Within(value, heap)
    modifies ancestors
    ensures ancestors.members == old(ancestors.members)
    ensures r == Serialized(value, ancestors.members, heap)
    decreases heap - ancestors.members, 0
  {
    match value
    case Undefined => return Absent;
    case FunctionValue => return Absent;
    case SymbolValue => return Absent;
    case Null => return Text(NULL);
    case Bool(b) => return Text(if b then TRUE else FALSE);
    case String(s) => return Text(Quote(s));
    case Number(num) => return Text(PrintNumber(num));
    case BigInt => return Throw(BigIntFault);
    case Ref(cell) =>
      if cell in ancestors.members {
        return Throw(CyclicFault);
      }
      ancestors.Add(cell);
      if cell.proto.ArrayPrototype? {
        r := SerializeSlots(cell, ancestors, heap);
      } else if cell.proto.OtherPrototype? {
        r := Throw(PrototypeFault);
      } else {
        SortedWithin(cell, heap);
        r := SerializeProps(cell, ancestors, heap);
      }
      ancestors.Delete(cell);
  }

  /** `Array.from({ length }, ...)` over the slots. */
  method SerializeSlots(cell: Cell, ancestors: AncestorSet, ghost heap: set<Cell>)
    returns (r: Outcome)
    requires Graph(heap) && cell in heap && cell.proto.ArrayPrototype?
    modifies ancestors
    ensures ancestors.members == old(ancestors.members)
    ensures r == match SerializedSlots(cell.slots, ancestors.members, heap)
                 case Stop(why) => Throw(why)
                 case Listing(items) => Text([91] + Join(items, 44) + [93])
    decreases heap - ancestors.members, |cell.slots| + 1
  {
    ghost var above := ancestors.members;
    var items: seq<Str> := [];
    var index := 0;
    while index < |cell.slots|
      invariant 0 <= index <= |cell.slots|
      invariant ancestors.members == above
      invariant SerializedSlots(cell.slots, above, heap) ==
                Append(items, SerializedSlots(cell.slots[index..], above, heap))
    {
      assert cell.slots[index..][0] == cell.slots[index];
      assert cell.slots[index..][1..] == cell.slots[index + 1..];
      var item := SerializeCanonicalValue(cell.slots[index], ancestors, heap);
      if item.Throw? {
        return item;
      }
      AppendCons(items, if item.Text? then item.t else NULL, SerializedSlots(cell.slots[index + 1..], above, heap));
      items := items + [if item.Text? then item.t else NULL];
      index := index + 1;
    }
    assert items + [] == items;
    return Text([91] + Join(items, 44) + [93]);
  }

  /** `Object.keys(value).sort(compareKeys).flatMap(...)`. */
  method SerializeProps(cell: Cell, ancestors: AncestorSet, ghost heap: set<Cell>)
    returns (r: Outcome)
    requires Graph(heap) && cell in heap && cell.proto.PlainPrototype?
    requires forall i | 0 <= i < |Sort(cell.props)| :: Within(Sort(cell.props)[i].val, heap)
    modifies ancestors
    ensures ancestors.members == old(ancestors.members)
    ensures r == match SerializedProps(Sort(cell.props), ancestors.members, heap)
                 case Stop(why) => Throw(why)
                 case Listing(fields) => Text([123] + Join(fields, 44) + [125])
    decreases heap - ancestors.members, |cell.props| + 1
  {
    hide Sort, Join, Quote, Ordered, Graph, Serialized;
    ghost var above := ancestors.members;
    var sorted := Sort(cell.props);
    var fields: seq<Str> := [];
    var index := 0;
    while index < |sorted|
      invariant 0 <= index <= |sorted|
      invariant ancestors.members == above
      invariant SerializedProps(sorted, above, heap) == Append(fields, SerializedProps(sorted[index..], above, heap))
    {
      assert sorted[index..][0] == sorted[index];
      assert sorted[index..][1..] == sorted[index + 1..];
      var item := SerializeCanonicalValue(sorted[index].val, ancestors, heap);
      if item.Throw? {
        return item;
      }
      if item.Text? {
        var field := Quote(sorted[index].key) + [58] + item.t;
        AppendCons(fields, field, SerializedProps(sorted[index + 1..], above, heap));
        fields := fields + [field];
      }
      index := index + 1;
    }
    assert fields + [] == fields;
    return Text([123] + Join(fields, 44) + [125]);
  }

  ghost function Append<T>(xs: seq<T>, l: Listed<T>): Listed<T> {
    match l
    case Listing(all) => Listing(xs + all)
    case Stop(why) => Stop(why)
  }

  lemma AppendCons<T>(xs: seq<T>, x: T, l: Listed<T>)
    ensures Append(xs, Cons(x, l)) == Append(xs + [x], l)
  {
    if l.Listing? {
      assert xs + ([x] + l.all) == xs + [x] + l.all;
    }
  }
}

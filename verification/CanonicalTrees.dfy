/** What canonical serialisation means: the unfolded tree of a value, its normal
    form, and when two values get the same text. */
module CanonicalTrees {
  import opened Text
  import opened Json
  import opened Sorting
  import opened Canonical

  /** A value with all sharing copied out; undefined, functions and symbols are `Nothing`. */
  datatype Tree =
    | Nothing
    | NullLeaf
    | BoolLeaf(b: bool)
    | StringLeaf(s: Str)
    | NumberLeaf(num: JsNumber)
    | ArrayNode(slots: seq<Tree>)
    | ObjectNode(fields: seq<Entry<Tree>>)

  /** `t` is the unfolding of `v`. A value that reaches itself, a bigint or an
      exotic object has none. */
  ghost predicate Unfolds(v: JsValue, t: Tree, heap: set<Cell>)
    reads heap
    decreases t
  {
    match t
    case Nothing => v in {Undefined, FunctionValue, SymbolValue}
    case NullLeaf => v == Null
    case BoolLeaf(b) => v == Bool(b)
    case StringLeaf(s) => v == String(s)
    case NumberLeaf(num) => v == Number(num)
    case ArrayNode(slots) =>
      && v.Ref? && v.cell in heap && v.cell.proto.ArrayPrototype?
      && |v.cell.slots| == |slots|
      && forall i | 0 <= i < |slots| :: Unfolds(v.cell.slots[i], slots[i], heap)
    case ObjectNode(fields) =>
      && v.Ref? && v.cell in heap && v.cell.proto.PlainPrototype?
      && |v.cell.props| == |fields|
      && forall i | 0 <= i < |fields| ::
           v.cell.props[i].key == fields[i].key && Unfolds(v.cell.props[i].val, fields[i].val, heap)
  }

  ghost predicate HasUnfolding(v: JsValue, heap: set<Cell>)
    reads heap
  {
    exists t :: Unfolds(v, t, heap)
  }

  lemma {:induction false} UnfoldingUnique(v: JsValue, t: Tree, t': Tree, heap: set<Cell>)
    requires Unfolds(v, t, heap) && Unfolds(v, t', heap)
    ensures t == t'
    decreases t
  {
    if t.ArrayNode? {
      forall i | 0 <= i < |t.slots| ensures t.slots[i] == t'.slots[i] {
        UnfoldingUnique(v.cell.slots[i], t.slots[i], t'.slots[i], heap);
      }
    } else if t.ObjectNode? {
      forall i | 0 <= i < |t.fields| ensures t.fields[i] == t'.fields[i] {
        UnfoldingUnique(v.cell.props[i].val, t.fields[i].val, t'.fields[i].val, heap);
      }
    }
  }

  // ------------------------------------------------------------------- sizes

  function Size(t: Tree): (n: nat)
    ensures n >= 1
  {
    match t
    case ArrayNode(slots) => 1 + SizeSlots(slots)
    case ObjectNode(fields) => 1 + SizeFields(fields)
    case _ => 1
  }

  function SizeSlots(slots: seq<Tree>): nat {
    if slots == [] then 0 else Size(slots[0]) + SizeSlots(slots[1..])
  }

  function SizeFields(fields: seq<Entry<Tree>>): nat {
    if fields == [] then 0 else Size(fields[0].val) + SizeFields(fields[1..])
  }

  lemma {:induction false} SlotSize(slots: seq<Tree>, i: nat)
    requires i < |slots|
    ensures Size(slots[i]) <= SizeSlots(slots)
  {
    if i > 0 {
      SlotSize(slots[1..], i - 1);
    }
  }

  lemma {:induction false} FieldSize(fields: seq<Entry<Tree>>, i: nat)
    requires i < |fields|
    ensures Size(fields[i].val) <= SizeFields(fields)
  {
    if i > 0 {
      FieldSize(fields[1..], i - 1);
    }
  }

  // -------------------------------------------------------------- normal form

  datatype Kept<T> = Dropped | Kept(val: T)

  /** Absent fields are dropped, absent slots and non-finite numbers are null,
      key order is forgotten. */
  function Norm(t: Tree): Kept<Json> {
    match t
    case Nothing => Dropped
    case NullLeaf => Kept(JNull)
    case BoolLeaf(b) => Kept(JBool(b))
    case StringLeaf(s) => Kept(JStr(s))
    case NumberLeaf(num) => Kept(NormNumber(num))
    case ArrayNode(slots) => Kept(JArr(NormSlots(slots)))
    case ObjectNode(fields) => Kept(JObj(Sort(NormFields(fields))))
  }

  function NormNumber(num: JsNumber): Json {
    match num
    case Int(n) => JNum(n)
    case Scientific(x) => JFloat(x)
    case MinusZero => JNum(0)
    case NonFinite => JNull
  }

  function OrNull(k: Kept<Json>): Json {
    if k.Kept? then k.val else JNull
  }

  function NormSlots(slots: seq<Tree>): (r: seq<Json>)
    ensures |r| == |slots|
  {
    if slots == [] then [] else [OrNull(Norm(slots[0]))] + NormSlots(slots[1..])
  }

  function NormFields(fields: seq<Entry<Tree>>): seq<Entry<Json>> {
    if fields == [] then []
    else match Norm(fields[0].val)
      case Dropped => NormFields(fields[1..])
      case Kept(j) => [Entry(fields[0].key, j)] + NormFields(fields[1..])
  }

  /** Dropping absent fields and sorting commute, so the code may sort first. */
  lemma {:induction false} DropInsert(e: Entry<Tree>, es: seq<Entry<Tree>>)
    requires Ordered(es) && forall x <- es :: x.key != e.key
    ensures NormFields(Insert(e, es)) ==
            match Norm(e.val) case Dropped => NormFields(es) case Kept(j) => Insert(Entry(e.key, j), NormFields(es))
  {
    if es == [] {
    } else if Less(e.key, es[0].key) {
      assert Insert(e, es)[1..] == es;
      FirstKeyLeast(e.key, es);
    } else {
      assert Insert(e, es)[1..] == Insert(e, es[1..]);
      DropInsert(e, es[1..]);
    }
  }

  lemma {:induction false} FirstKeyLeast(key: Str, es: seq<Entry<Tree>>)
    requires Ordered(es) && es != [] && Less(key, es[0].key)
    ensures NormFields(es) != [] ==> Less(key, NormFields(es)[0].key)
  {
    if Norm(es[0].val).Kept? {
      assert NormFields(es)[0].key == es[0].key;
    } else if |es| > 1 {
      LessTransitive(key, es[0].key, es[1].key);
      FirstKeyLeast(key, es[1..]);
    } else {
      assert es[1..] == [] && NormFields(es) == NormFields(es[1..]) == [];
    }
  }

  lemma {:induction false} DropSort(es: seq<Entry<Tree>>)
    requires Distinct(es)
    ensures NormFields(Sort(es)) == Sort(NormFields(es))
  {
    if es != [] {
      DropSort(es[1..]);
      SortOrdered(es[1..]);
      SortMembers(es[1..]);
      forall x <- Sort(es[1..]) ensures x.key != es[0].key {
        TailMember(es, x);
      }
      DropInsert(es[0], Sort(es[1..]));
    }
  }

  // ------------------------------------------------ the text of an unfolding

  function Expected(k: Kept<Json>): Outcome {
    match k
    case Dropped => Absent
    case Kept(j) => Text(Print(j))
  }

  function ItemTexts(items: seq<Json>): seq<Str> {
    if items == [] then [] else [Print(items[0])] + ItemTexts(items[1..])
  }

  function FieldTexts(fields: seq<Entry<Json>>): seq<Str> {
    if fields == [] then [] else [PrintField(fields[0])] + FieldTexts(fields[1..])
  }

  lemma {:induction false} JoinItems(items: seq<Json>)
    ensures Join(ItemTexts(items), 44) == PrintItems(items) && |ItemTexts(items)| == |items|
  {
    if items != [] {
      JoinItems(items[1..]);
      assert ItemTexts(items)[1..] == ItemTexts(items[1..]);
    }
  }

  lemma {:induction false} JoinFields(fields: seq<Entry<Json>>)
    ensures Join(FieldTexts(fields), 44) == PrintFields(fields) && |FieldTexts(fields)| == |fields|
  {
    if fields != [] {
      JoinFields(fields[1..]);
      assert FieldTexts(fields)[1..] == FieldTexts(fields[1..]);
    }
  }

  /** Every ancestor unfolds to a tree larger than `n`: none of them can be
      below a value of at most that size. */
  ghost predicate Above(ancestors: set<Cell>, n: nat, heap: set<Cell>)
    reads heap
  {
    forall a | a in ancestors :: exists t :: Unfolds(Ref(a), t, heap) && n < Size(t)
  }

  lemma AboveStep(ancestors: set<Cell>, c: Cell, t: Tree, heap: set<Cell>)
    requires Above(ancestors, Size(t), heap) && Unfolds(Ref(c), t, heap)
    ensures Above(ancestors + {c}, Size(t) - 1, heap) && c !in ancestors
  {
    forall a | a in ancestors + {c} ensures exists u :: Unfolds(Ref(a), u, heap) && Size(t) - 1 < Size(u) {
      if a == c {
        assert Unfolds(Ref(a), t, heap);
      } else {
        var u :| Unfolds(Ref(a), u, heap) && Size(t) < Size(u);
      }
    }
    if c in ancestors {
      var u :| Unfolds(Ref(c), u, heap) && Size(t) < Size(u);
      UnfoldingUnique(Ref(c), t, u, heap);
    }
  }

  lemma ArrayText(c: Cell, items: seq<Json>, ancestors: set<Cell>, heap: set<Cell>)
    requires Graph(heap) && c in heap && c !in ancestors && c.proto.ArrayPrototype?
    requires SerializedSlots(c.slots, ancestors + {c}, heap) == Listing(ItemTexts(items))
    ensures Serialized(Ref(c), ancestors, heap) == Text(Print(JArr(items)))
  {
    JoinItems(items);
  }

  lemma ObjectText(c: Cell, fields: seq<Entry<Json>>, ancestors: set<Cell>, heap: set<Cell>)
    requires Graph(heap) && c in heap && c !in ancestors && c.proto.PlainPrototype?
    requires (SortedWithin(c, heap);
              SerializedProps(Sort(c.props), ancestors + {c}, heap) == Listing(FieldTexts(fields)))
    ensures Serialized(Ref(c), ancestors, heap) == Text(Print(JObj(fields)))
  {
    JoinFields(fields);
  }

  /** The serialiser prints the normal form of the unfolded tree. */
  lemma {:induction false} PrintsUnfolding(v: JsValue, t: Tree, ancestors: set<Cell>, heap: set<Cell>)
    requires Graph(heap) && Within(v, heap) && Unfolds(v, t, heap)
    requires Above(ancestors, Size(t), heap)
    ensures Serialized(v, ancestors, heap) == Expected(Norm(t))
    decreases Size(t), 0
  {
    if t.ArrayNode? {
      AboveStep(ancestors, v.cell, t, heap);
      PrintsArray(v.cell, t.slots, ancestors, heap);
    } else if t.ObjectNode? {
      AboveStep(ancestors, v.cell, t, heap);
      PrintsObject(v.cell, t.fields, ancestors, heap);
    }
  }

  lemma {:induction false} PrintsArray(c: Cell, slots: seq<Tree>, ancestors: set<Cell>, heap: set<Cell>)
    requires Graph(heap) && c in heap && c !in ancestors && Unfolds(Ref(c), ArrayNode(slots), heap)
    requires Above(ancestors + {c}, SizeSlots(slots), heap)
    ensures Serialized(Ref(c), ancestors, heap) == Text(Print(JArr(NormSlots(slots))))
    decreases SizeSlots(slots), |slots| + 2
  {
    forall i | 0 <= i < |slots| ensures Size(slots[i]) <= SizeSlots(slots) {
      SlotSize(slots, i);
    }
    PrintsSlots(c.slots, slots, ancestors + {c}, heap, SizeSlots(slots));
    ArrayText(c, NormSlots(slots), ancestors, heap);
  }

  lemma {:induction false} PrintsObject(c: Cell, fields: seq<Entry<Tree>>, ancestors: set<Cell>, heap: set<Cell>)
    requires Graph(heap) && c in heap && c !in ancestors && Unfolds(Ref(c), ObjectNode(fields), heap)
    requires Above(ancestors + {c}, SizeFields(fields), heap)
    ensures Serialized(Ref(c), ancestors, heap) == Text(Print(JObj(Sort(NormFields(fields)))))
    decreases SizeFields(fields), |fields| + 2
  {
    SortedFieldsUnfold(c, fields, heap);
    SortPaired(c.props, fields);
    PrintsProps(Sort(c.props), Sort(fields), ancestors + {c}, heap, SizeFields(fields));
    DropSort(fields);
    ObjectText(c, Sort(NormFields(fields)), ancestors, heap);
  }

  lemma SortedFieldsUnfold(c: Cell, fields: seq<Entry<Tree>>, heap: set<Cell>)
    requires Graph(heap) && c in heap && Unfolds(Ref(c), ObjectNode(fields), heap)
    ensures |Sort(c.props)| == |Sort(fields)|
    ensures forall i | 0 <= i < |Sort(fields)| ::
      && Within(Sort(c.props)[i].val, heap) && Sort(c.props)[i].key == Sort(fields)[i].key
      && Unfolds(Sort(c.props)[i].val, Sort(fields)[i].val, heap)
      && Size(Sort(fields)[i].val) <= SizeFields(fields)
  {
    SortPaired(c.props, fields);
    SortedWithin(c, heap);
    var ps, es := Sort(c.props), Sort(fields);
    forall i | 0 <= i < |es|
      ensures Unfolds(ps[i].val, es[i].val, heap) && Size(es[i].val) <= SizeFields(fields)
    {
      var j :| 0 <= j < |c.props| && c.props[j] == ps[i] && fields[j] == es[i];
      FieldSize(fields, j);
    }
  }

  lemma {:induction false} PrintsSlots(slots: seq<JsValue>, ts: seq<Tree>, ancestors: set<Cell>, heap: set<Cell>,
                                       n: nat)
    requires Graph(heap) && |slots| == |ts|
    requires forall i | 0 <= i < |ts| ::
      Within(slots[i], heap) && Unfolds(slots[i], ts[i], heap) && Size(ts[i]) <= n
    requires Above(ancestors, n, heap)
    ensures SerializedSlots(slots, ancestors, heap) == Listing(ItemTexts(NormSlots(ts)))
    decreases n, |ts| + 1
  {
    if ts != [] {
      AboveLess(ancestors, Size(ts[0]), n, heap);
      PrintsUnfolding(slots[0], ts[0], ancestors, heap);
      PrintsSlots(slots[1..], ts[1..], ancestors, heap, n);
      assert NormSlots(ts)[1..] == NormSlots(ts[1..]);
    }
  }

  lemma {:induction false} PrintsProps(ps: seq<Entry<JsValue>>, es: seq<Entry<Tree>>, ancestors: set<Cell>,
                                       heap: set<Cell>, n: nat)
    requires Graph(heap) && |ps| == |es|
    requires forall i | 0 <= i < |es| ::
      && Within(ps[i].val, heap) && ps[i].key == es[i].key
      && Unfolds(ps[i].val, es[i].val, heap) && Size(es[i].val) <= n
    requires Above(ancestors, n, heap)
    ensures SerializedProps(ps, ancestors, heap) == Listing(FieldTexts(NormFields(es)))
    decreases n, |es| + 1
  {
    if es != [] {
      AboveLess(ancestors, Size(es[0].val), n, heap);
      PrintsUnfolding(ps[0].val, es[0].val, ancestors, heap);
      PrintsProps(ps[1..], es[1..], ancestors, heap, n);
      if Norm(es[0].val).Kept? {
        assert NormFields(es)[1..] == NormFields(es[1..]);
      }
    }
  }

  lemma AboveLess(ancestors: set<Cell>, m: nat, n: nat, heap: set<Cell>)
    requires Above(ancestors, n, heap) && m <= n
    ensures Above(ancestors, m, heap)
  {
    forall a | a in ancestors ensures exists t :: Unfolds(Ref(a), t, heap) && m < Size(t) {
      var t :| Unfolds(Ref(a), t, heap) && n < Size(t);
    }
  }

  /** Two lists with the same keys are sorted the same way. */
  lemma SortPaired<A, B>(a: seq<Entry<A>>, b: seq<Entry<B>>)
    requires |a| == |b| && forall i | 0 <= i < |a| :: a[i].key == b[i].key
    ensures |Sort(a)| == |Sort(b)| == |a|
    ensures forall i | 0 <= i < |a| :: Sort(a)[i].key == Sort(b)[i].key
    ensures forall i | 0 <= i < |a| :: exists j | 0 <= j < |a| :: a[j] == Sort(a)[i] && b[j] == Sort(b)[i]
    ensures Distinct(a) ==> Distinct(b)
  {
    var z := seq(|a|, i requires 0 <= i < |a| => Entry(a[i].key, (a[i].val, b[i].val)));
    var fst, snd := (p: (A, B)) => p.0, (p: (A, B)) => p.1;
    assert MapVals(z, fst) == a && MapVals(z, snd) == b;
    SortMap(z, fst);
    SortMap(z, snd);
    SortMembers(z);
    forall i | 0 <= i < |a| ensures exists j | 0 <= j < |a| :: a[j] == Sort(a)[i] && b[j] == Sort(b)[i] {
      assert Sort(z)[i] in z;
      var j :| 0 <= j < |z| && z[j] == Sort(z)[i];
      assert a[j] == Sort(a)[i] && b[j] == Sort(b)[i];
    }
  }

  // --------------------------------------------------- when it returns normally

  /** A value that serialises has an unfolding. */
  lemma {:induction false} UnfoldingExists(v: JsValue, ancestors: set<Cell>, heap: set<Cell>) returns (t: Tree)
    requires Graph(heap) && Within(v, heap)
    requires !Serialized(v, ancestors, heap).Throw?
    ensures Unfolds(v, t, heap)
    decreases heap - ancestors, 0
  {
    match v
    case Undefined => t := Nothing;
    case FunctionValue => t := Nothing;
    case SymbolValue => t := Nothing;
    case Null => t := NullLeaf;
    case Bool(b) => t := BoolLeaf(b);
    case String(s) => t := StringLeaf(s);
    case Number(num) => t := NumberLeaf(num);
    case BigInt =>
    case Ref(c) =>
      if c.proto.ArrayPrototype? {
        var ts := SlotUnfoldings(c.slots, ancestors + {c}, heap);
        t := ArrayNode(ts);
      } else {
        SortedWithin(c, heap);
        PropUnfoldings(Sort(c.props), ancestors + {c}, heap);
        SortMembers(c.props);
        forall i | 0 <= i < |c.props| ensures HasUnfolding(c.props[i].val, heap) {
          assert c.props[i] in Sort(c.props);
        }
        var fs := Collect(c.props, heap);
        t := ObjectNode(fs);
      }
  }

  lemma {:induction false} SlotUnfoldings(slots: seq<JsValue>, ancestors: set<Cell>, heap: set<Cell>)
    returns (ts: seq<Tree>)
    requires Graph(heap) && forall i | 0 <= i < |slots| :: Within(slots[i], heap)
    requires SerializedSlots(slots, ancestors, heap).Listing?
    ensures |ts| == |slots| && forall i | 0 <= i < |slots| :: Unfolds(slots[i], ts[i], heap)
    decreases heap - ancestors, |slots| + 1
  {
    if slots == [] {
      ts := [];
    } else {
      var t := UnfoldingExists(slots[0], ancestors, heap);
      var rest := SlotUnfoldings(slots[1..], ancestors, heap);
      ts := [t] + rest;
    }
  }

  lemma {:induction false} PropUnfoldings(props: seq<Entry<JsValue>>, ancestors: set<Cell>, heap: set<Cell>)
    requires Graph(heap) && forall i | 0 <= i < |props| :: Within(props[i].val, heap)
    requires SerializedProps(props, ancestors, heap).Listing?
    ensures forall e <- props :: HasUnfolding(e.val, heap)
    decreases heap - ancestors, |props| + 1
  {
    if props != [] {
      var t := UnfoldingExists(props[0].val, ancestors, heap);
      PropUnfoldings(props[1..], ancestors, heap);
      forall e <- props ensures HasUnfolding(e.val, heap) {
        assert e == props[0] || e in props[1..];
      }
    }
  }

  lemma {:induction false} Collect(props: seq<Entry<JsValue>>, heap: set<Cell>) returns (fs: seq<Entry<Tree>>)
    requires forall i | 0 <= i < |props| :: HasUnfolding(props[i].val, heap)
    ensures |fs| == |props|
    ensures forall i | 0 <= i < |props| :: fs[i].key == props[i].key && Unfolds(props[i].val, fs[i].val, heap)
  {
    if props == [] {
      fs := [];
    } else {
      assert HasUnfolding(props[0].val, heap);
      var t :| Unfolds(props[0].val, t, heap);
      var rest := Collect(props[1..], heap);
      fs := [Entry(props[0].key, t)] + rest;
    }
  }

  /** The serialiser returns normally exactly when the value has an unfolding,
      and then its result is the printed normal form of it. */
  lemma SerializesExactlyUnfoldings(v: JsValue, heap: set<Cell>)
    requires Graph(heap) && Within(v, heap)
    ensures !Serialized(v, {}, heap).Throw? <==> HasUnfolding(v, heap)
    ensures forall t | Unfolds(v, t, heap) :: Serialized(v, {}, heap) == Expected(Norm(t))
  {
    if !Serialized(v, {}, heap).Throw? {
      var t := UnfoldingExists(v, {}, heap);
    } else if HasUnfolding(v, heap) {
      var t :| Unfolds(v, t, heap);
      PrintsUnfolding(v, t, {}, heap);
    }
    forall t | Unfolds(v, t, heap) ensures Serialized(v, {}, heap) == Expected(Norm(t)) {
      PrintsUnfolding(v, t, {}, heap);
    }
  }

  // ------------------------------------------------------- when it throws

  /** A walk down the graph from its first value. */
  ghost predicate Walk(p: seq<JsValue>, heap: set<Cell>)
    reads heap
  {
    && |p| > 0
    && forall i | 0 <= i < |p| - 1 ::
         && p[i].Ref? && p[i].cell in heap && !p[i].cell.proto.OtherPrototype?
         && ChildOf(p[i + 1], p[i].cell)
  }

  /** The last value of a walk is one the serialiser refuses: a bigint, an exotic
      object, or an object already met. */
  ghost predicate Refused(p: seq<JsValue>, met: set<Cell>, why: Fault)
    requires |p| > 0
  {
    var last := p[|p| - 1];
    match why
    case BigIntFault => last.BigInt?
    case CyclicFault => last.Ref? && (last.cell in met || last in p[..|p| - 1])
    case PrototypeFault => last.Ref? && last.cell.proto.OtherPrototype?
  }

  /** A bad walk from a child is one from its parent. */
  lemma LongerWalk(v: JsValue, q: seq<JsValue>, ancestors: set<Cell>, heap: set<Cell>, why: Fault)
    requires v.Ref? && v.cell in heap && !v.cell.proto.OtherPrototype?
    requires Walk(q, heap) && ChildOf(q[0], v.cell) && Refused(q, ancestors + {v.cell}, why)
    ensures Walk([v] + q, heap) && Refused([v] + q, ancestors, why)
  {
    hide ChildOf;
    var p := [v] + q;
    forall i | 0 <= i < |p| - 1
      ensures p[i].Ref? && p[i].cell in heap && !p[i].cell.proto.OtherPrototype? && ChildOf(p[i + 1], p[i].cell)
    {
      if i > 0 {
        assert p[i] == q[i - 1] && p[i + 1] == q[i];
      }
    }
    LongerRefused(v, q, ancestors, why);
  }

  lemma LongerRefused(v: JsValue, q: seq<JsValue>, ancestors: set<Cell>, why: Fault)
    requires v.Ref? && q != [] && Refused(q, ancestors + {v.cell}, why)
    ensures Refused([v] + q, ancestors, why)
  {
    var p := [v] + q;
    var last := p[|p| - 1];
    assert last == q[|q| - 1] && p[0] == v && v in p[..|p| - 1];
    if last in q[..|q| - 1] {
      var k :| 0 <= k < |q| - 1 && q[k] == last;
      assert p[k + 1] == last && p[k + 1] in p[..|p| - 1];
    }
  }

  /** A throw has a walk to blame, of the kind thrown. */
  lemma {:induction false} Blame(v: JsValue, ancestors: set<Cell>, heap: set<Cell>) returns (p: seq<JsValue>)
    requires Graph(heap) && Within(v, heap)
    requires Serialized(v, ancestors, heap).Throw?
    ensures Walk(p, heap) && p[0] == v
    ensures Refused(p, ancestors, Serialized(v, ancestors, heap).why)
    decreases heap - ancestors, 0
  {
    p := [v];
    if v.Ref? && v.cell !in ancestors && !v.cell.proto.OtherPrototype? {
      var c := v.cell;
      var why := Serialized(v, ancestors, heap).why;
      var q;
      if c.proto.ArrayPrototype? {
        q := BlameSlots(c.slots, ancestors + {c}, heap);
      } else {
        SortedWithin(c, heap);
        var i;
        i, q := BlameProps(Sort(c.props), ancestors + {c}, heap);
        SortMembers(c.props);
        assert Sort(c.props)[i] in c.props;
      }
      hide Refused, Walk;
      LongerWalk(v, q, ancestors, heap, why);
      p := [v] + q;
    }
  }

  lemma {:induction false} BlameSlots(slots: seq<JsValue>, ancestors: set<Cell>, heap: set<Cell>)
    returns (p: seq<JsValue>)
    requires Graph(heap) && forall i | 0 <= i < |slots| :: Within(slots[i], heap)
    requires SerializedSlots(slots, ancestors, heap).Stop?
    ensures Walk(p, heap) && p[0] in slots
    ensures Refused(p, ancestors, SerializedSlots(slots, ancestors, heap).why)
    decreases heap - ancestors, |slots| + 1
  {
    hide Refused, Walk;
    if Serialized(slots[0], ancestors, heap).Throw? {
      p := Blame(slots[0], ancestors, heap);
    } else {
      p := BlameSlots(slots[1..], ancestors, heap);
    }
  }

  lemma {:induction false} BlameProps(props: seq<Entry<JsValue>>, ancestors: set<Cell>, heap: set<Cell>)
    returns (i: nat, p: seq<JsValue>)
    requires Graph(heap) && forall i | 0 <= i < |props| :: Within(props[i].val, heap)
    requires SerializedProps(props, ancestors, heap).Stop?
    ensures Walk(p, heap) && i < |props| && p[0] == props[i].val
    ensures Refused(p, ancestors, SerializedProps(props, ancestors, heap).why)
    decreases heap - ancestors, |props| + 1
  {
    if Serialized(props[0].val, ancestors, heap).Throw? {
      i := 0;
      p := Blame(props[0].val, ancestors, heap);
    } else {
      i, p := BlameProps(props[1..], ancestors, heap);
      i := i + 1;
    }
  }

  /** Down a walk from an unfolding, every value unfolds to a smaller tree. */
  lemma {:induction false} WalkShrinks(p: seq<JsValue>, t: Tree, i: nat, heap: set<Cell>) returns (u: Tree)
    requires Walk(p, heap) && Unfolds(p[0], t, heap) && i < |p|
    ensures Unfolds(p[i], u, heap) && Size(u) + i <= Size(t)
    decreases i
  {
    if i == 0 {
      u := t;
    } else {
      var w := WalkShrinks(p, t, i - 1, heap);
      var c := p[i - 1].cell;
      assert ChildOf(p[i], c);
      if c.proto.ArrayPrototype? {
        var k :| 0 <= k < |c.slots| && c.slots[k] == p[i];
        u := w.slots[k];
        SlotSize(w.slots, k);
      } else {
        var k :| 0 <= k < |c.props| && c.props[k].val == p[i];
        u := w.fields[k].val;
        FieldSize(w.fields, k);
      }
    }
  }

  /** It throws exactly when some walk ends in a bigint, an exotic object or a cycle. */
  lemma ThrowsExactlyOnBadWalks(v: JsValue, heap: set<Cell>)
    requires Graph(heap) && Within(v, heap)
    ensures Serialized(v, {}, heap).Throw? <==>
            exists p, why :: Walk(p, heap) && p[0] == v && Refused(p, {}, why)
    ensures Serialized(v, {}, heap).Throw? ==>
            exists p :: Walk(p, heap) && p[0] == v && Refused(p, {}, Serialized(v, {}, heap).why)
  {
    if Serialized(v, {}, heap).Throw? {
      var p := Blame(v, {}, heap);
      assert Refused(p, {}, Serialized(v, {}, heap).why);
    } else {
      var t := UnfoldingExists(v, {}, heap);
      forall p, why | Walk(p, heap) && p[0] == v ensures !Refused(p, {}, why) {
        var n := |p| - 1;
        var u := WalkShrinks(p, t, n, heap);
        if p[n] in p[..n] {
          var k :| 0 <= k < n && p[k] == p[n];
          RevisitImpossible(p, t, k, n, heap);
        }
      }
    }
  }

  lemma RevisitImpossible(p: seq<JsValue>, t: Tree, k: nat, n: nat, heap: set<Cell>)
    requires Walk(p, heap) && Unfolds(p[0], t, heap) && k < n < |p|
    ensures p[k] != p[n]
  {
    var a := WalkShrinks(p, t, k, heap);
    var tail := p[k..];
    forall i | 0 <= i < |tail| - 1
      ensures tail[i].Ref? && tail[i].cell in heap && !tail[i].cell.proto.OtherPrototype?
      ensures ChildOf(tail[i + 1], tail[i].cell)
    {
      assert tail[i] == p[k + i] && tail[i + 1] == p[k + i + 1];
    }
    var b := WalkShrinks(tail, a, n - k, heap);
    if p[k] == p[n] {
      UnfoldingUnique(p[k], a, b, heap);
    }
  }
}

/**
 * The `Model` class (src/Model.js): a named record type with an optional
 * parent `Model`, a list of field names and a depth `index`.
 */
module Model {
  import opened Wrappers
  import opened JsValues
  import opened Records

  /** `new Model(name)` stored under the fresh identity `id`. */
  function New(heap: Heap, id: Id, name: string): (heap': Heap)
    requires id !in heap
    ensures heap'.Keys == heap.Keys + {id}
    ensures heap'[id] == Record(ModelClass, name, None, None, 0)
    ensures forall other :: other in heap ==> heap'[other] == heap[other]
  {
    Records.New(heap, id, ModelClass, name)
  }

  /** `model.name = v` */
  function SetName(heap: Heap, self: Id, v: JsValue): (heap': Heap)
    requires self in heap && heap[self].cls == ModelClass
    ensures heap'.Keys == heap.Keys
    ensures v.Str? && IsNameString(v.s) ==> heap'[self] == heap[self].(name := v.s)
    ensures !(v.Str? && IsNameString(v.s)) ==> heap' == heap
    ensures forall other :: other in heap && other != self ==> heap'[other] == heap[other]
  {
    heap[self := Records.SetName(heap[self], v)]
  }

  /** `model.parent = v`: only a `Model` instance is accepted. */
  function SetParent(heap: Heap, self: Id, v: JsValue): (heap': Heap)
    requires self in heap && heap[self].cls == ModelClass
    requires RefersInto(heap, v)
    ensures heap'.Keys == heap.Keys
    ensures v.Instance? && heap[v.id].cls == ModelClass ==>
      heap'[self] == heap[self].(parent := Some(v.id), index := heap[v.id].index + 1)
    ensures !(v.Instance? && heap[v.id].cls == ModelClass) ==> heap' == heap
    ensures forall other :: other in heap && other != self ==> heap'[other] == heap[other]
  {
    Records.SetParent(heap, self, v, ModelClass)
  }

  /** `model.fields = v` */
  function SetFields(heap: Heap, self: Id, v: JsValue): (heap': Heap)
    requires self in heap && heap[self].cls == ModelClass
    ensures heap'.Keys == heap.Keys
    ensures IsStringArray(v) ==> heap'[self] == heap[self].(fields := Some(Strings(v.elems)))
    ensures !IsStringArray(v) ==> heap' == heap
    ensures forall other :: other in heap && other != self ==> heap'[other] == heap[other]
  {
    heap[self := Records.SetFields(heap[self], v)]
  }

  /** One model of a test script: its name and the field names the script assigns, if any. */
  datatype Entry = Entry(name: string, fields: Option<seq<string>>)

  /**
   * The four models of the `index` test in test/unit/Model.js: Foo, Bar,
   * Biz and Baz, each given three lower-case field names.
   */
  const TestFoo := Entry("Foo", Some(["foo1", "foo2", "foo3"]))
  const TestBar := Entry("Bar", Some(["bar1", "bar2", "bar3"]))
  const TestBiz := Entry("Biz", Some(["biz1", "biz2", "biz3"]))
  const TestBaz := Entry("Baz", Some(["baz1", "baz2", "baz3"]))

  /** The record a script leaves for the model `e` under `parent`, at depth `index`. */
  function ChainRecord(e: Entry, parent: Option<Id>, index: nat): Record {
    Record(ModelClass, e.name, parent, e.fields, index)
  }

  /** The record one step of the script leaves under its identity. */
  function AddedRecord(heap: Heap, e: Entry, v: JsValue): Record
    requires RefersInto(heap, v)
  {
    if v.Instance? && heap[v.id].cls == ModelClass then ChainRecord(e, Some(v.id), heap[v.id].index + 1)
    else ChainRecord(e, None, 0)
  }

  /** Constructor, parent setter and (when given) fields setter in turn add exactly the record `AddedRecord` describes. */
  lemma AddModelSteps(heap: Heap, id: Id, e: Entry, v: JsValue)
    requires id !in heap && RefersInto(heap, v)
    ensures var h := SetParent(New(heap, id, e.name), id, v);
      (if e.fields.Some? then SetFields(h, id, StringArray(e.fields.value)) else h)
      == heap[id := AddedRecord(heap, e, v)]
  {
    var h1 := New(heap, id, e.name);
    var h2 := SetParent(h1, id, v);
    assert h2 == heap[id := h2[id]];
    if e.fields.Some? {
      assert SetFields(h2, id, StringArray(e.fields.value))[id] == AddedRecord(heap, e, v);
    } else {
      assert h2[id] == AddedRecord(heap, e, v);
    }
  }

  /**
   * One step of a test script: `new Model(e.name)` under `id`, then
   * `parent = v`, then, when the script gives them, the field names.
   */
  function AddModel(heap: Heap, id: Id, e: Entry, v: JsValue): (heap': Heap)
    requires id !in heap && RefersInto(heap, v)
    ensures heap' == heap[id := AddedRecord(heap, e, v)]
  {
    AddModelSteps(heap, id, e, v);
    var h := SetParent(New(heap, id, e.name), id, v);
    if e.fields.Some? then SetFields(h, id, StringArray(e.fields.value)) else h
  }

  /** Four records, each the parent of the next, with indices 0 to 3. */
  function ChainHeap(a: Entry, b: Entry, c: Entry, d: Entry): Heap {
    map[0 := ChainRecord(a, None, 0), 1 := ChainRecord(b, Some(0), 1),
        2 := ChainRecord(c, Some(1), 2), 3 := ChainRecord(d, Some(2), 3)]
  }

  /** Every record of the four-record chain is well formed. */
  lemma ChainHeapWellFormed(a: Entry, b: Entry, c: Entry, d: Entry)
    ensures AllWellFormed(ChainHeap(a, b, c, d))
  {
    var h := ChainHeap(a, b, c, d);
    assert WellFormed(h, 0);
    assert WellFormed(h, 1);
    assert WellFormed(h, 2);
    assert WellFormed(h, 3);
  }

  /** The first model of the test chain, created with a `null` parent. */
  function FirstOfChain(a: Entry): (h: Heap)
    ensures h == map[0 := ChainRecord(a, None, 0)]
  {
    AddModel(map[], 0, a, Null)
  }

  /** The second model of the test chain, under the first. */
  function TwoOfChain(a: Entry, b: Entry): (h: Heap)
    ensures h == map[0 := ChainRecord(a, None, 0), 1 := ChainRecord(b, Some(0), 1)]
  {
    AddModel(FirstOfChain(a), 1, b, Instance(0))
  }

  /** The third model of the test chain, under the second. */
  function ThreeOfChain(a: Entry, b: Entry, c: Entry): (h: Heap)
    ensures h == map[0 := ChainRecord(a, None, 0), 1 := ChainRecord(b, Some(0), 1), 2 := ChainRecord(c, Some(1), 2)]
  {
    AddModel(TwoOfChain(a, b), 2, c, Instance(1))
  }

  /**
   * The script of the `index` test: four models created in turn, the first
   * given a `null` parent and each later one the previous one as parent,
   * each then given its field names.
   */
  function TestChain(a: Entry, b: Entry, c: Entry, d: Entry): (h: Heap)
    ensures h == ChainHeap(a, b, c, d)
  {
    AddModel(ThreeOfChain(a, b, c), 3, d, Instance(2))
  }

  /**
   * The `index` test's script, for any four models: indices 0, 1, 2, 3, each
   * model the parent of the next, names and fields as assigned, and every
   * chain well formed.
   */
  lemma TestChainIndices(a: Entry, b: Entry, c: Entry, d: Entry)
    ensures var h := TestChain(a, b, c, d);
      h.Keys == {0, 1, 2, 3} &&
      h[0].index == 0 && h[1].index == 1 && h[2].index == 2 && h[3].index == 3 &&
      h[0].parent == None && h[1].parent == Some(0) && h[2].parent == Some(1) && h[3].parent == Some(2) &&
      h[0].name == a.name && h[1].name == b.name && h[2].name == c.name && h[3].name == d.name &&
      h[0].fields == a.fields && h[1].fields == b.fields && h[2].fields == c.fields && h[3].fields == d.fields &&
      AllWellFormed(h)
  {
    ChainHeapWellFormed(a, b, c, d);
  }

  /** With the test's own models: Foo, Bar, Biz and Baz get indices 0 to 3 and keep their field names. */
  lemma TestChainExample()
    ensures var h := TestChain(TestFoo, TestBar, TestBiz, TestBaz);
      h[0].index == 0 && h[1].index == 1 && h[2].index == 2 && h[3].index == 3 &&
      h[0].fields == Some(["foo1", "foo2", "foo3"]) && h[3].fields == Some(["baz1", "baz2", "baz3"])
  {
    TestChainIndices(TestFoo, TestBar, TestBiz, TestBaz);
  }

  /** Moving the third record of the chain directly under the first changes that record alone. */
  lemma ReparentedChain(a: Entry, b: Entry, c: Entry, d: Entry)
    ensures SetParent(TestChain(a, b, c, d), 2, Instance(0))
      == ChainHeap(a, b, c, d)[2 := ChainRecord(c, Some(0), 1)]
  {
    var h := ChainHeap(a, b, c, d);
    var h' := SetParent(h, 2, Instance(0));
    assert h'[2] == ChainRecord(c, Some(0), 1);
  }

  /**
   * The index is a snapshot: after Foo → Bar → Biz → Baz, moving Biz directly
   * under Foo gives Biz index 1 while Baz keeps index 3, so Baz's chain is no
   * longer well formed.
   */
  lemma StaleIndexAfterReparenting()
    ensures var h := SetParent(TestChain(TestFoo, TestBar, TestBiz, TestBaz), 2, Instance(0));
      h[2].index == 1 && h[3].index == 3 && h[3].parent == Some(2) &&
      !WellFormed(h, 3)
  {
    ReparentedChain(TestFoo, TestBar, TestBiz, TestBaz);
  }

  /**
   * Putting the chain's root under a new model `e` (id 4) gives the old root
   * index 1 and leaves every other record as it was.
   */
  lemma RootMovedUnderNewModel(a: Entry, b: Entry, c: Entry, d: Entry, e: string)
    ensures SetParent(New(TestChain(a, b, c, d), 4, e), 0, Instance(4))
      == ChainHeap(a, b, c, d)[4 := ChainRecord(Entry(e, None), None, 0)][0 := ChainRecord(a, Some(4), 1)]
  {
    var h := New(ChainHeap(a, b, c, d), 4, e);
    assert h == ChainHeap(a, b, c, d)[4 := ChainRecord(Entry(e, None), None, 0)];
    var h' := SetParent(h, 0, Instance(4));
    assert h'[0] == ChainRecord(a, Some(4), 1);
  }
}

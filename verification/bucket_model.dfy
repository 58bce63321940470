/**
 * The `BucketModel` class (src/bucket/Model.js): the same record as `Model`,
 * except that its parent must itself be a `BucketModel`.
 */
module BucketModel {
  import opened Wrappers
  import opened JsValues
  import opened Records

  /** `new BucketModel(name)` stored under the fresh identity `id`. */
  function New(heap: Heap, id: Id, name: string): (heap': Heap)
    requires id !in heap
    ensures heap'.Keys == heap.Keys + {id}
    ensures heap'[id] == Record(BucketModelClass, name, None, None, 0)
    ensures forall other :: other in heap ==> heap'[other] == heap[other]
  {
    Records.New(heap, id, BucketModelClass, name)
  }

  /** `bucketModel.name = v` */
  function SetName(heap: Heap, self: Id, v: JsValue): (heap': Heap)
    requires self in heap && heap[self].cls == BucketModelClass
    ensures heap'.Keys == heap.Keys
    ensures v.Str? && IsNameString(v.s) ==> heap'[self] == heap[self].(name := v.s)
    ensures !(v.Str? && IsNameString(v.s)) ==> heap' == heap
    ensures forall other :: other in heap && other != self ==> heap'[other] == heap[other]
  {
    heap[self := Records.SetName(heap[self], v)]
  }

  /** `bucketModel.parent = v`: only a `BucketModel` instance is accepted, a `Model` is not. */
  function SetParent(heap: Heap, self: Id, v: JsValue): (heap': Heap)
    requires self in heap && heap[self].cls == BucketModelClass
    requires RefersInto(heap, v)
    ensures heap'.Keys == heap.Keys
    ensures v.Instance? && heap[v.id].cls == BucketModelClass ==>
      heap'[self] == heap[self].(parent := Some(v.id), index := heap[v.id].index + 1)
    ensures v.Instance? && heap[v.id].cls == ModelClass ==> heap' == heap
    ensures !(v.Instance? && heap[v.id].cls == BucketModelClass) ==> heap' == heap
    ensures forall other :: other in heap && other != self ==> heap'[other] == heap[other]
  {
    Records.SetParent(heap, self, v, BucketModelClass)
  }

  /** `bucketModel.fields = v` */
  function SetFields(heap: Heap, self: Id, v: JsValue): (heap': Heap)
    requires self in heap && heap[self].cls == BucketModelClass
    ensures heap'.Keys == heap.Keys
    ensures IsStringArray(v) ==> heap'[self] == heap[self].(fields := Some(Strings(v.elems)))
    ensures !IsStringArray(v) ==> heap' == heap
    ensures forall other :: other in heap && other != self ==> heap'[other] == heap[other]
  {
    heap[self := Records.SetFields(heap[self], v)]
  }
}

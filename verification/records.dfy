/**
 * The record-type tree shared by the two record classes of the source,
 * `Model` (src/Model.js) and its copy `BucketModel` (src/bucket/Model.js).
 *
 * A record instance is a mutable object referenced from other instances
 * through its `parent` attribute. The model keeps every instance in a heap
 * addressed by `Id`; a setter returns the updated heap, so a child sees a
 * later change of its parent's name exactly as a JavaScript reference would,
 * while the child's `index` stays the number it was given at assignment time.
 */
module Records {
  import opened Wrappers
  import opened JsValues

  /** The class an instance was constructed from; `instanceof` tests it. */
  datatype Class = ModelClass | BucketModelClass

  /** The private state of one instance: `#name`, `#parent`, `#fields`, `#index`. */
  datatype Record = Record(
    cls: Class,
    name: string,
    parent: Option<Id>,
    fields: Option<seq<string>>,
    index: nat)

  type Heap = map<Id, Record>

  /** A character of the name pattern `[a-z0-9-_]`, matched case-insensitively. */
  predicate IsNameChar(c: char) {
    ('a' <= c <= 'z') || ('A' <= c <= 'Z') || ('0' <= c <= '9') || c == '-' || c == '_'
  }

  /** A string the name pattern accepts: non-empty, every character a name character. */
  predicate IsNameString(s: string) {
    |s| > 0 && forall i :: 0 <= i < |s| ==> IsNameChar(s[i])
  }

  /** `isValidName`: the value is truthy and matches the name pattern. */
  predicate IsValidName(v: JsValue) {
    v.Str? && IsNameString(v.s)
  }

  /** `isValidFields`: an array whose every element is a string. */
  predicate IsValidFields(v: JsValue) {
    IsStringArray(v)
  }

  /** `isValidParent`: the value is an instance of class `cls`. */
  predicate IsValidParent(heap: Heap, cls: Class, v: JsValue) {
    v.Instance? && v.id in heap && heap[v.id].cls == cls
  }

  /**
   * `/^[class]+$/.test(s)` as the regular expression reads it: one character
   * of the class, then either the end of the input or another match.
   */
  predicate PlusMatch(s: string, inClass: char -> bool) {
    |s| > 0 && inClass(s[0]) && (|s| == 1 || PlusMatch(s[1..], inClass))
  }

  /** A `+` match is a non-empty run of class characters. */
  lemma {:induction false} PlusMatchIsRun(s: string, inClass: char -> bool)
    ensures PlusMatch(s, inClass) <==> |s| > 0 && forall i :: 0 <= i < |s| ==> inClass(s[i])
    decreases |s|
  {
    if |s| > 1 {
      PlusMatchIsRun(s[1..], inClass);
      assert forall i :: 1 <= i < |s| ==> s[i] == s[1..][i - 1];
    }
  }

  /**
   * `isValidName` accepts exactly the strings `/^[a-z0-9-_]+$/i` matches
   * (the empty string, the one falsy string, among the rejected), and a
   * valid name never holds a `/`.
   */
  lemma NameValidatorIsPattern(v: JsValue)
    ensures IsValidName(v) <==> v.Str? && PlusMatch(v.s, IsNameChar)
    ensures IsValidName(v) ==> '/' !in v.s
  {
    if v.Str? {
      PlusMatchIsRun(v.s, IsNameChar);
    }
  }

  /**
   * `isValidParent` is `instanceof`: a value that is not an instance is
   * refused by both classes, and an instance is accepted by exactly one.
   */
  lemma ParentValidatorExclusive(heap: Heap, v: JsValue)
    requires RefersInto(heap, v)
    ensures !v.Instance? ==> !IsValidParent(heap, ModelClass, v) && !IsValidParent(heap, BucketModelClass, v)
    ensures v.Instance? ==> IsValidParent(heap, ModelClass, v) != IsValidParent(heap, BucketModelClass, v)
  {
  }

  /**
   * `isValidFields` is `Array.isArray` and `every`: the empty array passes,
   * nullish values do not, and two arrays joined pass exactly when both do.
   */
  lemma FieldsValidatorIsEvery(a: seq<JsValue>, b: seq<JsValue>)
    ensures IsValidFields(Array([]))
    ensures !IsValidFields(Null) && !IsValidFields(Undefined)
    ensures IsValidFields(Array(a + b)) <==> IsValidFields(Array(a)) && IsValidFields(Array(b))
  {
    assert forall i :: 0 <= i < |a| ==> (a + b)[i] == a[i];
    assert forall i :: 0 <= i < |b| ==> (a + b)[|a| + i] == b[i];
  }

  /** Every parent link of the heap points at an instance of the heap. */
  predicate Closed(heap: Heap) {
    forall id :: id in heap && heap[id].parent.Some? ==> heap[id].parent.value in heap
  }

  /** Every instance reference inside `v` points into the heap. */
  predicate RefersInto(heap: Heap, v: JsValue) {
    v.Instance? ==> v.id in heap
  }

  /** The `name` setter: a valid name replaces the old one, anything else is ignored. */
  function SetName(r: Record, v: JsValue): (r': Record)
    ensures IsValidName(v) ==> r'.name == v.s
    ensures !IsValidName(v) ==> r' == r
    ensures r'.name == r.name || IsNameString(r'.name)
    ensures r'.cls == r.cls && r'.parent == r.parent && r'.fields == r.fields && r'.index == r.index
  {
    if IsValidName(v) then r.(name := v.s) else r
  }

  /** The `fields` setter: an all-string array replaces the fields, anything else is ignored. */
  function SetFields(r: Record, v: JsValue): (r': Record)
    ensures IsValidFields(v) ==> r'.fields.Some? && |r'.fields.value| == |v.elems|
    ensures IsValidFields(v) ==> forall i :: 0 <= i < |v.elems| ==> v.elems[i] == Str(r'.fields.value[i])
    ensures !IsValidFields(v) ==> r' == r
    ensures r'.cls == r.cls && r'.name == r.name && r'.parent == r.parent && r'.index == r.index
  {
    if IsValidFields(v) then r.(fields := Some(Strings(v.elems))) else r
  }

  /**
   * The constructor: the name is stored by plain assignment before the
   * setter runs, so a name the setter would refuse is kept all the same.
   */
  function Create(cls: Class, name: string): (r: Record)
    ensures r.cls == cls && r.name == name
    ensures r.parent == None && r.fields == None && r.index == 0
  {
    SetName(Record(cls, name, None, None, 0), Str(name))
  }

  /** Allocates a new instance under the fresh identity `id`. */
  function New(heap: Heap, id: Id, cls: Class, name: string): (heap': Heap)
    requires id !in heap
    ensures heap'.Keys == heap.Keys + {id}
    ensures heap'[id] == Record(cls, name, None, None, 0)
    ensures forall other :: other in heap ==> heap'[other] == heap[other]
  {
    heap[id := Create(cls, name)]
  }

  /**
   * The `parent` setter of an instance of class `cls`: an instance of the
   * same class becomes the parent and the index is its index plus one,
   * read once, now; any other value leaves the instance untouched.
   */
  function SetParent(heap: Heap, self: Id, v: JsValue, cls: Class): (heap': Heap)
    requires self in heap && heap[self].cls == cls
    requires RefersInto(heap, v)
    ensures heap'.Keys == heap.Keys
    ensures IsValidParent(heap, cls, v) ==>
      heap'[self] == heap[self].(parent := Some(v.id), index := heap[v.id].index + 1)
    ensures !IsValidParent(heap, cls, v) ==> heap' == heap
    ensures forall other :: other in heap && other != self ==> heap'[other] == heap[other]
  {
    if IsValidParent(heap, cls, v) then
      heap[self := heap[self].(parent := Some(v.id), index := heap[v.id].index + 1)]
    else
      heap
  }

  /**
   * The chain above `id` is consistent: following parent links reaches a
   * root of index 0, every link ends in an instance of the same class, and
   * every index is its parent's index plus one. Cycles are excluded because
   * the index strictly decreases along the chain.
   */
  predicate WellFormed(heap: Heap, id: Id)
    decreases if id in heap then heap[id].index else 0
  {
    id in heap &&
    match heap[id].parent
    case None => heap[id].index == 0
    case Some(p) =>
      p in heap && heap[p].cls == heap[id].cls &&
      heap[p].index + 1 == heap[id].index && WellFormed(heap, p)
  }

  predicate AllWellFormed(heap: Heap) {
    forall id :: id in heap ==> WellFormed(heap, id)
  }

  /** No instance of the heap has `id` as its parent. */
  predicate IsLeaf(heap: Heap, id: Id) {
    forall other :: other in heap ==> heap[other].parent != Some(id)
  }

  /** `WellFormed` survives an update of one record that keeps its class, parent and index. */
  lemma {:induction false} WellFormedUnderShapeKeepingUpdate(heap: Heap, self: Id, r: Record, id: Id)
    requires self in heap
    requires r.cls == heap[self].cls && r.parent == heap[self].parent && r.index == heap[self].index
    requires WellFormed(heap, id)
    ensures WellFormed(heap[self := r], id)
    decreases heap[id].index
  {
    if heap[id].parent.Some? {
      WellFormedUnderShapeKeepingUpdate(heap, self, r, heap[id].parent.value);
    }
  }

  /** Renaming an instance or changing its fields keeps every chain well formed. */
  lemma AttributeSettersKeepWellFormed(heap: Heap, self: Id, v: JsValue)
    requires self in heap && AllWellFormed(heap)
    ensures AllWellFormed(heap[self := SetName(heap[self], v)])
    ensures AllWellFormed(heap[self := SetFields(heap[self], v)])
  {
    forall id | id in heap
      ensures WellFormed(heap[self := SetName(heap[self], v)], id)
      ensures WellFormed(heap[self := SetFields(heap[self], v)], id)
    {
      WellFormedUnderShapeKeepingUpdate(heap, self, SetName(heap[self], v), id);
      WellFormedUnderShapeKeepingUpdate(heap, self, SetFields(heap[self], v), id);
    }
  }

  /** A well-formed chain that never passes through `self` is unaffected by any change of `self`. */
  lemma {:induction false} WellFormedAvoidingSelf(heap: Heap, self: Id, r: Record, id: Id)
    requires self in heap && IsLeaf(heap, self) && id != self
    requires WellFormed(heap, id)
    ensures WellFormed(heap[self := r], id)
    decreases heap[id].index
  {
    match heap[id].parent
    case None =>
    case Some(p) =>
      assert p != self;
      WellFormedAvoidingSelf(heap, self, r, p);
  }

  /** A well-formed chain only visits instances of the heap, so allocating a fresh one leaves it alone. */
  lemma {:induction false} WellFormedAfterAllocation(heap: Heap, id: Id, r: Record, other: Id)
    requires id !in heap && WellFormed(heap, other)
    ensures WellFormed(heap[id := r], other)
    decreases heap[other].index
  {
    if heap[other].parent.Some? {
      WellFormedAfterAllocation(heap, id, r, heap[other].parent.value);
    }
  }

  /** Allocating a new root keeps every chain well formed, the new one included. */
  lemma NewKeepsWellFormed(heap: Heap, id: Id, cls: Class, name: string)
    requires id !in heap && AllWellFormed(heap)
    ensures AllWellFormed(New(heap, id, cls, name))
  {
    forall other | other in heap ensures WellFormed(New(heap, id, cls, name), other) {
      WellFormedAfterAllocation(heap, id, Create(cls, name), other);
    }
  }

  /**
   * Giving a leaf a parent of its own class keeps every chain well formed.
   * A leaf is required: the index of a child of `self` is a snapshot and is
   * not recomputed when `self` moves (see `StaleIndexAfterReparenting`).
   */
  lemma SetParentKeepsWellFormed(heap: Heap, self: Id, p: Id, cls: Class)
    requires AllWellFormed(heap)
    requires self in heap && heap[self].cls == cls && IsLeaf(heap, self)
    requires p in heap && p != self
    ensures AllWellFormed(SetParent(heap, self, Instance(p), cls))
  {
    var heap' := SetParent(heap, self, Instance(p), cls);
    if IsValidParent(heap, cls, Instance(p)) {
      forall id | id in heap' ensures WellFormed(heap', id) {
        if id != self {
          WellFormedAvoidingSelf(heap, self, heap'[self], id);
        } else {
          WellFormedAvoidingSelf(heap, self, heap'[self], p);
        }
      }
    }
  }
}

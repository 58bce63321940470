/**
 * The JavaScript values that the record setters are handed. Only the shapes the
 * setters distinguish are kept: strings, arrays, references to record instances
 * held in the heap, other objects, and the two nullish values.
 */
module JsValues {

  /** Identity of an object allocated in the heap of record instances. */
  type Id = nat

  datatype JsValue =
    | Undefined
    | Null
    | Str(s: string)
    | Array(elems: seq<JsValue>)
    | Instance(id: Id)
    | PlainObject

  /** True when `v` is an array whose every element is a string (the empty array included). */
  predicate IsStringArray(v: JsValue) {
    v.Array? && forall i :: 0 <= i < |v.elems| ==> v.elems[i].Str?
  }

  /** The strings held by a string array, in order. */
  function Strings(elems: seq<JsValue>): (r: seq<string>)
    requires forall i :: 0 <= i < |elems| ==> elems[i].Str?
    ensures |r| == |elems|
    ensures forall i :: 0 <= i < |elems| ==> r[i] == elems[i].s
  {
    if |elems| == 0 then [] else [elems[0].s] + Strings(elems[1..])
  }

  /** The array literal `[s0, s1, …]` of the given strings. */
  function StringArray(ss: seq<string>): (v: JsValue)
    ensures IsStringArray(v) && Strings(v.elems) == ss
  {
    Array(seq(|ss|, i requires 0 <= i < |ss| => Str(ss[i])))
  }
}

/**
 * `BucketPrefix` (src/bucket/Prefix.js): the path parameters of a record
 * type, read off its chain of parents. None of its methods changes the
 * record, so each is a pure function of the heap here.
 */
module Prefix {
  import opened Wrappers
  import opened JsValues
  import opened Records
  import Model

  /**
   * The one way the walk can fail: it reads the name of a parent that is
   * `null` (a TypeError in the source). It happens only when an index is
   * larger than the chain above the record, see `StaleIndexMakesParamsThrow`.
   */
  datatype Fault = NullParent

  /** The elements of `s` in the opposite order (`Array.prototype.reverse`). */
  function Reverse<T>(s: seq<T>): (r: seq<T>)
    ensures |r| == |s|
    ensures forall i :: 0 <= i < |s| ==> r[i] == s[|s| - 1 - i]
  {
    if |s| == 0 then [] else Reverse(s[1..]) + [s[0]]
  }

  /** `Array.prototype.join`: the parts with `sep` between each two neighbours. */
  function Join(parts: seq<string>, sep: string): string {
    if |parts| == 0 then ""
    else if |parts| == 1 then parts[0]
    else parts[0] + sep + Join(parts[1..], sep)
  }

  /** Number of occurrences of `c` in `s`. */
  function Count(c: char, s: string): nat {
    if |s| == 0 then 0 else (if s[0] == c then 1 else 0) + Count(c, s[1..])
  }

  /**
   * The loop of `params()`: starting from `cur`, push the name of the
   * current model and move to its parent, `steps` times.
   */
  function Climb(heap: Heap, cur: Option<Id>, steps: nat): (r: Result<seq<string>, Fault>)
    requires Closed(heap) && (cur.Some? ==> cur.value in heap)
    ensures r.Ok? ==> |r.value| == steps
    ensures r.Ok? && steps > 0 ==> cur.Some? && r.value[0] == heap[cur.value].name
    ensures cur.None? ==> (r.Ok? <==> steps == 0)
    decreases steps
  {
    if steps == 0 then Ok([])
    else match cur
      case None => Err(NullParent)
      case Some(m) =>
        match Climb(heap, heap[m].parent, steps - 1)
        case Ok(rest) => Ok([heap[m].name] + rest)
        case Err(f) => Err(f)
  }

  /** `params()`: the own name, then `index` ancestor names, then the whole list reversed. */
  function Params(heap: Heap, id: Id): (r: Result<seq<string>, Fault>)
    requires Closed(heap) && id in heap
    ensures r.Ok? ==> |r.value| == heap[id].index + 1
    ensures r.Ok? ==> r.value[|r.value| - 1] == heap[id].name
    ensures heap[id].index == 0 ==> r == Ok([heap[id].name])
  {
    match Climb(heap, heap[id].parent, heap[id].index)
    case Ok(up) =>
      assert heap[id].index == 0 ==> [heap[id].name] + up == [heap[id].name];
      assert Reverse([heap[id].name]) == [heap[id].name];
      Ok(Reverse([heap[id].name] + up))
    case Err(f) => Err(f)
  }

  /**
   * `getParam(pos)`: the parameter at 1-based position `pos` (1 when the
   * argument is omitted), or `undefined` (`None`) outside the list.
   */
  function GetParam(heap: Heap, id: Id, pos: Option<int>): (r: Result<Option<string>, Fault>)
    requires Closed(heap) && id in heap
    ensures Params(heap, id).Err? <==> r.Err?
    ensures Params(heap, id).Ok? ==>
      var ps := Params(heap, id).value;
      var p := if pos.Some? then pos.value else 1;
      && (1 <= p <= |ps| ==> r == Ok(Some(ps[p - 1])))
      && (p < 1 || |ps| < p ==> r == Ok(None))
  {
    var p := if pos.Some? then pos.value else 1;
    match Params(heap, id)
    case Ok(ps) => Ok(if 1 <= p <= |ps| then Some(ps[p - 1]) else None)
    case Err(f) => Err(f)
  }

  /** `rootParam()`: the first parameter; it throws exactly when `params()` does. */
  function RootParam(heap: Heap, id: Id): (r: Result<Option<string>, Fault>)
    requires Closed(heap) && id in heap
    ensures r.Err? <==> Params(heap, id).Err?
    ensures Params(heap, id).Ok? ==> r == Ok(Some(Params(heap, id).value[0]))
  {
    GetParam(heap, id, Some(1))
  }

  /**
   * `lastParam()`: the record's own name, read directly. It is the last
   * parameter whenever `params()` succeeds, and it never throws, even when
   * `params()` does.
   */
  function LastParam(heap: Heap, id: Id): (name: string)
    requires id in heap
    ensures Closed(heap) && Params(heap, id).Ok? ==> name == Params(heap, id).value[|Params(heap, id).value| - 1]
  {
    heap[id].name
  }

  /**
   * `path()`: throws exactly when `params()` does, and otherwise ends with
   * the record's own name; a record without ancestors has its name alone.
   */
  function Path(heap: Heap, id: Id): (r: Result<string, Fault>)
    requires Closed(heap) && id in heap
    ensures r.Err? <==> Params(heap, id).Err?
    ensures r.Ok? ==> |heap[id].name| <= |r.value| && r.value[|r.value| - |heap[id].name|..] == heap[id].name
    ensures heap[id].index == 0 ==> r == Ok(heap[id].name)
  {
    match Params(heap, id)
    case Ok(ps) =>
      JoinEndsWithLast(ps, "/");
      Ok(Join(ps, "/"))
    case Err(f) => Err(f)
  }

  /**
   * The reference meaning of the parameters: the names of the ancestors of
   * a well-formed record, root first, ending with the record's own name.
   */
  function Lineage(heap: Heap, id: Id): (names: seq<string>)
    requires WellFormed(heap, id)
    ensures |names| == heap[id].index + 1
    ensures names[|names| - 1] == heap[id].name
    decreases heap[id].index
  {
    match heap[id].parent
    case None => [heap[id].name]
    case Some(p) => Lineage(heap, p) + [heap[id].name]
  }

  /** The root of a well-formed chain: the ancestor whose parent is `null`. */
  function Root(heap: Heap, id: Id): (root: Id)
    requires WellFormed(heap, id)
    ensures root in heap && heap[root].parent == None && heap[root].index == 0
    ensures Lineage(heap, id)[0] == heap[root].name
    decreases heap[id].index
  {
    match heap[id].parent
    case None => id
    case Some(p) => Root(heap, p)
  }

  /** Every record of a heap whose chains are all well formed has its parent in the heap. */
  lemma AllWellFormedIsClosed(heap: Heap)
    requires AllWellFormed(heap)
    ensures Closed(heap)
  {
  }

  lemma {:induction false} ReverseAppend<T>(s: seq<T>, t: seq<T>)
    ensures Reverse(s + t) == Reverse(t) + Reverse(s)
  {
    assert Reverse(s + t) == Reverse(t) + Reverse(s);
  }

  lemma ReverseReverse<T>(s: seq<T>)
    ensures Reverse(Reverse(s)) == s
  {
  }

  /** Walking `index + 1` steps up from a well-formed record lists its lineage leaf first. */
  lemma {:induction false} ClimbIsReversedLineage(heap: Heap, m: Id)
    requires Closed(heap) && WellFormed(heap, m)
    ensures Climb(heap, Some(m), heap[m].index + 1) == Ok(Reverse(Lineage(heap, m)))
    decreases heap[m].index
  {
    var name := heap[m].name;
    match heap[m].parent
    case None =>
      assert Climb(heap, heap[m].parent, 0) == Ok([]);
      assert [name] + [] == [name];
      assert Climb(heap, Some(m), heap[m].index + 1) == Ok([name]);
      assert Reverse(Lineage(heap, m)) == [name];
    case Some(p) =>
      ClimbIsReversedLineage(heap, p);
      ReverseAppend(Lineage(heap, p), [name]);
      assert Reverse([name]) == [name];
  }

  /**
   * On a well-formed chain `params()` succeeds and lists the ancestor names
   * from the root to the record itself: `index + 1` names in all.
   */
  lemma {:induction false} ParamsIsLineage(heap: Heap, id: Id)
    requires Closed(heap) && WellFormed(heap, id)
    ensures Params(heap, id) == Ok(Lineage(heap, id))
    ensures |Params(heap, id).value| == heap[id].index + 1
  {
    var name := heap[id].name;
    match heap[id].parent
    case None =>
      assert Reverse([name]) == [name];
    case Some(p) =>
      ClimbIsReversedLineage(heap, p);
      var up := Reverse(Lineage(heap, p));
      assert Climb(heap, Some(p), heap[id].index) == Ok(up);
      ReverseAppend([name], up);
      ReverseReverse(Lineage(heap, p));
      assert Reverse([name]) == [name];
  }

  /** A child's parameters are its parent's parameters followed by its own name. */
  lemma ParamsOfChild(heap: Heap, id: Id)
    requires Closed(heap) && WellFormed(heap, id) && heap[id].parent.Some?
    ensures var p := heap[id].parent.value;
      Params(heap, p).Ok? && Params(heap, id) == Ok(Params(heap, p).value + [heap[id].name])
  {
    var p := heap[id].parent.value;
    ParamsIsLineage(heap, id);
    ParamsIsLineage(heap, p);
  }

  /** `lastParam()` is the last parameter and `rootParam()` the first, which is the root's name. */
  lemma RootAndLastParam(heap: Heap, id: Id)
    requires Closed(heap) && WellFormed(heap, id)
    ensures Params(heap, id).Ok?
    ensures var ps := Params(heap, id).value;
      && |ps| > 0
      && LastParam(heap, id) == ps[|ps| - 1]
      && RootParam(heap, id) == Ok(Some(ps[0]))
      && RootParam(heap, id) == GetParam(heap, id, None)
      && RootParam(heap, id) == Ok(Some(heap[Root(heap, id)].name))
  {
    ParamsIsLineage(heap, id);
  }

  /** A join ends with its last part. */
  lemma {:induction false} JoinEndsWithLast(parts: seq<string>, sep: string)
    requires |parts| > 0
    ensures var j := Join(parts, sep); var last := parts[|parts| - 1];
      |last| <= |j| && j[|j| - |last|..] == last
    decreases |parts|
  {
    if |parts| > 1 {
      JoinEndsWithLast(parts[1..], sep);
      var rest := Join(parts[1..], sep);
      assert Join(parts, sep) == (parts[0] + sep) + rest;
    }
  }

  lemma {:induction false} JoinSnoc(parts: seq<string>, x: string, sep: string)
    requires |parts| > 0
    ensures Join(parts + [x], sep) == Join(parts, sep) + sep + x
    decreases |parts|
  {
    if |parts| == 1 {
      assert parts + [x] == [parts[0], x];
    } else {
      assert (parts + [x])[1..] == parts[1..] + [x];
      JoinSnoc(parts[1..], x, sep);
    }
  }

  lemma {:induction false} CountConcat(c: char, s: string, t: string)
    ensures Count(c, s + t) == Count(c, s) + Count(c, t)
    decreases |s|
  {
    if |s| == 0 {
      assert s + t == t;
    } else {
      assert (s + t)[1..] == s[1..] + t;
      CountConcat(c, s[1..], t);
    }
  }

  lemma {:induction false} CountAbsent(c: char, s: string)
    requires forall i :: 0 <= i < |s| ==> s[i] != c
    ensures Count(c, s) == 0
    decreases |s|
  {
    if |s| > 0 {
      CountAbsent(c, s[1..]);
    }
  }

  /** Joining slash-free parts with `/` puts exactly one slash between each two of them. */
  lemma {:induction false} JoinSlashCount(parts: seq<string>)
    requires |parts| > 0
    requires forall i, j :: 0 <= i < |parts| && 0 <= j < |parts[i]| ==> parts[i][j] != '/'
    ensures Count('/', Join(parts, "/")) == |parts| - 1
    decreases |parts|
  {
    CountAbsent('/', parts[0]);
    if |parts| > 1 {
      JoinSlashCount(parts[1..]);
      CountConcat('/', parts[0], "/");
      CountConcat('/', parts[0] + "/", Join(parts[1..], "/"));
    }
  }

  /** On a well-formed chain the path is the lineage, root first, joined by slashes. */
  lemma PathIsJoinedLineage(heap: Heap, id: Id)
    requires Closed(heap) && WellFormed(heap, id)
    ensures Path(heap, id) == Ok(Join(Lineage(heap, id), "/"))
  {
    ParamsIsLineage(heap, id);
  }

  /** A child's path is its parent's path, a slash, and its own name. */
  lemma PathOfChild(heap: Heap, id: Id)
    requires Closed(heap) && WellFormed(heap, id) && heap[id].parent.Some?
    ensures var p := heap[id].parent.value;
      Path(heap, p).Ok? && Path(heap, id) == Ok(Path(heap, p).value + "/" + heap[id].name)
  {
    ParamsOfChild(heap, id);
    var p := heap[id].parent.value;
    ParamsIsLineage(heap, p);
    JoinSnoc(Params(heap, p).value, heap[id].name, "/");
  }

  /**
   * When every name on a well-formed chain is a valid name, the path holds
   * exactly `index` slashes: one between each two neighbouring names.
   */
  lemma PathSlashCount(heap: Heap, id: Id)
    requires Closed(heap) && WellFormed(heap, id)
    requires forall i :: 0 <= i < |Lineage(heap, id)| ==> IsNameString(Lineage(heap, id)[i])
    ensures Path(heap, id).Ok? && Count('/', Path(heap, id).value) == heap[id].index
  {
    ParamsIsLineage(heap, id);
    var ps := Lineage(heap, id);
    forall i, j | 0 <= i < |ps| && 0 <= j < |ps[i]| ensures ps[i][j] != '/' {
      assert IsNameChar(ps[i][j]);
    }
    JoinSlashCount(ps);
  }

  /** On the four-record chain the fourth record's parameters are the four names, joined by slashes in its path. */
  lemma ChainHeapPrefix(a: Model.Entry, b: Model.Entry, c: Model.Entry, d: Model.Entry)
    ensures var h := Model.ChainHeap(a, b, c, d);
      && Closed(h) && 3 in h
      && Params(h, 3) == Ok([a.name, b.name, c.name, d.name])
      && Path(h, 3) == Ok(a.name + "/" + b.name + "/" + c.name + "/" + d.name)
  {
    var h := Model.ChainHeap(a, b, c, d);
    var (x, y, z, w) := (a.name, b.name, c.name, d.name);
    assert WellFormed(h, 0) && WellFormed(h, 1) && WellFormed(h, 2) && WellFormed(h, 3);
    assert Lineage(h, 1) == [x, y];
    assert Lineage(h, 2) == [x, y, z];
    assert Lineage(h, 3) == [x, y, z, w];
    ParamsIsLineage(h, 3);
    assert Join([w], "/") == w;
    assert Join([z, w], "/") == z + "/" + w;
    assert Join([y, z, w], "/") == y + "/" + (z + "/" + w);
    assert Join([x, y, z, w], "/") == x + "/" + (y + "/" + (z + "/" + w));
    assert x + "/" + (y + "/" + (z + "/" + w)) == x + "/" + y + "/" + z + "/" + w;
  }

  /** The test's four models, constructed one after the other and not yet linked. */
  function Unlinked(a: string, b: string, c: string, d: string): (h: Heap)
    ensures h == map[0 := Model.ChainRecord(Model.Entry(a, None), None, 0),
                     1 := Model.ChainRecord(Model.Entry(b, None), None, 0),
                     2 := Model.ChainRecord(Model.Entry(c, None), None, 0),
                     3 := Model.ChainRecord(Model.Entry(d, None), None, 0)]
  {
    Model.New(Model.New(Model.New(Model.New(map[], 0, a), 1, b), 2, c), 3, d)
  }

  /** The first two links of the test's set-up: `null` for the root, then the root for the second model. */
  function LinkedTwo(a: string, b: string, c: string, d: string): (h: Heap)
    ensures h == map[0 := Model.ChainRecord(Model.Entry(a, None), None, 0),
                     1 := Model.ChainRecord(Model.Entry(b, None), Some(0), 1),
                     2 := Model.ChainRecord(Model.Entry(c, None), None, 0),
                     3 := Model.ChainRecord(Model.Entry(d, None), None, 0)]
  {
    Model.SetParent(Model.SetParent(Unlinked(a, b, c, d), 0, Null), 1, Instance(0))
  }

  /** The third link of the test's set-up: the second model becomes the parent of the third. */
  function LinkedThree(a: string, b: string, c: string, d: string): (h: Heap)
    ensures h == map[0 := Model.ChainRecord(Model.Entry(a, None), None, 0),
                     1 := Model.ChainRecord(Model.Entry(b, None), Some(0), 1),
                     2 := Model.ChainRecord(Model.Entry(c, None), Some(1), 2),
                     3 := Model.ChainRecord(Model.Entry(d, None), None, 0)]
  {
    Model.SetParent(LinkedTwo(a, b, c, d), 2, Instance(1))
  }

  /**
   * The set-up of test/unit/bucket/Prefix.js: four models constructed, then
   * each given the previous one as parent (the first one `null`), in order.
   * No fields are assigned.
   */
  function PrefixTestChain(a: string, b: string, c: string, d: string): (h: Heap)
    ensures h == Model.ChainHeap(Model.Entry(a, None), Model.Entry(b, None), Model.Entry(c, None), Model.Entry(d, None))
  {
    Model.SetParent(LinkedThree(a, b, c, d), 3, Instance(2))
  }

  /**
   * The test's prefix of the leaf, for any four names: four parameters,
   * the first one the root's name, the second one the second name, the last
   * one the leaf's, nothing at position 5, and the path the four names
   * joined by slashes.
   */
  lemma TestChainPrefix(a: string, b: string, c: string, d: string)
    ensures var h := PrefixTestChain(a, b, c, d);
      && Closed(h) && 3 in h
      && Params(h, 3) == Ok([a, b, c, d])
      && RootParam(h, 3) == Ok(Some(a))
      && LastParam(h, 3) == d
      && GetParam(h, 3, Some(2)) == Ok(Some(b))
      && GetParam(h, 3, Some(5)) == Ok(None)
      && Path(h, 3) == Ok(a + "/" + b + "/" + c + "/" + d)
  {
    ChainHeapPrefix(Model.Entry(a, None), Model.Entry(b, None), Model.Entry(c, None), Model.Entry(d, None));
  }

  /** With the test's names: `foo/bar/biz/baz`, root `foo`, second parameter `bar`, last `baz`. */
  lemma TestChainPath()
    ensures var h := PrefixTestChain("foo", "bar", "biz", "baz");
      && Closed(h) && 3 in h
      && Path(h, 3) == Ok("foo/bar/biz/baz")
      && RootParam(h, 3) == Ok(Some("foo"))
      && GetParam(h, 3, Some(2)) == Ok(Some("bar"))
      && LastParam(h, 3) == "baz"
  {
    TestChainPrefix("foo", "bar", "biz", "baz");
    TestNamesJoined();
  }

  /** The test's names joined by slashes; a separate step keeps the literal arithmetic out of the chain proof. */
  lemma TestNamesJoined()
    ensures "foo" + "/" + "bar" + "/" + "biz" + "/" + "baz" == "foo/bar/biz/baz"
  {
  }

  /**
   * The index is not recomputed when an ancestor moves: after moving the
   * third model of the test chain under the first, the fourth still walks
   * three steps, runs past the root and `params()` throws.
   */
  lemma StaleIndexMakesParamsThrow(a: Model.Entry, b: Model.Entry, c: Model.Entry, d: Model.Entry)
    ensures var h := Model.SetParent(Model.TestChain(a, b, c, d), 2, Instance(0));
      Closed(h) && 3 in h && Params(h, 3) == Err(NullParent) && Path(h, 3) == Err(NullParent)
  {
    Model.ReparentedChain(a, b, c, d);
    ReparentedClimb(a, b, c, d);
  }

  /** The reparented chain is closed, and three steps up from its fourth record pass the root. */
  lemma ReparentedClimb(a: Model.Entry, b: Model.Entry, c: Model.Entry, d: Model.Entry)
    ensures var h := Model.ChainHeap(a, b, c, d)[2 := Model.ChainRecord(c, Some(0), 1)];
      Closed(h) && 3 in h && h[3].index == 3 && Climb(h, h[3].parent, 3) == Err(NullParent)
  {
    var h := Model.ChainHeap(a, b, c, d)[2 := Model.ChainRecord(c, Some(0), 1)];
    assert Closed(h);
    assert Climb(h, h[0].parent, 1) == Err(NullParent);
    assert Climb(h, h[2].parent, 2) == Err(NullParent);
  }

  /**
   * An index that is too small does not throw: after the root of the test
   * chain is put under a new model `e`, the fourth model still walks three
   * steps, stops at the old root and `params()` returns the four old names,
   * without `e`, although the chain above the fourth model now has five.
   */
  lemma TooSmallIndexTruncates(a: Model.Entry, b: Model.Entry, c: Model.Entry, d: Model.Entry, e: string)
    ensures var h := Model.SetParent(Model.New(Model.TestChain(a, b, c, d), 4, e), 0, Instance(4));
      && Closed(h) && 3 in h && 4 in h
      && h[0].parent == Some(4) && h[4].parent == None && h[3].index == 3
      && !WellFormed(h, 3)
      && Params(h, 3) == Ok([a.name, b.name, c.name, d.name])
  {
    Model.RootMovedUnderNewModel(a, b, c, d, e);
    TruncatedParams(a, b, c, d, e);
  }

  /** On the chain whose root was put under a new model, the fourth record's walk stops at the old root. */
  lemma TruncatedParams(a: Model.Entry, b: Model.Entry, c: Model.Entry, d: Model.Entry, e: string)
    ensures var h := Model.ChainHeap(a, b, c, d)[4 := Model.ChainRecord(Model.Entry(e, None), None, 0)]
                                                [0 := Model.ChainRecord(a, Some(4), 1)];
      && Closed(h) && 3 in h && !WellFormed(h, 3)
      && Params(h, 3) == Ok([a.name, b.name, c.name, d.name])
  {
    var h := Model.ChainHeap(a, b, c, d)[4 := Model.ChainRecord(Model.Entry(e, None), None, 0)][0 := Model.ChainRecord(a, Some(4), 1)];
    assert Closed(h);
    assert !WellFormed(h, 1);
    assert Climb(h, Some(4), 0) == Ok([]);
    assert [a.name] + [] == [a.name];
    assert Climb(h, Some(0), 1) == Ok([a.name]);
    assert [b.name] + [a.name] == [b.name, a.name];
    assert Climb(h, Some(1), 2) == Ok([b.name, a.name]);
    assert [c.name] + [b.name, a.name] == [c.name, b.name, a.name];
    assert Climb(h, Some(2), 3) == Ok([c.name, b.name, a.name]);
    assert Reverse([d.name, c.name, b.name, a.name]) == [a.name, b.name, c.name, d.name];
  }
}

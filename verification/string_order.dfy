/**
 * The order `Array.prototype.sort` uses for strings when no comparator is
 * given: lexicographic, character by character, a proper prefix first.
 * Sorting by it is a function of the multiset of elements: two sorted
 * permutations of one multiset are equal, whatever algorithm produced them.
 */
module StringOrder {

  predicate LessEq(a: string, b: string)
    decreases |a|
  {
    |a| == 0 || (|b| > 0 && (a[0] < b[0] || (a[0] == b[0] && LessEq(a[1..], b[1..]))))
  }

  lemma {:induction false} Reflexive(a: string)
    ensures LessEq(a, a)
    decreases |a|
  {
    if |a| > 0 {
      Reflexive(a[1..]);
    }
  }

  lemma {:induction false} Total(a: string, b: string)
    ensures LessEq(a, b) || LessEq(b, a)
    decreases |a|
  {
    if |a| > 0 && |b| > 0 && a[0] == b[0] {
      Total(a[1..], b[1..]);
    }
  }

  lemma {:induction false} Antisymmetric(a: string, b: string)
    requires LessEq(a, b) && LessEq(b, a)
    ensures a == b
    decreases |a|
  {
    if |a| > 0 {
      Antisymmetric(a[1..], b[1..]);
      assert a == [a[0]] + a[1..];
      assert b == [b[0]] + b[1..];
    }
  }

  lemma {:induction false} Transitive(a: string, b: string, c: string)
    requires LessEq(a, b) && LessEq(b, c)
    ensures LessEq(a, c)
    decreases |a|
  {
    if |a| > 0 && a[0] == b[0] && b[0] == c[0] {
      Transitive(a[1..], b[1..], c[1..]);
    }
  }

  /** Every element is at most every later one. */
  predicate Sorted(s: seq<string>) {
    forall i, j :: 0 <= i < j < |s| ==> LessEq(s[i], s[j])
  }

  /** `x` is at most every element of `s`. */
  predicate Below(x: string, s: seq<string>) {
    forall i :: 0 <= i < |s| ==> LessEq(x, s[i])
  }

  lemma BelowByMultiset(x: string, s: seq<string>, t: seq<string>)
    requires Below(x, s) && multiset(t) <= multiset(s)
    ensures Below(x, t)
  {
    forall i | 0 <= i < |t| ensures LessEq(x, t[i]) {
      assert t[i] in multiset(t);
      assert t[i] in multiset(s);
      var j :| 0 <= j < |s| && s[j] == t[i];
    }
  }

  /** Places `x` before the first element it is at most, keeping the sequence sorted. */
  function Insert(x: string, s: seq<string>): (r: seq<string>)
    requires Sorted(s)
    ensures Sorted(r)
    ensures multiset(r) == multiset(s) + multiset{x}
    ensures |r| == |s| + 1
  {
    if |s| == 0 then [x]
    else if LessEq(x, s[0]) then
      assert Below(x, s) by {
        forall i | 0 <= i < |s| ensures LessEq(x, s[i]) {
          if i > 0 { Transitive(x, s[0], s[i]); }
        }
      }
      [x] + s
    else
      var rest := Insert(x, s[1..]);
      assert Below(s[0], rest) by {
        Total(x, s[0]);
        assert Below(s[0], s[1..] + [x]);
        assert multiset(rest) == multiset(s[1..] + [x]);
        BelowByMultiset(s[0], s[1..] + [x], rest);
      }
      assert s == [s[0]] + s[1..];
      [s[0]] + rest
  }

  /** A sorted permutation of `s`. */
  function Sort(s: seq<string>): (r: seq<string>)
    ensures Sorted(r)
    ensures multiset(r) == multiset(s)
    ensures |r| == |s|
  {
    if |s| == 0 then []
    else
      assert s == [s[0]] + s[1..];
      Insert(s[0], Sort(s[1..]))
  }

  /** Two sorted sequences holding the same multiset of strings are equal. */
  lemma {:induction false} SortedUnique(a: seq<string>, b: seq<string>)
    requires Sorted(a) && Sorted(b) && multiset(a) == multiset(b)
    ensures a == b
    decreases |a|
  {
    assert |a| == |multiset(a)| == |multiset(b)| == |b|;
    if |a| > 0 {
      assert a[0] in multiset(b);
      var j :| 0 <= j < |b| && b[j] == a[0];
      assert b[0] in multiset(a);
      var i :| 0 <= i < |a| && a[i] == b[0];
      assert LessEq(b[0], a[0]) by { if j > 0 { assert LessEq(b[0], b[j]); } else { Reflexive(a[0]); } }
      assert LessEq(a[0], b[0]) by { if i > 0 { assert LessEq(a[0], a[i]); } else { Reflexive(b[0]); } }
      Antisymmetric(a[0], b[0]);
      assert a == [a[0]] + a[1..];
      assert b == [b[0]] + b[1..];
      assert multiset(a) == multiset{a[0]} + multiset(a[1..]);
      assert multiset(b) == multiset{b[0]} + multiset(b[1..]);
      assert multiset(a[1..]) == multiset(a) - multiset{a[0]};
      assert multiset(b[1..]) == multiset(b) - multiset{b[0]};
      SortedUnique(a[1..], b[1..]);
    }
  }
}

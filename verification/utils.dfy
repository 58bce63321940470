/**
 * The helpers of src/Utils.js: `compareArrays`, `genRandomStr` and
 * `pascalCase` (`isObject` is JavaScript type introspection and is not
 * modelled).
 */
module Utils {
  import opened Wrappers
  import opened StringOrder
  import Casing

  /**
   * The result of `compareArrays`, together with the two arguments as the
   * call leaves them: `Array.prototype.sort` sorts them in place. `None`
   * stands for an argument that is not an array.
   */
  datatype Compared = Compared(equal: bool, arr1: Option<seq<string>>, arr2: Option<seq<string>>)

  /**
   * `compareArrays(arr1, arr2)`: two arrays of strings of equal length are
   * sorted in place and then compared position by position.
   */
  function CompareArrays(arr1: Option<seq<string>>, arr2: Option<seq<string>>): (r: Compared)
    ensures !(arr1.Some? && arr2.Some? && |arr1.value| == |arr2.value|) ==>
      r == Compared(false, arr1, arr2)
    ensures arr1.Some? && arr2.Some? ==>
      (r.equal <==> multiset(arr1.value) == multiset(arr2.value))
    ensures arr1.Some? && arr2.Some? && |arr1.value| == |arr2.value| ==>
      && r.arr1.Some? && Sorted(r.arr1.value) && multiset(r.arr1.value) == multiset(arr1.value)
      && r.arr2.Some? && Sorted(r.arr2.value) && multiset(r.arr2.value) == multiset(arr2.value)
  {
    if arr1.Some? && arr2.Some? && |arr1.value| == |arr2.value| then
      var sorted1 := Sort(arr1.value);
      var sorted2 := Sort(arr2.value);
      var same := forall i :: 0 <= i < |sorted1| ==> sorted1[i] == sorted2[i];
      assert same ==> sorted1 == sorted2;
      assert multiset(arr1.value) == multiset(arr2.value) ==> same by {
        if multiset(arr1.value) == multiset(arr2.value) {
          SortedUnique(sorted1, sorted2);
        }
      }
      Compared(same, Some(sorted1), Some(sorted2))
    else
      assert arr1.Some? && arr2.Some? ==> |multiset(arr1.value)| != |multiset(arr2.value)|;
      Compared(false, arr1, arr2)
  }

  /** The verdict does not depend on the order of the two arguments. */
  lemma CompareArraysSymmetric(arr1: Option<seq<string>>, arr2: Option<seq<string>>)
    ensures CompareArrays(arr1, arr2).equal == CompareArrays(arr2, arr1).equal
  {
  }

  /** The arrays of the documentation example hold different strings, so the verdict is false. */
  lemma CompareArraysDocExample()
    ensures !CompareArrays(Some(["foo", "bar", "biz"]), Some(["bar", "qux", "baz"])).equal
  {
    assert "foo" in multiset(["foo", "bar", "biz"]);
    assert "foo" !in ["bar", "qux", "baz"];
  }

  /** The ASCII characters from `lo` to `hi` in code-point order. */
  function Range(lo: char, hi: char): (r: string)
    requires lo <= hi < 0x80 as char
    ensures |r| == hi as int - lo as int + 1
    ensures forall k :: 0 <= k < |r| ==> r[k] as int == lo as int + k
  {
    seq(hi as int - lo as int + 1, k requires 0 <= k < hi as int - lo as int + 1 => (lo as int + k) as char)
  }

  /**
   * The 57 characters `genRandomStr` draws from, in the order the source
   * lists them: a–h, j–k, m–z, A–N, P–Z and 2–9.
   */
  const Alphabet: string :=
    Range('a', 'h') + Range('j', 'k') + Range('m', 'z') + Range('A', 'N') + Range('P', 'Z') + Range('2', '9')

  /** The `len` argument: omitted (default 32), a whole number, or a value that is not a number. */
  datatype LengthArg = Omitted | Count(n: int) | NotANumber

  /**
   * `genRandomStr(len)`. The source shuffles the alphabet and then draws
   * `len` characters from it at random; which character each draw yields
   * is an input here: `picks[k]` is the alphabet position of the `k`-th
   * character.
   */
  method GenRandomStr(len: LengthArg, picks: seq<nat>) returns (r: Option<string>)
    requires forall k :: 0 <= k < |picks| ==> picks[k] < |Alphabet|
    requires len.Omitted? ==> |picks| >= 32
    requires len.Count? ==> |picks| >= len.n
    ensures len.Omitted? ==> r.Some? && |r.value| == 32
    ensures len.Count? && len.n > 0 ==> r.Some? && |r.value| == len.n
    ensures len.NotANumber? || (len.Count? && len.n <= 0) ==> r == None
    ensures r.Some? ==> forall k :: 0 <= k < |r.value| ==> r.value[k] in Alphabet
    ensures r.Some? ==> forall k :: 0 <= k < |r.value| ==> r.value[k] == Alphabet[picks[k]]
  {
    var str := "";
    var i := 0;
    // `i < len` is false from the start for a non-positive or non-numeric length.
    var bound := match len
      case Omitted => 32
      case Count(n) => if n > 0 then n else 0
      case NotANumber => 0;
    while i < bound
      invariant 0 <= i <= bound
      invariant |str| == i
      invariant forall k :: 0 <= k < i ==> str[k] == Alphabet[picks[k]]
    {
      str := str + [Alphabet[picks[i]]];
      i := i + 1;
    }
    // `str || undefined`
    r := if str == "" then None else Some(str);
  }

  /**
   * The position each character has in the alphabet, or -1 for a character
   * the alphabet does not hold.
   */
  function Rank(c: char): int {
    if 'a' <= c <= 'h' then c as int - 'a' as int
    else if 'j' <= c <= 'k' then c as int - 'a' as int - 1
    else if 'm' <= c <= 'z' then c as int - 'a' as int - 2
    else if 'A' <= c <= 'N' then 24 + c as int - 'A' as int
    else if 'P' <= c <= 'Z' then 23 + c as int - 'A' as int
    else if '2' <= c <= '9' then 49 + c as int - '2' as int
    else -1
  }

  /** The alphabet has 57 distinct letters and digits and leaves out i, l, O, 0 and 1. */
  lemma AlphabetFacts()
    ensures |Alphabet| == 57
    ensures forall i, j :: 0 <= i < j < |Alphabet| ==> Alphabet[i] != Alphabet[j]
    ensures forall i :: 0 <= i < |Alphabet| ==>
      ('a' <= Alphabet[i] <= 'z') || ('A' <= Alphabet[i] <= 'Z') || ('2' <= Alphabet[i] <= '9')
    ensures 'i' !in Alphabet && 'l' !in Alphabet && 'O' !in Alphabet
    ensures '0' !in Alphabet && '1' !in Alphabet
  {
    assert forall k :: 0 <= k < |Alphabet| ==> Rank(Alphabet[k]) == k;
  }

  /** `pascalCase(value)` */
  function PascalCase(value: string): (r: string)
    ensures Casing.AllLetters(r)
    ensures Casing.Lower(r) == Casing.Lower(Casing.Letters(value))
  {
    Casing.PascalCaseKeepsLetters(value);
    Casing.PascalCase(value)
  }
}

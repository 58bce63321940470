/**
 * `pascalCase`, which the source keeps as two identical copies
 * (src/Utils.js and src/Common.js). The steps follow the source:
 * every character other than an ASCII letter, `-`, `_` or space becomes
 * `-`; the string is split at each `-`, `_` or space; a segment made only of
 * upper-case letters is lower-cased; each segment's first letter is
 * upper-cased; the segments are concatenated.
 */
module Casing {

  predicate IsUpper(c: char) { 'A' <= c <= 'Z' }

  predicate IsLetter(c: char) { ('a' <= c <= 'z') || IsUpper(c) }

  /** A character the split pattern `[-_ ]` matches. */
  predicate IsSeparator(c: char) { c == '-' || c == '_' || c == ' ' }

  predicate AllLetters(s: string) {
    forall i :: 0 <= i < |s| ==> IsLetter(s[i])
  }

  /** The segment test `/^[A-Z]+$/`. */
  predicate AllUpper(s: string) {
    |s| > 0 && forall i :: 0 <= i < |s| ==> IsUpper(s[i])
  }

  /** `toLowerCase` on an ASCII character. */
  function ToLower(c: char): char {
    if IsUpper(c) then (c as int - 'A' as int + 'a' as int) as char else c
  }

  /** `toUpperCase` on an ASCII character. */
  function ToUpper(c: char): char {
    if 'a' <= c <= 'z' then (c as int - 'a' as int + 'A' as int) as char else c
  }

  function Lower(s: string): (r: string)
    ensures |r| == |s|
    ensures forall i :: 0 <= i < |s| ==> r[i] == ToLower(s[i])
  {
    seq(|s|, i requires 0 <= i < |s| => ToLower(s[i]))
  }

  /** The ASCII letters of `s`, in order. */
  function Letters(s: string): string {
    if |s| == 0 then "" else (if IsLetter(s[0]) then [s[0]] else "") + Letters(s[1..])
  }

  /** The characters of `s` that are not separators, in order. */
  function NonSeparators(s: string): string {
    if |s| == 0 then "" else (if IsSeparator(s[0]) then "" else [s[0]]) + NonSeparators(s[1..])
  }

  /** `value.replace(/[^a-z-_ ]/gi, '-')` */
  function Sanitize(s: string): (r: string)
    ensures |r| == |s|
    ensures forall i :: 0 <= i < |s| ==>
      r[i] == (if IsLetter(s[i]) || IsSeparator(s[i]) then s[i] else '-')
  {
    seq(|s|, i requires 0 <= i < |s| => if IsLetter(s[i]) || IsSeparator(s[i]) then s[i] else '-')
  }

  /** `value.split(/[-_ ]/g)`: one more segment than there are separators. */
  function Split(s: string): (segs: seq<string>)
    ensures |segs| >= 1
  {
    if |s| == 0 then [""]
    else
      var rest := Split(s[1..]);
      if IsSeparator(s[0]) then [""] + rest
      else [[s[0]] + rest[0]] + rest[1..]
  }

  /** The first `map`: an all-upper-case segment is lower-cased. */
  function Normalize(seg: string): string {
    if AllUpper(seg) then Lower(seg) else seg
  }

  /** The second `map`: `str.charAt(0).toUpperCase() + str.slice(1)`. */
  function Capitalize(seg: string): string {
    if |seg| == 0 then "" else [ToUpper(seg[0])] + seg[1..]
  }

  /** What one segment contributes to the result. */
  function Chunk(seg: string): string {
    Capitalize(Normalize(seg))
  }

  /** `parts.join('')` after both maps. */
  function Chunks(segs: seq<string>): string {
    if |segs| == 0 then "" else Chunk(segs[0]) + Chunks(segs[1..])
  }

  function Concat(segs: seq<string>): string {
    if |segs| == 0 then "" else segs[0] + Concat(segs[1..])
  }

  function PascalCase(value: string): string {
    Chunks(Split(Sanitize(value)))
  }

  lemma LowerConcat(s: string, t: string)
    ensures Lower(s + t) == Lower(s) + Lower(t)
  {
  }

  /** Sanitising turns every non-letter into a separator, so what is not a separator is exactly the letters. */
  lemma {:induction false} NonSeparatorsOfSanitized(s: string)
    ensures NonSeparators(Sanitize(s)) == Letters(s)
    decreases |s|
  {
    if |s| > 0 {
      assert Sanitize(s)[1..] == Sanitize(s[1..]);
      NonSeparatorsOfSanitized(s[1..]);
    }
  }

  /**
   * Splitting drops exactly the separators: the segments hold no separator
   * and concatenate to the non-separator characters; when the input holds
   * only letters and separators, every segment is made of letters.
   */
  lemma {:induction false} SplitFacts(s: string)
    ensures Concat(Split(s)) == NonSeparators(s)
    ensures (forall i :: 0 <= i < |s| ==> IsLetter(s[i]) || IsSeparator(s[i])) ==>
      forall k :: 0 <= k < |Split(s)| ==> AllLetters(Split(s)[k])
    decreases |s|
  {
    if |s| > 0 {
      SplitFacts(s[1..]);
      var rest := Split(s[1..]);
      if IsSeparator(s[0]) {
        assert Concat([""] + rest) == "" + Concat(rest);
        assert ([""] + rest)[1..] == rest;
      } else {
        var segs := [[s[0]] + rest[0]] + rest[1..];
        assert segs[1..] == rest[1..];
        assert Concat(rest) == rest[0] + Concat(rest[1..]);
        assert Concat(segs) == [s[0]] + rest[0] + Concat(rest[1..]);
      }
    }
  }

  /**
   * One segment's chunk: letters only, the same letters ignoring case, the
   * first letter upper-case, the rest unchanged unless the whole segment
   * was upper-case, in which case the rest is lower-cased.
   */
  lemma ChunkFacts(seg: string)
    requires AllLetters(seg)
    ensures AllLetters(Chunk(seg))
    ensures Lower(Chunk(seg)) == Lower(seg)
    ensures |seg| == 0 ==> Chunk(seg) == ""
    ensures |seg| > 0 ==> |Chunk(seg)| == |seg| && IsUpper(Chunk(seg)[0])
    ensures |seg| > 0 && !AllUpper(seg) ==> Chunk(seg)[1..] == seg[1..]
    ensures |seg| > 0 && AllUpper(seg) ==> Chunk(seg)[1..] == Lower(seg[1..])
  {
    if |seg| > 0 {
      var n := Normalize(seg);
      assert Chunk(seg) == [ToUpper(n[0])] + n[1..];
      assert Lower(Chunk(seg)) == Lower(seg);
    }
  }

  lemma {:induction false} ChunksFacts(segs: seq<string>)
    requires forall k :: 0 <= k < |segs| ==> AllLetters(segs[k])
    ensures AllLetters(Chunks(segs))
    ensures Lower(Chunks(segs)) == Lower(Concat(segs))
    decreases |segs|
  {
    if |segs| > 0 {
      ChunkFacts(segs[0]);
      ChunksFacts(segs[1..]);
      LowerConcat(Chunk(segs[0]), Chunks(segs[1..]));
      LowerConcat(segs[0], Concat(segs[1..]));
    }
  }

  /**
   * The result holds only ASCII letters, and ignoring case they are the
   * letters of the input in their order: separators, digits and every
   * other character are dropped.
   */
  lemma PascalCaseKeepsLetters(value: string)
    ensures AllLetters(PascalCase(value))
    ensures Lower(PascalCase(value)) == Lower(Letters(value))
  {
    var sanitized := Sanitize(value);
    SplitFacts(sanitized);
    ChunksFacts(Split(sanitized));
    NonSeparatorsOfSanitized(value);
  }

  /** A single run of letters is one segment. */
  lemma {:induction false} SplitOfLetters(s: string)
    requires AllLetters(s)
    ensures Split(s) == [s]
    decreases |s|
  {
    if |s| > 0 {
      SplitOfLetters(s[1..]);
      assert [s[0]] + s[1..] == s;
    }
  }

  /** A run of letters followed by a separator is the first segment; splitting goes on after it. */
  lemma {:induction false} SplitAfterWord(w: string, sep: char, t: string)
    requires AllLetters(w) && IsSeparator(sep)
    ensures Split(w + [sep] + t) == [w] + Split(t)
    decreases |w|
  {
    var s := w + [sep] + t;
    if |w| == 0 {
      assert s[1..] == t;
    } else {
      assert s[1..] == w[1..] + [sep] + t;
      SplitAfterWord(w[1..], sep, t);
      assert [s[0]] + w[1..] == w;
    }
  }

  lemma SanitizeConcat(a: string, b: string)
    ensures Sanitize(a + b) == Sanitize(a) + Sanitize(b)
  {
  }

  /** A word of letters alone becomes its own chunk. */
  lemma PascalCaseOfWord(w: string)
    requires AllLetters(w)
    ensures PascalCase(w) == Chunk(w)
  {
    assert Sanitize(w) == w;
    SplitOfLetters(w);
    assert Chunks([w]) == Chunk(w) + Chunks([]);
  }

  /**
   * A word of letters followed by any character that is not a letter: the
   * word becomes one chunk and the rest is converted on its own.
   */
  lemma PascalCaseAfterWord(w: string, c: char, t: string)
    requires AllLetters(w) && !IsLetter(c)
    ensures PascalCase(w + [c] + t) == Chunk(w) + PascalCase(t)
  {
    var sep := if IsSeparator(c) then c else '-';
    SanitizeConcat(w + [c], t);
    SanitizeConcat(w, [c]);
    assert Sanitize(w) == w;
    assert Sanitize([c]) == [sep];
    SplitAfterWord(w, sep, Sanitize(t));
    var segs := [w] + Split(Sanitize(t));
    assert segs[1..] == Split(Sanitize(t));
  }

  /** A leading character that is not a letter opens an empty segment, which contributes nothing. */
  lemma PascalCaseAfterSeparator(c: char, t: string)
    requires !IsLetter(c)
    ensures PascalCase([c] + t) == PascalCase(t)
  {
    PascalCaseAfterWord("", c, t);
    assert "" + [c] + t == [c] + t;
  }

  /** An all-upper-case segment keeps its first letter and lower-cases the rest. */
  lemma ChunkOfUpper(w: string)
    requires AllUpper(w)
    ensures Chunk(w) == [w[0]] + Lower(w[1..])
  {
    ChunkFacts(w);
  }

  /** A segment with a letter that is not upper-case: only its first letter changes. */
  lemma ChunkOfMixed(w: string, k: nat)
    requires AllLetters(w) && k < |w| && !IsUpper(w[k])
    ensures Chunk(w) == [ToUpper(w[0])] + w[1..]
  {
  }

  /** `words[i..]` written one after another with `seps[k]` between `words[k]` and `words[k + 1]`. */
  function Joined(words: seq<string>, seps: string, i: nat): string
    requires |seps| + 1 == |words| && i < |words|
    decreases |words| - i
  {
    if i == |words| - 1 then words[i] else words[i] + [seps[i]] + Joined(words, seps, i + 1)
  }

  /**
   * Words of letters joined by single characters that are not letters:
   * each word becomes one chunk, whatever the joining characters are.
   */
  lemma {:induction false} PascalCaseOfJoined(words: seq<string>, seps: string, i: nat)
    requires |seps| + 1 == |words| && i < |words|
    requires forall k :: 0 <= k < |words| ==> AllLetters(words[k])
    requires forall k :: 0 <= k < |seps| ==> !IsLetter(seps[k])
    ensures PascalCase(Joined(words, seps, i)) == Chunks(words[i..])
    decreases |words| - i
  {
    if i == |words| - 1 {
      PascalCaseOfWord(words[i]);
      assert words[i..] == [words[i]];
      assert Chunks([words[i]]) == Chunk(words[i]) + Chunks([]);
    } else {
      PascalCaseOfJoined(words, seps, i + 1);
      PascalCaseAfterWord(words[i], seps[i], Joined(words, seps, i + 1));
      assert words[i..][1..] == words[i + 1..];
    }
  }

  /** Regrouping a concatenation, used when chunks are folded one at a time. */
  lemma Associate(p: string, q: string, r: string)
    ensures p + (q + r) == p + q + r
  {
  }

  lemma ChunksCons(w: string, ws: seq<string>)
    ensures Chunks([w] + ws) == Chunk(w) + Chunks(ws)
  {
    assert ([w] + ws)[1..] == ws;
  }

  lemma ChunksOfThree(a: string, b: string, c: string)
    ensures Chunks([a, b, c]) == Chunk(a) + Chunk(b) + Chunk(c)
  {
    ChunksCons(c, []);
    ChunksCons(b, [c]);
    ChunksCons(a, [b, c]);
    Associate(Chunk(a), Chunk(b), Chunk(c));
  }

  lemma ChunksOfFour(a: string, b: string, c: string, d: string)
    ensures Chunks([a, b, c, d]) == Chunk(a) + Chunk(b) + Chunk(c) + Chunk(d)
  {
    assert [a, b, c, d][1..] == [b, c, d];
    ChunksOfThree(b, c, d);
    Associate(Chunk(a), Chunk(b) + Chunk(c), Chunk(d));
    Associate(Chunk(a), Chunk(b), Chunk(c));
  }

  /** The whole input is words of letters joined by characters that are not letters. */
  lemma PascalCaseOfWords(s: string, words: seq<string>, seps: string)
    requires |seps| + 1 == |words| && s == Joined(words, seps, 0)
    requires forall k :: 0 <= k < |words| ==> AllLetters(words[k])
    requires forall k :: 0 <= k < |seps| ==> !IsLetter(seps[k])
    ensures PascalCase(s) == Chunks(words)
  {
    PascalCaseOfJoined(words, seps, 0);
    assert words[0..] == words;
  }

  /** `FOO_BAR_BIZ_BAZ`: each all-upper-case segment keeps only its first capital. */
  lemma ExampleUpperSnake()
    ensures PascalCase("FOO_BAR_BIZ_BAZ") == "FooBarBizBaz"
  {
    PascalCaseOfWords("FOO_BAR_BIZ_BAZ", ["FOO", "BAR", "BIZ", "BAZ"], "___");
    ChunksOfFour("FOO", "BAR", "BIZ", "BAZ");
    UpperSnakeChunks();
  }

  lemma UpperSnakeChunks()
    ensures Chunk("FOO") + Chunk("BAR") + Chunk("BIZ") + Chunk("BAZ") == "FooBarBizBaz"
  {
    assert Chunk("FOO") == "Foo";
    assert Chunk("BAR") == "Bar";
    assert Chunk("BIZ") == "Biz";
    assert Chunk("BAZ") == "Baz";
  }

  /** `foo-bar*Biz_baz`: the `*` acts as a separator. */
  lemma ExampleMixedSeparators()
    ensures PascalCase("foo-bar*Biz_baz") == "FooBarBizBaz"
  {
    PascalCaseOfWords("foo-bar*Biz_baz", ["foo", "bar", "Biz", "baz"], "-*_");
    ChunksOfFour("foo", "bar", "Biz", "baz");
    MixedSeparatorsChunks();
  }

  lemma MixedSeparatorsChunks()
    ensures Chunk("foo") + Chunk("bar") + Chunk("Biz") + Chunk("baz") == "FooBarBizBaz"
  {
    assert Chunk("foo") + Chunk("bar") == "FooBar";
    assert Chunk("Biz") + Chunk("baz") == "BizBaz";
  }

  /** `FooBarBiz--baz`: the empty segment between the dashes contributes nothing. */
  lemma ExampleDoubleDash()
    ensures PascalCase("FooBarBiz--baz") == "FooBarBizBaz"
  {
    PascalCaseOfWords("FooBarBiz--baz", ["FooBarBiz", "", "baz"], "--");
    ChunksOfThree("FooBarBiz", "", "baz");
    DoubleDashChunks();
  }

  lemma DoubleDashChunks()
    ensures Chunk("FooBarBiz") + Chunk("") + Chunk("baz") == "FooBarBizBaz"
  {
    assert Chunk("FooBarBiz") == "FooBarBiz" by { ChunkOfMixed("FooBarBiz", 1); }
    assert Chunk("baz") == "Baz";
  }

  /** `fooBar+biz$baz`: inner capitals of a mixed-case segment stay. */
  lemma ExampleCamel()
    ensures PascalCase("fooBar+biz$baz") == "FooBarBizBaz"
  {
    PascalCaseOfWords("fooBar+biz$baz", ["fooBar", "biz", "baz"], "+$");
    ChunksOfThree("fooBar", "biz", "baz");
    CamelChunks();
  }

  lemma CamelChunks()
    ensures Chunk("fooBar") + Chunk("biz") + Chunk("baz") == "FooBarBizBaz"
  {
    assert Chunk("fooBar") == "FooBar";
    assert Chunk("biz") == "Biz";
    assert Chunk("baz") == "Baz";
  }
}

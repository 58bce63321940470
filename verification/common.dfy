/**
 * src/Common.js: its `pascalCase` is a second copy of the one in
 * src/Utils.js, so both are the one definition in `Casing`.
 */
module Common {
  import Casing

  /** `pascalCase(value)` */
  function PascalCase(value: string): (r: string)
    ensures Casing.AllLetters(r)
    ensures Casing.Lower(r) == Casing.Lower(Casing.Letters(value))
  {
    Casing.PascalCaseKeepsLetters(value);
    Casing.PascalCase(value)
  }

  /** The unit test's four spellings all give `FooBarBizBaz`. */
  lemma TestExamples()
    ensures PascalCase("FOO_BAR_BIZ_BAZ") == "FooBarBizBaz"
    ensures PascalCase("foo-bar*Biz_baz") == "FooBarBizBaz"
    ensures PascalCase("FooBarBiz--baz") == "FooBarBizBaz"
    ensures PascalCase("fooBar+biz$baz") == "FooBarBizBaz"
  {
    Casing.ExampleUpperSnake();
    Casing.ExampleMixedSeparators();
    Casing.ExampleDoubleDash();
    Casing.ExampleCamel();
  }
}

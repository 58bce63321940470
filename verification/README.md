# s3-is-not-a-db, modelled in Dafny

"S3 is NOT a DB" is a small JavaScript library that uses an S3 bucket as a
record store. This project models its core and proves properties about it:

- the record classes `Model` and `BucketModel`, which form a tree of record types;
- `BucketPrefix`, which derives the key namespace (`foo/bar/biz/baz`) from a record's ancestors;
- the helpers `compareArrays`, `genRandomStr` and `pascalCase`;
- the error catalog with `throwError`;
- the key validators and guarded object operations of the S3 `Client`.

## Modules

| file | module | models |
|---|---|---|
| wrappers.dfy | `Wrappers` | `Option` (for `null`/`undefined`) and `Result` (a value, or the error the call throws) |
| js_values.dfy | `JsValues` | the JavaScript values the record setters can receive |
| records.dfy | `Records` | the state and setters shared by both record classes, and well-formedness of a parent chain |
| model.dfy | `Model` | src/Model.js, and the four-model chain its unit test builds |
| bucket_model.dfy | `BucketModel` | src/bucket/Model.js |
| prefix.dfy | `Prefix` | src/bucket/Prefix.js |
| string_order.dfy | `StringOrder` | the default string order of `Array.prototype.sort`, and a sort |
| utils.dfy | `Utils` | src/Utils.js |
| casing.dfy | `Casing` | the one `pascalCase` algorithm shared by src/Utils.js and src/Common.js |
| common.dfy | `Common` | src/Common.js |
| errors.dfy | `Errors` | src/Errors.js |
| client.dfy | `Client` | src/Client.js |

### How the model works

- **Records live in a heap.** Record instances are mutable objects that refer
  to each other through `parent`. The model keeps them in a heap,
  `map<Id, Record>`, and every setter returns the updated heap. As a result:
  - a child sees a later rename of its parent, as a JavaScript reference would;
  - a child's `index` stays the snapshot taken when its parent was assigned.
- **`params()` can throw.** It walks `index` steps up the parent chain. When the
  walk meets a `null` parent it would throw a TypeError, so `Prefix.Params`
  returns a `Result`.
- **Well-formed chains.** `Records.WellFormed` says a chain is consistent. On a
  well-formed chain the walk equals the reference list `Prefix.Lineage`. A
  reparented ancestor can break well-formedness, and then the outcome depends
  on the stale index:
  - an index that is too large walks past the root and throws
    (`Prefix.StaleIndexMakesParamsThrow`);
  - an index that is too small stops early and returns a truncated list that
    leaves out the real root (`Prefix.TooSmallIndexTruncates`).
- **The S3 bucket is a map.** Each `Client` operation is a pure function of the
  store: an abstract `map` from keys to stored objects. An operation that
  fails returns no new store, so the bucket is left as it was.
- **Randomness is an input.** `genRandomStr` takes the random draws as a parameter.
- **Serialisation is a parameter.** `rename` serialises with `JSON.stringify`,
  which the model takes as an `encode` function.

### Notes on the code

- **Actions are stubs.** The methods of src/bucket/Actions.js return constant
  strings. The only trace of locking in the code is the `OBJECT_LOCK_EXISTS`
  message template.
- **Rename order.** `rename` fetches the old object, deletes it, then writes
  the new one (src/Client.js:220-225).
- **Rename errors.** A new key that is taken or invalid gives
  `Invalid Bucket Prefix (new): <key>` (src/Client.js:215-218).
- **The `INVALID_MODEL_FIELDS` test.** test/unit/Errors.js expects the message
  `Invalid Model fields 'foo <> bar' in 'biz'` for this code. The table in
  src/Errors.js has no such code, so `throwError` returns `Invalid message code`.
  `Errors.UnknownCodeExamples` proves that outcome.

## Model

| member | source | states |
|---|---|---|
| Records.SetName | src/Model.js:54-58 | A name is accepted only if it is a non-empty string of ASCII letters, digits, `-` and `_`; it then replaces the name. Any other value leaves the record unchanged. Class, parent, fields and index are never touched. |
| Records.SetFields | src/Model.js:67-71 | An array whose elements are all strings becomes the fields, element by element and in order. Anything else leaves the record unchanged. |
| Records.Create | src/Model.js:21-27 | The constructor stores the name by plain assignment, so even a name the setter would refuse is kept. Parent and fields are `null` and the index is 0. |
| Records.New | src/Model.js:21-27 | Construction adds exactly one instance under a fresh identity: the record of the given class, with the given name, no parent, no fields and index 0. Every other instance is unchanged. |
| Records.SetParent | src/Model.js:60-65 | Only an instance of the same class is accepted. The new index is the parent's index plus one, read at assignment time. Any other value leaves the heap unchanged. |
| Records.NameValidatorIsPattern | src/Model.js:84-86 | `isValidName` accepts exactly the strings that `/^[a-z0-9-_]+$/i` matches, read as a recursive `+` match. The empty string is refused. A valid name never contains `/`. |
| Records.ParentValidatorExclusive | src/Model.js:99-101 | `isValidParent` is `instanceof`: a non-instance is refused by both classes, and an instance is accepted by exactly one of them. |
| Records.FieldsValidatorIsEvery | src/Model.js:114-116 | `isValidFields` behaves as `Array.isArray` plus `every`: the empty array passes, `null` and `undefined` fail, and two arrays joined pass exactly when both pass. |
| Records.AttributeSettersKeepWellFormed | src/Model.js:54-71 | The name and fields setters keep every parent chain of the heap well formed. |
| Records.NewKeepsWellFormed | src/Model.js:21-27 | Constructing an instance keeps every chain well formed, the new root's included. |
| Records.SetParentKeepsWellFormed | src/Model.js:60-65 | Giving a childless instance a parent keeps every chain well formed. |
| Model.New | src/Model.js:21-27 | `new Model(name)` adds one `Model` record with that name, no parent, no fields and index 0. Nothing else changes. |
| Model.SetName | src/Model.js:54-58 | A valid name replaces the name. An invalid one leaves the heap unchanged. No other instance changes. |
| Model.SetParent | src/Model.js:60-65 | A `Model` instance becomes the parent, and the index becomes its index plus one. Nothing else about the record changes: class, name and fields are kept. Any other value changes nothing. |
| Model.SetFields | src/Model.js:67-71 | An all-string array becomes the fields. Anything else changes nothing. |
| Model.AddModel | test/unit/Model.js:46-60 | One step of the test script adds exactly one record, and nothing else changes. The steps are `new Model(name)`, setting the parent, and setting the given field names. The record has the given name and fields. When the value is a `Model`, the parent is that value and the index is its index plus one. Otherwise there is no parent and the index is 0. |
| Model.TestChain | test/unit/Model.js:45-60 | The script of four steps, each given the previous model as parent, leaves the four-record chain: parents none, 0, 1, 2, indices 0 to 3, and each model's own names and fields. |
| Model.TestChainIndices | test/unit/Model.js:62-74 | For any four models the script gives indices 0, 1, 2 and 3. Each model is the parent of the next, names and fields are as assigned, and every chain is well formed. |
| Model.TestChainExample | test/unit/Model.js:45-74 | With the test's own models, `Foo` to `Baz` get indices 0 to 3 and keep their lower-case field names (`foo1`, … `baz3`). |
| Model.ReparentedChain | src/Model.js:60-65 | Moving the third model under the first changes only that model's record: its parent becomes 0 and its index becomes 1. |
| Model.StaleIndexAfterReparenting | src/Model.js:60-65 | After that move the fourth model keeps index 3, so its chain is no longer well formed. The index is a snapshot. |
| Model.RootMovedUnderNewModel | src/Model.js:21-65 | Constructing a fifth model and making it the parent of the chain's root changes only the root's record: its parent becomes the new model and its index becomes 1. |
| BucketModel.New | src/bucket/Model.js:21-27 | `new BucketModel(name)` adds one `BucketModel` record with no parent and index 0. |
| BucketModel.SetName | src/bucket/Model.js:54-58 | This setter accepts the same names as `Model`'s, and has the same effect. |
| BucketModel.SetParent | src/bucket/Model.js:60-65 | Only a `BucketModel` is accepted as parent: it becomes the parent, the index becomes its index plus one, and nothing else about the record changes. A `Model` instance is refused and the heap is unchanged. |
| BucketModel.SetFields | src/bucket/Model.js:67-71 | An all-string array becomes the fields. Anything else changes nothing. |
| Prefix.Reverse | src/bucket/Prefix.js:74 | `reverse()` keeps the length and puts element `i` at position `n - 1 - i`. |
| Prefix.Climb | src/bucket/Prefix.js:68-72 | A walk of `n` steps that succeeds collects `n` names, the first one the starting model's name. Starting from `null`, it succeeds only when no step is taken. |
| Prefix.Params | src/bucket/Prefix.js:62-75 | When `params()` succeeds it returns `index + 1` names, the last one the record's own name. A record of index 0 gives exactly its own name. |
| Prefix.Lineage | src/bucket/Prefix.js:53-61 | The reference meaning of the parameters: `index + 1` names, ancestors first, ending with the record's own name. |
| Prefix.Root | src/bucket/Prefix.js:27-35 | A well-formed chain has a root with no parent and index 0, and its name comes first in the lineage. |
| Prefix.ClimbIsReversedLineage | src/bucket/Prefix.js:68-72 | Walking `index + 1` steps up from a well-formed record collects its lineage leaf first. |
| Prefix.ParamsIsLineage | src/bucket/Prefix.js:62-75 | On a well-formed chain `params()` succeeds and equals the lineage: `index + 1` names, root first. |
| Prefix.ParamsOfChild | src/bucket/Prefix.js:62-75 | A child's parameters are its parent's parameters followed by its own name. |
| Prefix.GetParam | src/bucket/Prefix.js:93-95 | `getParam(pos)` gives the parameter at 1-based position `pos` (1 when omitted), `undefined` outside the list, and throws exactly when `params()` throws. |
| Prefix.RootParam | src/bucket/Prefix.js:36-38 | `rootParam()` throws exactly when `params()` throws, and otherwise is the first parameter. |
| Prefix.LastParam | src/bucket/Prefix.js:49-51 | `lastParam()` reads the own name directly, so it never throws. It is the last parameter whenever `params()` succeeds. |
| Prefix.Path | src/bucket/Prefix.js:106-108 | `path()` throws exactly when `params()` throws. Otherwise it ends with the record's own name, and a record without ancestors has its own name as path. |
| Prefix.PathIsJoinedLineage | src/bucket/Prefix.js:106-108 | On a well-formed chain the path is the ancestors' names, root first, joined by `/`. |
| Prefix.RootAndLastParam | src/bucket/Prefix.js:36-51 | On a well-formed chain `rootParam()` is the first parameter, which is the root's name and equals `getParam()` without an argument. `lastParam()` is the last parameter. |
| Prefix.PathOfChild | src/bucket/Prefix.js:106-108 | A child's path is its parent's path, a `/`, then its own name. |
| Prefix.PathSlashCount | src/bucket/Prefix.js:106-108 | When every name on a well-formed chain is valid, the path contains exactly `index` slashes. |
| Prefix.TestChainPrefix | test/unit/bucket/Prefix.js:14-72 | The test constructs four models and links them in order. For any four names the leaf then has four parameters: root the first name, `getParam(2)` the second, `getParam(5)` undefined, `lastParam()` the fourth, and the path the names joined by `/`. |
| Prefix.TestChainPath | test/unit/bucket/Prefix.js:27-72 | With the test's names, the path is `foo/bar/biz/baz`, the root `foo`, the second parameter `bar` and the last `baz`. |
| Prefix.StaleIndexMakesParamsThrow | src/bucket/Prefix.js:62-75 | After the third model of the chain is moved under the first, `params()` and `path()` of the fourth throw: the stale index walks past the root. |
| Prefix.TooSmallIndexTruncates | src/bucket/Prefix.js:62-75 | After the chain's root is put under a new model, the fourth model keeps index 3. Its walk stops at the old root, so `params()` succeeds but leaves out the new model: the chain is not well formed and the path is truncated. |
| StringOrder.Sort | src/Utils.js:26-27 | The sorted array is ordered in the default string order and is a permutation of the input. |
| StringOrder.SortedUnique | src/Utils.js:26-29 | Two sorted permutations of one multiset are equal, so the comparison does not depend on how the sort breaks ties. |
| Utils.CompareArrays | src/Utils.js:24-33 | Non-arrays and arrays of different lengths give `false` and are not sorted. Otherwise the verdict is true exactly when the two arrays hold the same multiset of strings, and both are left sorted as permutations of themselves. |
| Utils.CompareArraysSymmetric | src/Utils.js:24-33 | The verdict does not depend on argument order. |
| Utils.CompareArraysDocExample | src/Utils.js:18-22 | `['foo','bar','biz']` against `['bar','qux','baz']` gives `false`. |
| Utils.AlphabetFacts | src/Utils.js:47-48 | The alphabet has 57 distinct ASCII letters and digits, and leaves out `i`, `l`, `O`, `0` and `1`. |
| Utils.GenRandomStr | src/Utils.js:46-69 | The default length is 32, and `n > 0` gives exactly `n` characters. A non-positive or non-numeric length gives `undefined`. Every character is the alphabet letter that its draw selects. |
| Utils.PascalCase | src/Utils.js:99-114 | The result consists of ASCII letters only, and lower-cased it equals the input's ASCII letters lower-cased: nothing is added, dropped or reordered. |
| Common.PascalCase | src/Common.js:18-33 | The same promise for the copy in Common.js. |
| Common.TestExamples | test/unit/Common.js:13-29 | The four test spellings all give `FooBarBizBaz`. |
| Casing.NonSeparatorsOfSanitized | src/Utils.js:100 | After sanitising, the characters that are not separators are exactly the input's letters. |
| Casing.SplitFacts | src/Utils.js:102 | The segments concatenate to the input minus its separators. When the input holds only letters and separators, every segment is letters only. |
| Casing.ChunkFacts | src/Utils.js:104-111 | A segment keeps its length and lower-cased content. An all-upper-case segment keeps its first capital and lower-cases the rest; any other segment only has its first letter upper-cased. |
| Casing.PascalCaseKeepsLetters | src/Utils.js:99-114 | The result is letters only and equals the input's letters up to case. |
| Casing.PascalCaseAfterWord | src/Utils.js:99-114 | A word of letters followed by any non-letter contributes its chunk; conversion then continues on the rest. |
| Casing.PascalCaseOfWords | src/Utils.js:99-114 | Words of letters joined by non-letters convert to the concatenation of their chunks. |
| Casing.ChunkOfUpper | src/Utils.js:104-107 | An all-upper-case segment becomes its first letter followed by the rest lower-cased. |
| Casing.ChunkOfMixed | src/Utils.js:109-111 | A segment with a lower-case letter only has its first letter upper-cased. |
| Casing.ExampleMixedSeparators | test/unit/Utils.js:28 | `foo-bar*Biz_baz` gives `FooBarBizBaz`. |
| Casing.ExampleUpperSnake | test/unit/Utils.js:29 | `FOO_BAR_BIZ_BAZ` gives `FooBarBizBaz`. |
| Casing.ExampleDoubleDash | test/unit/Utils.js:30 | `FooBarBiz--baz` gives `FooBarBizBaz`. |
| Casing.ExampleCamel | test/unit/Utils.js:31 | `fooBar+biz$baz` gives `FooBarBizBaz`. |
| Errors.FindPlaceholder | src/Errors.js:28 | The pattern `/\%s/i` matches at the first position holding `%s` or `%S`, and at none when there is no such position. |
| Errors.Expand | src/Errors.js:28 | A replacement without `$` is inserted as written. |
| Errors.ReplaceFirst | src/Errors.js:28 | With no placeholder the string is unchanged. Otherwise the text before and after the first placeholder is kept. A `$`-free argument lands exactly where the placeholder was. |
| Errors.ThrowError | src/Errors.js:20-35 | An unknown code gives `Invalid message code`. A known code with plain arguments (no `%`, no `$`) gives the template's pieces interleaved with the arguments in order. |
| Errors.TemplateFilledInOrder | src/Errors.js:24-31 | The replacement loop on a table template equals interleaving its pieces with plain arguments. |
| Errors.SubstituteAssembled | src/Errors.js:27-29 | On a template without stray `%`, the `i`-th plain argument replaces the `i`-th placeholder. A placeholder with no argument stays `%s`. |
| Errors.SubstituteWithoutPlaceholders | src/Errors.js:27-29 | Once no placeholder is left, further arguments change nothing. |
| Errors.ExtraArgumentsIgnored | src/Errors.js:27-29 | Arguments beyond the number of placeholders do not affect the message. |
| Errors.MessagePiecesAssemble | src/Errors.js:3-9 | Each template is its `%`-free pieces joined by `%s`. |
| Errors.FilledWithOne | src/Errors.js:24-31 | A one-placeholder template with one plain argument gives lead + argument + tail. |
| Errors.MatchedTextKeepsTemplate | src/Errors.js:28 | The argument `$&` inserts the matched `%s` again, so the message is the template itself. |
| Errors.DollarPatternExample | src/Errors.js:28 | `OBJECT_LOCK_EXISTS` with `$&` gives `Lock exists for: %s`. |
| Errors.BucketPrefixExample | test/unit/Errors.js:15 | `INVALID_BUCKET_PREFIX` with `foo` gives `Invalid Bucket Prefix: foo`. |
| Errors.ObjectTargetExample | test/unit/Errors.js:17 | `INVALID_OBJECT_TARGET` with `biz` gives `Invalid Object target: biz`. |
| Errors.NameExistsExample | test/unit/Errors.js:18 | `MODEL_NAME_EXISTS` with `baz` gives `Cannot redeclare name 'baz' in Model`. |
| Errors.LockExistsExample | test/unit/Errors.js:19 | `OBJECT_LOCK_EXISTS` with `boz` gives `Lock exists for: boz`. |
| Errors.MessageCodeExample | test/unit/Errors.js:20 | `INVALID_MESSAGE_CODE` with no argument gives `Invalid message code`. |
| Errors.UnknownCodeExamples | src/Errors.js:34 | The empty code, and `INVALID_MODEL_FIELDS` (absent from the table), give `Invalid message code` whatever the arguments. |
| Client.Scan | src/Client.js:279 | A character-class loop accepts exactly when every character from the start position on is in the class. |
| Client.IsValidBucket | src/Client.js:266-268 | A bucket name is valid exactly when it has 3 to 63 characters, all from `[a-z0-9-_.]`. |
| Client.IsValidPrefix | src/Client.js:278-280 | A key is valid exactly when it is non-empty and every character is an ASCII letter (either case), a digit, or one of `` -_!.*()'/ ``. |
| Client.IsValidRegion | src/Client.js:290-292 | A region is valid exactly when it is `us-east-1`, `us-west-1` or `us-west-2`. |
| Client.RegionsDistinct | src/Client.js:291 | The four-entry list names three distinct regions. |
| Client.ValidBucketIsValidPrefix | src/Client.js:266-280 | Every valid bucket name is also a valid key. |
| Client.ValidPrefixIsPlain | src/Client.js:278-280 | A valid key contains neither `%` nor `$`. |
| Client.ValidatorExamples | test/unit/Client.js:19-21 | `s3-is-not-a-db` is a valid bucket and `us-east-1` a valid region. The empty bucket name is invalid. |
| Client.KeyExamples | test/unit/Client.js:72-78 | `/path/to/file.ext` is a valid key and the empty key is not. |
| Client.SetBucket | src/Client.js:53-57 | A valid name replaces the bucket and an invalid one is ignored. The region is untouched. The invariant that fields hold only valid values is kept. |
| Client.SetRegion | src/Client.js:59-63 | A listed region replaces the region and any other value is ignored. The bucket is untouched. The same invariant is kept. |
| Client.New | src/Client.js:23-35 | The constructor goes through both setters, so a field is set exactly when its argument is valid, and the invariant holds. |
| Client.SettersIdempotent | src/Client.js:53-63 | Setting the same value twice is the same as setting it once. An invalid value changes nothing. |
| Client.ClientExample | test/unit/Client.js:19-40 | The test's client keeps both constructor arguments, and re-assigning them changes nothing. |
| Client.PrefixError | src/Client.js:124 | The rejection message is exactly `Invalid Bucket Prefix: ` followed by the key, whatever characters the key holds. |
| Client.PrefixErrorMatchesCatalog | src/Client.js:124 | For a plain key, the message the client writes out equals the catalog's `INVALID_BUCKET_PREFIX` message. |
| Client.ValidKeyErrorMatchesCatalog | src/Client.js:124 | For every valid key, the two messages agree. |
| Client.Exists | src/Client.js:239-255 | `exists` throws exactly for an invalid key. Otherwise it reports whether the store holds the key. |
| Client.Fetch | src/Client.js:138-156 | `fetch` succeeds exactly for a valid, present key and returns the stored body. Otherwise it throws the prefix message. |
| Client.Delete | src/Client.js:108-125 | `delete` succeeds exactly for a valid, present key and removes that key alone. Otherwise it throws the prefix message. |
| Client.ContentType | src/Client.js:181 | A content type is stored only when it is given and non-empty. |
| Client.Write | src/Client.js:175-194 | `write` succeeds exactly for a valid key. It stores the data and content type under that key and changes no other key; an invalid key throws the prefix message. |
| Client.RenameError | src/Client.js:211-217 | The `rename` messages are exactly `Invalid Bucket Prefix (`, the side, `): ` and the key, in that order. |
| Client.Rename | src/Client.js:210-226 | The `(old)` error is thrown exactly when the old key is invalid or absent. Otherwise the `(new)` error is thrown exactly when the new key is invalid or taken. On success the old key is gone, the new key holds the encoded body as `application/json`, and nothing else changes. |
| Client.OldAndNewDiffer | src/Client.js:211-217 | The `(old)` and `(new)` messages never coincide. |
| Client.List | src/Client.js:77-95 | `list` throws exactly for an empty prefix. Otherwise it returns the keys that start with the prefix. |
| Client.FetchAfterWrite | src/Client.js:175-194 | After writing to a valid key, `fetch` returns the data and `exists` reports true. |
| Client.DeleteAfterWrite | src/Client.js:108-125 | Writing an absent key and then deleting it gives back the original store. |
| Client.FetchAfterDelete | src/Client.js:108-156 | After a delete, `exists` reports false and `fetch` throws. |
| Client.WriteIdempotent | src/Client.js:175-194 | Writing the same object twice is the same as writing it once. |
| Client.RenameKeepsCount | src/Client.js:220-225 | A successful rename keeps the number of objects. |
| Client.FetchAfterRename | src/Client.js:220-225 | After a rename, `fetch` of the new key gives the encoded old body, and the old key no longer exists. |
| Client.RenameOntoItselfFails | src/Client.js:210-218 | Renaming a key onto itself always fails. |
| Client.ListAfterWriteAndDelete | src/Client.js:77-95 | A written key appears in every listing whose prefix it starts with. A deleted key appears in none. |

## Left out

- Records.SetName: takes a string, or a value that is refused. The source
  tests its pattern on `String(value)`, so a number, or a one-element array
  such as `['foo']`, would be stored as a name; that coercion is not modelled.
  The same holds for `Model.SetName` and `BucketModel.SetName`.
- Records.SetFields: stores a copy of the strings. The source stores the
  caller's array itself (test/unit/Model.js:41 checks identity). A later change
  to that array therefore shows through the record, even one that adds a
  non-string. Arrays are values here, so such aliasing is not modelled.
- Records.Create: takes the name as a string. The source also accepts
  `new Model()` or `new Model(5)` and stores whatever it is given; such names
  are not modelled.
- Prefix.GetParam: integer positions only, or none for the default. The source
  computes `params()[pos - 1]` on any value, so `getParam('2')` gives the second
  parameter, while `getParam(1.5)` and `getParam(null)` give `undefined`.
  Fractional, string and `null` positions are not modelled.
- Utils.CompareArrays: orders strings by Unicode code point. JavaScript compares
  UTF-16 code units, which differs only for characters outside the Basic
  Multilingual Plane. Arrays holding non-strings are not modelled.
- Utils.GenRandomStr: the Durstenfeld shuffle and `Math.random` are replaced
  by `picks`, the alphabet positions of the drawn characters. A random
  permutation followed by random draws can produce any such sequence. A
  fractional length, and a numeric string such as `'5'`, are not modelled.
  `genRandomStr(Infinity)` never returns in the source; the model takes a
  finite count and a finite list of draws, so it cannot express that.
- Errors.ThrowError: the closed form is stated only for plain arguments.
  - An argument that contains `%s` can become the target of the next replacement.
  - The `$` patterns give other text (`Errors.DollarPatternExample` shows one).
  - The function models both cases, but no closed form is proved for them.
  - Non-string arguments, which the source coerces with `String`, are not modelled.
- Client.List: returns the set of matching keys rather than an array. It does not model:
  - the order of S3's listing;
  - its 1000-key page limit;
  - the response shape (the source reads the keys from a `Body.Contents` field of the response);
  - a non-string prefix: the source only tests that the prefix is truthy, so
    such a prefix would be passed on to S3.
- Client.Rename: keys are strings only (see `Client.Exists`). It is treated
  as one step. The source deletes before it writes, so a failure between the
  two would lose the object; I/O failures are not modelled. `JSON.stringify`
  is the `encode` parameter.
- Client.SetBucket: takes strings only. The source reads `value.length`,
  which throws a TypeError for `undefined` or `null`.
- Client.SetRegion: takes strings only. The source's `includes` refuses any
  other value, which the model would treat the same way.
- Client.Exists: the key is a string. For `undefined` or `null` the source's
  `isValidPrefix` reads `value.length` and throws a TypeError, not the prefix
  message. The same TypeError is not modelled for `Client.Fetch`,
  `Client.Delete`, `Client.Write` or `Client.Rename`.
- Client.Fetch: keys are strings only (see `Client.Exists`).
- Client.Delete: keys are strings only (see `Client.Exists`).
- Client.Write: keys are strings only (see `Client.Exists`).
- The AWS SDK is not part of this model: the S3 handle, promises, `console.warn`,
  transport and authorisation errors, and `headObject` errors becoming `false`.
  The operations also do not depend on whether a bucket or region has been set.
- `isObject` (src/Utils.js) is JavaScript type introspection and is not modelled.
- src/Bucket.js is not part of this model. It registers one `Actions` instance
  per model name, and has no behaviour beyond that registration.
- src/bucket/Actions.js is not part of this model, because its methods are
  stubs that return constant strings.
- index.d.ts and the example/ directory are not part of this model (type
  declarations and usage samples).

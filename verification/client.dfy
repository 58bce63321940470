/**
 * src/Client.js: the key validators, the bucket and region setters, and the
 * guard and effect rules of the object operations. The S3 bucket the client
 * talks to is an abstract map from object keys to stored objects; every
 * operation is a pure function from the store before the call to its
 * outcome, so an operation that fails returns no store and leaves the
 * bucket as it was.
 */
module Client {
  import opened Wrappers
  import Errors

  // ---------------------------------------------------------------------------
  // Validators
  // ---------------------------------------------------------------------------

  /** Every character of `s` from position `i` on belongs to the class. */
  function Scan(s: string, i: nat, inClass: char -> bool): (ok: bool)
    requires i <= |s|
    ensures ok <==> forall k :: i <= k < |s| ==> inClass(s[k])
    decreases |s| - i
  {
    i == |s| || (inClass(s[i]) && Scan(s, i + 1, inClass))
  }

  predicate IsLower(c: char) { 'a' <= c <= 'z' }
  predicate IsUpper(c: char) { 'A' <= c <= 'Z' }
  predicate IsDigit(c: char) { '0' <= c <= '9' }

  /** The class `[a-z0-9-_.]` of bucket names. */
  predicate IsBucketChar(c: char) {
    IsLower(c) || IsDigit(c) || c == '-' || c == '_' || c == '.'
  }

  /** The class `[a-z0-9-_!.*()'/]` of object keys, matched case-insensitively over ASCII. */
  predicate IsPrefixChar(c: char) {
    IsLower(c) || IsUpper(c) || IsDigit(c) || c in "-_!.*()'/"
  }

  /** `isValidBucket(value)`: 3 to 63 characters, all from the bucket class. */
  function IsValidBucket(value: string): (ok: bool)
    ensures ok <==> 3 <= |value| <= 63 && forall k :: 0 <= k < |value| ==> IsBucketChar(value[k])
  {
    |value| > 0 && 3 <= |value| <= 63 && Scan(value, 0, IsBucketChar)
  }

  /** `isValidPrefix(value)`: a non-empty key whose every character is from the key class. */
  function IsValidPrefix(value: string): (ok: bool)
    ensures ok <==> |value| > 0 && forall k :: 0 <= k < |value| ==> IsPrefixChar(value[k])
  {
    |value| > 0 && Scan(value, 0, IsPrefixChar)
  }

  /** The region list of `isValidRegion`, with its repeated first entry. */
  const Regions: seq<string> := ["us-east-1", "us-east-1", "us-west-1", "us-west-2"]

  /** `isValidRegion(value)`: `includes` on the list, so exactly the three distinct regions pass. */
  function IsValidRegion(value: string): (ok: bool)
    ensures ok <==> value == "us-east-1" || value == "us-west-1" || value == "us-west-2"
  {
    assert Regions == ["us-east-1", "us-east-1", "us-west-1", "us-west-2"];
    value in Regions
  }

  /** The repeated entry does not add a region: the list names three distinct regions. */
  lemma RegionsDistinct()
    ensures |set r | r in Regions| == 3
  {
    assert "us-east-1"[3] != "us-west-1"[3];
    assert "us-west-1"[8] != "us-west-2"[8];
    assert "us-east-1"[8] != "us-west-2"[8];
    forall r ensures r in Regions <==> r in {"us-east-1", "us-west-1", "us-west-2"} {
      assert IsValidRegion(r) <==> r in Regions;
    }
    assert (set r | r in Regions) == {"us-east-1", "us-west-1", "us-west-2"};
  }

  /** Every valid bucket name is also a valid object key: the bucket class is part of the key class. */
  lemma ValidBucketIsValidPrefix(value: string)
    requires IsValidBucket(value)
    ensures IsValidPrefix(value)
  {
  }

  /** A valid key holds neither `%` nor `$`, so it passes through an error template unchanged. */
  lemma ValidPrefixIsPlain(value: string)
    requires IsValidPrefix(value)
    ensures Errors.Plain(value)
  {
    assert forall k :: 0 <= k < |value| ==> value[k] != '%' && value[k] != '$';
  }

  /** The bucket and region of the client tests are accepted, the empty name is not. */
  lemma ValidatorExamples()
    ensures IsValidBucket("s3-is-not-a-db") && IsValidRegion("us-east-1")
    ensures !IsValidBucket("")
  {
  }

  /** The key of the client tests is accepted, the empty key is not. */
  lemma KeyExamples()
    ensures IsValidPrefix("/path/to/file.ext") && !IsValidPrefix("")
  {
    var key := "/path/to/file.ext";
    assert forall k :: 0 <= k < |key| ==> IsPrefixChar(key[k]);
  }

  // ---------------------------------------------------------------------------
  // The client
  // ---------------------------------------------------------------------------

  /** The private bucket and region fields; `None` while no valid value was ever set. */
  datatype Client = Client(bucket: Option<string>, region: Option<string>)

  /** The fields only ever hold values their validator accepts. */
  predicate ClientOk(c: Client) {
    && (c.bucket.Some? ==> IsValidBucket(c.bucket.value))
    && (c.region.Some? ==> IsValidRegion(c.region.value))
  }

  /** `client.bucket = value`: an invalid name is ignored. */
  function SetBucket(c: Client, value: string): (c': Client)
    ensures ClientOk(c) ==> ClientOk(c')
    ensures c'.region == c.region
    ensures c'.bucket == (if IsValidBucket(value) then Some(value) else c.bucket)
  {
    if IsValidBucket(value) then c.(bucket := Some(value)) else c
  }

  /** `client.region = value`: a region outside the list is ignored. */
  function SetRegion(c: Client, value: string): (c': Client)
    ensures ClientOk(c) ==> ClientOk(c')
    ensures c'.bucket == c.bucket
    ensures c'.region == (if IsValidRegion(value) then Some(value) else c.region)
  {
    if IsValidRegion(value) then c.(region := Some(value)) else c
  }

  /** `new Client(bucket, region)`: both go through the setters, so an invalid argument leaves its field unset. */
  function New(bucket: string, region: string): (c: Client)
    ensures ClientOk(c)
    ensures c.bucket.Some? <==> IsValidBucket(bucket)
    ensures c.region.Some? <==> IsValidRegion(region)
    ensures c.bucket.Some? ==> c.bucket.value == bucket
    ensures c.region.Some? ==> c.region.value == region
  {
    SetRegion(SetBucket(Client(None, None), bucket), region)
  }

  /** Setting the value a field already holds, or an invalid one, changes nothing. */
  lemma {:induction false} SettersIdempotent(c: Client, bucket: string, region: string)
    ensures SetBucket(SetBucket(c, bucket), bucket) == SetBucket(c, bucket)
    ensures SetRegion(SetRegion(c, region), region) == SetRegion(c, region)
    ensures !IsValidBucket(bucket) ==> SetBucket(c, bucket) == c
    ensures !IsValidRegion(region) ==> SetRegion(c, region) == c
  {
  }

  /** The client of the tests keeps both constructor arguments, and re-assigning them keeps them. */
  lemma ClientExample()
    ensures New("s3-is-not-a-db", "us-east-1") == Client(Some("s3-is-not-a-db"), Some("us-east-1"))
    ensures SetRegion(SetBucket(New("s3-is-not-a-db", "us-east-1"), "s3-is-not-a-db"), "us-east-1")
      == New("s3-is-not-a-db", "us-east-1")
  {
    ValidatorExamples();
  }

  // ---------------------------------------------------------------------------
  // The store
  // ---------------------------------------------------------------------------

  /** An object as `putObject` stores it: the body and the content type, when one was given. */
  datatype StoredObject<V> = StoredObject(body: V, contentType: Option<string>)

  /** The objects of the bucket, by key. */
  type Store<V> = map<string, StoredObject<V>>

  /** The message every operation throws for a rejected key. */
  function PrefixError(value: string): (e: Errors.Error)
    ensures |e.message| == |"Invalid Bucket Prefix: "| + |value|
    ensures e.message[..|"Invalid Bucket Prefix: "|] == "Invalid Bucket Prefix: "
    ensures e.message[|"Invalid Bucket Prefix: "|..] == value
  {
    Errors.Error("Invalid Bucket Prefix: " + value)
  }

  /** The message written out in the client is the catalog's `INVALID_BUCKET_PREFIX` message. */
  lemma PrefixErrorMatchesCatalog(value: string)
    requires Errors.Plain(value)
    ensures PrefixError(value) == Errors.ThrowError("INVALID_BUCKET_PREFIX", [value])
  {
    Errors.BucketPrefixTemplate();
    Errors.InterleaveOne("Invalid Bucket Prefix: ", "", value);
  }

  /** For a valid key the two messages always agree. */
  lemma ValidKeyErrorMatchesCatalog(value: string)
    requires IsValidPrefix(value)
    ensures PrefixError(value) == Errors.ThrowError("INVALID_BUCKET_PREFIX", [value])
  {
    ValidPrefixIsPlain(value);
    PrefixErrorMatchesCatalog(value);
  }

  /** `exists(value)`: an invalid key throws; otherwise whether the store holds the key. */
  function Exists<V>(store: Store<V>, value: string): (r: Result<bool, Errors.Error>)
    ensures r.Ok? <==> IsValidPrefix(value)
    ensures r.Ok? ==> (r.value <==> value in store)
    ensures r.Err? ==> r.error == PrefixError(value)
  {
    if IsValidPrefix(value) then Ok(value in store) else Err(PrefixError(value))
  }

  /** `fetch(value)`: the body stored under a valid, present key. */
  function Fetch<V>(store: Store<V>, value: string): (r: Result<V, Errors.Error>)
    ensures r.Ok? <==> IsValidPrefix(value) && value in store
    ensures r.Ok? ==> r.value == store[value].body
    ensures r.Err? ==> r.error == PrefixError(value)
  {
    if IsValidPrefix(value) && Exists(store, value).value then Ok(store[value].body)
    else Err(PrefixError(value))
  }

  /** `delete(value)`: removes a valid, present key and nothing else. */
  function Delete<V>(store: Store<V>, value: string): (r: Result<Store<V>, Errors.Error>)
    ensures r.Ok? <==> IsValidPrefix(value) && value in store
    ensures r.Ok? ==> r.value.Keys == store.Keys - {value}
    ensures r.Ok? ==> forall k :: k in r.value ==> r.value[k] == store[k]
    ensures r.Err? ==> r.error == PrefixError(value)
  {
    if IsValidPrefix(value) && Exists(store, value).value then Ok(store - {value})
    else Err(PrefixError(value))
  }

  /** The content type `putObject` receives: an absent or empty one is left out. */
  function ContentType(contentType: Option<string>): (r: Option<string>)
    ensures r.Some? <==> contentType.Some? && contentType.value != ""
    ensures r.Some? ==> r == contentType
  {
    if contentType.Some? && contentType.value != "" then contentType else None
  }

  /** `write(value, data, contentType)`: stores `data` under a valid key, whether or not it was present. */
  function Write<V>(store: Store<V>, value: string, data: V, contentType: Option<string>): (r: Result<Store<V>, Errors.Error>)
    ensures r.Ok? <==> IsValidPrefix(value)
    ensures r.Ok? ==> r.value.Keys == store.Keys + {value}
    ensures r.Ok? ==> r.value[value].body == data
    ensures r.Ok? ==> r.value[value].contentType == ContentType(contentType)
    ensures r.Ok? ==> forall k :: k in store && k != value ==> r.value[k] == store[k]
    ensures r.Err? ==> r.error == PrefixError(value)
  {
    if IsValidPrefix(value) then Ok(store[value := StoredObject(data, ContentType(contentType))])
    else Err(PrefixError(value))
  }

  /** The two messages of `rename`, which name the side that was rejected. */
  function RenameError(side: string, value: string): (e: Errors.Error)
    ensures |e.message| == |"Invalid Bucket Prefix ("| + |side| + |"): "| + |value|
    ensures e.message[..|"Invalid Bucket Prefix ("|] == "Invalid Bucket Prefix ("
    ensures e.message[|"Invalid Bucket Prefix ("|..|"Invalid Bucket Prefix ("| + |side|] == side
    ensures e.message[|"Invalid Bucket Prefix ("| + |side|..|"Invalid Bucket Prefix ("| + |side| + |"): "|] == "): "
    ensures e.message[|e.message| - |value|..] == value
  {
    Errors.Error("Invalid Bucket Prefix (" + side + "): " + value)
  }

  /**
   * `rename(oldValue, newValue)`: checks that the old key is valid and
   * present and the new key valid and free, then fetches, deletes and
   * writes. `encode` is the serialisation applied to the fetched body.
   */
  function Rename<V>(store: Store<V>, oldValue: string, newValue: string, encode: V -> V): (r: Result<Store<V>, Errors.Error>)
    ensures r.Err? && r.error == RenameError("old", oldValue) <==> !IsValidPrefix(oldValue) || oldValue !in store
    ensures r.Err? && r.error != RenameError("old", oldValue) <==>
      IsValidPrefix(oldValue) && oldValue in store && (!IsValidPrefix(newValue) || newValue in store)
    ensures r.Err? && r.error != RenameError("old", oldValue) ==> r.error == RenameError("new", newValue)
    ensures r.Ok? ==> oldValue !in r.value && newValue in r.value
    ensures r.Ok? ==> r.value[newValue] == StoredObject(encode(store[oldValue].body), Some("application/json"))
    ensures r.Ok? ==> forall k :: k != oldValue && k != newValue ==> (k in r.value <==> k in store)
    ensures r.Ok? ==> forall k :: k in store && k != oldValue && k != newValue ==> r.value[k] == store[k]
  {
    if !IsValidPrefix(oldValue) || !Exists(store, oldValue).value then
      Err(RenameError("old", oldValue))
    else if !IsValidPrefix(newValue) || Exists(store, newValue).value then
      assert RenameError("new", newValue) != RenameError("old", oldValue) by {
        OldAndNewDiffer(oldValue, newValue);
      }
      Err(RenameError("new", newValue))
    else
      var data := Fetch(store, oldValue).value;
      var rest := Delete(store, oldValue).value;
      Write(rest, newValue, encode(data), Some("application/json"))
  }

  /** The two `rename` messages differ whatever the keys: they differ at the side name. */
  lemma OldAndNewDiffer(oldValue: string, newValue: string)
    ensures RenameError("new", newValue) != RenameError("old", oldValue)
  {
    var lead := "Invalid Bucket Prefix (";
    assert RenameError("new", newValue).message[|lead|] == 'n';
    assert RenameError("old", oldValue).message[|lead|] == 'o';
  }

  /** `list(prefix)`: an empty prefix is rejected; otherwise the keys that start with it. */
  function List<V>(store: Store<V>, prefix: string): (r: Result<set<string>, Errors.Error>)
    ensures r.Err? <==> prefix == ""
    ensures r.Err? ==> r.error == PrefixError(prefix)
    ensures r.Ok? ==> forall k :: k in r.value <==> k in store && prefix <= k
  {
    if prefix != "" then Ok(set k | k in store && prefix <= k) else Err(PrefixError(prefix))
  }

  // ---------------------------------------------------------------------------
  // Properties relating the operations
  // ---------------------------------------------------------------------------

  /** What was written under a valid key is what `fetch` returns and `exists` reports. */
  lemma FetchAfterWrite<V>(store: Store<V>, value: string, data: V, contentType: Option<string>)
    requires IsValidPrefix(value)
    ensures Write(store, value, data, contentType).Ok?
    ensures Fetch(Write(store, value, data, contentType).value, value) == Ok(data)
    ensures Exists(Write(store, value, data, contentType).value, value) == Ok(true)
  {
  }

  /** Writing a key that was absent and deleting it again gives back the original store. */
  lemma DeleteAfterWrite<V>(store: Store<V>, value: string, data: V, contentType: Option<string>)
    requires IsValidPrefix(value) && value !in store
    ensures Write(store, value, data, contentType).Ok?
    ensures Delete(Write(store, value, data, contentType).value, value) == Ok(store)
  {
    var written := Write(store, value, data, contentType).value;
    var deleted := Delete(written, value).value;
    assert deleted.Keys == store.Keys;
    assert forall k :: k in deleted ==> deleted[k] == written[k] == store[k];
    assert deleted == store;
  }

  /** After a delete the key is gone: `exists` says so and `fetch` fails with the prefix message. */
  lemma FetchAfterDelete<V>(store: Store<V>, value: string)
    requires IsValidPrefix(value) && value in store
    ensures Delete(store, value).Ok?
    ensures Exists(Delete(store, value).value, value) == Ok(false)
    ensures Fetch(Delete(store, value).value, value) == Err(PrefixError(value))
  {
  }

  /** Writing the same object twice leaves the store as one write does. */
  lemma WriteIdempotent<V>(store: Store<V>, value: string, data: V, contentType: Option<string>)
    requires IsValidPrefix(value)
    ensures Write(store, value, data, contentType).Ok?
    ensures Write(Write(store, value, data, contentType).value, value, data, contentType)
      == Write(store, value, data, contentType)
  {
    var once := Write(store, value, data, contentType).value;
    var twice := Write(once, value, data, contentType).value;
    assert twice.Keys == once.Keys;
    assert twice[value] == StoredObject(data, ContentType(contentType)) == once[value];
    assert forall k :: k in once && k != value ==> twice[k] == once[k];
    assert twice == once;
  }

  /** A successful rename moves one object: the number of objects is unchanged. */
  lemma {:induction false} RenameKeepsCount<V>(store: Store<V>, oldValue: string, newValue: string, encode: V -> V)
    requires Rename(store, oldValue, newValue, encode).Ok?
    ensures |Rename(store, oldValue, newValue, encode).value| == |store|
  {
    var r := Rename(store, oldValue, newValue, encode).value;
    assert r.Keys == store.Keys - {oldValue} + {newValue};
    assert |store.Keys - {oldValue}| == |store.Keys| - 1;
    assert |r.Keys| == |store.Keys - {oldValue}| + 1;
  }

  /** After a rename the object is found under the new key only, with its body serialised. */
  lemma FetchAfterRename<V>(store: Store<V>, oldValue: string, newValue: string, encode: V -> V)
    requires Rename(store, oldValue, newValue, encode).Ok?
    ensures Fetch(Rename(store, oldValue, newValue, encode).value, newValue) == Ok(encode(store[oldValue].body))
    ensures Exists(Rename(store, oldValue, newValue, encode).value, oldValue) == Ok(false)
  {
  }

  /** Renaming a key onto itself always fails: the new key is taken once the old one exists. */
  lemma RenameOntoItselfFails<V>(store: Store<V>, value: string, encode: V -> V)
    ensures Rename(store, value, value, encode).Err?
  {
  }

  /** A written key shows up in every listing whose prefix it starts with; a deleted key in none. */
  lemma ListAfterWriteAndDelete<V>(store: Store<V>, value: string, data: V, contentType: Option<string>, prefix: string)
    requires IsValidPrefix(value) && prefix != "" && prefix <= value
    ensures Write(store, value, data, contentType).Ok?
    ensures List(Write(store, value, data, contentType).value, prefix).Ok?
    ensures value in List(Write(store, value, data, contentType).value, prefix).value
    ensures value in store ==> value !in List(Delete(store, value).value, prefix).value
  {
  }
}

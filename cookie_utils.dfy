/** The cookie helpers of the framework (el/utils.ts): the numeric-string test
    that decides whether a cookie value is coerced to a number, the signing
    protocol for signed cookies, and the two merge helpers. */
module CookieUtils {
  import opened Text
  import opened Js

  // ---------------------------------------------------------------------
  // isNumericString

  /** `isNumericString(message)`. `toNumber` is `Number(…)` and `numberToString` is
      `Number.prototype.toString`. */
  function IsNumericString(message: string, toNumber: string -> Float, numberToString: Float -> string): (r: bool)
    ensures |message| > 16 ==> !r
    ensures |message| < 16 ==> (r <==> !AllSpace(message) && toNumber(message) != NaN)
    ensures |message| == 16 ==>
      (r <==> numberToString(toNumber(message)) == message && !AllSpace(message) && toNumber(message) != NaN)
  {
    TrimEmptyIffAllSpace(message);
    if |message| < 16 then
      |Trim(message)| != 0 && toNumber(message) != NaN
    else if |message| == 16 then
      var numVal := toNumber(message);
      if numberToString(numVal) == message then |Trim(message)| != 0 && numVal != NaN
      else false
    else false
  }

  /** The empty string and white space are never numeric, whatever `Number` makes of
      them (it makes 0 of them). */
  lemma BlankIsNotNumeric(message: string, toNumber: string -> Float, numberToString: Float -> string)
    requires AllSpace(message)
    ensures !IsNumericString(message, toNumber, numberToString)
  {
  }

  /** A numeric string has a non-blank character and a number other than NaN. */
  lemma NumericHasNumber(message: string, toNumber: string -> Float, numberToString: Float -> string)
    requires IsNumericString(message, toNumber, numberToString)
    ensures |message| <= 16 && message != "" && toNumber(message) != NaN
  {
  }

  // ---------------------------------------------------------------------
  // signCookie and unsignCookie

  /** `digest.replace(/=+$/, "")`: the trailing run of `=` removed. */
  function StripPadding(digest: string): (r: string)
    ensures |r| <= |digest| && r == digest[..|r|]
    ensures r == "" || r[|r| - 1] != '='
    ensures forall i :: |r| <= i < |digest| ==> digest[i] == '='
  {
    if digest != "" && digest[|digest| - 1] == '=' then StripPadding(digest[..|digest| - 1]) else digest
  }

  /** `signCookie(val, secret)`. `hmac(secret, val)` is the base64 text of the
      HMAC-SHA256 of `val` under `secret`. A null secret throws. */
  function Sign(val: string, secret: Option<string>, hmac: (string, string) -> Base64Text): (r: Result<string>)
    ensures secret.None? <==> r.Thrown?
    ensures r.Thrown? ==> r.error == TypeError("Secret key must be provided")
    ensures r.Ok? ==> |r.value| > |val| && r.value[..|val|] == val && r.value[|val|] == '.'
    ensures r.Ok? ==> '.' !in r.value[|val| + 1..]
  {
    match secret
    case None => Thrown(TypeError("Secret key must be provided"))
    case Some(key) =>
      var digest := StripPadding(hmac(key, val));
      var signed := val + "." + digest;
      assert signed[|val| + 1..] == digest;
      assert forall i :: 0 <= i < |digest| ==> digest[i] == hmac(key, val)[i];
      Ok(signed)
  }

  /** `s.lastIndexOf(c)`, -1 when absent. */
  function LastIndexOf(s: string, c: char): (i: int)
    ensures -1 <= i < |s|
    ensures i >= 0 ==> s[i] == c
    ensures forall k :: i < k < |s| ==> s[k] != c
  {
    if s == [] then -1
    else if s[|s| - 1] == c then |s| - 1
    else LastIndexOf(s[..|s| - 1], c)
  }

  /** `s.slice(0, end)`: a negative end counts from the back, and an end outside the
      string is clamped to it. */
  function SliceTo(s: string, end: int): (r: string)
    ensures r <= s
    ensures 0 <= end <= |s| ==> |r| == end
    ensures end > |s| ==> r == s
    ensures -|s| <= end < 0 ==> |r| == |s| + end
    ensures end < -|s| ==> r == ""
  {
    if end >= |s| then s
    else if end >= 0 then s[..end]
    else if end >= -|s| then s[..|s| + end]
    else ""
  }

  /** `unsignCookie(input, secret)`: `Some(v)` for the value `v`, `None` for `false`. */
  function Unsign(input: string, secret: Option<string>, hmac: (string, string) -> Base64Text): (r: Result<Option<string>>)
    ensures secret.None? <==> r.Thrown?
  {
    if secret.None? then Thrown(TypeError("Secret key must be provided"))
    else
      var dot := LastIndexOf(input, '.');
      var tentativeValue := if input == "" then "" else SliceTo(input, dot);
      if Sign(tentativeValue, secret, hmac) == Ok(input) then Ok(Some(tentativeValue)) else Ok(None)
  }

  /** The last `.` of a signed text is the one the signature put there. */
  lemma LastDotOfSigned(val: string, secret: string, hmac: (string, string) -> Base64Text)
    ensures LastIndexOf(Sign(val, Some(secret), hmac).value, '.') == |val|
  {
    var s := Sign(val, Some(secret), hmac).value;
  }

  /** Unsigning what was signed with the same secret gives the value back. */
  lemma UnsignSign(val: string, secret: string, hmac: (string, string) -> Base64Text)
    ensures Unsign(Sign(val, Some(secret), hmac).value, Some(secret), hmac) == Ok(Some(val))
  {
    LastDotOfSigned(val, secret, hmac);
  }

  /** An accepted input is exactly the signature of the value returned: any change to
      the value or to the digest is rejected. */
  lemma UnsignAcceptsOnlySigned(input: string, secret: string, hmac: (string, string) -> Base64Text)
    ensures Unsign(input, Some(secret), hmac).Ok?
    ensures match Unsign(input, Some(secret), hmac).value
      case Some(v) => Sign(v, Some(secret), hmac) == Ok(input)
      case None => forall v :: Sign(v, Some(secret), hmac) != Ok(input)
  {
    if Unsign(input, Some(secret), hmac).value.None? {
      forall v ensures Sign(v, Some(secret), hmac) != Ok(input) {
        if Sign(v, Some(secret), hmac) == Ok(input) {
          UnsignSign(v, secret, hmac);
        }
      }
    }
  }

  /** An input without any `.` is always rejected (the value tried is the input
      without its last character). */
  lemma UnsignWithoutDot(input: string, secret: string, hmac: (string, string) -> Base64Text)
    requires '.' !in input
    ensures Unsign(input, Some(secret), hmac) == Ok(None)
  {
    var t := if input == "" then "" else SliceTo(input, -1);
  }

  // ---------------------------------------------------------------------
  // isNotEmpty

  /** `isNotEmpty(obj)`: whether `for…in` meets any property. */
  function IsNotEmpty(obj: JsValue): (r: bool)
    ensures obj.Obj? ==> (r <==> obj.fields != map[])
    ensures obj.Str? ==> (r <==> obj.s != "")
    ensures obj.Arr? ==> (r <==> obj.items != [])
    ensures !obj.Obj? && !obj.Str? && !obj.Arr? ==> !r
  {
    OwnEntries(obj) != map[]
  }

  // ---------------------------------------------------------------------
  // mergeDeep

  /** `isObject(item)`: truthy, `typeof` object, and not an array. */
  predicate IsObject(v: JsValue)
  {
    Truthy(v) && TypeofObject(v) && !v.Arr?
  }

  /** The entry `mergeDeep` leaves under `key` when the source holds `value` there:
      a non-object and an object new to the target are taken as they are, a class
      instance replaces, and two objects merge recursively (with no skipped keys). */
  function MergedEntry(target: map<string, JsValue>, key: string, value: JsValue, isClass: JsValue -> bool): JsValue
    decreases value, 2
  {
    if !IsObject(value) then value
    else if key !in target then value
    else if isClass(value) then value
    else MergeDeepSpec(target[key], value, [], isClass)
  }

  /** The keys a merge leaves in the target: its own, and the unskipped keys of the source. */
  function MergedKeys(target: map<string, JsValue>, source: map<string, JsValue>, done: set<string>, skipKeys: seq<string>): set<string>
  {
    target.Keys + set k | k in source && k in done && k !in skipKeys
  }

  /** The target's fields after the source keys in `done` have been processed. */
  function MergeFields(target: map<string, JsValue>, source: map<string, JsValue>, done: set<string>,
                       skipKeys: seq<string>, isClass: JsValue -> bool): map<string, JsValue>
    decreases Obj(source), 0
  {
    map k | k in MergedKeys(target, source, done, skipKeys) ::
      if k in source && k in done && k !in skipKeys then MergedEntry(target, k, source[k], isClass) else target[k]
  }

  /** What `mergeDeep(target, source, { skipKeys })` leaves in the target. */
  function MergeDeepSpec(target: JsValue, source: JsValue, skipKeys: seq<string>, isClass: JsValue -> bool): JsValue
    decreases source, 1
  {
    if target.Obj? && source.Obj? then
      Obj(MergeFields(target.fields, source.fields, source.fields.Keys, skipKeys, isClass))
    else target
  }

  /** `mergeDeep(target, source, { skipKeys })`: the loop over the source's entries,
      writing each merged entry into the target's fields. */
  method MergeDeep(target: JsValue, source: JsValue, skipKeys: seq<string>, isClass: JsValue -> bool) returns (r: JsValue)
    ensures r == MergeDeepSpec(target, source, skipKeys, isClass)
    decreases source, 1
  {
    if !(IsObject(target) && IsObject(source)) {
      return target;
    }
    if !target.Obj? || !source.Obj? {
      return target;
    }
    var fields := target.fields;
    var keys := source.fields.Keys;
    while keys != {}
      invariant keys <= source.fields.Keys
      invariant fields == MergeFields(target.fields, source.fields, source.fields.Keys - keys, skipKeys, isClass)
      decreases |keys|
    {
      var key :| key in keys;
      ghost var done := source.fields.Keys - keys;
      keys := keys - {key};
      assert source.fields.Keys - keys == done + {key};
      var value := source.fields[key];
      if key in skipKeys {
        MergeFieldsSkip(target.fields, source.fields, done, key, skipKeys, isClass);
        continue;
      }
      MergeFieldsStep(target.fields, source.fields, done, key, skipKeys, isClass);
      var entry := MergeEntry(target.fields, key, value, isClass);
      fields := fields[key := entry];
    }
    assert source.fields.Keys - keys == source.fields.Keys;
    return Obj(fields);
  }

  /** The body of the loop for one unskipped key: the entry `mergeDeep` writes. */
  method MergeEntry(target: map<string, JsValue>, key: string, value: JsValue, isClass: JsValue -> bool) returns (entry: JsValue)
    ensures entry == MergedEntry(target, key, value, isClass)
    decreases value, 2
  {
    if !IsObject(value) {
      return value;
    }
    if key !in target {
      return value;
    }
    if isClass(value) {
      return value;
    }
    entry := MergeDeep(target[key], value, [], isClass);
  }

  lemma MergeFieldsSkip(target: map<string, JsValue>, source: map<string, JsValue>, done: set<string>, key: string,
                        skipKeys: seq<string>, isClass: JsValue -> bool)
    requires key in skipKeys
    ensures MergeFields(target, source, done + {key}, skipKeys, isClass) == MergeFields(target, source, done, skipKeys, isClass)
  {
    assert MergedKeys(target, source, done + {key}, skipKeys) == MergedKeys(target, source, done, skipKeys);
  }

  lemma MergeFieldsStep(target: map<string, JsValue>, source: map<string, JsValue>, done: set<string>, key: string,
                        skipKeys: seq<string>, isClass: JsValue -> bool)
    requires key in source && key !in done && key !in skipKeys
    ensures key in target ==> (key in MergeFields(target, source, done, skipKeys, isClass) &&
      MergeFields(target, source, done, skipKeys, isClass)[key] == target[key])
    ensures MergeFields(target, source, done + {key}, skipKeys, isClass) ==
      MergeFields(target, source, done, skipKeys, isClass)[key := MergedEntry(target, key, source[key], isClass)]
  {
    assert MergedKeys(target, source, done + {key}, skipKeys) == MergedKeys(target, source, done, skipKeys) + {key};
  }

  /** The keys of the merged target: the target's and the unskipped source keys. */
  lemma MergeDeepKeys(target: map<string, JsValue>, source: map<string, JsValue>, skipKeys: seq<string>, isClass: JsValue -> bool)
    ensures MergeDeepSpec(Obj(target), Obj(source), skipKeys, isClass).fields.Keys ==
      target.Keys + (set k | k in source && k !in skipKeys)
  {
    assert MergedKeys(target, source, source.Keys, skipKeys) == target.Keys + (set k | k in source && k !in skipKeys);
  }

  /** A skipped key and a key the source lacks keep the target's entry. */
  lemma MergeDeepKeepsUntouched(target: map<string, JsValue>, source: map<string, JsValue>, skipKeys: seq<string>,
                                isClass: JsValue -> bool, key: string)
    requires key in target && (key !in source || key in skipKeys)
    ensures key in MergeDeepSpec(Obj(target), Obj(source), skipKeys, isClass).fields
    ensures MergeDeepSpec(Obj(target), Obj(source), skipKeys, isClass).fields[key] == target[key]
  {
  }

  /** A skipped key missing from the target stays missing. */
  lemma MergeDeepSkipsAbsent(target: map<string, JsValue>, source: map<string, JsValue>, skipKeys: seq<string>,
                             isClass: JsValue -> bool, key: string)
    requires key !in target && key in skipKeys
    ensures key !in MergeDeepSpec(Obj(target), Obj(source), skipKeys, isClass).fields
  {
  }

  /** A source value that is not an object overwrites, and an object value under a key
      the target lacks is copied as it is. */
  lemma MergeDeepCopies(target: map<string, JsValue>, source: map<string, JsValue>, skipKeys: seq<string>,
                        isClass: JsValue -> bool, key: string)
    requires key in source && key !in skipKeys
    requires !IsObject(source[key]) || key !in target
    ensures key in MergeDeepSpec(Obj(target), Obj(source), skipKeys, isClass).fields
    ensures MergeDeepSpec(Obj(target), Obj(source), skipKeys, isClass).fields[key] == source[key]
  {
    assert key in MergedKeys(target, source, source.Keys, skipKeys);
    assert MergedEntry(target, key, source[key], isClass) == source[key];
  }

  /** A non-object target, or a non-object source, leaves the target as it was. */
  lemma MergeDeepOfNonObjects(target: JsValue, source: JsValue, skipKeys: seq<string>, isClass: JsValue -> bool)
    requires !IsObject(target) || !IsObject(source)
    ensures MergeDeepSpec(target, source, skipKeys, isClass) == target
  {
  }

  /** Merging a value into itself changes nothing. */
  lemma {:induction false} MergeDeepSelf(v: JsValue, skipKeys: seq<string>, isClass: JsValue -> bool)
    ensures MergeDeepSpec(v, v, skipKeys, isClass) == v
    decreases v
  {
    if v.Obj? {
      var m := MergeDeepSpec(v, v, skipKeys, isClass).fields;
      MergeDeepKeys(v.fields, v.fields, skipKeys, isClass);
      forall k | k in v.fields
        ensures m[k] == v.fields[k]
      {
        assert k in MergedKeys(v.fields, v.fields, v.fields.Keys, skipKeys);
        if k !in skipKeys {
          var value := v.fields[k];
          assert m[k] == MergedEntry(v.fields, k, value, isClass);
          if IsObject(value) && !isClass(value) {
            MergeDeepSelf(value, [], isClass);
          }
        }
      }
      assert m == v.fields;
    }
  }

  // ---------------------------------------------------------------------
  // mergeObjectArray

  /** `Array.isArray(v) ? v : [v]`. */
  function AsList(v: JsValue): seq<JsValue>
  {
    if v.Arr? then v.items else [v]
  }

  /** `item?.checksums`. */
  function ChecksumOf(item: JsValue): JsValue
  {
    if item.Obj? && "checksums" in item.fields then item.fields["checksums"] else Undefined
  }

  /** Whether `item.checksums` throws: reading a property of null or undefined. */
  predicate Nullish(item: JsValue)
  {
    item.Undefined? || item.Null?
  }

  /** Some item of the list is null or undefined. */
  predicate HasNullish(items: seq<JsValue>)
  {
    exists i :: 0 <= i < |items| && Nullish(items[i])
  }

  /** The truthy checksums of `items`, in order. */
  function Checksums(items: seq<JsValue>): (r: seq<JsValue>)
    ensures forall i :: 0 <= i < |r| ==> Truthy(r[i])
    ensures forall i :: 0 <= i < |items| && Truthy(ChecksumOf(items[i])) ==> ChecksumOf(items[i]) in r
    ensures forall x :: x in r ==> exists i :: 0 <= i < |items| && ChecksumOf(items[i]) == x
  {
    if items == [] then []
    else
      var rest := Checksums(items[..|items| - 1]);
      var c := ChecksumOf(items[|items| - 1]);
      assert forall i :: 0 <= i < |items| - 1 ==> items[..|items| - 1][i] == items[i];
      if Truthy(c) then rest + [c] else rest
  }

  /** The items of `b` whose checksum is not among `sums`, in order. */
  function NewItems(b: seq<JsValue>, sums: seq<JsValue>): (r: seq<JsValue>)
    ensures |r| <= |b|
    ensures forall x :: x in r ==> x in b && ChecksumOf(x) !in sums
    ensures forall i :: 0 <= i < |b| && ChecksumOf(b[i]) !in sums ==> b[i] in r
  {
    if b == [] then []
    else
      var rest := NewItems(b[1..], sums);
      assert forall i :: 1 <= i < |b| ==> b[i] == b[1..][i - 1];
      if ChecksumOf(b[0]) !in sums then [b[0]] + rest else rest
  }

  /** What `mergeObjectArray(a, b)` returns. */
  function MergedArray(a: JsValue, b: JsValue): Result<seq<JsValue>>
  {
    if !Truthy(a) then Ok([])
    else if HasNullish(AsList(a)) then Thrown(TypeError("Cannot read properties of null"))
    else Ok(AsList(a) + NewItems(AsList(b), Checksums(AsList(a))))
  }

  /** `mergeObjectArray(a, b)`: copies `a`, collects its checksums, and appends the
      items of `b` whose checksum is new. */
  method MergeObjectArray(a: JsValue, b: JsValue) returns (r: Result<seq<JsValue>>)
    ensures r == MergedArray(a, b)
  {
    if !Truthy(a) {
      return Ok([]);
    }
    var copied := AsList(a);
    var failed, checksums := CollectChecksums(copied);
    if failed {
      assert MergedArray(a, b) == Thrown(TypeError("Cannot read properties of null"));
      return Thrown(TypeError("Cannot read properties of null"));
    }
    var added := KeepNew(AsList(b), checksums);
    assert MergedArray(a, b) == Ok(copied + added);
    return Ok(copied + added);
  }

  /** The first loop of `mergeObjectArray`: the truthy `item.checksums` of every item,
      failing on a null or undefined item. */
  method CollectChecksums(items: seq<JsValue>) returns (failed: bool, checksums: seq<JsValue>)
    ensures failed <==> HasNullish(items)
    ensures !failed ==> checksums == Checksums(items)
  {
    checksums := [];
    for i := 0 to |items|
      invariant checksums == Checksums(items[..i])
      invariant forall k :: 0 <= k < i ==> !Nullish(items[k])
    {
      var item := items[i];
      if Nullish(item) {
        return true, checksums;
      }
      assert items[..i + 1][..i] == items[..i];
      var c := ChecksumOf(item);
      if Truthy(c) {
        checksums := checksums + [c];
      }
    }
    assert items[..|items|] == items;
    return false, checksums;
  }

  /** The second loop of `mergeObjectArray`: the items whose checksum is not yet known. */
  method KeepNew(items: seq<JsValue>, checksums: seq<JsValue>) returns (added: seq<JsValue>)
    ensures added == NewItems(items, checksums)
  {
    added := [];
    for i := 0 to |items|
      invariant added == NewItems(items[..i], checksums)
    {
      var item := items[i];
      NewItemsPrefix(items, i, checksums);
      if ChecksumOf(item) !in checksums {
        added := added + [item];
      }
    }
    assert items[..|items|] == items;
  }

  /** One more item of the prefix walked by `KeepNew`. */
  lemma NewItemsPrefix(items: seq<JsValue>, i: nat, sums: seq<JsValue>)
    requires i < |items|
    ensures NewItems(items[..i + 1], sums) ==
      NewItems(items[..i], sums) + (if ChecksumOf(items[i]) !in sums then [items[i]] else [])
  {
    assert items[..i + 1] == items[..i] + [items[i]];
    NewItemsConcat(items[..i], [items[i]], sums);
    NewItemsSingle(items[i], sums);
  }

  /** Nothing is new when every checksum is known. */
  lemma {:induction false} NewItemsAllKnown(b: seq<JsValue>, sums: seq<JsValue>)
    requires forall i :: 0 <= i < |b| ==> ChecksumOf(b[i]) in sums
    ensures NewItems(b, sums) == []
  {
    if b != [] {
      assert forall i :: 0 <= i < |b| - 1 ==> b[1..][i] == b[i + 1];
      NewItemsAllKnown(b[1..], sums);
    }
  }

  lemma NewItemsStep(b: seq<JsValue>, sums: seq<JsValue>)
    requires b != []
    ensures NewItems(b, sums) == (if ChecksumOf(b[0]) !in sums then [b[0]] else []) + NewItems(b[1..], sums)
  {
  }

  /** Filtering a concatenation filters each part: `NewItems` keeps items one by one. */
  lemma {:induction false} NewItemsConcat(b1: seq<JsValue>, b2: seq<JsValue>, sums: seq<JsValue>)
    ensures NewItems(b1 + b2, sums) == NewItems(b1, sums) + NewItems(b2, sums)
    decreases |b1|
  {
    if b1 == [] {
      assert b1 + b2 == b2;
    } else {
      NewItemsConcat(b1[1..], b2, sums);
      NewItemsConcatStep(b1, b2, sums);
    }
  }

  /** The inductive step of `NewItemsConcat`. */
  lemma NewItemsConcatStep(b1: seq<JsValue>, b2: seq<JsValue>, sums: seq<JsValue>)
    requires b1 != []
    requires NewItems(b1[1..] + b2, sums) == NewItems(b1[1..], sums) + NewItems(b2, sums)
    ensures NewItems(b1 + b2, sums) == NewItems(b1, sums) + NewItems(b2, sums)
  {
    var head := if ChecksumOf(b1[0]) !in sums then [b1[0]] else [];
    NewItemsConsConcat(b1, b2, sums);
    NewItemsStep(b1, sums);
    ConcatRegroup(NewItems(b1 + b2, sums), NewItems(b1, sums), head,
      NewItems(b1[1..] + b2, sums), NewItems(b1[1..], sums), NewItems(b2, sums));
  }

  /** The step of `NewItemsConcat`: the first item of `b1` is decided first. */
  lemma NewItemsConsConcat(b1: seq<JsValue>, b2: seq<JsValue>, sums: seq<JsValue>)
    requires b1 != []
    ensures NewItems(b1 + b2, sums) ==
      (if ChecksumOf(b1[0]) !in sums then [b1[0]] else []) + NewItems(b1[1..] + b2, sums)
  {
    TailOfConcat(b1, b2);
    NewItemsStep(b1 + b2, sums);
  }

  lemma ConcatRegroup<T>(whole: seq<T>, first: seq<T>, head: seq<T>, tail: seq<T>, firstTail: seq<T>, second: seq<T>)
    requires whole == head + tail && tail == firstTail + second && first == head + firstTail
    ensures whole == first + second
  {
  }

  lemma TailOfConcat<T>(x: seq<T>, y: seq<T>)
    requires x != []
    ensures (x + y)[0] == x[0] && (x + y)[1..] == x[1..] + y
  {
  }

  /** A single item is kept exactly when its checksum is not known. */
  lemma NewItemsSingle(x: JsValue, sums: seq<JsValue>)
    ensures NewItems([x], sums) == if ChecksumOf(x) !in sums then [x] else []
  {
    NewItemsStep([x], sums);
    assert [x][1..] == [];
  }

  /** A falsy first argument gives the empty list. */
  lemma MergedArrayOfFalsy(a: JsValue, b: JsValue)
    requires !Truthy(a)
    ensures MergedArray(a, b) == Ok([])
  {
  }

  /** The result starts with every item of `a` in order (a copy: `a` is a value and is
      not changed), and each later item is an item of `b` whose checksum `a` lacks. */
  lemma MergedArrayShape(a: JsValue, b: JsValue)
    requires MergedArray(a, b).Ok? && Truthy(a)
    ensures var r := MergedArray(a, b).value;
      |AsList(a)| <= |r| && r[..|AsList(a)|] == AsList(a) &&
      r[|AsList(a)|..] == NewItems(AsList(b), Checksums(AsList(a))) &&
      forall k :: |AsList(a)| <= k < |r| ==> r[k] in AsList(b) && ChecksumOf(r[k]) !in Checksums(AsList(a))
  {
    var r := MergedArray(a, b).value;
    var n := NewItems(AsList(b), Checksums(AsList(a)));
    assert r == AsList(a) + n;
    forall k | |AsList(a)| <= k < |r|
      ensures r[k] in AsList(b) && ChecksumOf(r[k]) !in Checksums(AsList(a))
    {
      assert r[k] == n[k - |AsList(a)|];
      assert r[k] in n;
    }
  }

  /** An item of `b` whose checksum no item of `a` has is kept, after the copy of `a`. */
  lemma MergedArrayKeepsNew(a: JsValue, b: JsValue, i: nat)
    requires MergedArray(a, b).Ok? && Truthy(a) && i < |AsList(b)|
    requires forall j :: 0 <= j < |AsList(a)| ==> ChecksumOf(AsList(a)[j]) != ChecksumOf(AsList(b)[i])
    ensures AsList(b)[i] in MergedArray(a, b).value[|AsList(a)|..]
  {
    MergedArrayShape(a, b);
    assert ChecksumOf(AsList(b)[i]) !in Checksums(AsList(a));
  }

  /** Every item of `b` whose truthy checksum already occurs in `a` is left out: merging
      a list of checksummed items into itself gives the list back. */
  lemma MergedArrayWithItself(items: seq<JsValue>)
    requires forall i :: 0 <= i < |items| ==> Truthy(ChecksumOf(items[i]))
    ensures MergedArray(Arr(items), Arr(items)) == Ok(items)
  {
    forall i | 0 <= i < |items| ensures !Nullish(items[i]) {
      assert ChecksumOf(items[i]) == Undefined || items[i].Obj?;
    }
    var sums := Checksums(items);
    var n := NewItems(items, sums);
    NewItemsAllKnown(items, sums);
    forall x | x in items ensures ChecksumOf(x) in sums {
      var i :| 0 <= i < |items| && items[i] == x;
    }
    assert !HasNullish(items);
    assert MergedArray(Arr(items), Arr(items)) == Ok(items + n);
    assert items + n == items;
  }
}

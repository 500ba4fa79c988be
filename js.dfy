/** The slice of JavaScript's value model that the cookie code depends on:
    values, `typeof`, strict equality, truthiness, `String.prototype.trim`,
    the own enumerable properties that `Object.assign` and `for…in` see,
    and the foreign functions the code calls but does not define. */
module Js {
  import opened Text

  /** A JavaScript number. Only the distinctions the code observes are kept. */
  datatype Float = NaN | Finite(r: real) | Infinity(negative: bool)

  /** A JavaScript value, with objects as values: object identity is not modelled. */
  datatype JsValue =
    | Undefined
    | Null
    | Bool(b: bool)
    | Number(n: Float)
    | Str(s: string)
    | Date(time: Float)
    | Arr(items: seq<JsValue>)
    | Obj(fields: map<string, JsValue>)

  /** `typeof v === "object"` (true of null, as in JavaScript). */
  predicate TypeofObject(v: JsValue)
  {
    v.Null? || v.Date? || v.Arr? || v.Obj?
  }

  /** `a === b` for values whose identity is not modelled: an object compares as a fresh
      object (never equal), and NaN is not equal to itself. */
  predicate StrictEquals(a: JsValue, b: JsValue)
  {
    !TypeofObject(a) && !TypeofObject(b) && a == b && a != Number(NaN)
  }

  /** `!!v`. */
  predicate Truthy(v: JsValue)
  {
    match v
    case Undefined => false
    case Null => false
    case Bool(b) => b
    case Number(n) => n != NaN && n != Finite(0.0)
    case Str(s) => s != ""
    case _ => true
  }

  /** `x == false` with `x` a string: loose equality converts both sides to numbers,
      so it holds exactly when `Number(x)` is zero. */
  predicate LooselyEqualsFalse(s: string, toNumber: string -> Float)
  {
    toNumber(s) == Finite(0.0)
  }

  /** WhiteSpace and LineTerminator code points, which `trim` removes. */
  predicate IsSpace(c: char)
  {
    c == '\U{9}' || c == '\U{A}' || c == '\U{B}' || c == '\U{C}' || c == '\U{D}' ||
    c == ' ' || c == '\U{A0}' || c == '\U{1680}' || ('\U{2000}' <= c <= '\U{200A}') ||
    c == '\U{2028}' || c == '\U{2029}' || c == '\U{202F}' || c == '\U{205F}' ||
    c == '\U{3000}' || c == '\U{FEFF}'
  }

  predicate AllSpace(s: string)
  {
    forall i :: 0 <= i < |s| ==> IsSpace(s[i])
  }

  function TrimStart(s: string): (r: string)
    ensures |r| <= |s| && r == s[|s| - |r|..]
    ensures r == "" || !IsSpace(r[0])
    ensures AllSpace(s[..|s| - |r|])
  {
    if s == [] || !IsSpace(s[0]) then s
    else
      var r := TrimStart(s[1..]);
      assert s[..|s| - |r|] == [s[0]] + s[1..][..|s| - 1 - |r|];
      r
  }

  function TrimEnd(s: string): (r: string)
    ensures |r| <= |s| && r == s[..|r|]
    ensures r == "" || !IsSpace(r[|r| - 1])
    ensures AllSpace(s[|r|..])
  {
    if s == [] || !IsSpace(s[|s| - 1]) then s
    else
      var r := TrimEnd(s[..|s| - 1]);
      assert s[|r|..] == s[..|s| - 1][|r|..] + [s[|s| - 1]];
      r
  }

  /** `s.trim()`. */
  function Trim(s: string): string
  {
    TrimEnd(TrimStart(s))
  }

  /** `s.trim().length !== 0` exactly when some character of `s` is not white space. */
  lemma TrimEmptyIffAllSpace(s: string)
    ensures |Trim(s)| == 0 <==> AllSpace(s)
  {
    var t := TrimStart(s);
    if |Trim(s)| == 0 {
      assert t[0..] == t;
      assert |t| == 0;
      assert s[..|s| - |t|] == s;
    }
  }

  lemma DecimalOfLarge(n: nat)
    requires n >= 10
    ensures Decimal(n) == Decimal(n / 10) + [Digit(n % 10)]
    ensures |Decimal(n)| >= 2
  {
  }

  /** Decimal texts of distinct numbers are distinct, so indices make distinct property keys. */
  lemma {:induction false} DecimalInjective(a: nat, b: nat)
    requires Decimal(a) == Decimal(b)
    ensures a == b
  {
    if a < 10 {
      if b >= 10 { DecimalOfLarge(b); }
    } else if b < 10 {
      DecimalOfLarge(a);
    } else {
      DecimalOfLarge(a);
      DecimalOfLarge(b);
      var da, db := Decimal(a / 10), Decimal(b / 10);
      assert |da| == |db|;
      assert da == Decimal(a)[..|da|];
      assert db == Decimal(b)[..|db|];
      assert Digit(a % 10) == Decimal(a)[|da|];
      DecimalInjective(a / 10, b / 10);
    }
  }

  /** The entries `"0" -> xs[0]`, `"1" -> xs[1]`, ... that a string or an array exposes. */
  function IndexEntries(xs: seq<JsValue>): (m: map<string, JsValue>)
    ensures forall i :: 0 <= i < |xs| ==> Decimal(i) in m && m[Decimal(i)] == xs[i]
    ensures xs == [] <==> m == map[]
  {
    if xs == [] then map[]
    else
      var n := |xs| - 1;
      var m := IndexEntries(xs[..n])[Decimal(n) := xs[n]];
      forall i | 0 <= i < n ensures Decimal(i) != Decimal(n) {
        if Decimal(i) == Decimal(n) { DecimalInjective(i, n); }
      }
      m
  }

  /** The own enumerable properties of a value, as `Object.assign` and `for…in` see them:
      an object's fields, the indices of a string or an array, and none for anything else. */
  function OwnEntries(v: JsValue): (m: map<string, JsValue>)
    ensures v.Obj? ==> m == v.fields
    ensures v.Str? ==> forall i :: 0 <= i < |v.s| ==> Decimal(i) in m && m[Decimal(i)] == Str([v.s[i]])
    ensures v.Str? ==> (m == map[] <==> v.s == "")
    ensures v.Arr? ==> forall i :: 0 <= i < |v.items| ==> Decimal(i) in m && m[Decimal(i)] == v.items[i]
    ensures v.Arr? ==> (m == map[] <==> v.items == [])
    ensures !v.Obj? && !v.Str? && !v.Arr? ==> m == map[]
  {
    match v
    case Obj(fields) => fields
    case Str(s) => IndexEntries(seq(|s|, i requires 0 <= i < |s| => Str([s[i]])))
    case Arr(items) => IndexEntries(items)
    case _ => map[]
  }

  /** The exceptions the cookie code throws. */
  datatype Error =
    | TypeError(message: string)
    | Failure(message: string)
    | InvalidCookieSignature(key: string)

  /** A call that returns a value or throws. */
  datatype Result<T> = Ok(value: T) | Thrown(error: Error)

  /** The characters `btoa` produces: the base64 alphabet and the `=` pad. */
  predicate IsBase64Char(c: char)
  {
    ('A' <= c <= 'Z') || ('a' <= c <= 'z') || ('0' <= c <= '9') || c == '+' || c == '/' || c == '='
  }

  type Base64Text = s: string | forall i :: 0 <= i < |s| ==> IsBase64Char(s[i])

  /** The object that the header parser of the `cookie` library returns, as its
      `Object.keys` order sees it: distinct names, each with its raw value. */
  type CookiePairs = ps: seq<(string, string)> | forall i, j :: 0 <= i < j < |ps| ==> ps[i].0 != ps[j].0

  /** The foreign functions the code calls: the number conversions, JSON, the digest of
      signed cookies (HMAC-SHA256 under the secret, base64-encoded by `btoa`) and the
      cookie header parser. */
  datatype Runtime = Runtime(
    toNumber: string -> Float,
    numberToString: Float -> string,
    stringify: JsValue -> string,
    parseJson: string -> Option<JsValue>,
    hmac: (string, string) -> Base64Text,
    parseCookieHeader: string -> CookiePairs)
}

/** String helpers with the semantics of the JavaScript built-ins the
    route and cookie code calls (String.prototype.split, indexOf,
    includes, replace with a string pattern, Array.prototype.indexOf). */
module Text {

  /** Position of the first `c` in `s` (String.prototype.indexOf with a one-character pattern). */
  function IndexOf(s: string, c: char): (i: nat)
    requires c in s
    ensures i < |s| && s[i] == c
    ensures c !in s[..i]
  {
    if s[0] == c then 0
    else
      assert s == [s[0]] + s[1..];
      var k := IndexOf(s[1..], c);
      assert s[..1 + k] == [s[0]] + s[1..][..k];
      1 + k
  }

  /** `s.indexOf(c, from)`: the first `c` at or after `from`, if any. */
  function IndexOfFrom(s: string, c: char, from: nat): (r: Option<nat>)
    ensures r.Some? ==> from <= r.value < |s| && s[r.value] == c
    ensures r.Some? ==> forall k :: from <= k < r.value ==> s[k] != c
    ensures r.None? ==> forall k :: from <= k < |s| ==> s[k] != c
    decreases |s| - from
  {
    if from >= |s| then None
    else if s[from] == c then Some(from)
    else IndexOfFrom(s, c, from + 1)
  }

  /** `s.split(sep)` for a one-character separator. */
  function Split(s: string, sep: char): (parts: seq<string>)
    ensures |parts| >= 1
    ensures forall i :: 0 <= i < |parts| ==> sep !in parts[i]
    decreases |s|
  {
    if sep !in s then [s]
    else
      var i := IndexOf(s, sep);
      [s[..i]] + Split(s[i + 1..], sep)
  }

  /** `parts.join(sep)`. */
  function Join(parts: seq<string>, sep: char): string
  {
    if |parts| == 0 then ""
    else if |parts| == 1 then parts[0]
    else parts[0] + [sep] + Join(parts[1..], sep)
  }

  /** The first separator at `k` cuts off the first piece. */
  lemma SplitAt(s: string, sep: char, k: nat)
    requires k < |s| && s[k] == sep && sep !in s[..k]
    ensures Split(s, sep) == [s[..k]] + Split(s[k + 1..], sep)
  {
    var i := IndexOf(s, sep);
    assert s[..i + 1][i] == sep;
    assert s[..k + 1][k] == sep;
  }

  /** Joining the pieces of a split gives back the original text. */
  lemma {:induction false} JoinSplit(s: string, sep: char)
    ensures Join(Split(s, sep), sep) == s
    decreases |s|
  {
    if sep in s {
      var i := IndexOf(s, sep);
      var rest := Split(s[i + 1..], sep);
      assert Split(s, sep) == [s[..i]] + rest;
      JoinSplit(s[i + 1..], sep);
      assert Join([s[..i]] + rest, sep) == s[..i] + [sep] + Join(rest, sep) by {
        assert ([s[..i]] + rest)[1..] == rest;
      }
      assert s == s[..i] + [sep] + s[i + 1..];
    }
  }

  /** Splitting a join of separator-free pieces gives back the pieces. */
  lemma {:induction false} SplitJoin(parts: seq<string>, sep: char)
    requires |parts| >= 1
    requires forall i :: 0 <= i < |parts| ==> sep !in parts[i]
    ensures Split(Join(parts, sep), sep) == parts
  {
    if |parts| > 1 {
      var s := Join(parts, sep);
      var k := |parts[0]|;
      var tail := Join(parts[1..], sep);
      assert s == parts[0] + [sep] + tail;
      assert s[..k] == parts[0] && s[k] == sep && s[k + 1..] == tail;
      SplitAt(s, sep, k);
      SplitJoin(parts[1..], sep);
      assert parts == [parts[0]] + parts[1..];
    }
  }

  /** A text ending in the separator splits into pieces whose last one is empty. */
  lemma {:induction false} SplitTrailingSeparator(s: string, sep: char)
    requires |s| > 0 && s[|s| - 1] == sep
    ensures var parts := Split(s, sep); parts[|parts| - 1] == ""
    decreases |s|
  {
    var i := IndexOf(s, sep);
    var rest := s[i + 1..];
    var tail := Split(rest, sep);
    if i < |s| - 1 {
      assert rest[|rest| - 1] == sep;
      SplitTrailingSeparator(rest, sep);
    } else {
      assert rest == "";
      assert tail == [rest];
    }
    assert tail[|tail| - 1] == "";
    var parts := Split(s, sep);
    SplitAt(s, sep, i);
    assert parts == [s[..i]] + tail;
    LastOfPrepended(s[..i], tail);
  }

  lemma LastOfPrepended(head: string, tail: seq<string>)
    requires |tail| > 0
    ensures ([head] + tail)[|tail|] == tail[|tail| - 1]
  {
  }

  predicate StartsWith(s: string, prefix: string)
  {
    |prefix| <= |s| && s[..|prefix|] == prefix
  }

  /** `pat` occurs in `s` at position `k`. */
  predicate MatchAt(s: string, pat: string, k: nat)
  {
    k + |pat| <= |s| && s[k..k + |pat|] == pat
  }

  /** Position of the first occurrence of `pat` in `s` at or after `from`, if any. */
  function FindFrom(s: string, pat: string, from: nat): (r: Option<nat>)
    ensures r.Some? ==> from <= r.value && MatchAt(s, pat, r.value)
    ensures r.Some? ==> forall k :: from <= k < r.value ==> !MatchAt(s, pat, k)
    ensures r.None? ==> forall k :: from <= k ==> !MatchAt(s, pat, k)
    decreases |s| - from
  {
    if from + |pat| > |s| then None
    else if MatchAt(s, pat, from) then Some(from)
    else FindFrom(s, pat, from + 1)
  }

  /** Position of the first occurrence of `pat` in `s`, if any (String.prototype.indexOf). */
  function Find(s: string, pat: string): (r: Option<nat>)
    ensures r.Some? ==> MatchAt(s, pat, r.value)
    ensures r.Some? ==> forall k :: 0 <= k < r.value ==> !MatchAt(s, pat, k)
    ensures r.None? ==> forall k: nat :: !MatchAt(s, pat, k)
  {
    FindFrom(s, pat, 0)
  }

  /** `s.includes(pat)`. */
  predicate Contains(s: string, pat: string)
  {
    Find(s, pat).Some?
  }

  /** `s.replace(pat, rep)` with a string pattern: only the first occurrence is replaced.
      `rep` is inserted literally; JavaScript's replacement patterns (`$&`, `$1`, `$$`)
      are not interpreted, which is exact for the markers and groups this model passes. */
  function ReplaceFirst(s: string, pat: string, rep: string): (r: string)
    ensures Find(s, pat).None? ==> r == s
    ensures Find(s, pat).Some? ==>
      var i := Find(s, pat).value; r == s[..i] + rep + s[i + |pat|..]
  {
    match Find(s, pat)
    case None => s
    case Some(i) => s[..i] + rep + s[i + |pat|..]
  }

  datatype Option<T> = None | Some(value: T)

  function Digit(d: nat): (c: char)
    requires d < 10
    ensures '0' <= c <= '9'
  {
    ('0' as int + d) as char
  }

  /** Decimal text of a natural number, as template literals and Number#toString print it. */
  function Decimal(n: nat): (s: string)
    ensures |s| >= 1
    ensures forall i :: 0 <= i < |s| ==> '0' <= s[i] <= '9'
  {
    if n < 10 then [Digit(n)] else Decimal(n / 10) + [Digit(n % 10)]
  }

  predicate NoDuplicates<T(==)>(s: seq<T>)
  {
    forall i, j :: 0 <= i < j < |s| ==> s[i] != s[j]
  }

  /** `a.filter((v, i, a) => a.indexOf(v) === i)`: keeps the first occurrence of every element. */
  function Dedup<T(==)>(s: seq<T>): (r: seq<T>)
    ensures NoDuplicates(r)
    ensures multiset(r) <= multiset(s)
    ensures forall i :: 0 <= i < |s| ==> s[i] in r
    ensures |s| > 0 ==> |r| > 0 && r[0] == s[0]
  {
    if |s| == 0 then []
    else
      var rest := Dedup(s[..|s| - 1]);
      var last := s[|s| - 1];
      assert forall i :: 0 <= i < |s| - 1 ==> s[..|s| - 1][i] == s[i];
      assert forall i :: 0 <= i < |s| - 1 ==> s[i] in rest;
      assert |s| == 1 ==> rest == [];
      MultisetOfInit(s);
      if last in rest then rest
      else
        DedupAppend(rest, last);
        rest + [last]
  }

  /** `a.indexOf(x)` on an array (Array.prototype.indexOf): the first position of `x`. */
  function FirstIndex<T(==)>(s: seq<T>, x: T): (i: nat)
    requires x in s
    ensures i < |s| && s[i] == x && x !in s[..i]
  {
    if s[0] == x then 0
    else
      var i := 1 + FirstIndex(s[1..], x);
      assert s[..i] == [s[0]] + s[1..][..i - 1];
      i
  }

  /** The first occurrence is the only position holding `x` with no `x` before it. */
  lemma FirstIndexUnique<T>(s: seq<T>, x: T, i: nat)
    requires i < |s| && s[i] == x && x !in s[..i]
    ensures FirstIndex(s, x) == i
  {
  }

  /** `s.filter((v, i, a) => a.indexOf(v) === i)` over the first `n` elements, written
      with `indexOf` as the source does. */
  function IndexFilter<T(==)>(s: seq<T>, n: nat): seq<T>
    requires n <= |s|
  {
    if n == 0 then []
    else IndexFilter(s, n - 1) + (if FirstIndex(s, s[n - 1]) == n - 1 then [s[n - 1]] else [])
  }

  /** `Dedup` is the `indexOf` filter: it keeps exactly the first occurrences, in order. */
  lemma {:induction false} DedupIsIndexFilter<T>(s: seq<T>, n: nat)
    requires n <= |s|
    ensures Dedup(s[..n]) == IndexFilter(s, n)
  {
    if n > 0 {
      DedupIsIndexFilter(s, n - 1);
      DedupIsIndexFilterStep(s, n);
    }
  }

  lemma DedupIsIndexFilterStep<T>(s: seq<T>, n: nat)
    requires 0 < n <= |s|
    requires Dedup(s[..n - 1]) == IndexFilter(s, n - 1)
    ensures Dedup(s[..n]) == IndexFilter(s, n)
  {
    IndexFilterStep(s, n);
    DedupPrefixStep(s, n);
  }

  /** The filter keeps the element at `n - 1` exactly when it does not occur before. */
  lemma IndexFilterStep<T>(s: seq<T>, n: nat)
    requires 0 < n <= |s|
    ensures IndexFilter(s, n) ==
      IndexFilter(s, n - 1) + (if s[n - 1] in s[..n - 1] then [] else [s[n - 1]])
  {
    if s[n - 1] !in s[..n - 1] {
      FirstIndexUnique(s, s[n - 1], n - 1);
    }
  }

  lemma DedupPrefixStep<T>(s: seq<T>, n: nat)
    requires 0 < n <= |s|
    ensures Dedup(s[..n]) ==
      Dedup(s[..n - 1]) + (if s[n - 1] in s[..n - 1] then [] else [s[n - 1]])
  {
    var t := s[..n];
    assert t[..n - 1] == s[..n - 1] && t[n - 1] == s[n - 1];
    DedupSnoc(t);
  }

  /** Appending an element to the input appends it to the result exactly when it is new. */
  lemma DedupSnoc<T>(t: seq<T>)
    requires |t| > 0
    ensures var init := t[..|t| - 1]; var x := t[|t| - 1];
      Dedup(t) == if x in init then Dedup(init) else Dedup(init) + [x]
  {
    DedupHas(t[..|t| - 1], t[|t| - 1]);
  }

  /** An element is kept by `Dedup` exactly when it occurs. */
  lemma DedupHas<T>(s: seq<T>, x: T)
    ensures x in Dedup(s) <==> x in s
  {
    if x in Dedup(s) {
      assert x in multiset(Dedup(s));
    }
  }

  /** Appending an element not yet present keeps the elements distinct and adds it once. */
  lemma DedupAppend<T>(rest: seq<T>, last: T)
    requires NoDuplicates(rest) && last !in rest
    ensures NoDuplicates(rest + [last])
    ensures multiset(rest + [last]) == multiset(rest) + multiset{last}
    ensures forall i :: 0 <= i < |rest| ==> (rest + [last])[i] == rest[i]
    ensures (rest + [last])[|rest|] == last
  {
  }

  lemma MultisetOfInit<T>(s: seq<T>)
    requires |s| > 0
    ensures multiset(s) == multiset(s[..|s| - 1]) + multiset{s[|s| - 1]}
  {
    assert s == s[..|s| - 1] + [s[|s| - 1]];
  }
}

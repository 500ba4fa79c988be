/** Route-path utilities of the router (hono/utils/url.ts): splitting a
    route template into segments with `{…}` groups protected, classifying
    and caching parameter labels, taking the path and the query out of a
    request URL, joining path fragments and expanding a trailing optional
    parameter. */
module Url {
  import opened Text

  // ---------------------------------------------------------------------
  // splitPath

  /** `path.split("/")` with one leading empty segment dropped. */
  function SplitPath(path: string): (segments: seq<string>)
    ensures forall i :: 0 <= i < |segments| ==> '/' !in segments[i]
  {
    var parts := Split(path, '/');
    if parts[0] == "" then parts[1..] else parts
  }

  /** The segments put back together with `/` give the path: after a leading
      `/` when the path has one, and as they are otherwise. */
  lemma SplitPathRejoins(path: string)
    ensures |path| > 0 && path[0] == '/' ==> "/" + Join(SplitPath(path), '/') == path
    ensures |path| == 0 || path[0] != '/' ==> Join(SplitPath(path), '/') == path
  {
    JoinSplit(path, '/');
    var parts := Split(path, '/');
    if |path| > 0 && path[0] == '/' {
      assert IndexOf(path, '/') == 0;
      assert |parts| >= 2;
    } else if |path| > 0 {
      if '/' in path {
        var i := IndexOf(path, '/');
        assert i > 0 && parts[0] == path[..i];
      }
      assert parts[0] != "";
    }
  }

  /** Only the first empty segment goes: a path starting with `//` keeps an empty first segment. */
  lemma SplitPathDropsOneEmpty(path: string)
    requires |path| >= 2 && path[0] == '/' && path[1] == '/'
    ensures |SplitPath(path)| >= 2 && SplitPath(path)[0] == ""
  {
    assert IndexOf(path, '/') == 0;
    var rest := path[1..];
    assert IndexOf(rest, '/') == 0;
    assert Split(path, '/') == [""] + Split(rest, '/');
    assert Split(rest, '/') == [""] + Split(rest[1..], '/');
  }

  /** A trailing `/` leaves an empty last segment (the exact-match marker). */
  lemma SplitPathKeepsTrailingEmpty(path: string)
    requires |path| > 0 && path[|path| - 1] == '/'
    ensures |SplitPath(path)| > 0 && SplitPath(path)[|SplitPath(path)| - 1] == ""
  {
    SplitTrailingSeparator(path, '/');
    var parts := Split(path, '/');
    if parts[0] == "" && |parts| == 1 {
      JoinSplit(path, '/');
      assert false;
    }
  }

  // ---------------------------------------------------------------------
  // extractGroupsFromPath

  /** A `{…}` group found by the scan, with its offset in the route template. */
  datatype Group = Group(offset: nat, text: string)

  /** The marker `@<offset>` a group is replaced with. */
  function Mark(offset: nat): string
  {
    "@" + Decimal(offset)
  }

  /** A match of `/\{[^}]+\}/` starting at `i`: the end of the match, if there is one. */
  function GroupEnd(s: string, i: nat): (r: Option<nat>)
    requires i < |s|
    ensures r.Some? ==> i + 3 <= r.value <= |s| && s[i] == '{' && s[r.value - 1] == '}'
    ensures r.Some? ==> '}' !in s[i + 1..r.value - 1]
    ensures s[i] == '{' ==> forall k :: i + 1 < k < |s| && s[k] == '}' && '}' !in s[i + 1..k] ==> r == Some(k + 1)
    ensures i + 1 < |s| && s[i + 1] == '}' ==> r.None?
  {
    if s[i] != '{' then None
    else
      match IndexOfFrom(s, '}', i + 1)
      case None => None
      case Some(k) =>
        if k == i + 1 then None
        else Some(k + 1)
  }

  /** What the global `replace` leaves: the rewritten template and the groups it met. */
  datatype Extraction = Extraction(text: string, groups: seq<Group>)

  /** The left-to-right scan of `path.replace(/\{[^}]+\}/g, …)` from position `i`. */
  function Scan(s: string, i: nat): Extraction
    requires i <= |s|
    decreases |s| - i
  {
    if i == |s| then Extraction("", [])
    else
      match GroupEnd(s, i)
      case Some(j) =>
        var rest := Scan(s, j);
        Extraction(Mark(i) + rest.text, [Group(i, s[i..j])] + rest.groups)
      case None =>
        var rest := Scan(s, i + 1);
        Extraction([s[i]] + rest.text, rest.groups)
  }

  /** The `[mark, original]` pairs the source records for the groups. */
  function MarkPairs(gs: seq<Group>): (pairs: seq<(string, string)>)
    ensures |pairs| == |gs|
    ensures forall k :: 0 <= k < |gs| ==> pairs[k] == (Mark(gs[k].offset), gs[k].text)
  {
    seq(|gs|, k requires 0 <= k < |gs| => (Mark(gs[k].offset), gs[k].text))
  }

  /** `extractGroupsFromPath`: replaces every group with its marker and records the pairs. */
  method ExtractGroupsFromPath(path: string) returns (groups: seq<(string, string)>, replaced: string)
    ensures replaced == Scan(path, 0).text
    ensures groups == MarkPairs(Scan(path, 0).groups)
  {
    groups, replaced := [], "";
    ghost var found: seq<Group> := [];
    ghost var whole := Scan(path, 0);
    var i := 0;
    while i < |path|
      invariant i <= |path|
      invariant groups == MarkPairs(found)
      invariant whole.text == replaced + Scan(path, i).text
      invariant whole.groups == found + Scan(path, i).groups
      decreases |path| - i
    {
      var end := GroupEnd(path, i);
      if end.Some? {
        var j := end.value;
        var mark := Mark(i);
        ghost var g := Group(i, path[i..j]);
        ScanStepGroup(path, i, j, whole, replaced, found);
        MarkPairsAppend(found, g);
        groups := groups + [(mark, path[i..j])];
        found := found + [g];
        replaced := replaced + mark;
        i := j;
      } else {
        ScanStepOther(path, i, whole, replaced, found);
        replaced := replaced + [path[i]];
        i := i + 1;
      }
    }
  }

  /** The pairs `extractGroupsFromPath` records: each is the marker of an offset and the
      well-formed group found at that offset of the template. */
  lemma ExtractedPairs(path: string)
    ensures var gs := Scan(path, 0).groups; var pairs := MarkPairs(gs);
      |pairs| == |gs| &&
      forall k :: 0 <= k < |gs| ==>
        pairs[k].0 == Mark(gs[k].offset) && IsGroupText(pairs[k].1) &&
        gs[k].offset + |pairs[k].1| <= |path| &&
        path[gs[k].offset..gs[k].offset + |pairs[k].1|] == pairs[k].1
  {
    ScanGroupsAreOriginal(path, 0);
  }

  /** One step of the scan over a group, in the form the loop of `ExtractGroupsFromPath` keeps. */
  lemma ScanStepGroup(s: string, i: nat, j: nat, whole: Extraction, done: string, found: seq<Group>)
    requires i < |s| && GroupEnd(s, i) == Some(j)
    requires whole.text == done + Scan(s, i).text && whole.groups == found + Scan(s, i).groups
    ensures whole.text == (done + Mark(i)) + Scan(s, j).text
    ensures whole.groups == (found + [Group(i, s[i..j])]) + Scan(s, j).groups
  {
    ScanAtGroup(s, i, j);
    assert done + (Mark(i) + Scan(s, j).text) == (done + Mark(i)) + Scan(s, j).text;
    assert found + ([Group(i, s[i..j])] + Scan(s, j).groups) == (found + [Group(i, s[i..j])]) + Scan(s, j).groups;
  }

  /** One step of the scan over a character outside any group. */
  lemma ScanStepOther(s: string, i: nat, whole: Extraction, done: string, found: seq<Group>)
    requires i < |s| && GroupEnd(s, i).None?
    requires whole.text == done + Scan(s, i).text && whole.groups == found + Scan(s, i).groups
    ensures whole.text == (done + [s[i]]) + Scan(s, i + 1).text
    ensures whole.groups == found + Scan(s, i + 1).groups
  {
    ScanAtOther(s, i);
    assert done + ([s[i]] + Scan(s, i + 1).text) == (done + [s[i]]) + Scan(s, i + 1).text;
  }

  lemma ScanAtGroup(s: string, i: nat, j: nat)
    requires i < |s| && GroupEnd(s, i) == Some(j)
    ensures Scan(s, i).text == Mark(i) + Scan(s, j).text
    ensures Scan(s, i).groups == [Group(i, s[i..j])] + Scan(s, j).groups
  {
  }

  lemma ScanAtOther(s: string, i: nat)
    requires i < |s| && GroupEnd(s, i).None?
    ensures Scan(s, i).text == [s[i]] + Scan(s, i + 1).text
    ensures Scan(s, i).groups == Scan(s, i + 1).groups
  {
  }

  lemma MarkPairsAppend(gs: seq<Group>, g: Group)
    ensures MarkPairs(gs + [g]) == MarkPairs(gs) + [(Mark(g.offset), g.text)]
  {
  }

  /** The text of a group: `{`, at least one character other than `}`, and `}`. */
  predicate IsGroupText(t: string)
  {
    |t| >= 3 && t[0] == '{' && t[|t| - 1] == '}' && '}' !in t[1..|t| - 1]
  }

  /** `g` is a group of `s` at or after `from`: the text at its offset is the group text. */
  predicate GroupIn(s: string, from: nat, g: Group)
  {
    from <= g.offset && g.offset + |g.text| <= |s| &&
    s[g.offset..g.offset + |g.text|] == g.text && IsGroupText(g.text)
  }

  /** Every recorded group is the original text at its offset, the groups come in
      left-to-right order and do not overlap, and all lie at or after `i`. */
  lemma {:induction false} ScanGroupsAreOriginal(s: string, i: nat)
    requires i <= |s|
    ensures var gs := Scan(s, i).groups;
      forall k :: 0 <= k < |gs| ==> GroupIn(s, i, gs[k])
    ensures var gs := Scan(s, i).groups;
      forall k, l :: 0 <= k < l < |gs| ==> gs[k].offset + |gs[k].text| <= gs[l].offset
    decreases |s| - i
  {
    if i < |s| {
      match GroupEnd(s, i)
      case Some(j) =>
        ScanGroupsAreOriginal(s, j);
        ScanGroupsPrepend(s, i, j);
      case None =>
        ScanGroupsAreOriginal(s, i + 1);
        ScanGroupsSkip(s, i);
    }
  }

  /** The step of `ScanGroupsAreOriginal` over a character outside any group. */
  lemma ScanGroupsSkip(s: string, i: nat)
    requires i < |s| && GroupEnd(s, i).None?
    requires var rest := Scan(s, i + 1).groups;
      forall k :: 0 <= k < |rest| ==> GroupIn(s, i + 1, rest[k])
    requires var rest := Scan(s, i + 1).groups;
      forall k, l :: 0 <= k < l < |rest| ==> rest[k].offset + |rest[k].text| <= rest[l].offset
    ensures var gs := Scan(s, i).groups;
      forall k :: 0 <= k < |gs| ==> GroupIn(s, i, gs[k])
    ensures var gs := Scan(s, i).groups;
      forall k, l :: 0 <= k < l < |gs| ==> gs[k].offset + |gs[k].text| <= gs[l].offset
  {
    ScanAtOther(s, i);
  }

  /** The step of `ScanGroupsAreOriginal` over a group at `i` that ends at `j`. */
  lemma ScanGroupsPrepend(s: string, i: nat, j: nat)
    requires i < |s| && GroupEnd(s, i) == Some(j)
    requires var rest := Scan(s, j).groups;
      (forall k :: 0 <= k < |rest| ==> GroupIn(s, j, rest[k])) &&
      forall k, l :: 0 <= k < l < |rest| ==> rest[k].offset + |rest[k].text| <= rest[l].offset
    ensures var gs := Scan(s, i).groups;
      forall k :: 0 <= k < |gs| ==> GroupIn(s, i, gs[k])
    ensures var gs := Scan(s, i).groups;
      forall k, l :: 0 <= k < l < |gs| ==> gs[k].offset + |gs[k].text| <= gs[l].offset
  {
    var rest := Scan(s, j).groups;
    var g := Group(i, s[i..j]);
    ScanAtGroup(s, i, j);
    var gs := [g] + rest;
    GroupEndIsGroup(s, i, j);
    assert forall k :: 0 < k < |gs| ==> gs[k] == rest[k - 1];
  }

  /** A match found by `GroupEnd` is a group of the template at its offset. */
  lemma GroupEndIsGroup(s: string, i: nat, j: nat)
    requires i < |s| && GroupEnd(s, i) == Some(j)
    ensures GroupIn(s, i, Group(i, s[i..j]))
  {
    var t := s[i..j];
    var body := t[1..|t| - 1];
    forall m | 0 <= m < |body| ensures body[m] != '}' {
      assert body[m] == t[1 + m] == s[i + 1 + m] == s[i + 1..j - 1][m];
    }
  }

  /** A template without `{` comes out of the scan unchanged and with no groups. */
  lemma {:induction false} ScanWithoutBraces(s: string, i: nat)
    requires i <= |s|
    requires '{' !in s[i..]
    ensures Scan(s, i) == Extraction(s[i..], [])
    decreases |s| - i
  {
    if i < |s| {
      assert s[i] in s[i..];
      assert s[i + 1..] == s[i..][1..];
      ScanWithoutBraces(s, i + 1);
      assert s[i..] == [s[i]] + s[i + 1..];
    }
  }

  /** No group `p` lies in: `p` is before, or at or after the end of, every group of `gs`. */
  predicate OutsideGroups(gs: seq<Group>, p: nat)
  {
    forall k :: 0 <= k < |gs| ==> p < gs[k].offset || gs[k].offset + |gs[k].text| <= p
  }

  /** The scan misses no match: at every position at or after `i` outside the recorded
      groups, no group starts. */
  lemma {:induction false} ScanMissesNoGroup(s: string, i: nat)
    requires i <= |s|
    ensures var gs := Scan(s, i).groups;
      forall p :: i <= p < |s| && OutsideGroups(gs, p) ==> GroupEnd(s, p).None?
    decreases |s| - i
  {
    if i < |s| {
      match GroupEnd(s, i)
      case Some(j) =>
        ScanMissesNoGroup(s, j);
        ScanMissesPastGroup(s, i, j);
      case None =>
        ScanAtOther(s, i);
        ScanMissesNoGroup(s, i + 1);
    }
  }

  /** The step of `ScanMissesNoGroup` over a group at `i` that ends at `j`. */
  lemma ScanMissesPastGroup(s: string, i: nat, j: nat)
    requires i < |s| && GroupEnd(s, i) == Some(j)
    requires var rest := Scan(s, j).groups;
      forall p :: j <= p < |s| && OutsideGroups(rest, p) ==> GroupEnd(s, p).None?
    ensures var gs := Scan(s, i).groups;
      forall p :: i <= p < |s| && OutsideGroups(gs, p) ==> GroupEnd(s, p).None?
  {
    ScanAtGroup(s, i, j);
    var gs := Scan(s, i).groups;
    var rest := Scan(s, j).groups;
    forall p | i <= p < |s| && OutsideGroups(gs, p) ensures GroupEnd(s, p).None? {
      assert gs[0] == Group(i, s[i..j]);
      forall k | 0 <= k < |rest| ensures p < rest[k].offset || rest[k].offset + |rest[k].text| <= p {
        assert rest[k] == gs[k + 1];
      }
    }
  }

  /** `s[from..]` with each group of `gs` replaced by its marker, defined independently of
      the scan. A group that does not lie between `from` and the end of `s` ends the
      substitution; the groups of a scan always lie there (`ScanGroupsAreOriginal`). */
  function Substituted(s: string, from: nat, gs: seq<Group>): string
    requires from <= |s|
    decreases |gs|
  {
    if gs == [] then s[from..]
    else
      var g := gs[0];
      var end := g.offset + |g.text|;
      if from <= g.offset && end <= |s| then
        s[from..g.offset] + Mark(g.offset) + Substituted(s, end, gs[1..])
      else s[from..]
  }

  /** Starting one character before the first group puts that character in front. */
  lemma SubstitutedShift(s: string, i: nat, gs: seq<Group>)
    requires i < |s| && (gs == [] || gs[0].offset > i)
    ensures Substituted(s, i, gs) == [s[i]] + Substituted(s, i + 1, gs)
  {
    if gs != [] && gs[0].offset + |gs[0].text| <= |s| {
      assert s[i..gs[0].offset] == [s[i]] + s[i + 1..gs[0].offset];
    } else {
      assert s[i..] == [s[i]] + s[i + 1..];
    }
  }

  /** A group found at `i` contributes its marker, and the substitution goes on after it. */
  lemma SubstitutedAtGroup(s: string, i: nat, j: nat, rest: seq<Group>)
    requires i <= j <= |s|
    ensures Substituted(s, i, [Group(i, s[i..j])] + rest) == Mark(i) + Substituted(s, j, rest)
  {
    var gs := [Group(i, s[i..j])] + rest;
    assert gs[0].offset + |gs[0].text| == j;
    assert gs[1..] == rest;
    assert s[i..i] == "";
  }

  /** The text of the scan is the template with every recorded group replaced by its
      marker; the first recorded group lies at or after `i`. */
  lemma {:induction false} ScanTextIsSubstituted(s: string, i: nat)
    requires i <= |s|
    ensures Scan(s, i).groups == [] || Scan(s, i).groups[0].offset >= i
    ensures Scan(s, i).text == Substituted(s, i, Scan(s, i).groups)
    decreases |s| - i
  {
    if i < |s| {
      match GroupEnd(s, i)
      case Some(j) =>
        ScanAtGroup(s, i, j);
        ScanTextIsSubstituted(s, j);
        SubstitutedAtGroup(s, i, j, Scan(s, j).groups);
      case None =>
        ScanAtOther(s, i);
        ScanTextIsSubstituted(s, i + 1);
        SubstitutedShift(s, i, Scan(s, i + 1).groups);
    }
  }

  // ---------------------------------------------------------------------
  // replaceGroupMarks and splitRoutingPath

  /** `replaceGroupMarks` as written: the result of `paths[j].replace(…)` is discarded,
      so the segments come back exactly as they went in. */
  method ReplaceGroupMarks(paths: seq<string>, groups: seq<(string, string)>) returns (r: seq<string>)
    ensures r == paths
  {
    var i := |groups| - 1;
    while i >= 0
      invariant -1 <= i < |groups|
    {
      var mark := groups[i].0;
      var j := |paths| - 1;
      while j >= 0
        invariant -1 <= j < |paths|
      {
        if Contains(paths[j], mark) {
          var discarded := ReplaceFirst(paths[j], mark, groups[i].1);
          break;
        }
        j := j - 1;
      }
      i := i - 1;
    }
    r := paths;
  }

  /** `splitRoutingPath` as written: the segments of the marker-substituted template. */
  method SplitRoutingPath(routePath: string) returns (segments: seq<string>)
    ensures segments == SplitPath(Scan(routePath, 0).text)
  {
    var groups, path := ExtractGroupsFromPath(routePath);
    var paths := SplitPath(path);
    segments := ReplaceGroupMarks(paths, groups);
  }

  /** Index of the last segment below `n` that contains `mark`, if any. */
  function LastContaining(paths: seq<string>, mark: string, n: nat): (r: Option<nat>)
    requires n <= |paths|
    ensures r.Some? ==> r.value < n && Contains(paths[r.value], mark)
    ensures r.Some? ==> forall k :: r.value < k < n ==> !Contains(paths[k], mark)
    ensures r.None? ==> forall k :: 0 <= k < n ==> !Contains(paths[k], mark)
  {
    if n == 0 then None
    else if Contains(paths[n - 1], mark) then Some(n - 1)
    else LastContaining(paths, mark, n - 1)
  }

  /** Putting one group back: its marker, first occurrence, in the last segment holding it. */
  function RestoreOne(paths: seq<string>, group: (string, string)): (r: seq<string>)
    ensures |r| == |paths|
  {
    match LastContaining(paths, group.0, |paths|)
    case None => paths
    case Some(j) => paths[j := ReplaceFirst(paths[j], group.0, group.1)]
  }

  /** Putting back `groups[n-1]`, then `groups[n-2]`, …, then `groups[0]`. */
  function RestoreFrom(paths: seq<string>, groups: seq<(string, string)>, n: nat): (r: seq<string>)
    requires n <= |groups|
    ensures |r| == |paths|
    decreases n
  {
    if n == 0 then paths
    else RestoreFrom(RestoreOne(paths, groups[n - 1]), groups, n - 1)
  }

  /** The restoring loop the code evidently intends (the replacement stored back into the
      segment): every group in reverse discovery order, each in the last segment
      holding its marker, and no other segment touched. */
  method RestoreGroupMarks(paths: seq<string>, groups: seq<(string, string)>) returns (r: seq<string>)
    ensures r == RestoreFrom(paths, groups, |groups|)
  {
    r := paths;
    var i := |groups| - 1;
    while i >= 0
      invariant -1 <= i < |groups|
      invariant RestoreFrom(r, groups, i + 1) == RestoreFrom(paths, groups, |groups|)
    {
      assert RestoreFrom(r, groups, i + 1) == RestoreFrom(RestoreOne(r, groups[i]), groups, i);
      r := RestoreMark(r, groups[i]);
      i := i - 1;
    }
  }

  /** The inner loop of the restoring step, for one group. */
  method RestoreMark(paths: seq<string>, group: (string, string)) returns (r: seq<string>)
    ensures r == RestoreOne(paths, group)
  {
    r := paths;
    var j := |paths| - 1;
    while j >= 0
      invariant -1 <= j < |paths|
      invariant forall k :: j < k < |paths| ==> !Contains(paths[k], group.0)
    {
      if Contains(paths[j], group.0) {
        assert LastContaining(paths, group.0, |paths|) == Some(j) by {
          LastContainingIsLast(paths, group.0, |paths|, j);
        }
        r := paths[j := ReplaceFirst(paths[j], group.0, group.1)];
        return;
      }
      j := j - 1;
    }
    assert LastContaining(paths, group.0, |paths|) == None;
  }

  lemma {:induction false} LastContainingIsLast(paths: seq<string>, mark: string, n: nat, j: nat)
    requires j < n <= |paths|
    requires Contains(paths[j], mark)
    requires forall k :: j < k < n ==> !Contains(paths[k], mark)
    ensures LastContaining(paths, mark, n) == Some(j)
    decreases n
  {
    if n - 1 != j {
      LastContainingIsLast(paths, mark, n - 1, j);
    }
  }

  /** `splitRoutingPath` with the restoring step the code evidently intends (the replacement stored back). */
  method SplitRoutingPathRestored(routePath: string) returns (segments: seq<string>)
    ensures segments == RestoreFrom(SplitPath(Scan(routePath, 0).text), MarkPairs(Scan(routePath, 0).groups), |Scan(routePath, 0).groups|)
  {
    var groups, path := ExtractGroupsFromPath(routePath);
    var paths := SplitPath(path);
    segments := RestoreGroupMarks(paths, groups);
  }

  // ---------------------------------------------------------------------
  // getPattern and its cache

  /** What a label is matched with: any value, or the regular expression built from `source`. */
  datatype Matcher = AnyValue | Regex(source: string)

  /** A compiled route segment: the wildcard, or `[label, name, matcher]`. */
  datatype Pattern = Wildcard | Param(segment: string, name: string, matcher: Matcher)

  predicate IsLineTerminator(c: char)
  {
    c == '\n' || c == '\r' || c == '\U{2028}' || c == '\U{2029}'
  }

  predicate NoLineTerminator(s: string)
  {
    forall i :: 0 <= i < |s| ==> !IsLineTerminator(s[i])
  }

  predicate IsBrace(c: char)
  {
    c == '{' || c == '}'
  }

  /** Length of the longest prefix of `s` without `{` or `}`. */
  function BraceFreePrefix(s: string): (n: nat)
    ensures n <= |s|
    ensures forall i :: 0 <= i < n ==> !IsBrace(s[i])
    ensures n < |s| ==> IsBrace(s[n])
  {
    if s == [] || IsBrace(s[0]) then 0 else 1 + BraceFreePrefix(s[1..])
  }

  /** A match of `/^\:([^\{\}]+)(?:\{(.+)\})?$/`: the name and the regular-expression
      source, the latter empty when the braced part is absent. */
  function ParseLabel(segment: string): Option<(string, string)>
  {
    if |segment| < 2 || segment[0] != ':' then None
    else
      var body := segment[1..];
      var n := BraceFreePrefix(body);
      if n == 0 then None
      else if n == |body| then Some((body, ""))
      else if body[n] == '{' && n + 3 <= |body| && body[|body| - 1] == '}' && NoLineTerminator(body[n + 1..|body| - 1])
      then Some((body[..n], body[n + 1..|body| - 1]))
      else None
  }

  /** A parameter name: at least one character, no braces. */
  predicate IsParamName(name: string)
  {
    name != "" && forall i :: 0 <= i < |name| ==> !IsBrace(name[i])
  }

  /** The label grammar `":" + name + ("" | "{" + re + "}")`. */
  function Label(name: string, re: string): string
  {
    ":" + name + (if re == "" then "" else "{" + re + "}")
  }

  lemma {:induction false} BraceFreePrefixOf(name: string, rest: string)
    requires forall i :: 0 <= i < |name| ==> !IsBrace(name[i])
    requires rest == "" || IsBrace(rest[0])
    ensures BraceFreePrefix(name + rest) == |name|
  {
    var s := name + rest;
    if name != [] {
      assert s[0] == name[0];
      assert s[1..] == name[1..] + rest;
      BraceFreePrefixOf(name[1..], rest);
      assert BraceFreePrefix(s) == 1 + BraceFreePrefix(s[1..]);
    } else {
      assert s == rest;
    }
  }

  /** Every label of the grammar is accepted, with its name and source given back. */
  lemma ParseLabelOfLabel(name: string, re: string)
    requires IsParamName(name) && NoLineTerminator(re)
    ensures ParseLabel(Label(name, re)) == Some((name, re))
  {
    var segment := Label(name, re);
    var rest := if re == "" then "" else "{" + re + "}";
    var body := segment[1..];
    assert body == name + rest;
    BraceFreePrefixOf(name, rest);
    assert segment[0] == ':' && |segment| >= 2;
    if re != "" {
      BracedBody(name, re, body);
    } else {
      assert body == name;
    }
  }

  /** The parts of `name{re}` at the positions `ParseLabel` looks at. */
  lemma BracedBody(name: string, re: string, body: string)
    requires body == name + "{" + re + "}"
    ensures |body| == |name| + |re| + 2
    ensures body[|name|] == '{' && body[|body| - 1] == '}'
    ensures body[..|name|] == name && body[|name| + 1..|body| - 1] == re
  {
  }

  /** Everything the regular expression accepts belongs to the grammar. */
  lemma ParseLabelSound(segment: string)
    requires ParseLabel(segment).Some?
    ensures var (name, re) := ParseLabel(segment).value;
      IsParamName(name) && NoLineTerminator(re) && segment == Label(name, re)
  {
    var body := segment[1..];
    var n := BraceFreePrefix(body);
    assert segment == ":" + body;
    if n < |body| {
      LabelOfBraced(segment, body, n);
    } else {
      assert segment == Label(body, "");
    }
  }

  /** A segment `:` + body whose body has a `{` at `n`, a `}` at its end and something between. */
  lemma LabelOfBraced(segment: string, body: string, n: nat)
    requires segment == ":" + body && n + 3 <= |body| && body[n] == '{' && body[|body| - 1] == '}'
    ensures segment == Label(body[..n], body[n + 1..|body| - 1])
  {
    var name, re := body[..n], body[n + 1..|body| - 1];
    assert body == name + [body[n]] + re + [body[|body| - 1]];
  }

  /** The label regular expression accepts exactly the grammar, and gives back its parts. */
  lemma ParseLabelIff(segment: string, name: string, re: string)
    ensures ParseLabel(segment) == Some((name, re)) <==>
      IsParamName(name) && NoLineTerminator(re) && segment == Label(name, re)
  {
    if IsParamName(name) && NoLineTerminator(re) && segment == Label(name, re) {
      ParseLabelOfLabel(name, re);
    }
    if ParseLabel(segment) == Some((name, re)) {
      ParseLabelSound(segment);
    }
  }

  /** `getPattern` without its cache: `*`, a parameter pattern, or null. */
  function Classify(segment: string): Option<Pattern>
  {
    if segment == "*" then Some(Wildcard)
    else
      match ParseLabel(segment)
      case None => None
      case Some((name, re)) =>
        if re == "" then Some(Param(segment, name, AnyValue))
        else Some(Param(segment, name, Regex("^" + re + "$")))
  }

  /** The four outcomes of `getPattern`, in the terms of the label grammar. */
  lemma ClassifyCases(segment: string)
    ensures segment == "*" ==> Classify(segment) == Some(Wildcard)
    ensures segment != "*" && ParseLabel(segment).None? ==> Classify(segment).None?
    ensures forall name :: IsParamName(name) && segment == ":" + name ==>
      Classify(segment) == Some(Param(segment, name, AnyValue))
    ensures forall name, re :: IsParamName(name) && re != "" && NoLineTerminator(re) && segment == Label(name, re) ==>
      Classify(segment) == Some(Param(segment, name, Regex("^" + re + "$")))
  {
    forall name | IsParamName(name) && segment == ":" + name
      ensures Classify(segment) == Some(Param(segment, name, AnyValue))
    {
      assert segment == Label(name, "");
      ParseLabelIff(segment, name, "");
    }
    forall name, re | IsParamName(name) && re != "" && NoLineTerminator(re) && segment == Label(name, re)
      ensures Classify(segment) == Some(Param(segment, name, Regex("^" + re + "$")))
    {
      ParseLabelIff(segment, name, re);
    }
  }

  /** The process-wide `patternCache` of compiled labels. */
  class PatternCache {
    var entries: map<string, Pattern>

    /** Every cached entry is what its label compiles to. */
    ghost predicate Valid()
      reads this
    {
      forall segment :: segment in entries ==> Classify(segment) == Some(entries[segment]) && entries[segment].Param?
    }

    constructor ()
      ensures Valid() && entries == map[]
    {
      entries := map[];
    }

    /** `getPattern(label)`: classifies the label, stores a parameter pattern under it on
        first use, and returns the stored entry on every later use. */
    method GetPattern(segment: string) returns (r: Option<Pattern>)
      requires Valid()
      modifies this
      ensures Valid()
      ensures r == Classify(segment)
      ensures segment in old(entries) ==> r == Some(old(entries)[segment]) && entries == old(entries)
      ensures segment !in old(entries) && r.Some? && r.value.Param? ==> entries == old(entries)[segment := r.value]
      ensures segment !in old(entries) && (r.None? || r == Some(Wildcard)) ==> entries == old(entries)
    {
      if segment == "*" {
        return Some(Wildcard);
      }
      var m := ParseLabel(segment);
      if m.None? {
        return None;
      }
      if segment !in entries {
        var name, re := m.value.0, m.value.1;
        if re != "" {
          entries := entries[segment := Param(segment, name, Regex("^" + re + "$"))];
        } else {
          entries := entries[segment := Param(segment, name, AnyValue)];
        }
      }
      r := Some(entries[segment]);
    }
  }

  /** Two lookups of one label: the second returns the entry the first stored and leaves
      the cache as the first left it. */
  method GetPatternTwice(cache: PatternCache, segment: string) returns (first: Option<Pattern>, second: Option<Pattern>)
    requires cache.Valid()
    modifies cache
    ensures first == second == Classify(segment)
    ensures first.Some? && first.value.Param? ==> segment in cache.entries && cache.entries[segment] == first.value
  {
    first := cache.GetPattern(segment);
    ghost var afterFirst := cache.entries;
    second := cache.GetPattern(segment);
    assert cache.entries == afterFirst;
  }

  // ---------------------------------------------------------------------
  // getPath, getQueryStrings, getPathNoStrict

  /** The part of `s` before its first `?`. */
  function BeforeQuery(s: string): (r: string)
    ensures '?' !in r && StartsWith(s, r)
    ensures |r| < |s| ==> s[|r|] == '?'
  {
    if '?' in s then s[..IndexOf(s, '?')] else s
  }

  /** The path matched by `(\/[^?]*)` after `[^/]+` in the text following the scheme. */
  function PathAfterScheme(rest: string): string
  {
    if '/' !in rest then ""
    else
      var h := IndexOf(rest, '/');
      if h == 0 then "" else BeforeQuery(rest[h..])
  }

  /** `getPath(request)` on the request's URL: the match of `/^https?:\/\/[^/]+(\/[^?]*)/`,
      or `""` when the URL does not have that shape. */
  function GetPath(url: string): (r: string)
    ensures r == "" || (r[0] == '/' && '?' !in r)
  {
    if StartsWith(url, "https://") then PathAfterScheme(url[8..])
    else if StartsWith(url, "http://") then PathAfterScheme(url[7..])
    else ""
  }

  lemma BeforeQueryOf(path: string, query: string)
    requires '?' !in path
    requires query == "" || query[0] == '?'
    ensures BeforeQuery(path + query) == path
  {
    if query != "" {
      assert (path + query)[|path|] == '?';
      assert (path + query)[..|path|] == path;
    }
  }

  lemma PathAfterSchemeOf(host: string, path: string, query: string)
    requires host != "" && '/' !in host
    requires |path| > 0 && path[0] == '/' && '?' !in path
    requires query == "" || query[0] == '?'
    ensures PathAfterScheme(host + path + query) == path
  {
    var rest := host + (path + query);
    assert rest == host + path + query;
    assert rest[|host|] == '/';
    assert rest[..|host|] == host;
    assert IndexOf(rest, '/') == |host|;
    assert rest[|host|..] == path + query;
    BeforeQueryOf(path, query);
  }

  lemma GetPathOfScheme(scheme: string, rest: string)
    requires scheme == "http://" || scheme == "https://"
    ensures GetPath(scheme + rest) == PathAfterScheme(rest)
  {
    var url := scheme + rest;
    assert url[..|scheme|] == scheme;
    assert url[|scheme|..] == rest;
    if scheme == "http://" {
      assert url[4] == ':';
      assert !StartsWith(url, "https://");
    }
  }

  /** Composing a URL from a scheme, a host, a path and a query and taking the path
      out again gives the path back. */
  lemma GetPathOfUrl(scheme: string, host: string, path: string, query: string)
    requires scheme == "http://" || scheme == "https://"
    requires host != "" && '/' !in host
    requires |path| > 0 && path[0] == '/' && '?' !in path
    requires query == "" || query[0] == '?'
    ensures GetPath(scheme + host + path + query) == path
  {
    var rest := host + path + query;
    assert scheme + host + path + query == scheme + rest;
    GetPathOfScheme(scheme, rest);
    PathAfterSchemeOf(host, path, query);
  }

  /** Conversely, a non-empty path comes from a URL made of a scheme, a non-empty host
      without `/`, the path, and a query that is empty or starts with `?`. */
  lemma GetPathShape(url: string) returns (scheme: string, host: string, query: string)
    requires GetPath(url) != ""
    ensures scheme == "http://" || scheme == "https://"
    ensures host != "" && '/' !in host
    ensures query == "" || query[0] == '?'
    ensures url == scheme + host + GetPath(url) + query
  {
    scheme := if StartsWith(url, "https://") then "https://" else "http://";
    var rest := url[|scheme|..];
    assert url == scheme + rest;
    GetPathOfScheme(scheme, rest);
    host, query := PathAfterSchemeShape(rest);
    ConcatOfParts(url, scheme, rest, host, GetPath(url) + query, GetPath(url), query);
  }

  /** The text after the scheme, split around a non-empty path. */
  lemma PathAfterSchemeShape(rest: string) returns (host: string, query: string)
    requires PathAfterScheme(rest) != ""
    ensures host != "" && '/' !in host
    ensures query == "" || query[0] == '?'
    ensures rest == host + (PathAfterScheme(rest) + query)
  {
    PathAfterSchemeUnfold(rest);
    var h := IndexOf(rest, '/');
    var tail := rest[h..];
    host := rest[..h];
    query := BeforeQuerySplit(tail);
    assert rest == host + tail;
  }

  lemma PathAfterSchemeUnfold(rest: string)
    requires PathAfterScheme(rest) != ""
    ensures '/' in rest && IndexOf(rest, '/') > 0
    ensures PathAfterScheme(rest) == BeforeQuery(rest[IndexOf(rest, '/')..])
  {
  }

  /** The text after the path: empty, or the query starting at `?`. */
  lemma BeforeQuerySplit(t: string) returns (query: string)
    ensures query == "" || query[0] == '?'
    ensures t == BeforeQuery(t) + query
  {
    var path := BeforeQuery(t);
    query := t[|path|..];
    assert t[..|path|] == path;
  }

  lemma ConcatOfParts(url: string, scheme: string, rest: string, host: string, tail: string, path: string, query: string)
    requires url == scheme + rest && rest == host + tail && tail == path + query
    ensures url == scheme + host + path + query
  {
  }

  /** With an `http://` or `https://` scheme, the path is empty exactly when the rest
      has no `/` (`http://host`) or starts with one, leaving the host empty (`http:///x`). */
  lemma GetPathEmptyIff(scheme: string, rest: string)
    requires scheme == "http://" || scheme == "https://"
    ensures GetPath(scheme + rest) == "" <==> '/' !in rest || rest[0] == '/'
  {
    GetPathOfScheme(scheme, rest);
    if '/' in rest {
      var h := IndexOf(rest, '/');
      var tail := rest[h..];
      if h > 0 {
        assert tail[0] == '/';
        assert StartsWith(tail, BeforeQuery(tail));
      } else {
        assert rest[0] == '/';
      }
    }
  }

  /** A URL that is not `http://` or `https://` has no path. */
  lemma GetPathRejectsOtherSchemes(url: string)
    requires !StartsWith(url, "http://") && !StartsWith(url, "https://")
    ensures GetPath(url) == ""
  {
  }

  /** `getQueryStrings(url)`: `""` when there is no `?` at index 8 or later, otherwise
      `?` followed by everything after the first such `?` (the query and fragment). */
  function GetQueryStrings(url: string): (r: string)
    ensures r == "" <==> forall i :: 8 <= i < |url| ==> url[i] != '?'
    ensures r != "" ==> |r| + 8 <= |url| && r == url[|url| - |r|..] && r[0] == '?'
    ensures r != "" ==> forall i :: 8 <= i < |url| - |r| ==> url[i] != '?'
  {
    match IndexOfFrom(url, '?', 8)
    case None => ""
    case Some(q) =>
      assert url[q..] == "?" + url[q + 1..];
      "?" + url[q + 1..]
  }

  /** `getPathNoStrict(request)`: the path with one trailing `/` removed when the path is
      longer than `/` itself. */
  function GetPathNoStrict(url: string): (r: string)
    ensures var p := GetPath(url);
      if |p| > 1 && p[|p| - 1] == '/' then r + "/" == p else r == p
  {
    var result := GetPath(url);
    if |result| > 1 && result[|result| - 1] == '/' then result[..|result| - 1] else result
  }

  /** Only one slash goes: a path ending in `//` keeps one. */
  lemma GetPathNoStrictRemovesOneSlash(url: string)
    requires var p := GetPath(url); |p| > 2 && p[|p| - 1] == '/' && p[|p| - 2] == '/'
    ensures var r := GetPathNoStrict(url); |r| > 1 && r[|r| - 1] == '/'
  {
    var p := GetPath(url);
    var r := GetPathNoStrict(url);
    assert r + "/" == p;
    assert r[|r| - 1] == (r + "/")[|p| - 2];
  }

  // ---------------------------------------------------------------------
  // mergePath

  /** The loop variables of `mergePath`. */
  datatype MergeState = MergeState(p: string, endsWithSlash: bool)

  /** `p` without the one trailing `/` it may have. */
  function DropTrailingSlash(p: string): string
  {
    if p != "" && p[|p| - 1] == '/' then p[..|p| - 1] else p
  }

  /** `path` with a `/` put in front unless it already starts with one. */
  function Rooted(path: string): (q: string)
    ensures q != "" && q[0] == '/'
    ensures path != "" && path[0] == '/' ==> q == path
    ensures path == "" || path[0] != '/' ==> q == "/" + path
  {
    if path == "" || path[0] != '/' then "/" + path else path
  }

  /** One iteration of the `for … of paths` loop of `mergePath`. */
  function MergeStep(st: MergeState, path: string): MergeState
  {
    var endsWithSlash := (st.p != "" && st.p[|st.p| - 1] == '/') || st.endsWithSlash;
    var p := DropTrailingSlash(st.p);
    var q := Rooted(path);
    if q == "/" && endsWithSlash then MergeState(p + "/", endsWithSlash)
    else if q != "/" then MergeState(p + q, endsWithSlash)
    else if p == "" then MergeState("/", endsWithSlash)
    else MergeState(p, endsWithSlash)
  }

  function MergeAll(st: MergeState, paths: seq<string>): MergeState
    decreases |paths|
  {
    if paths == [] then st else MergeAll(MergeStep(st, paths[0]), paths[1..])
  }

  /** What `mergePath(...paths)` returns. */
  function Merged(paths: seq<string>): string
  {
    MergeAll(MergeState("", false), paths).p
  }

  /** `mergePath(...paths)`. */
  method MergePath(paths: seq<string>) returns (p: string)
    ensures p == Merged(paths)
  {
    p := "";
    var endsWithSlash := false;
    for i := 0 to |paths|
      invariant MergeAll(MergeState(p, endsWithSlash), paths[i..]) == MergeAll(MergeState("", false), paths)
    {
      assert paths[i..][1..] == paths[i + 1..];
      var path := paths[i];
      if p != "" && p[|p| - 1] == '/' {
        p := p[..|p| - 1];
        endsWithSlash := true;
      }
      if path == "" || path[0] != '/' {
        path := "/" + path;
      }
      if path == "/" && endsWithSlash {
        p := p + "/";
      } else if path != "/" {
        p := p + path;
      }
      if path == "/" && p == "" {
        p := "/";
      }
    }
  }

  /** The examples of the router's own usage. */
  lemma MergedExamples()
    ensures Merged([]) == ""
    ensures Merged(["/a/", "/b"]) == "/a/b"
    ensures Merged(["/", "/"]) == "/"
    ensures Merged(["/a", "/"]) == "/a"
    ensures Merged(["a"]) == "/a"
  {
    MergedOfTwo("/a/", "/b");
    MergedOfTwo("/", "/");
    MergedOfTwo("/a", "/");
    MergedOfOne("a");
    MergeStepsFromEmpty();
    MergeStepsAfterPath();
  }

  lemma MergedOfOne(a: string)
    ensures Merged([a]) == MergeStep(MergeState("", false), a).p
  {
    var st := MergeStep(MergeState("", false), a);
    assert [a][0] == a && [a][1..] == [];
    assert MergeAll(MergeState("", false), [a]) == MergeAll(st, []);
  }

  lemma MergedOfTwo(a: string, b: string)
    ensures Merged([a, b]) == MergeStep(MergeStep(MergeState("", false), a), b).p
  {
    var st := MergeStep(MergeState("", false), a);
    assert [a, b][0] == a && [a, b][1..] == [b];
    assert MergeAll(MergeState("", false), [a, b]) == MergeAll(st, [b]);
    assert [b][0] == b && [b][1..] == [];
    assert MergeAll(st, [b]) == MergeAll(MergeStep(st, b), []);
  }

  lemma MergeStepsFromEmpty()
    ensures MergeStep(MergeState("", false), "/a/") == MergeState("/a/", false)
    ensures MergeStep(MergeState("", false), "/") == MergeState("/", false)
    ensures MergeStep(MergeState("", false), "/a") == MergeState("/a", false)
    ensures MergeStep(MergeState("", false), "a") == MergeState("/a", false)
  {
  }

  lemma MergeStepsAfterPath()
    ensures MergeStep(MergeState("/a/", false), "/b") == MergeState("/a/b", true)
    ensures MergeStep(MergeState("/", false), "/") == MergeState("/", true)
    ensures MergeStep(MergeState("/a", false), "/") == MergeState("/a", false)
  {
    assert "/a/"[..2] == "/a";
    assert "/"[..0] == "";
  }

  /** After any fragment an empty or absolute accumulated path is absolute. */
  lemma MergeStepAbsolute(st: MergeState, path: string)
    requires st.p == "" || st.p[0] == '/'
    ensures var p := MergeStep(st, path).p; p != "" && p[0] == '/'
  {
    var p := DropTrailingSlash(st.p);
    assert p == "" || p[0] == '/';
  }

  /** Merging one or more fragments always yields an absolute path. */
  lemma {:induction false} MergedIsAbsolute(st: MergeState, paths: seq<string>)
    requires st.p == "" || st.p[0] == '/'
    ensures var p := MergeAll(st, paths).p; p == "" || p[0] == '/'
    ensures paths != [] ==> MergeAll(st, paths).p != ""
    decreases |paths|
  {
    if paths != [] {
      MergeStepAbsolute(st, paths[0]);
      MergedIsAbsolute(MergeStep(st, paths[0]), paths[1..]);
    }
  }

  /** The text with every `/` removed. */
  function WithoutSlashes(s: string): (r: string)
    ensures |r| <= |s|
  {
    if s == [] then [] else (if s[0] == '/' then [] else [s[0]]) + WithoutSlashes(s[1..])
  }

  lemma {:induction false} WithoutSlashesConcat(a: string, b: string)
    ensures WithoutSlashes(a + b) == WithoutSlashes(a) + WithoutSlashes(b)
  {
    if a == [] {
      assert a + b == b;
    } else {
      assert (a + b)[0] == a[0];
      assert (a + b)[1..] == a[1..] + b;
      WithoutSlashesConcat(a[1..], b);
    }
  }

  function Concat(paths: seq<string>): string
  {
    if paths == [] then "" else paths[0] + Concat(paths[1..])
  }

  lemma MergeStepKeepsText(st: MergeState, path: string)
    ensures WithoutSlashes(MergeStep(st, path).p) == WithoutSlashes(st.p) + WithoutSlashes(path)
  {
    var p := DropTrailingSlash(st.p);
    var q := Rooted(path);
    assert WithoutSlashes(p) == WithoutSlashes(st.p) by {
      if p != st.p {
        assert st.p == p + "/";
        WithoutSlashesConcat(p, "/");
      }
    }
    assert WithoutSlashes(q) == WithoutSlashes(path) by {
      if q != path {
        WithoutSlashesConcat("/", path);
      }
    }
    assert WithoutSlashes("/") == "";
    WithoutSlashesConcat(p, "/");
    WithoutSlashesConcat(p, q);
  }

  /** `mergePath` only adds or removes separators: with every `/` taken out, the result
      reads the same as the fragments put end to end. */
  lemma {:induction false} MergedKeepsText(st: MergeState, paths: seq<string>)
    ensures WithoutSlashes(MergeAll(st, paths).p) == WithoutSlashes(st.p) + WithoutSlashes(Concat(paths))
    decreases |paths|
  {
    if paths != [] {
      MergeStepKeepsText(st, paths[0]);
      MergedKeepsText(MergeStep(st, paths[0]), paths[1..]);
      WithoutSlashesConcat(paths[0], Concat(paths[1..]));
    }
  }

  /** No `//` anywhere in the text. */
  predicate NoDoubleSlash(s: string)
  {
    forall i :: 0 <= i < |s| - 1 ==> s[i] != '/' || s[i + 1] != '/'
  }

  lemma MergeStepNoDoubleSlash(st: MergeState, path: string)
    requires NoDoubleSlash(st.p) && NoDoubleSlash(path)
    ensures NoDoubleSlash(MergeStep(st, path).p)
  {
    var p := DropTrailingSlash(st.p);
    assert p == "" || p[|p| - 1] != '/' by {
      if p != st.p && p != "" {
        assert st.p[|st.p| - 2] == p[|p| - 1];
      }
    }
    assert NoDoubleSlash(p);
    var q := Rooted(path);
    assert NoDoubleSlash(q) by {
      if path == "" || path[0] != '/' {
        forall i | 0 <= i < |q| - 1 ensures q[i] != '/' || q[i + 1] != '/' {
          if i > 0 { assert q[i] == path[i - 1] && q[i + 1] == path[i]; }
        }
      }
    }
    NoDoubleSlashConcat(p, q);
    NoDoubleSlashConcat(p, "/");
  }

  lemma NoDoubleSlashConcat(a: string, b: string)
    requires NoDoubleSlash(a) && NoDoubleSlash(b)
    requires a == "" || b == "" || a[|a| - 1] != '/' || b[0] != '/'
    ensures NoDoubleSlash(a + b)
  {
    var s := a + b;
    forall i | 0 <= i < |s| - 1 ensures s[i] != '/' || s[i + 1] != '/' {
      if i + 1 < |a| {
        assert s[i] == a[i] && s[i + 1] == a[i + 1];
      } else if i >= |a| {
        assert s[i] == b[i - |a|] && s[i + 1] == b[i + 1 - |a|];
      }
    }
  }

  /** Joining fragments that have no `//` in them never produces one: a slash ending
      the accumulated path and a slash starting the next fragment collapse into one. */
  lemma {:induction false} MergedNoDoubleSlash(st: MergeState, paths: seq<string>)
    requires NoDoubleSlash(st.p)
    requires forall i :: 0 <= i < |paths| ==> NoDoubleSlash(paths[i])
    ensures NoDoubleSlash(MergeAll(st, paths).p)
    decreases |paths|
  {
    if paths != [] {
      MergeStepNoDoubleSlash(st, paths[0]);
      MergedNoDoubleSlash(MergeStep(st, paths[0]), paths[1..]);
    }
  }

  // ---------------------------------------------------------------------
  // The group markers as written and as restored

  /** The scan of the template `/{a/b}/:id`: one group at offset 1. */
  lemma ScanExample(s: string)
    requires s == "/{a/b}/:id"
    ensures Scan(s, 0) == Extraction("/@1/:id", [Group(1, "{a/b}")])
  {
    ScanExampleTail(s);
    GroupEndExample(s);
    ScanAtGroup(s, 1, 6);
    assert s[1..6] == "{a/b}";
    assert Mark(1) == "@1";
    ScanAtOther(s, 0);
  }

  lemma ScanExampleTail(s: string)
    requires s == "/{a/b}/:id"
    ensures Scan(s, 6) == Extraction("/:id", [])
  {
    assert s[6..] == "/:id";
    assert '{' !in s[6..];
    ScanWithoutBraces(s, 6);
  }

  lemma GroupEndExample(s: string)
    requires s == "/{a/b}/:id"
    ensures GroupEnd(s, 0) == None && GroupEnd(s, 1) == Some(6)
  {
    assert s[5] == '}' && IndexOfFrom(s, '}', 5) == Some(5);
    assert s[4] != '}' && IndexOfFrom(s, '}', 4) == Some(5);
    assert s[3] != '}' && IndexOfFrom(s, '}', 3) == Some(5);
    assert s[2] != '}' && IndexOfFrom(s, '}', 2) == Some(5);
  }

  lemma SplitExample(t: string)
    requires t == "/@1/:id"
    ensures SplitPath(t) == ["@1", ":id"]
  {
    assert t[..0] == "";
    SplitAt(t, '/', 0);
    SplitMarkerTail(t[1..]);
  }

  lemma SplitMarkerTail(u: string)
    requires u == "@1/:id"
    ensures Split(u, '/') == ["@1", ":id"]
  {
    assert u[2] == '/' && u[..2] == "@1";
    SplitAt(u, '/', 2);
    assert u[3..] == ":id";
    assert '/' !in u[3..];
  }

  /** On the template `/{a/b}/:id`, the routing segments as written still hold the
      marker `@1` where the group stood. */
  lemma SplitRoutingPathKeepsMarker(route: string)
    requires route == "/{a/b}/:id"
    ensures SplitPath(Scan(route, 0).text) == ["@1", ":id"]
  {
    ScanExample(route);
    SplitExample("/@1/:id");
  }

  lemma IdHoldsNoMarker(s: string, mark: string)
    requires s == ":id" && mark == "@1"
    ensures !Contains(s, mark)
  {
    forall k: nat ensures !MatchAt(s, mark, k) {
      if k + 2 <= |s| {
        assert s[k..k + 2][0] == s[k];
        assert s[k] != '@';
      }
    }
  }

  lemma RestoreExample()
    ensures RestoreOne(["@1", ":id"], ("@1", "{a/b}")) == ["{a/b}", ":id"]
  {
    var paths: seq<string> := ["@1", ":id"];
    IdHoldsNoMarker(":id", "@1");
    assert MatchAt("@1", "@1", 0);
    assert Contains(paths[0], "@1");
    LastContainingIsLast(paths, "@1", 2, 0);
    assert ReplaceFirst("@1", "@1", "{a/b}") == "{a/b}";
  }

  /** With the restoring step, the same template gives the group back as one segment. */
  lemma SplitRoutingPathRestoresGroup(route: string)
    requires route == "/{a/b}/:id"
    ensures RestoreFrom(SplitPath(Scan(route, 0).text), MarkPairs(Scan(route, 0).groups), |Scan(route, 0).groups|)
      == ["{a/b}", ":id"]
  {
    var e := Scan(route, 0);
    ScanExample(route);
    SplitExample(e.text);
    MarkPairsExample(e.groups);
    RestoreFromExample(SplitPath(e.text), MarkPairs(e.groups));
  }

  lemma MarkPairsExample(gs: seq<Group>)
    requires gs == [Group(1, "{a/b}")]
    ensures MarkPairs(gs) == [("@1", "{a/b}")]
  {
    assert Mark(1) == "@1";
  }

  lemma RestoreFromExample(paths: seq<string>, pairs: seq<(string, string)>)
    requires paths == ["@1", ":id"] && pairs == [("@1", "{a/b}")]
    ensures RestoreFrom(paths, pairs, 1) == ["{a/b}", ":id"]
  {
    RestoreExample();
    assert RestoreFrom(paths, pairs, 1) == RestoreFrom(RestoreOne(paths, pairs[0]), pairs, 0);
  }

  /** A marker not present in any segment leaves the segments alone. */
  lemma RestoreOneAbsent(paths: seq<string>, group: (string, string))
    requires forall k :: 0 <= k < |paths| ==> !Contains(paths[k], group.0)
    ensures RestoreOne(paths, group) == paths
  {
  }

  /** A template without groups splits the same with or without the restoring step. */
  lemma SplitRoutingPathWithoutGroups(routePath: string)
    requires '{' !in routePath
    ensures SplitPath(Scan(routePath, 0).text) == SplitPath(routePath)
    ensures RestoreFrom(SplitPath(Scan(routePath, 0).text), MarkPairs(Scan(routePath, 0).groups), |Scan(routePath, 0).groups|)
      == SplitPath(routePath)
  {
    assert routePath[0..] == routePath;
    ScanWithoutBraces(routePath, 0);
  }

  // ---------------------------------------------------------------------
  // checkOptionalParameter

  /** `/\:.+\?$/.test(path)`: a `:`, then at least one character other than a line
      terminator up to a `?` that ends the path. */
  predicate MatchesOptional(path: string)
  {
    |path| >= 3 && path[|path| - 1] == '?' &&
    exists k :: 0 <= k < |path| - 2 && path[k] == ':' && NoLineTerminator(path[k + 1..|path| - 1])
  }

  /** The variables of the `forEach` in `checkOptionalParameter`. */
  datatype Expansion = Expansion(base: string, results: seq<string>)

  /** One segment of the `forEach`: literal segments extend the base path, a parameter
      segment with `?` records the path without it and the path with it. */
  function ExpandStep(e: Expansion, segment: string): Expansion
  {
    if segment != "" && ':' !in segment then Expansion(e.base + "/" + segment, e.results)
    else if ':' in segment then
      if '?' in segment then
        var without := if e.results == [] && e.base == "" then "/" else e.base;
        var base := e.base + "/" + ReplaceFirst(segment, "?", "");
        Expansion(base, e.results + [without, base])
      else Expansion(e.base + "/" + segment, e.results)
    else e
  }

  function ExpandAll(e: Expansion, segments: seq<string>): Expansion
    decreases |segments|
  {
    if segments == [] then e else ExpandAll(ExpandStep(e, segments[0]), segments[1..])
  }

  /** What `checkOptionalParameter(path)` returns: null, or the distinct paths of the
      expansion in order of first appearance. */
  function OptionalPaths(path: string): Option<seq<string>>
  {
    if !MatchesOptional(path) then None
    else Some(Dedup(ExpandAll(Expansion("", []), Split(path, '/')).results))
  }

  /** `checkOptionalParameter(path)`. */
  method CheckOptionalParameter(path: string) returns (r: Option<seq<string>>)
    ensures r == OptionalPaths(path)
  {
    if !MatchesOptional(path) {
      return None;
    }
    var segments := Split(path, '/');
    var basePath := "";
    var results: seq<string> := [];
    for i := 0 to |segments|
      invariant ExpandAll(Expansion(basePath, results), segments[i..]) == ExpandAll(Expansion("", []), segments)
    {
      assert segments[i..][1..] == segments[i + 1..];
      var segment := segments[i];
      ghost var before := Expansion(basePath, results);
      if segment != "" && ':' !in segment {
        basePath := basePath + "/" + segment;
      } else if ':' in segment {
        if '?' in segment {
          if |results| == 0 && basePath == "" {
            results := results + ["/"];
          } else {
            results := results + [basePath];
          }
          var optionalSegment := ReplaceFirst(segment, "?", "");
          basePath := basePath + "/" + optionalSegment;
          results := results + [basePath];
        } else {
          basePath := basePath + "/" + segment;
        }
      }
      assert Expansion(basePath, results) == ExpandStep(before, segment);
    }
    return Some(Dedup(results));
  }

  /** The base path is empty or absolute, and every recorded path is absolute and either
      `/` or a prefix of the base path. */
  ghost predicate ExpansionInvariant(e: Expansion)
  {
    (e.base == "" || e.base[0] == '/') &&
    (e.results != [] ==> e.base != "") &&
    forall k :: 0 <= k < |e.results| ==>
      e.results[k] != "" && e.results[k][0] == '/' && (e.results[k] == "/" || StartsWith(e.base, e.results[k]))
  }

  lemma ExpandStepInvariant(e: Expansion, segment: string)
    requires ExpansionInvariant(e)
    ensures ExpansionInvariant(ExpandStep(e, segment))
  {
    if segment != "" && ':' !in segment {
      ExtendKeepsInvariant(e, segment);
    } else if ':' in segment {
      if '?' in segment {
        var without := if e.results == [] && e.base == "" then "/" else e.base;
        ExtendKeepsInvariant(e, ReplaceFirst(segment, "?", ""));
        var e' := Expansion(e.base + "/" + ReplaceFirst(segment, "?", ""), e.results);
        RecordKeepsInvariant(e', without);
        RecordKeepsInvariant(Expansion(e'.base, e'.results + [without]), e'.base);
      } else {
        ExtendKeepsInvariant(e, segment);
      }
    }
  }

  /** Extending the base path keeps every recorded path a prefix of it. */
  lemma ExtendKeepsInvariant(e: Expansion, segment: string)
    requires ExpansionInvariant(e)
    ensures ExpansionInvariant(Expansion(e.base + "/" + segment, e.results))
  {
    var base := e.base + "/" + segment;
    assert base[..|e.base|] == e.base;
    forall k | 0 <= k < |e.results| && e.results[k] != "/"
      ensures StartsWith(base, e.results[k])
    {
      assert base[..|e.results[k]|] == e.base[..|e.results[k]|];
    }
  }

  /** Recording `/` or a prefix of the (non-empty, absolute) base path keeps the invariant. */
  lemma RecordKeepsInvariant(e: Expansion, path: string)
    requires ExpansionInvariant(e) && e.base != "" && e.base[0] == '/'
    requires path == "/" || (StartsWith(e.base, path) && path != "" && path[0] == '/')
    ensures ExpansionInvariant(Expansion(e.base, e.results + [path]))
  {
    var results := e.results + [path];
    assert forall k :: 0 <= k < |e.results| ==> results[k] == e.results[k];
  }

  lemma {:induction false} ExpandAllInvariant(e: Expansion, segments: seq<string>)
    requires ExpansionInvariant(e)
    ensures ExpansionInvariant(ExpandAll(e, segments))
    decreases |segments|
  {
    if segments != [] {
      ExpandStepInvariant(e, segments[0]);
      ExpandAllInvariant(ExpandStep(e, segments[0]), segments[1..]);
    }
  }

  /** Every path `checkOptionalParameter` returns is absolute, appears once, and is `/` or
      a prefix of the fully expanded path (all optional parameters present). */
  lemma OptionalPathsArePrefixes(path: string)
    requires OptionalPaths(path).Some?
    ensures var full := ExpandAll(Expansion("", []), Split(path, '/')).base;
      var r := OptionalPaths(path).value;
      NoDuplicates(r) &&
      forall k :: 0 <= k < |r| ==> r[k] != "" && r[k][0] == '/' && (r[k] == "/" || StartsWith(full, r[k]))
  {
    var e := ExpandAll(Expansion("", []), Split(path, '/'));
    ExpandAllInvariant(Expansion("", []), Split(path, '/'));
    var r := Dedup(e.results);
    forall k | 0 <= k < |r|
      ensures r[k] in e.results
    {
      assert r[k] in multiset(r);
    }
  }

  /** Some segment is an optional parameter. */
  predicate HasOptionalSegment(segments: seq<string>)
  {
    exists k :: 0 <= k < |segments| && ':' in segments[k] && '?' in segments[k]
  }

  lemma {:induction false} ExpandAllRecords(e: Expansion, segments: seq<string>)
    ensures |ExpandAll(e, segments).results| >= |e.results|
    ensures ExpandAll(e, segments).results == e.results <==> !HasOptionalSegment(segments)
    decreases |segments|
  {
    if segments != [] {
      var e' := ExpandStep(e, segments[0]);
      ExpandAllRecords(e', segments[1..]);
      if HasOptionalSegment(segments[1..]) {
        var k :| 0 <= k < |segments[1..]| && ':' in segments[1..][k] && '?' in segments[1..][k];
        assert segments[k + 1] == segments[1..][k];
      }
      if HasOptionalSegment(segments) && !HasOptionalSegment(segments[1..]) {
        var k :| 0 <= k < |segments| && ':' in segments[k] && '?' in segments[k];
        if k > 0 {
          assert segments[1..][k - 1] == segments[k];
        }
      }
    }
  }

  /** A path with an optional parameter in it yields at least one path; the other paths
      the pattern accepts (the `?` not in a parameter segment) yield none. */
  lemma OptionalPathsNonEmptyIff(path: string)
    requires OptionalPaths(path).Some?
    ensures OptionalPaths(path).value != [] <==> HasOptionalSegment(Split(path, '/'))
  {
    ExpandAllRecords(Expansion("", []), Split(path, '/'));
  }

  /** A path whose last character is not `?` is not expanded. */
  lemma OptionalPathsRequiresQuestionMark(path: string)
    requires path == "" || path[|path| - 1] != '?'
    ensures OptionalPaths(path).None?
  {
  }

  lemma DedupPair(a: string, b: string)
    requires a != b
    ensures Dedup([a, b]) == [a, b]
  {
    assert Dedup([a]) == [a];
    assert [a, b][..1] == [a];
  }

  lemma DropQuestionMark()
    ensures ReplaceFirst(":id?", "?", "") == ":id"
  {
    assert ":id?"[0..1] == ":" && ":id?"[1..2] == "i" && ":id?"[2..3] == "d";
    assert MatchAt(":id?", "?", 3);
  }

  lemma SplitUsersTail(u: string)
    requires u == "users/:id?"
    ensures Split(u, '/') == ["users", ":id?"]
  {
    UsersParts(u);
    SplitAt(u, '/', 5);
    assert Split(":id?", '/') == [":id?"];
  }

  lemma UsersParts(u: string)
    requires u == "users/:id?"
    ensures u[5] == '/' && u[..5] == "users" && '/' !in u[..5] && u[6..] == ":id?"
  {
  }

  lemma SplitUsersExample(p: string)
    requires p == "/users/:id?"
    ensures Split(p, '/') == ["", "users", ":id?"]
  {
    assert p[..0] == "";
    SplitAt(p, '/', 0);
    SplitUsersTail(p[1..]);
  }

  lemma ExpandOptional(e: Expansion, segment: string)
    requires ':' in segment && '?' in segment && e.base != ""
    ensures var base := e.base + "/" + ReplaceFirst(segment, "?", "");
      ExpandStep(e, segment) == Expansion(base, e.results + [e.base, base])
  {
  }

  lemma ExpandUsers(segments: seq<string>)
    requires segments == ["", "users", ":id?"]
    ensures ExpandAll(Expansion("", []), segments) == Expansion("/users/:id", ["/users", "/users/:id"])
  {
    DropQuestionMark();
    var e0 := ExpandStep(Expansion("", []), "");
    assert e0 == Expansion("", []);
    var e1 := ExpandStep(e0, "users");
    assert e1 == Expansion("/users", []);
    var e2 := ExpandStep(e1, ":id?");
    assert ":id?"[0] == ':' && ":id?"[3] == '?';
    ExpandOptional(e1, ":id?");
    assert "/users" + "/" + ":id" == "/users/:id";
    assert e2 == Expansion("/users/:id", ["/users", "/users/:id"]);
    assert ExpandAll(e2, []) == e2;
    assert segments[2..] == [":id?"] && segments[2..][1..] == [];
    assert ExpandAll(e1, segments[2..]) == e2;
    assert segments[1..] == ["users", ":id?"] && segments[1..][1..] == segments[2..];
    assert ExpandAll(e0, segments[1..]) == e2;
  }

  /** The usage example `/users/:id?`: the path without and with the parameter. */
  lemma OptionalPathsUsers(p: string)
    requires p == "/users/:id?"
    ensures OptionalPaths(p) == Some(["/users", "/users/:id"])
  {
    assert MatchesOptional(p) by {
      assert p[7] == ':' && NoLineTerminator(p[8..10]);
    }
    SplitUsersExample(p);
    ExpandUsers(Split(p, '/'));
    DedupPair("/users", "/users/:id");
  }

  /** The usage example `/:id?`: the root and the parameter. */
  lemma OptionalPathsRoot(p: string)
    requires p == "/:id?"
    ensures OptionalPaths(p) == Some(["/", "/:id"])
  {
    assert MatchesOptional(p) by {
      assert p[1] == ':' && NoLineTerminator(p[2..4]);
    }
    SplitRootExample(p);
    ExpandRoot(Split(p, '/'));
    DedupPair("/", "/:id");
  }

  lemma SplitRootExample(p: string)
    requires p == "/:id?"
    ensures Split(p, '/') == ["", ":id?"]
  {
    assert p[..0] == "";
    SplitAt(p, '/', 0);
    assert p[1..] == ":id?";
    assert '/' !in p[1..];
  }

  lemma ExpandRoot(segments: seq<string>)
    requires segments == ["", ":id?"]
    ensures ExpandAll(Expansion("", []), segments) == Expansion("/:id", ["/", "/:id"])
  {
    DropQuestionMark();
    var e0 := ExpandStep(Expansion("", []), "");
    assert e0 == Expansion("", []);
    assert ":id?"[0] == ':' && ":id?"[3] == '?';
    var e1 := ExpandStep(e0, ":id?");
    assert "" + "/" + ":id" == "/:id";
    assert e1 == Expansion("/:id", ["/", "/:id"]);
    assert ExpandAll(e1, []) == e1;
    assert segments[1..] == [":id?"] && segments[1..][1..] == [];
    assert ExpandAll(e0, segments[1..]) == e1;
  }

  // ---------------------------------------------------------------------
  // _decodeURI

  /** `value.replace(/\+/g, " ")`. */
  function ReplacePlus(value: string): (r: string)
    ensures |r| == |value| && '+' !in r
    ensures forall i :: 0 <= i < |value| && value[i] != '+' ==> r[i] == value[i]
    ensures forall i :: 0 <= i < |value| && value[i] == '+' ==> r[i] == ' '
    ensures '+' !in value ==> r == value
  {
    if value == [] then []
    else [if value[0] == '+' then ' ' else value[0]] + ReplacePlus(value[1..])
  }

  /** `_decodeURI(value)`. `decodeComponent` is `decodeURIComponent`, with `None` for the
      `URIError` it throws on a malformed escape. */
  function DecodeUri(value: string, decodeComponent: string -> Option<string>): (r: Option<string>)
    ensures '%' !in value && '+' !in value ==> r == Some(value)
    ensures '%' !in value ==> r.Some? && '+' !in r.value && |r.value| == |value|
    ensures '%' !in value ==> r == Some(ReplacePlus(value))
    ensures '%' in value ==> r == decodeComponent(ReplacePlus(value))
  {
    if '%' !in value && '+' !in value then Some(value)
    else
      var v := if '+' in value then ReplacePlus(value) else value;
      if '%' in v then decodeComponent(v) else Some(v)
  }

  /** Without escapes, decoding a decoded value changes nothing more. */
  lemma DecodeUriIdempotentWithoutEscapes(value: string, decodeComponent: string -> Option<string>)
    requires '%' !in value
    ensures DecodeUri(DecodeUri(value, decodeComponent).value, decodeComponent) == DecodeUri(value, decodeComponent)
  {
    var r := DecodeUri(value, decodeComponent).value;
    assert '%' !in r by {
      forall i | 0 <= i < |r| ensures r[i] != '%' {
        assert r[i] == value[i] || r[i] == ' ';
      }
    }
  }
}

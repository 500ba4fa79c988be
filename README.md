# Route paths, cookie helpers and the cookie jar

This project models three pieces of a small TypeScript web framework and proves
properties of them in Dafny.

- **Route-path utilities** (`hono/utils/url.ts`), modelled in `url.dfy`, module `Url`:
  - splitting a path into segments;
  - extracting `{…}` groups around the split;
  - classifying a route label into a pattern, with the process-wide pattern cache;
  - taking the path and the query out of a URL;
  - joining path fragments (`mergePath`);
  - expanding a trailing optional parameter (`checkOptionalParameter`);
  - the `+`/`%` handling of `_decodeURI`.
- **Cookie helpers** (`el/utils.ts`), modelled in `cookie_utils.dfy`, module `CookieUtils`:
  - the numeric-string test;
  - the sign/unsign protocol for signed cookies;
  - `isNotEmpty`, `mergeDeep` and `mergeObjectArray`.
- **The cookie entry and the jar** (`el/cookie.ts`), modelled in `cookie.dfy`, module `Cookies`:
  - the `Cookie` class, with its value and attribute setters, `add`, `set`, `remove`, `toString` and `sync`;
  - the jar proxy's `get` and `set`;
  - `parseCookie`.

`text.dfy` (module `Text`) holds the string operations the code uses: `split`, `join`,
`indexOf`, `includes`, `replace` of the first match, and decimal printing. `js.dfy`
(module `Js`) holds a value model of JavaScript values:
- `===`, truthiness, `typeof … === "object"`, loose `== false` and `trim`;
- the own enumerable entries of a value;
- the thrown errors;
- the foreign functions.

**State.** Where the source changes state, the model keeps it:
- `PatternCache` is a class whose `entries` map only grows.
- `Cookie`, `Attributes` (a property record), `Sink` (the response's `set` object) and
  `CookieJar` are classes. A record can be shared by several entries and by the response's
  cookie map, as in the source: `parseCookie` hands one record to every non-JSON cookie,
  and `sync` stores the entry's record itself in `set.cookie[name]`.
- `mergePath`, `checkOptionalParameter`, `extractGroupsFromPath`, `replaceGroupMarks`,
  `mergeDeep`, `mergeObjectArray` and `parseCookie` keep their loops. Each is a method
  proved against a function that specifies it.

**Foreign calls.** They are parameters of the model, collected in `Js.Runtime`:
- `Number(…)` and `Number.prototype.toString`;
- `JSON.stringify` and `JSON.parse`;
- the base64 HMAC digest, whose output only uses the base64 alphabet and so holds no `.`;
- `decodeURIComponent`;
- the cookie header parser, which yields key/value pairs with distinct keys;
- `isClass`.

**Two behaviours of the code worth knowing:**
- `mergePath("/a", "/")` is `"/a"`, not `"/a/"`: the trailing-slash flag is only set
  when the accumulated path ends in `/`.
- `toString()` of a `null` value is `JSON.stringify(null)` (`"null"`), because
  `typeof null` is `"object"`.

## Model

| member | source | states |
|---|---|---|
| Url.SplitPath | hono/utils/url.ts:3-7 | no segment contains `/` |
| Url.SplitPathRejoins | hono/utils/url.ts:3-7 | a path starting with `/` is `"/"` followed by its segments joined with `/`; any other path is its segments joined with `/` |
| Url.SplitPathDropsOneEmpty | hono/utils/url.ts:5 | only one leading empty segment is dropped: a path starting with `//` keeps an empty first segment |
| Url.SplitPathKeepsTrailingEmpty | hono/utils/url.ts:4-6 | a trailing `/` leaves an empty last segment |
| Url.GroupEnd | hono/utils/url.ts:18 | a match of `\{[^}]+\}` starts with `{`, ends with `}`, has at least one character between them and no `}` inside; conversely a `{` followed by at least one character and then the first `}` is a match ending at that `}`, and `{}` is not |
| Url.ExtractGroupsFromPath | hono/utils/url.ts:15-24 | the loop's rewritten path and recorded pairs are those of the left-to-right scan of the template |
| Url.ScanAtGroup | hono/utils/url.ts:18-21 | at a group the scan emits `@<offset>` and records the group's text |
| Url.ScanAtOther | hono/utils/url.ts:18 | anywhere else the scan copies the character and records nothing |
| Url.ScanStepGroup | hono/utils/url.ts:18-22 | a group at the scan position adds its marker to the text and the group to the recorded list |
| Url.ScanStepOther | hono/utils/url.ts:18-22 | a character outside any group is copied and records nothing |
| Url.ScanGroupsAreOriginal | hono/utils/url.ts:18-22 | every recorded group is the original text at its offset, is a well-formed `{…}` group, and the groups come in increasing, non-overlapping order |
| Url.ScanWithoutBraces | hono/utils/url.ts:18 | a template without `{` comes back unchanged and with no groups |
| Url.ExtractedPairs | hono/utils/url.ts:18-20 | each recorded pair is `@offset` and the text at that offset of the template, which is a well-formed `{…}` group |
| Url.ScanMissesNoGroup | hono/utils/url.ts:18 | the global `replace` misses no match: at every position outside the recorded groups, no group starts |
| Url.ScanTextIsSubstituted | hono/utils/url.ts:18-22 | the rewritten path is the template with each recorded group replaced by its marker, everything else copied |
| Url.ReplaceGroupMarks | hono/utils/url.ts:26-38 | returns its segments element for element unchanged, because the replacement result is discarded |
| Url.SplitRoutingPath | hono/utils/url.ts:9-13 | the routing segments are the segments of the marker-substituted template |
| Url.LastContaining | hono/utils/url.ts:30-31 | finds the last segment below `n` holding the marker, or reports that none does |
| Url.RestoreOne | hono/utils/url.ts:30-34 | restoring one group keeps the number of segments |
| Url.RestoreFrom | hono/utils/url.ts:27-36 | restoring the groups from last to first keeps the number of segments |
| Url.RestoreMark | hono/utils/url.ts:30-35 | the inner loop, with its result stored back, puts one group back in the last segment holding its marker |
| Url.RestoreGroupMarks | hono/utils/url.ts:26-38 | the nested loop, with results stored back, restores every group from last to first |
| Url.LastContainingIsLast | hono/utils/url.ts:30-34 | the search stops at the last segment holding the marker |
| Url.SplitRoutingPathRestored | hono/utils/url.ts:9-13 | with the restoring step, the routing segments are the split template with every group put back |
| Url.RestoreOneAbsent | hono/utils/url.ts:31 | a marker no segment holds changes nothing |
| Url.SplitRoutingPathWithoutGroups | hono/utils/url.ts:9-13 | a template without `{` splits the same as plain `splitPath`, with or without the restoring step |
| Url.ScanExample | hono/utils/url.ts:18-22 | `/{a/b}/:id` scans to `/@1/:id` with one group `{a/b}` at offset 1 |
| Url.SplitExample | hono/utils/url.ts:3-7 | `/@1/:id` splits into `@1` and `:id` |
| Url.SplitRoutingPathKeepsMarker | hono/utils/url.ts:9-13 | as written, `/{a/b}/:id` routes as `@1`, `:id`: the marker stays |
| Url.RestoreExample | hono/utils/url.ts:30-34 | restoring `@1` in `@1`, `:id` gives `{a/b}`, `:id` |
| Url.SplitRoutingPathRestoresGroup | hono/utils/url.ts:9-13 | with the restoring step, `/{a/b}/:id` routes as `{a/b}`, `:id` |
| Url.BraceFreePrefix | hono/utils/url.ts:47 | the name part `[^{}]+` of a label is the longest brace-free prefix after `:` |
| Url.BraceFreePrefixOf | hono/utils/url.ts:47 | a brace-free name followed by nothing or a brace ends the name part exactly there |
| Url.ParseLabelOfLabel | hono/utils/url.ts:47 | every label `":" + name` or `":" + name + "{" + re + "}"` is accepted, with its name and expression given back |
| Url.ParseLabelSound | hono/utils/url.ts:47 | everything the label expression accepts is a label of the grammar, with a non-empty brace-free name |
| Url.ParseLabelIff | hono/utils/url.ts:47 | the label expression accepts a segment with a given name and expression exactly when the segment is that label of the grammar |
| Url.ClassifyCases | hono/utils/url.ts:42-58 | `*` gives the wildcard, a segment outside the grammar gives null, `:name` gives `[label, name, true]`, and `:name{re}` gives `[label, name, ^re$]` |
| Url.PatternCache.constructor | hono/utils/url.ts:40 | the cache starts empty |
| Url.PatternCache.GetPattern | hono/utils/url.ts:42-58 | returns the classification of the label; a cached label returns its entry and leaves the cache alone; a new parameter label is stored; the wildcard and null are never stored; every entry stays what its label classifies to |
| Url.GetPatternTwice | hono/utils/url.ts:50-57 | two calls with one label return the same pattern, and a parameter pattern is then in the cache |
| Url.BeforeQuery | hono/utils/url.ts:62 | the `[^?]*` part of the path: a prefix with no `?`, followed by `?` or the end |
| Url.GetPath | hono/utils/url.ts:61-64 | the path is empty, or starts with `/` and holds no `?` |
| Url.BeforeQueryOf | hono/utils/url.ts:62 | a path followed by a query loses exactly the query |
| Url.PathAfterSchemeOf | hono/utils/url.ts:62 | after a non-empty host without `/`, the path up to the query is taken |
| Url.GetPathOfScheme | hono/utils/url.ts:62 | `http://` and `https://` are both accepted and removed |
| Url.GetPathOfUrl | hono/utils/url.ts:61-64 | scheme, host, path and query put together give back the path |
| Url.GetPathShape | hono/utils/url.ts:61-64 | conversely, a non-empty path is the path of a URL made of an `http://` or `https://` scheme, a non-empty host without `/`, the path, and an empty or `?`-led query |
| Url.GetPathEmptyIff | hono/utils/url.ts:62-63 | after the scheme, the path is empty exactly when there is no `/` (`http://host`) or the host is empty (`http:///x`) |
| Url.GetPathRejectsOtherSchemes | hono/utils/url.ts:62-63 | a URL that is not `http://` or `https://` has the empty path |
| Url.GetQueryStrings | hono/utils/url.ts:66-69 | empty exactly when there is no `?` at index 8 or later; otherwise `?` and the text after the first such `?`, which is a suffix of the URL |
| Url.GetPathNoStrict | hono/utils/url.ts:71-74 | removes one trailing `/` exactly when the path is longer than one character, and otherwise returns the path |
| Url.GetPathNoStrictRemovesOneSlash | hono/utils/url.ts:73 | a path ending in `//` keeps one trailing `/` |
| Url.Rooted | hono/utils/url.ts:85 | a fragment starting with `/` is kept; any other fragment, the empty one included, gets a leading `/` |
| Url.MergePath | hono/utils/url.ts:76-91 | the loop over the fragments computes the fold of the loop step |
| Url.MergedOfTwo | hono/utils/url.ts:76-91 | merging two fragments is two steps of the loop from the empty path |
| Url.MergedExamples | hono/utils/url.ts:76-91 | no fragments give `""`; `/a/`, `/b` give `/a/b`; `/`, `/` give `/`; `/a`, `/` give `/a`; `a` gives `/a` |
| Url.MergeStepAbsolute | hono/utils/url.ts:80-88 | after a fragment an empty or absolute accumulated path is absolute |
| Url.MergedIsAbsolute | hono/utils/url.ts:76-91 | merging one or more fragments gives a non-empty absolute path |
| Url.WithoutSlashesConcat | hono/utils/url.ts:76-91 | taking separators out distributes over concatenation |
| Url.MergeStepKeepsText | hono/utils/url.ts:80-88 | one step only adds or removes `/` |
| Url.MergedKeepsText | hono/utils/url.ts:76-91 | with every `/` taken out, the merged path reads as the fragments put end to end |
| Url.MergeStepNoDoubleSlash | hono/utils/url.ts:80-88 | one step never creates `//` |
| Url.NoDoubleSlashConcat | hono/utils/url.ts:87 | two texts without `//` that do not meet slash to slash concatenate without `//` |
| Url.MergedNoDoubleSlash | hono/utils/url.ts:76-91 | fragments without `//` merge into a path without `//` |
| Url.CheckOptionalParameter | hono/utils/url.ts:93-120 | the `forEach` over the segments, and the removal of duplicates, compute the specified optional paths |
| Url.ExtendKeepsInvariant | hono/utils/url.ts:103-115 | adding a segment to the base path keeps every recorded path a prefix of it |
| Url.RecordKeepsInvariant | hono/utils/url.ts:105-110 | recording `/` or an absolute prefix of the base path keeps the invariant |
| Url.ExpandStepInvariant | hono/utils/url.ts:100-117 | each segment keeps the base path empty or absolute and every recorded path absolute and a prefix of the base path |
| Url.ExpandAllInvariant | hono/utils/url.ts:100-117 | the same holds after all segments |
| Url.OptionalPathsArePrefixes | hono/utils/url.ts:93-120 | every returned path is absolute, appears once, and is `/` or a prefix of the fully expanded path |
| Url.ExpandAllRecords | hono/utils/url.ts:103-112 | the recorded paths only grow, and they grow exactly when some segment is an optional parameter |
| Url.OptionalPathsNonEmptyIff | hono/utils/url.ts:93-120 | the list is non-empty exactly when some segment is an optional parameter |
| Url.OptionalPathsRequiresQuestionMark | hono/utils/url.ts:94 | a path not ending in `?` gives null |
| Url.DedupPair | hono/utils/url.ts:119 | two different paths both survive the duplicate filter |
| Text.FirstIndex | hono/utils/url.ts:119 | `a.indexOf(v)`: a position holding `v` with no `v` before it |
| Text.FirstIndexUnique | hono/utils/url.ts:119 | that position is the only one with no `v` before it |
| Text.Dedup | hono/utils/url.ts:119 | the result has no duplicates, holds only elements of the input, holds every element of the input, and starts with the input's first element |
| Text.DedupHas | hono/utils/url.ts:119 | an element is kept exactly when it occurs in the input |
| Text.DedupSnoc | hono/utils/url.ts:119 | appending an element to the input appends it to the result exactly when it did not occur before |
| Text.DedupIsIndexFilter | hono/utils/url.ts:119 | the result is `filter((v, i, a) => a.indexOf(v) === i)`: exactly the first occurrences, in input order |
| Url.DropQuestionMark | hono/utils/url.ts:110 | `:id?` becomes `:id` |
| Url.SplitUsersTail | hono/utils/url.ts:96 | `users/:id?` splits into `users`, `:id?` |
| Url.SplitUsersExample | hono/utils/url.ts:96 | `/users/:id?` splits into the empty segment, `users`, `:id?` |
| Url.ExpandUsers | hono/utils/url.ts:100-117 | those segments expand to base `/users/:id` with `/users` and `/users/:id` recorded |
| Url.ExpandOptional | hono/utils/url.ts:104-112 | after a non-empty base path, an optional segment records the base path and then the base path with the segment minus its `?` |
| Url.ExpandRoot | hono/utils/url.ts:100-117 | the segments of `/:id?` record `/` and `/:id` |
| Url.OptionalPathsUsers | hono/utils/url.ts:93-120 | `/users/:id?` gives `/users` and `/users/:id` |
| Url.OptionalPathsRoot | hono/utils/url.ts:105-106 | `/:id?` gives `/` and `/:id`: `/` is pushed when the optional parameter comes first |
| Url.ReplacePlus | hono/utils/url.ts:126 | every `+` becomes a space and every other character stays |
| Url.DecodeUri | hono/utils/url.ts:124-128 | a value without `%` or `+` is returned unchanged; without `%` the result is the value with every `+` made a space; with `%` the component decoder gets the `+`-replaced text |
| Url.DecodeUriIdempotentWithoutEscapes | hono/utils/url.ts:124-128 | without `%`, decoding twice is decoding once |
| Js.TrimEmptyIffAllSpace | el/utils.ts:5 | `trim()` is empty exactly when every character is white space |
| CookieUtils.IsNumericString | el/utils.ts:3-13 | false beyond 16 characters; below 16, non-blank with a number other than NaN; at 16, additionally the number prints back as the text |
| CookieUtils.BlankIsNotNumeric | el/utils.ts:5 | empty and all-space strings are never numeric |
| CookieUtils.NumericHasNumber | el/utils.ts:3-13 | a numeric string has at most 16 characters, is non-empty and has a number other than NaN |
| CookieUtils.StripPadding | el/utils.ts:30 | removes exactly the trailing run of `=` |
| CookieUtils.Sign | el/utils.ts:15-31 | a null secret throws `Secret key must be provided`; otherwise the result is the value, a `.`, and a digest without `.` |
| CookieUtils.LastIndexOf | el/utils.ts:37 | `lastIndexOf`: the last position of the character, or -1 |
| CookieUtils.SliceTo | el/utils.ts:37 | `slice(0, end)` is a prefix of the string: `end` characters for an end within it, the whole string past the end, `|s| + end` characters for a negative end, and `""` below `-|s|` |
| CookieUtils.Unsign | el/utils.ts:33-40 | throws exactly for a null secret |
| CookieUtils.LastDotOfSigned | el/utils.ts:30 | the last `.` of a signed text is the one after the value |
| CookieUtils.UnsignSign | el/utils.ts:33-40 | unsigning what was signed with the same secret gives the value back |
| CookieUtils.UnsignAcceptsOnlySigned | el/utils.ts:37-39 | an accepted input is exactly the signature of the returned value; a rejected input is the signature of no value |
| CookieUtils.UnsignWithoutDot | el/utils.ts:37-39 | an input without `.` is rejected |
| CookieUtils.IsNotEmpty | el/utils.ts:56-59 | true exactly when the value has an enumerable property: a non-empty object, string or array |
| CookieUtils.MergeDeep | el/utils.ts:61-93 | the loop over the source entries leaves the specified merge |
| CookieUtils.MergeFieldsSkip | el/utils.ts:72 | a skipped key changes nothing |
| CookieUtils.MergeFieldsStep | el/utils.ts:71-89 | each processed key writes its merged entry and nothing else |
| CookieUtils.MergeEntry | el/utils.ts:74-89 | the entry one source key leaves: a non-object, a key new to the target or a class instance is taken as it is; otherwise the deep merge of the two |
| CookieUtils.MergeDeepKeys | el/utils.ts:70-90 | the merged keys are the target's keys and the source's unskipped keys |
| CookieUtils.MergeDeepKeepsUntouched | el/utils.ts:72 | a skipped key, and a key the source lacks, keep the target's entry |
| CookieUtils.MergeDeepSkipsAbsent | el/utils.ts:72 | a skipped key missing from the target stays missing |
| CookieUtils.MergeDeepCopies | el/utils.ts:74-82 | a non-object source value, and an object under a key new to the target, are taken as they are |
| CookieUtils.MergeDeepOfNonObjects | el/utils.ts:70 | a non-object target or source leaves the target as it was |
| CookieUtils.MergeDeepSelf | el/utils.ts:61-93 | merging a value into itself changes nothing |
| CookieUtils.Checksums | el/utils.ts:107-112 | the collected checksums are exactly the truthy checksums of the items: each one is some item's checksum and truthy, and every truthy checksum of an item is collected |
| CookieUtils.NewItems | el/utils.ts:114-119 | the kept items are items of `b` whose checksum is unknown, and every such item is kept |
| CookieUtils.MergeObjectArray | el/utils.ts:100-122 | the two loops compute the specified result |
| CookieUtils.CollectChecksums | el/utils.ts:107-112 | fails exactly when an item is null or undefined; otherwise collects the truthy checksums in order |
| CookieUtils.KeepNew | el/utils.ts:114-119 | keeps the items whose checksum is not yet known, in order |
| CookieUtils.NewItemsAllKnown | el/utils.ts:114-119 | nothing is kept when every checksum is known |
| CookieUtils.NewItemsStep | el/utils.ts:114-119 | the first item is kept exactly when its checksum is unknown |
| CookieUtils.NewItemsSingle | el/utils.ts:114-119 | a one-item list is kept exactly when its checksum is unknown |
| CookieUtils.NewItemsConcat | el/utils.ts:114-119 | filtering a concatenation is concatenating the filtered parts, so the kept items keep their order |
| CookieUtils.MergedArrayOfFalsy | el/utils.ts:101 | a falsy `a` gives `[]` |
| CookieUtils.MergedArrayKeepsNew | el/utils.ts:114-119 | an item of `b` whose checksum no item of `a` has ends up in the result after the copy of `a` |
| CookieUtils.MergedArrayShape | el/utils.ts:100-122 | the result is a copy of `a`'s items followed by exactly the items of `b` whose checksums are not among `a`'s, in `b`'s order |
| CookieUtils.MergedArrayWithItself | el/utils.ts:100-122 | merging a list whose items all have truthy checksums with itself gives the list back |
| Cookies.ToString | el/cookie.ts:192-194 | objects print as JSON, `undefined` as `""`, strings as themselves, booleans as `"true"`/`"false"` and numbers through `Number#toString` |
| Cookies.SameValueReflexive | el/cookie.ts:40-42 | assigning the current value short-circuits unless it is NaN |
| Cookies.HttpOnlySkipsOnDomain | el/cookie.ts:112-114 | as written, with `httpOnly` true and no `domain`, assigning `undefined` to `httpOnly` returns early and leaves it true |
| Cookies.SetterSkipsIntendedIsNoChange | el/cookie.ts:86-190 | with every setter comparing its own attribute, an early return only happens when the attribute already holds the value (for `expires`, the same time) |
| Cookies.SetterSkipsDiffersOnlyForHttpOnly | el/cookie.ts:90-190 | every setter but `httpOnly` compares its own attribute |
| Cookies.RemovalConfig | el/cookie.ts:75-83 | the removal record has exactly the keys domain, expires, maxAge, path, sameSite, secure and value |
| Cookies.SetTakesValueOut | el/cookie.ts:64-69 | a `value` in the patch becomes the value, and the installed record is the patch without `value` |
| Cookies.AddMergesSetReplaces | el/cookie.ts:47-71 | `add` keeps an attribute the patch does not name; `set` drops it |
| Cookies.RemovalRecord | el/cookie.ts:73-84 | after removal the record expires at the epoch with max age 0, takes only domain, path, sameSite and secure from the options, and the value is `""` |
| Cookies.Cookie.constructor | el/cookie.ts:29 | a new entry holds the value and record, with no name and no `set` object |
| Cookies.Cookie.Sync | el/cookie.ts:196-205 | without a name or a `set` object nothing changes; otherwise the record gets the string form as `value` and is stored under the name in the cookie map, which is created if absent |
| Cookies.Cookie.SetValue | el/cookie.ts:39-45 | the same value (by JSON text for objects, by `===` otherwise) changes nothing and does not sync; any other value is stored and synced |
| Cookies.Cookie.SetAttribute | el/cookie.ts:86-190 | an early return changes nothing; otherwise the attribute is stored and the entry synced |
| Cookies.Cookie.Add | el/cookie.ts:47-58 | the record is updated in place by the patch, or by the function's result after the value's entries are copied in; a `value` key moves into the value; the entry is synced |
| Cookies.Cookie.Set | el/cookie.ts:60-71 | a new record replaces the old one (a function first copies the value's entries into the old record); a `value` key moves into the value; the entry is synced |
| Cookies.Cookie.Remove | el/cookie.ts:73-84 | an entry without a value is left alone; otherwise it becomes an empty, expired cookie with the four options taken over |
| Cookies.SyncedEntryIsVisible | el/cookie.ts:196-205 | after a sync with name and `set` object, the cookie map holds the entry's record under its name, and its `value` is the entry's string form |
| Cookies.CookieJar.constructor | el/cookie.ts:208-209 | the jar wraps the initial entries, the `set` object and the default properties |
| Cookies.CookieJar.Get | el/cookie.ts:210-217 | a stored key gives its entry; any other key gives a new entry named after it, without a value, bound to the response, with a copy of the defaults; the jar is not changed |
| Cookies.CookieJar.Set | el/cookie.ts:218-229 | anything but an entry is refused and nothing changes; an entry is bound to the key and the response, synced into a cookie map that exists afterwards, and stored |
| Cookies.SignTextSignsOnlyItself | el/cookie.ts:245-250 | a single `sign` key signs exactly that key, the empty key included |
| Cookies.FirstVerified | el/cookie.ts:259-267 | the value comes from a secret of the list that verifies the cookie, and nothing comes when none does |
| Cookies.VerifySigned | el/cookie.ts:250-269 | the check, with its loop over a list of secrets, computes the specified outcome |
| Cookies.CoerceThenToString | el/cookie.ts:285-290 | printing a coerced value gives the text back for booleans, plain text and numerals that print back as themselves (which `isNumericString` checks for 16-character numerals) |
| Cookies.SecretListAlwaysRejects | el/cookie.ts:258-269 | as written, a signed cookie checked against a list of secrets is always refused |
| Cookies.SignedZeroRejected | el/cookie.ts:253-257 | as written, a correctly signed value whose number is 0 is refused as a bad signature |
| Cookies.SignedCookieAccepted | el/cookie.ts:253-257 | with the intended check, a value signed with the secret is accepted and coerced |
| Cookies.SignedCookieAcceptedByList | el/cookie.ts:258-269 | with the intended check, a value signed with any secret of the list is accepted and coerced |
| Cookies.FirstVerifiedOfSigned | el/cookie.ts:259-267 | whichever secret verifies a signed text, the value is the one signed |
| Cookies.IntendedListRejectsUnsigned | el/cookie.ts:258-269 | with the intended check, a text no secret of the list signed is refused |
| Cookies.DecodeAllKeepsFailure | el/cookie.ts:247-298 | once a cookie throws, the whole header throws that error |
| Cookies.DecodeAllOk | el/cookie.ts:247-298 | the header decodes exactly when every one of its cookies does |
| Cookies.DecodeAllKeys | el/cookie.ts:246-298 | the keys of a decoded header are exactly the keys of its cookies |
| Cookies.DecodeAllEntries | el/cookie.ts:246-298 | with distinct keys, a decoded header maps each key to its own cookie decoded on its own |
| Cookies.DecodeAllExtend | el/cookie.ts:247-297 | one more cookie either ends the header with its error or adds its key and decoded value |
| Cookies.DecodeAllSnoc | el/cookie.ts:247-297 | a decoded header is its prefix decoded plus its last cookie decoded |
| Cookies.KeysOfFront | el/cookie.ts:246 | the keys of the cookies are those of all but the last plus the last one's |
| Cookies.DecodeOne | el/cookie.ts:250-290 | the signature check, the JSON attempt and the primitive coercion compute the specified decoding |
| Cookies.NewEntry | el/cookie.ts:276-297 | a JSON value gets its own empty record and any other value the shared one; name and response are bound without a sync |
| Cookies.JarHoldsExtend | el/cookie.ts:276-297 | storing a cookie named after its key, bound to the setter, with its decoded value and the shared record (or its own empty one for JSON) keeps the jar's description |
| Cookies.FillJar | el/cookie.ts:247-298 | the loop over the header's cookies stops with the first cookie's error, or builds a fresh entry per cookie matching its decoded value |
| Cookies.ParseCookie | el/cookie.ts:232-301 | an absent or empty header gives an empty jar with the default properties; otherwise the first failing cookie's error, or a jar without defaults whose entries are the decoded cookies, with non-JSON ones sharing one record equal to the properties |

## Left out

- Regular expressions are not compiled: a pattern carries the source text `^re$`. So
  `Url.PatternCache.GetPattern` returns and caches a pattern for an invalid expression such as
  `:id{(}`, where `new RegExp` throws a `SyntaxError` and nothing is cached.
- `getPath` takes the request's URL string; the `Request` object is not modelled.
- The foreign engines are function parameters: `Number`, `Number#toString`, JSON, the
  HMAC digest with `btoa`, `decodeURIComponent`, the `cookie` header parser and `isClass`.
  Their own behaviour is not modelled.
- `async`/`await` in `signCookie`, `unsignCookie` and `parseCookie`: the calls are sequential.
- CookieUtils.Sign: the `TypeError` for a non-string value is not modelled; values are strings by type.
- CookieUtils.Unsign: the `TypeError` for a non-string input is not modelled, for the same reason.
- CookieUtils.MergeDeep: works on values, not in place. The aliasing of nested objects
  copied by reference is not captured.
- CookieUtils.MergeDeep: a `Date` target or source is treated as a non-mergeable value;
  its properties are not modelled.
- CookieUtils.MergeDeep: `key in target` is taken as an own key; inherited keys are not modelled.
- CookieUtils.MergeObjectArray: checksums are compared as values, whereas `includes` compares
  objects by identity.
- CookieUtils.MergeObjectArray: the error of reading `checksums` of `null`/`undefined` is
  modelled as one `TypeError`, not the engine's exact message.
- Cookies.Cookie.Set: a patch is installed as a fresh record. In the source the record is the
  caller's object itself, and `delete` removes `value` from it. A function that returns
  its argument keeps the old record's identity; the model gives it a new one.
- Cookies.Cookie.Add: a function that mutates its argument is not modelled; only its
  result is merged.
- Cookies.CookieJar.Get: `key in target` is taken as an own key; keys inherited from
  `Object.prototype` are not modelled.
- The jar's other proxy traps and the getters (`get()`, `value`, `domain` and the rest) are
  not separate members: they read a field.
- Cookies.ParseCookie: the `value === undefined` skip is not modelled. Every value from the
  header parser is a string, and a failed signature throws first.
- Cookies.ParseCookie: the cookies are visited in the parser's order. The ordering of
  integer-like keys by `Object.keys` is part of the abstract parser.
- Url.ExtractGroupsFromPath: strings are sequences of code points, while JavaScript counts
  UTF-16 code units, so the offset in a marker `@n` is smaller by one for each character
  outside the Basic Multilingual Plane before the group (`/🎉/{a}` is marked `@3` here, `@4`
  in JavaScript). Url.Mark and Url.Scan carry the same difference.
- Url.GetQueryStrings: `indexOf("?", 8)` counts from the ninth code point here and from the
  ninth UTF-16 code unit in JavaScript; the two differ after a character outside the Basic
  Multilingual Plane.
- Text.ReplaceFirst: the replacement text is inserted literally; JavaScript's `$&`, `$1` and
  `$$` patterns are not interpreted. The markers and groups that `replaceGroupMarks` passes
  hold no `$` sequence that the model relies on.
- `replaceUrlPath` (the `URL` class), `isClass` (reflection) and the `StatusMap` table.
- `el/error.ts` (validation errors over a schema library), `el/context.ts` and `el/types.ts`
  (types only) and `el/ws/index.ts` (WebSocket forwarding) are not part of this model.

## Findings

| source | as written | input that shows it | evidently intended | confidence | as-written member | corrected member |
|---|---|---|---|---|---|---|
| hono/utils/url.ts:32 | the result of replacing a marker is discarded, so groups are never put back | route `/{a/b}/:id` gives segments `@1`, `:id` | segments `{a/b}`, `:id` | high, not executed | Url.SplitRoutingPathKeepsMarker | Url.SplitRoutingPathRestoresGroup |
| el/cookie.ts:264 | `fail` is set to `true` after a secret verifies, so a list of secrets always throws | a value signed with the first secret of a two-secret list | accepted with the signed value | high, not executed | Cookies.SecretListAlwaysRejects | Cookies.SignedCookieAcceptedByList |
| el/cookie.ts:257 | the unsigned value is compared with loose `== false`, which also holds for any text whose number is 0 | the value `0` correctly signed with a string secret | accepted as the number 0 | medium, not executed | Cookies.SignedZeroRejected | Cookies.SignedCookieAccepted |
| el/cookie.ts:114 | the `httpOnly` setter compares the new value with `domain` | record `{ httpOnly: true }`, assigning `undefined` to `httpOnly` | `httpOnly` becomes `undefined` | high, not executed | Cookies.HttpOnlySkipsOnDomain | Cookies.SetterSkipsIntendedIsNoChange |

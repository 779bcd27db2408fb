# bundleroute, modelled in Dafny

xiian/bundleroute lets a Twig template that belongs to a Symfony bundle name
"its" routes by a short name. `bundle_route('bob', _self)` inside
`@Twiggy/...` becomes `twiggy_bob` when the bundle's routes share a common
prefix, as `twiggy_bob`, `twiggy_rob` and `twiggy_mob` share `twiggy_`, and
`twiggy_bob` has opted in to aliasing. With a single route, or with routes
that share no prefix, the short name comes back unchanged. Four pieces do
the work, and each is one Dafny module here:

- `StringUtils` (`string_utils.dfy`): `getPrefixForStrings`, the longest
  common prefix of a list of strings, with "" for fewer than two strings.
  It is a method with the source's `foreach`/`while`/`break 2` loop, proved
  equal to a recursive specification `Lcp`. `Lcp` is proved to be the
  longest common prefix, unique and independent of input order.
- `Routing` (`routing.dfy`): the `RoutesByNamespace` class. Its map field
  goes from a PHP namespace to an insertion-ordered route map.
  `AddRouteNamespace` writes a route at a class name and at each ancestor
  namespace, cutting at the last `\` each time.
  `LoadFromRouteCollection` does this for every route whose `_controller`
  is truthy, under the text before the first `::`.
- `Twig` (`twig.dfy`): the `TwigNamespaceMapper` class (bundle name to PHP
  namespace, last write wins), lookup by Twig tag (`tag + "Bundle"`), and
  extraction of the tag from an `@Tag/...` path.
- `BundleRoute` (`bundle_route.dfy`): the `BundleRouteMapper` class.
  `GetBundleRoute` looks up the candidates and hands them to
  `MatchStripped`, its search loop, which tries strip lengths from the
  common-prefix length down to 1. The result is proved equal to a
  recursive specification `Resolve`.
  The lemmas about `Resolve` state the source's promises: the result is
  the short name exactly when nothing opted-in matches; otherwise it is
  the first match, in insertion order, at the longest strip length.
- `OrderedMap` (`ordered_map.dfy`): a PHP array used as a dictionary. It is
  a sequence of (key, value) pairs with distinct keys. Assigning to a key
  that is present replaces its value in place; assigning to a new key
  appends it. `Errors` (`errors.dfy`) holds the error datatype: a missing
  mapping carrying its key, or an invalid argument.

A `Route` is reduced to an identity (its path) and `optsIn`. `optsIn` says
whether its options carry `BundleRouteExtension::OPTION_KEY`. The router,
the kernel and its bundles become plain input sequences: `RouteEntry` for
a route and its `_controller` default, `Bundle` for a bundle's name and
namespace.

Details of the source that the model keeps:
- The namespace separator is `\`. `addRouteNamespace` stops when the name
  holds no `\` (src/Routing/RoutesByNamespace.php:56) and otherwise cuts at
  the last `\` (src/Routing/RoutesByNamespace.php:60).
- The class part of a controller is the text before its first `::`, taken
  with `explode` (src/Routing/RoutesByNamespace.php:43).
- A route whose `_controller` is falsy in PHP's sense is skipped
  (src/Routing/RoutesByNamespace.php:38-40). A missing controller, `""` and
  `"0"` are falsy.
- `getRoutesByTwigNamespace` catches only the missing Twig mapping. The
  missing-mapping error for an unknown PHP namespace propagates from
  src/BundleRouteMapper.php:55, so `GetBundleRoute` returns `Err` for it.

## Model

| member | source | states |
|---|---|---|
| `OrderedMap.Keys` | src/BundleRouteMapper.php:24 | array_keys: the keys of a route map in insertion order |
| `OrderedMap.Get` | src/Routing/RoutesByNamespace.php:53 | `$m[$k] ?? ...`: a value exactly when the key is present, and then the value stored with that key |
| `OrderedMap.Put` | src/Routing/RoutesByNamespace.php:54 | assigning to a present key replaces its value at its position and keeps every other position; a new key is appended; either way the keys keep their order |
| `OrderedMap.PutGet` | src/Routing/RoutesByNamespace.php:53-54 | after assignment the key maps to the new value, every other key keeps its value, and keys stay distinct |
| `OrderedMap.PutUnique` | src/Routing/RoutesByNamespace.php:54 | assignment keeps the keys pairwise distinct |
| `OrderedMap.PutIdempotent` | src/Routing/RoutesByNamespace.php:54 | assigning the same value to the same key twice equals assigning it once |
| `StringUtils.CommonPrefix` | src/StringUtils.php:17-18 | the result is a prefix of both strings, and every common prefix of the two is a prefix of it |
| `StringUtils.Fold` | src/StringUtils.php:15-23 | the prefix left after the `foreach` is a prefix of the first and of the last string |
| `StringUtils.Lcp` | src/StringUtils.php:11-25 | "" for fewer than two strings; otherwise a prefix of the first and of the last string |
| `StringUtils.FoldIsLongest` | src/StringUtils.php:15-22 | folding the list gives a common prefix of all strings that every common prefix is a prefix of |
| `StringUtils.LcpSpec` | src/StringUtils.php:11-22 | 0 or 1 strings give ""; 2 or more give the longest common prefix |
| `StringUtils.LongestUnique` | src/StringUtils.php:15-22 | there is only one longest common prefix |
| `StringUtils.LcpBounded` | src/StringUtils.php:15-18 | the result is a prefix of the first string and no longer than any input |
| `StringUtils.LcpOfIdentical` | tests/StringUtilsTest.php:24 | two or more copies of one string give that string |
| `StringUtils.LcpOrderIndependent` | src/StringUtils.php:9-26 | permuting the input does not change the result |
| `StringUtils.LcpAtDivergence` | src/StringUtils.php:16-22 | a common prefix that ends where one input ends, or where two inputs differ, is the result |
| `StringUtils.LcpSharedExample` | tests/StringUtilsTest.php:18 | tom_resume_pdf, tom_resume_html and tom_bob give "tom_" |
| `StringUtils.LcpDisjointExample` | tests/StringUtilsTest.php:22 | aomresume_pdf, bomresume_html and comresumebob give "" |
| `StringUtils.GetPrefixForStrings` | src/StringUtils.php:9-26 | the loop returns "" for fewer than two strings and otherwise the longest common prefix, equal to Lcp; the inner loop ends because each pass drops one character |
| `Routing.LastSeparator` | src/Routing/RoutesByNamespace.php:60 | strrpos: a position holding `\` with no `\` after it |
| `Routing.Parent` | src/Routing/RoutesByNamespace.php:60 | the truncation is strictly shorter and is followed by `\` in the original |
| `Routing.Chain` | src/Routing/RoutesByNamespace.php:52-61 | the namespaces the loop writes, in order: the class name first, none empty, each a prefix of the class name |
| `Routing.ChainStep` | src/Routing/RoutesByNamespace.php:56-60 | while a `\` remains, the chain is the current name followed by its parent's chain |
| `Routing.ChainEnd` | src/Routing/RoutesByNamespace.php:52-58 | the chain ends at "" (loop condition) or after a name without `\` (the `break`) |
| `Routing.ChainIsAncestors` | src/Routing/RoutesByNamespace.php:52-61 | a namespace is written for class c exactly when it is non-empty and is c or a prefix of c followed by `\` |
| `Routing.ChainShape` | src/Routing/RoutesByNamespace.php:52-60 | the chain starts at c, holds no empty string, and each step is strictly shorter (the loop terminates) |
| `Routing.LeadingSeparatorChain` | tests/Routing/RoutesByNamespaceTest.php:104-113 | `\One\Two\Three` is written at itself, `\One\Two` and `\One`, and never at "" |
| `Routing.EmptyClassRegistersNothing` | src/Routing/RoutesByNamespace.php:52 | an empty class name leaves the index unchanged |
| `Routing.RegisterAt` | src/Routing/RoutesByNamespace.php:53-54 | every namespace mapped before stays mapped (which namespaces are added is stated by `Routing.RegisterLookup`) |
| `Routing.RegisterLookup` | src/Routing/RoutesByNamespace.php:53-54 | a written namespace holds its earlier route map (or `[]`) with one assignment of the route, however often it was written; every other namespace is unchanged |
| `Routing.RegisterOneMore` | src/Routing/RoutesByNamespace.php:53-54 | one loop pass is one more assignment at its namespace on top of the passes before |
| `Routing.RegisterEffect` | src/Routing/RoutesByNamespace.php:50-62 | after registering, every ancestor maps the name to the route and keeps its other names, and its keys are its old keys with the name appended if it was new; every other namespace is untouched |
| `Routing.RegisterUnique` | src/Routing/RoutesByNamespace.php:53-54 | registering keeps route names distinct within each namespace |
| `Routing.RegisterIdempotent` | src/Routing/RoutesByNamespace.php:50-62 | registering the same route twice equals registering it once |
| `Routing.Falsy` | src/Routing/RoutesByNamespace.php:38 | a falsy controller is missing or at most one character long: null, "" or "0" |
| `Routing.ClassPart` | src/Routing/RoutesByNamespace.php:43 | the text before the first `::`, or the whole string when there is none |
| `Routing.LoadOne` | src/Routing/RoutesByNamespace.php:35-46 | one route of the collection: a falsy controller leaves the index unchanged |
| `Routing.Load` | src/Routing/RoutesByNamespace.php:33-48 | loading never removes a namespace |
| `Routing.LoadKeys` | src/Routing/RoutesByNamespace.php:33-48 | after loading, a namespace has a mapping exactly when some retained route is written under it (or it had one before) |
| `Routing.LoadLastWins` | src/Routing/RoutesByNamespace.php:35-46 | routes are applied in collection order, so the last retained route with a name written under a namespace is the one found there |
| `Routing.LoadUnique` | src/Routing/RoutesByNamespace.php:35-46 | loading keeps route names distinct within each namespace |
| `Routing.BasicClassParts` | src/Routing/RoutesByNamespace.php:43 | Basic::one and Basic::two both have class part Basic |
| `Routing.LoadFromRouterExample` | tests/Routing/RoutesByNamespaceTest.php:115-129 | routes with controllers Basic::one and Basic::two are both found at Basic |
| `Routing.RoutesByNamespace.constructor` | src/Routing/RoutesByNamespace.php:14 | a new index is empty |
| `Routing.RoutesByNamespace.CreateFromRouter` | src/Routing/RoutesByNamespace.php:16-22 | a fresh index holding the whole collection loaded |
| `Routing.RoutesByNamespace.GetRoutesByPHPNamespace` | src/Routing/RoutesByNamespace.php:24-31 | the stored route map, or a missing-mapping error naming the namespace when it was never written |
| `Routing.RoutesByNamespace.LoadFromRouteCollection` | src/Routing/RoutesByNamespace.php:33-48 | the new index is the old one with every truthy-controller route registered, in order |
| `Routing.RoutesByNamespace.AddRouteNamespace` | src/Routing/RoutesByNamespace.php:50-62 | the new index is the old one with the route written at every namespace of the chain and nowhere else |
| `Twig.AddAll` | src/Twig/TwigNamespaceMapper.php:26-28 | after adding the bundles, the mapped names are the old ones plus every bundle name |
| `Twig.AddAllLastWins` | src/Twig/TwigNamespaceMapper.php:18-28 | the last bundle with a name decides its namespace |
| `Twig.AddAllOthersKept` | src/Twig/TwigNamespaceMapper.php:20 | names no bundle carries keep their earlier mapping |
| `Twig.FirstSlash` | src/Twig/TwigNamespaceMapper.php:50 | strpos: the position of the first `/` |
| `Twig.Substr` | src/Twig/TwigNamespaceMapper.php:50 | PHP substr: a prefix of the string from the offset; a non-negative length takes at most that many characters; a negative length stops that many characters before the end, giving "" when that is at or before the offset |
| `Twig.TwigNamespaceFromPathAsWritten` | src/Twig/TwigNamespaceMapper.php:44-51 | as written: only a path without a leading `@` is rejected |
| `Twig.AsWrittenTruncatesTag` | src/Twig/TwigNamespaceMapper.php:50 | as written, "@Twiggy" yields "Twigg" |
| `Twig.AsWrittenWithoutSlash` | src/Twig/TwigNamespaceMapper.php:50 | as written, a path "@..." without `/` yields its text between the `@` and the last character |
| `Twig.AsWrittenAgreesWithSlash` | src/Twig/TwigNamespaceMapper.php:50 | on paths that contain `/`, the as-written and corrected extractions agree |
| `Twig.GetTwigNamespaceFromPath` | src/Twig/TwigNamespaceMapper.php:44-51 | an invalid-argument error unless the path starts with `@` and contains `/`; the tag holds no `/`, and "@" + tag + "/" starts the path |
| `Twig.TagRoundTrip` | tests/Twig/TwigNamespaceMapperTest.php:74-79 | the tag of "@" + tag + "/" + rest is tag |
| `Twig.TwigNamespaceMapper.constructor` | src/Twig/TwigNamespaceMapper.php:13-16 | the mapper starts from the given mapping |
| `Twig.TwigNamespaceMapper.AddNamespaceMapping` | src/Twig/TwigNamespaceMapper.php:18-21 | the bundle now maps to the namespace (last write wins); a tag whose tag + "Bundle" is the bundle finds it, and other tags are unaffected |
| `Twig.TwigNamespaceMapper.CreateFromKernel` | src/Twig/TwigNamespaceMapper.php:23-31 | a fresh mapper holding every bundle, added in kernel order |
| `Twig.TwigNamespaceMapper.GetPHPNamespaceFromTwigNamespace` | src/Twig/TwigNamespaceMapper.php:33-42 | the namespace of bundle tag + "Bundle", or a missing-mapping error carrying the tag, not the bundle name |
| `BundleRoute.FirstMatch` | src/BundleRouteMapper.php:28-35 | the first candidate in insertion order whose stripped name is the short name and which opted in, or none |
| `BundleRoute.MatchesAt` | src/BundleRouteMapper.php:29-31 | a candidate that matches at strip length k is k characters longer than the short name and opted in |
| `BundleRoute.ResolveFrom` | src/BundleRouteMapper.php:27-39 | any result other than the short name is 1 to k characters longer than it |
| `BundleRoute.Resolve` | src/BundleRouteMapper.php:20-40 | fewer than two candidates give the short name; any other result is longer than the short name by at most the common prefix's length |
| `BundleRoute.ResolveFromSpec` | src/BundleRouteMapper.php:27-39 | trying strip lengths L down to 1 gives the short name exactly when nothing matches, otherwise the first match at the longest matching length |
| `BundleRoute.ResolveSpec` | src/BundleRouteMapper.php:20-40 | the result is the short name exactly when no opted-in candidate matches; otherwise it is the longest-strip, first-in-order opted-in match, named Lcp[..k] + short name for some 1 <= k <= Lcp length |
| `BundleRoute.StrippedName` | src/BundleRouteMapper.php:29 | a candidate that starts with the common prefix and leaves the short name after k characters is the prefix's first k characters plus the short name |
| `BundleRoute.PrefixedMatches` | src/BundleRouteMapper.php:29-31 | a candidate named p + short matches at strip length the length of p exactly when it opted in |
| `BundleRoute.ResolveFromBeyondNames` | src/BundleRouteMapper.php:27-36 | strip lengths that leave less than the short name in every candidate pass without a match |
| `BundleRoute.ResolvedIsOptedIn` | src/BundleRouteMapper.php:29-33 | a resolved name other than the short name is the name of an opted-in candidate |
| `BundleRoute.NoOptInUnchanged` | src/BundleRouteMapper.php:31 | candidates that did not opt in are never returned |
| `BundleRoute.ResolvesPrefixedExample` | tests/BundleRouteMapperTest.php:161-171 | twiggy_bob, twiggy_rob and twiggy_mob with bob give twiggy_bob |
| `BundleRoute.ResolvesNestedPrefixExample` | tests/BundleRouteMapperTest.php:173-183 | twiggy_name_bob, twiggy_name_rob and twiggy_name_mob with name_bob give twiggy_name_bob |
| `BundleRoute.MatchStripped` | src/BundleRouteMapper.php:25-39 | the search loop returns ResolveFrom at the prefix length: the first opted-in match at the longest strip length, else the short name |
| `BundleRoute.BundleRouteMapper.constructor` | src/BundleRouteMapper.php:14-18 | the mapper holds the given index and namespace mapper |
| `BundleRoute.BundleRouteMapper.GetRoutesByPHPNamespace` | src/BundleRouteMapper.php:42-45 | strict lookup: the stored routes or a missing-mapping error naming the namespace |
| `BundleRoute.BundleRouteMapper.GetRoutesByTwigNamespace` | src/BundleRouteMapper.php:47-56 | no routes when the tag has no bundle; otherwise the routes of its PHP namespace, or the missing-mapping error naming that namespace |
| `BundleRoute.BundleRouteMapper.GetRoutesByTwigPath` | src/BundleRouteMapper.php:58-67 | no routes for an invalid path; otherwise the routes of its tag; only a missing-mapping error can come out |
| `BundleRoute.BundleRouteMapper.GetBundleRoute` | src/BundleRouteMapper.php:20-40 | the candidates' error propagates; otherwise the result is Resolve of the candidates. An invalid path or a missing Twig mapping returns the short name, and any other name returned belongs to an opted-in candidate |

## Left out

- Route internals: path matching, defaults other than `_controller`, and option values. `Route` keeps only its path as an identity and whether `OPTION_KEY` is among its options.
- The Symfony router, kernel and bundles, and the Twig extension: they become plain sequences. `BundleRouteExtension` only delegates to `getBundleRoute` and is not part of this model.
- PHP's conversion of numeric-string array keys to integers is not modelled. Route names, bundle names and namespaces stay strings.
- Strings are sequences of characters. `strlen` and `substr` count bytes in PHP, so multi-byte characters are not modelled.
- A `_controller` default that is not a string (an array or a closure) is not modelled. It is either absent or a string.
- Exceptions are values: `MissingMappingException` and `InvalidArgumentException` are the two cases of `Errors.Error`. `GetBundleRoute` returns `Err` where the source throws.
- `Twig.GetTwigNamespaceFromPath` is a module-level function, not an instance method: it reads no mapper state.
- `BundleRoute.MatchesAt` fails for a strip length beyond the name, where PHP's `substr` would give "". This never arises: the strip length never exceeds any candidate's length, and `MatchStripped` requires it before it slices.
- The message text of `MissingMappingException` is not modelled. `Errors.MissingMapping` carries only the missing key.
- BundleRoute.BundleRouteMapper.GetRoutesByTwigPath: for a path `@Tag` without `/`, the model finds no routes (the corrected `Twig.GetTwigNamespaceFromPath` rejects it). The source as written looks up the tag minus its last character instead, so it may return that bundle's routes or propagate MissingMappingException. See Findings.
- BundleRoute.BundleRouteMapper.GetBundleRoute: for a path `@Tag` without `/`, the model returns the short name. The source as written resolves against the routes of the tag minus its last character, or propagates MissingMappingException. See Findings.

## Findings

| source | as written | input that shows it | evidently intended | confidence | as-written member | corrected member |
|---|---|---|---|---|---|---|
| src/Twig/TwigNamespaceMapper.php:50 | a path that starts with `@` but has no `/` makes `strpos` return false, so the length becomes -1 and `substr` drops the last character | `"@Twiggy"` yields the tag `"Twigg"` | reject such a path as an invalid argument, like one without `@` | not executed; high (PHP 8 arithmetic on false) | `Twig.AsWrittenTruncatesTag` | `Twig.GetTwigNamespaceFromPath` |

/**
 * BundleRouteMapper: resolves a short route name used in a Twig template to
 * the full, prefixed name of an opted-in route owned by the template's bundle.
 */
module BundleRoute {
  import opened Errors
  import opened OrderedMap
  import opened StringUtils
  import opened Routing
  import opened Twig

  /**
   * Entry e matches at strip length k: its name minus its first k
   * characters is the short name, and the route opted in to aliasing.
   */
  predicate MatchesAt(e: (string, Route), k: nat, short: string)
    ensures MatchesAt(e, k, short) ==> |e.0| == k + |short| && e.1.optsIn
  {
    k <= |e.0| && e.0[k..] == short && e.1.optsIn
  }

  /** An opted-in route named p + short matches short at strip length |p|. */
  lemma PrefixedMatches(p: string, short: string, route: Route)
    ensures MatchesAt((p + short, route), |p|, short) == route.optsIn
  {
  }

  /** The first entry, in insertion order, that matches at strip length k. */
  function FirstMatch(routes: RouteMap, k: nat, short: string): (i: int)
    ensures -1 <= i < |routes|
    ensures i >= 0 ==> MatchesAt(routes[i], k, short)
    ensures i >= 0 ==> forall j :: 0 <= j < i ==> !MatchesAt(routes[j], k, short)
    ensures i == -1 ==> forall j :: 0 <= j < |routes| ==> !MatchesAt(routes[j], k, short)
  {
    if routes == [] then -1
    else if MatchesAt(routes[0], k, short) then 0
    else
      var i := FirstMatch(routes[1..], k, short);
      assert forall j :: 1 <= j < |routes| ==> routes[j] == routes[1..][j - 1];
      if i == -1 then -1 else i + 1
  }

  /**
   * Strip lengths k, k - 1, ..., 1 in turn; the short name when none
   * matches. Any other result is the short name behind 1 to k more characters.
   */
  function ResolveFrom(routes: RouteMap, k: nat, short: string): (r: string)
    ensures r != short ==> |short| < |r| <= k + |short|
  {
    if k == 0 then short
    else
      var i := FirstMatch(routes, k, short);
      if i >= 0 then routes[i].0 else ResolveFrom(routes, k - 1, short)
  }

  /**
   * The name getBundleRoute returns for a candidate set: fewer than two
   * candidates leave nothing to strip, and any other name returned is the
   * short name behind at most the common prefix's length of characters.
   */
  function Resolve(routes: RouteMap, short: string): (r: string)
    ensures |routes| <= 1 ==> r == short
    ensures r != short ==> |short| < |r| <= |Lcp(Keys(routes))| + |short|
  {
    ResolveFrom(routes, |Lcp(Keys(routes))|, short)
  }

  /** Nothing matches at any strip length from 1 to L. */
  ghost predicate NoMatchUpTo(routes: RouteMap, L: nat, short: string) {
    forall k, j :: 1 <= k <= L && 0 <= j < |routes| ==> !MatchesAt(routes[j], k, short)
  }

  /**
   * name is the first entry matching at strip length k, and nothing matches
   * at any longer strip length up to L.
   */
  ghost predicate LongestFirstMatch(routes: RouteMap, L: nat, short: string, name: string, k: nat, i: nat) {
    && 1 <= k <= L && i < |routes|
    && routes[i].0 == name
    && MatchesAt(routes[i], k, short)
    && (forall j :: 0 <= j < i ==> !MatchesAt(routes[j], k, short))
    && (forall k', j :: k < k' <= L && 0 <= j < |routes| ==> !MatchesAt(routes[j], k', short))
  }

  lemma {:induction false} ResolveFromSpec(routes: RouteMap, L: nat, short: string)
    ensures var r := ResolveFrom(routes, L, short);
      && (r == short <==> NoMatchUpTo(routes, L, short))
      && (r != short ==> exists k: nat, i: nat :: LongestFirstMatch(routes, L, short, r, k, i))
  {
    var r := ResolveFrom(routes, L, short);
    if L > 0 {
      var i := FirstMatch(routes, L, short);
      if i >= 0 {
        assert LongestFirstMatch(routes, L, short, r, L, i);
        assert |r| == L + |short|;
      } else {
        ResolveFromSpec(routes, L - 1, short);
        if r != short {
          var k: nat, i': nat :| LongestFirstMatch(routes, L - 1, short, r, k, i');
          assert LongestFirstMatch(routes, L, short, r, k, i');
        }
      }
    }
  }

  /**
   * The resolved name is the short name exactly when no opted-in candidate
   * matches at any strip length; otherwise it is the first candidate, in
   * insertion order, at the longest strip length that has a match, and its
   * name is the first k characters of the common prefix followed by the
   * short name.
   */
  lemma ResolveSpec(routes: RouteMap, short: string)
    ensures var L := |Lcp(Keys(routes))|; var r := Resolve(routes, short);
      && (r == short <==> NoMatchUpTo(routes, L, short))
      && (r != short ==> exists k: nat, i: nat :: LongestFirstMatch(routes, L, short, r, k, i)
                                        && routes[i].1.optsIn && r == Lcp(Keys(routes))[..k] + short)
  {
    var ks := Keys(routes);
    var L := |Lcp(ks)|;
    var r := Resolve(routes, short);
    ResolveFromSpec(routes, L, short);
    if r != short {
      var k: nat, i: nat :| LongestFirstMatch(routes, L, short, r, k, i);
      LcpSpec(ks);
      assert IsPrefix(Lcp(ks), ks[i]);
      StrippedName(Lcp(ks), r, k, short);
      assert LongestFirstMatch(routes, L, short, r, k, i) && r == Lcp(ks)[..k] + short;
    }
  }

  /** A name that starts with p and leaves short after its first k <= |p| characters. */
  lemma StrippedName(p: string, name: string, k: nat, short: string)
    requires IsPrefix(p, name) && k <= |p| && k <= |name| && name[k..] == short
    ensures name == p[..k] + short
  {
  }

  /** Candidates that did not opt in are never returned. */
  lemma NoOptInUnchanged(routes: RouteMap, short: string)
    requires forall j :: 0 <= j < |routes| ==> !routes[j].1.optsIn
    ensures Resolve(routes, short) == short
  {
    ResolveSpec(routes, short);
  }

  /** Any name returned other than the short name is that of an opted-in candidate. */
  lemma ResolvedIsOptedIn(routes: RouteMap, short: string)
    ensures var r := Resolve(routes, short);
      r != short ==> exists i :: 0 <= i < |routes| && routes[i].0 == r && routes[i].1.optsIn
  {
    ResolveSpec(routes, short);
  }

  /** With twiggy_bob, twiggy_rob and twiggy_mob opted in, "bob" resolves to twiggy_bob. */
  lemma ResolvesPrefixedExample()
    ensures Resolve([("twiggy_bob", Route("/bob", true)), ("twiggy_rob", Route("/rob", true)),
                     ("twiggy_mob", Route("/mob", true))], "bob") == "twiggy_bob"
  {
    var routes := [("twiggy_bob", Route("/bob", true)), ("twiggy_rob", Route("/rob", true)),
                   ("twiggy_mob", Route("/mob", true))];
    assert routes[0].0 == "twiggy_" + "bob";
    var ks := Keys(routes);
    assert ks == ["twiggy_bob", "twiggy_rob", "twiggy_mob"];
    assert IsCommonPrefix("twiggy_", ks);
    LcpAtDivergence(ks, "twiggy_", 0, 1);
    PrefixedMatches("twiggy_", "bob", routes[0].1);
  }

  /**
   * With twiggy_name_bob, twiggy_name_rob and twiggy_name_mob opted in,
   * "name_bob" resolves to twiggy_name_bob: the full common prefix
   * twiggy_name_ overshoots, and shorter strip lengths are tried.
   */
  lemma ResolvesNestedPrefixExample()
    ensures Resolve([("twiggy_name_bob", Route("/bob", true)), ("twiggy_name_rob", Route("/rob", true)),
                     ("twiggy_name_mob", Route("/mob", true))], "name_bob") == "twiggy_name_bob"
  {
    var routes := [("twiggy_name_bob", Route("/bob", true)), ("twiggy_name_rob", Route("/rob", true)),
                   ("twiggy_name_mob", Route("/mob", true))];
    assert routes[0].0 == "twiggy_" + "name_bob";
    var ks := Keys(routes);
    assert ks == ["twiggy_name_bob", "twiggy_name_rob", "twiggy_name_mob"];
    assert IsCommonPrefix("twiggy_name_", ks);
    LcpAtDivergence(ks, "twiggy_name_", 0, 1);
    ResolveFromBeyondNames(routes, 12, 7, "name_bob");
    PrefixedMatches("twiggy_", "name_bob", routes[0].1);
  }

  /**
   * Strip lengths that would leave fewer characters than the short name in
   * every candidate are passed over without a match.
   */
  lemma {:induction false} ResolveFromBeyondNames(routes: RouteMap, k: nat, m: nat, short: string)
    requires m <= k
    requires forall j :: 0 <= j < |routes| ==> |routes[j].0| <= m + |short|
    ensures ResolveFrom(routes, k, short) == ResolveFrom(routes, m, short)
    decreases k
  {
    if m < k {
      assert FirstMatch(routes, k, short) == -1;
      ResolveFromBeyondNames(routes, k - 1, m, short);
    }
  }

  /**
   * The search loop of getBundleRoute: strip lengths from the common
   * prefix's length down to 1, candidates in insertion order; the first
   * opted-in candidate whose stripped name is the short name is returned,
   * and the short name when there is none.
   */
  method MatchStripped(nsRoutes: RouteMap, route: string, prefix: string) returns (resolved: string)
    requires forall j :: 0 <= j < |nsRoutes| ==> |prefix| <= |nsRoutes[j].0|
    ensures resolved == ResolveFrom(nsRoutes, |prefix|, route)
  {
    var prefixLength: nat := |prefix|;
    while prefixLength > 0
      invariant prefixLength <= |prefix|
      invariant ResolveFrom(nsRoutes, prefixLength, route) == ResolveFrom(nsRoutes, |prefix|, route)
      decreases prefixLength
    {
      for i := 0 to |nsRoutes|
        invariant forall j :: 0 <= j < i ==> !MatchesAt(nsRoutes[j], prefixLength, route)
      {
        var (routeName, rt) := nsRoutes[i];
        if routeName[prefixLength..] == route {
          if rt.optsIn {
            assert FirstMatch(nsRoutes, prefixLength, route) == i;
            return routeName;
          }
        }
        assert !MatchesAt(nsRoutes[i], prefixLength, route);
      }
      prefixLength := prefixLength - 1;
    }
    return route;
  }

  class BundleRouteMapper {
    const routesByNamespace: RoutesByNamespace
    const twigNamespaceMapper: TwigNamespaceMapper

    constructor (routesByNamespace: RoutesByNamespace, twigNamespaceMapper: TwigNamespaceMapper)
      ensures this.routesByNamespace == routesByNamespace
      ensures this.twigNamespaceMapper == twigNamespaceMapper
    {
      this.routesByNamespace := routesByNamespace;
      this.twigNamespaceMapper := twigNamespaceMapper;
    }

    /** Strict lookup in the index: a missing namespace is an error naming it. */
    function GetRoutesByPHPNamespace(phpNamespace: string): (r: Result<RouteMap>)
      reads routesByNamespace
      ensures r.Ok? <==> phpNamespace in routesByNamespace.routeMappingByPHPNamespace
      ensures r.Ok? ==> r.value == routesByNamespace.routeMappingByPHPNamespace[phpNamespace]
      ensures r.Err? ==> r.error == MissingMapping(phpNamespace)
    {
      routesByNamespace.GetRoutesByPHPNamespace(phpNamespace)
    }

    /**
     * Routes for a Twig namespace: none when the tag has no bundle, but a
     * bundle whose PHP namespace has no routes is an error naming that
     * namespace.
     */
    function GetRoutesByTwigNamespace(twigNamespace: string): (r: Result<RouteMap>)
      reads routesByNamespace, twigNamespaceMapper
      ensures var bundle := twigNamespace + BundleSuffix;
        && (bundle !in twigNamespaceMapper.bundleNamespaceMapping ==> r == Ok([]))
        && (bundle in twigNamespaceMapper.bundleNamespaceMapping ==>
              var ns := twigNamespaceMapper.bundleNamespaceMapping[bundle];
              && (r.Ok? <==> ns in routesByNamespace.routeMappingByPHPNamespace)
              && (r.Ok? ==> r.value == routesByNamespace.routeMappingByPHPNamespace[ns])
              && (r.Err? ==> r.error == MissingMapping(ns)))
    {
      match twigNamespaceMapper.GetPHPNamespaceFromTwigNamespace(twigNamespace)
      case Err(_) => Ok([])
      case Ok(phpNamespace) => GetRoutesByPHPNamespace(phpNamespace)
    }

    /**
     * Routes for a template path: none when the path is invalid; otherwise
     * those of its Twig namespace. Only a missing PHP namespace fails.
     */
    function GetRoutesByTwigPath(twigSelf: string): (r: Result<RouteMap>)
      reads routesByNamespace, twigNamespaceMapper
      ensures GetTwigNamespaceFromPath(twigSelf).Err? ==> r == Ok([])
      ensures GetTwigNamespaceFromPath(twigSelf).Ok? ==>
        r == GetRoutesByTwigNamespace(GetTwigNamespaceFromPath(twigSelf).value)
      ensures r.Err? ==> r.error.MissingMapping?
    {
      match GetTwigNamespaceFromPath(twigSelf)
      case Err(_) => Ok([])
      case Ok(twigNamespace) => GetRoutesByTwigNamespace(twigNamespace)
    }

    /**
     * getBundleRoute: the candidates' common prefix bounds the strip
     * lengths, which are tried from longest to 1; the first opted-in
     * candidate whose stripped name is the short name wins.
     */
    method GetBundleRoute(route: string, twigSelf: string) returns (r: Result<string>)
      ensures GetRoutesByTwigPath(twigSelf).Err? ==> r == Err(GetRoutesByTwigPath(twigSelf).error)
      ensures GetRoutesByTwigPath(twigSelf).Ok? ==> r == Ok(Resolve(GetRoutesByTwigPath(twigSelf).value, route))
      ensures GetTwigNamespaceFromPath(twigSelf).Err? ==> r == Ok(route)
      ensures GetTwigNamespaceFromPath(twigSelf).Ok?
           && GetTwigNamespaceFromPath(twigSelf).value + BundleSuffix !in twigNamespaceMapper.bundleNamespaceMapping
          ==> r == Ok(route)
      ensures r.Err? ==> r.error.MissingMapping?
      ensures r.Ok? && r.value != route ==>
        var routes := GetRoutesByTwigPath(twigSelf).value;
        exists i :: 0 <= i < |routes| && routes[i].0 == r.value && routes[i].1.optsIn
    {
      var candidates := GetRoutesByTwigPath(twigSelf);
      if candidates.Err? {
        return Err(candidates.error);
      }
      var nsRoutes := candidates.value;
      assert Resolve([], route) == route;
      var prefix := GetPrefixForStrings(Keys(nsRoutes));
      LcpBounded(Keys(nsRoutes));
      var resolved := MatchStripped(nsRoutes, route, prefix);
      ResolvedIsOptedIn(nsRoutes, route);
      return Ok(resolved);
    }
  }
}

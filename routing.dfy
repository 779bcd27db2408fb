/**
 * RoutesByNamespace: every route is indexed under the PHP class name of its
 * controller and under each ancestor namespace of that class, so that the
 * routes owned at or below a namespace are one lookup away.
 */
module Routing {
  import opened Errors
  import opened OrderedMap

  /**
   * A Symfony route as far as this system looks at it: an identity (its
   * path) and whether its options carry the alias opt-in key.
   */
  datatype Route = Route(path: string, optsIn: bool)

  /** Route name to route, in insertion order. */
  type RouteMap = Entries<Route>

  /** One entry of a route collection: name, `_controller` default, route. */
  datatype RouteEntry = RouteEntry(name: string, controller: Option<string>, route: Route)

  const Separator: char := '\\'

  predicate HasSeparator(s: string) {
    exists i :: 0 <= i < |s| && s[i] == Separator
  }

  /** strrpos($s, '\\'): the position of the last separator. */
  function LastSeparator(s: string): (k: nat)
    requires HasSeparator(s)
    ensures k < |s| && s[k] == Separator
    ensures forall j :: k < j < |s| ==> s[j] != Separator
  {
    if s[|s| - 1] == Separator then |s| - 1
    else
      assert HasSeparator(s[..|s| - 1]) by {
        var i :| 0 <= i < |s| && s[i] == Separator;
        assert s[..|s| - 1][i] == Separator;
      }
      LastSeparator(s[..|s| - 1])
  }

  /** The parent namespace: the text before the last separator. */
  function Parent(s: string): (p: string)
    requires HasSeparator(s)
    ensures |p| < |s| && p + [Separator] <= s
  {
    s[..LastSeparator(s)]
  }

  /**
   * The namespaces addRouteNamespace writes, in the order it writes them:
   * the class name, then its iterated parents while a separator remains,
   * stopping before the empty string.
   */
  function Chain(c: string): (ns: seq<string>)
    ensures c != "" ==> |ns| >= 1 && ns[0] == c
    ensures forall i :: 0 <= i < |ns| ==> ns[i] != "" && ns[i] <= c
    decreases |c|
  {
    if c == "" then []
    else if !HasSeparator(c) then [c]
    else [c] + Chain(Parent(c))
  }

  /** One step down the chain moves its head to the written prefix. */
  lemma ChainStep(done: seq<string>, c: string)
    requires c != "" && HasSeparator(c)
    ensures done + Chain(c) == (done + [c]) + Chain(Parent(c))
  {
  }

  /** Where the chain ends: at the empty string, or after a name without a separator. */
  lemma ChainEnd(done: seq<string>, c: string)
    ensures c == "" ==> done + Chain(c) == done
    ensures c != "" && !HasSeparator(c) ==> done + Chain(c) == done + [c]
  {
  }

  /**
   * ns is written when registering under c exactly when it is non-empty and
   * is either c itself or a prefix of c followed by a separator.
   */
  ghost predicate IsAncestor(ns: string, c: string) {
    ns != "" && (ns == c || ns + [Separator] <= c)
  }

  lemma SeparatorAfterPrefix(ns: string, c: string)
    ensures ns + [Separator] <= c ==> HasSeparator(c)
  {
    if ns + [Separator] <= c {
      assert c[|ns|] == Separator;
    }
  }

  lemma {:induction false} ChainIsAncestors(c: string, ns: string)
    ensures ns in Chain(c) <==> IsAncestor(ns, c)
    decreases |c|
  {
    if c == "" {
    } else if !HasSeparator(c) {
      SeparatorAfterPrefix(ns, c);
    } else {
      var p := Parent(c);
      var k := LastSeparator(c);
      ChainIsAncestors(p, ns);
      if ns != c && ns + [Separator] <= c {
        assert c[|ns|] == Separator;
        if |ns| < k {
          assert ns + [Separator] <= p by {
            assert p == c[..k];
          }
        } else {
          assert |ns| == k;
          assert ns == p;
        }
      }
      if IsAncestor(ns, p) && ns != p {
        assert ns + [Separator] <= c by {
          assert p <= c;
        }
      }
    }
  }

  /** The chain starts at c and every namespace in it is shorter than the last. */
  lemma {:induction false} ChainShape(c: string)
    ensures c != "" ==> |Chain(c)| >= 1 && Chain(c)[0] == c
    ensures forall i :: 0 <= i < |Chain(c)| ==> Chain(c)[i] != ""
    ensures forall i :: 0 < i < |Chain(c)| ==> |Chain(c)[i]| < |Chain(c)[i - 1]|
    decreases |c|
  {
    if c != "" && HasSeparator(c) {
      ChainShape(Parent(c));
    }
  }

  /**
   * A leading separator ends the chain at its first segment: "\\One" has
   * the empty parent, which is never written.
   */
  lemma LeadingSeparatorChain()
    ensures Chain("\\One\\Two\\Three") == ["\\One\\Two\\Three", "\\One\\Two", "\\One"]
  {
    var c := "\\One\\Two\\Three";
    assert HasSeparator(c) by { assert c[0] == Separator; }
    assert LastSeparator(c) == 8 by {
      assert c[8] == Separator;
      assert forall j :: 8 < j < |c| ==> c[j] != Separator;
    }
    var p := c[..8];
    assert p == "\\One\\Two";
    assert HasSeparator(p) by { assert p[0] == Separator; }
    assert LastSeparator(p) == 4 by {
      assert p[4] == Separator;
      assert forall j :: 4 < j < |p| ==> p[j] != Separator;
    }
    var q := p[..4];
    assert q == "\\One";
    assert HasSeparator(q) by { assert q[0] == Separator; }
    assert LastSeparator(q) == 0;
    assert Chain(q[..0]) == [];
  }

  /** An empty class name registers nothing. */
  lemma EmptyClassRegistersNothing(m: map<string, RouteMap>, name: string, r: Route)
    ensures RegisterAt(m, Chain(""), name, r) == m
  {
  }

  /**
   * The index after writing name -> r at every namespace of nss, in order:
   * each write is one Put into the route map stored at that namespace.
   */
  ghost function RegisterAt(m: map<string, RouteMap>, nss: seq<string>, name: string, r: Route)
    : (m': map<string, RouteMap>)
    ensures m.Keys <= m'.Keys
  {
    if nss == [] then m
    else
      var m1 := RegisterAt(m, nss[..|nss| - 1], name, r);
      var ns := nss[|nss| - 1];
      assert nss == nss[..|nss| - 1] + [ns];
      m1[ns := Put(if ns in m1 then m1[ns] else [], name, r)]
  }

  /**
   * Where it was written, a namespace holds one Put of name -> r into what it
   * held before (however often it occurs in nss); elsewhere nothing changes.
   */
  lemma {:induction false} RegisterLookup(m: map<string, RouteMap>, nss: seq<string>, name: string, r: Route, ns: string)
    ensures var m' := RegisterAt(m, nss, name, r);
      && (ns in nss ==> ns in m' && m'[ns] == Put(if ns in m then m[ns] else [], name, r))
      && (ns !in nss ==> (ns in m' <==> ns in m) && (ns in m ==> m'[ns] == m[ns]))
  {
    if nss != [] {
      var init := nss[..|nss| - 1];
      var last := nss[|nss| - 1];
      assert nss == init + [last];
      RegisterLookup(m, init, name, r, ns);
      if ns == last && ns in init {
        PutIdempotent(if ns in m then m[ns] else [], name, r);
      }
    }
  }

  /** Registering at one namespace more is one more Put at that namespace. */
  lemma RegisterOneMore(m: map<string, RouteMap>, nss: seq<string>, ns: string, name: string, r: Route)
    ensures var m1 := RegisterAt(m, nss, name, r);
      m1[ns := Put(if ns in m1 then m1[ns] else [], name, r)] == RegisterAt(m, nss + [ns], name, r)
  {
  }

  /**
   * Effect of registering name -> r under class name c: the route is
   * visible under name at every ancestor; nothing else in the index changes.
   */
  lemma RegisterEffect(m: map<string, RouteMap>, c: string, name: string, r: Route, ns: string, other: string)
    requires forall n :: n in m ==> UniqueKeys(m[n])
    ensures var m' := RegisterAt(m, Chain(c), name, r);
      && (IsAncestor(ns, c) ==>
            var before := if ns in m then m[ns] else [];
            && ns in m' && UniqueKeys(m'[ns]) && Get(m'[ns], name) == Some(r)
            && (other != name ==> Get(m'[ns], other) == Get(before, other))
            && Keys(m'[ns]) == if HasKey(before, name) then Keys(before) else Keys(before) + [name])
      && (!IsAncestor(ns, c) ==> (ns in m' <==> ns in m) && (ns in m ==> m'[ns] == m[ns]))
  {
    ChainIsAncestors(c, ns);
    RegisterLookup(m, Chain(c), name, r, ns);
    var before := if ns in m then m[ns] else [];
    PutGet(before, name, r, name);
    PutGet(before, name, r, other);
  }

  /** Registering keeps every route map free of duplicate names. */
  lemma RegisterUnique(m: map<string, RouteMap>, nss: seq<string>, name: string, r: Route)
    requires forall n :: n in m ==> UniqueKeys(m[n])
    ensures var m' := RegisterAt(m, nss, name, r);
      forall n :: n in m' ==> UniqueKeys(m'[n])
  {
    var m' := RegisterAt(m, nss, name, r);
    forall n | n in m' ensures UniqueKeys(m'[n]) {
      RegisterLookup(m, nss, name, r, n);
      if n in nss {
        PutGet(if n in m then m[n] else [], name, r, name);
      }
    }
  }

  /** Registering the same route twice equals registering it once. */
  lemma RegisterIdempotent(m: map<string, RouteMap>, c: string, name: string, r: Route)
    ensures var once := RegisterAt(m, Chain(c), name, r);
      RegisterAt(once, Chain(c), name, r) == once
  {
    var nss := Chain(c);
    var once := RegisterAt(m, nss, name, r);
    var twice := RegisterAt(once, nss, name, r);
    forall ns | ns in twice ensures ns in once && twice[ns] == once[ns] {
      RegisterLookup(m, nss, name, r, ns);
      RegisterLookup(once, nss, name, r, ns);
      if ns in nss {
        PutIdempotent(if ns in m then m[ns] else [], name, r);
      }
    }
  }

  /** PHP truthiness of the `_controller` default: null, "" and "0" are falsy. */
  predicate Falsy(controller: Option<string>)
    ensures Falsy(controller) ==> controller.None? || |controller.value| <= 1
  {
    controller.None? || controller.value == "" || controller.value == "0"
  }

  predicate DoubleColonAt(s: string, i: nat) {
    i + 1 < |s| && s[i] == ':' && s[i + 1] == ':'
  }

  /** explode('::', $s)[0]: the text before the first "::", or all of s. */
  function ClassPart(s: string): (r: string)
    ensures r <= s
    ensures r == s || DoubleColonAt(s, |r|)
    ensures forall i :: 0 <= i < |r| ==> !DoubleColonAt(s, i)
  {
    if |s| < 2 then s
    else if s[0] == ':' && s[1] == ':' then ""
    else
      var r := [s[0]] + ClassPart(s[1..]);
      assert forall i :: 1 <= i < |r| ==> (DoubleColonAt(s, i) <==> DoubleColonAt(s[1..], i - 1));
      r
  }

  /** One step of loadFromRouteCollection. */
  ghost function LoadOne(m: map<string, RouteMap>, e: RouteEntry): (m': map<string, RouteMap>)
    ensures Falsy(e.controller) ==> m' == m
  {
    if Falsy(e.controller) then m
    else RegisterAt(m, Chain(ClassPart(e.controller.value)), e.name, e.route)
  }

  /** loadFromRouteCollection over the whole collection, in collection order. */
  ghost function Load(m: map<string, RouteMap>, es: seq<RouteEntry>): (m': map<string, RouteMap>)
    ensures m.Keys <= m'.Keys
  {
    if es == [] then m else LoadOne(Load(m, es[..|es| - 1]), es[|es| - 1])
  }

  /** The namespaces entry e is registered under (none when it is skipped). */
  ghost predicate WrittenUnder(e: RouteEntry, ns: string) {
    !Falsy(e.controller) && IsAncestor(ns, ClassPart(e.controller.value))
  }

  /**
   * After loading, a namespace is present exactly when it was present before
   * or some retained entry is registered under it.
   */
  lemma {:induction false} LoadKeys(m: map<string, RouteMap>, es: seq<RouteEntry>, ns: string)
    ensures ns in Load(m, es) <==> ns in m || exists i :: 0 <= i < |es| && WrittenUnder(es[i], ns)
  {
    if es != [] {
      var init := es[..|es| - 1];
      var e := es[|es| - 1];
      LoadKeys(m, init, ns);
      if !Falsy(e.controller) {
        ChainIsAncestors(ClassPart(e.controller.value), ns);
        RegisterLookup(Load(m, init), Chain(ClassPart(e.controller.value)), e.name, e.route, ns);
      }
      if exists i :: 0 <= i < |es| && WrittenUnder(es[i], ns) {
        var i :| 0 <= i < |es| && WrittenUnder(es[i], ns);
        if i < |init| {
          assert init[i] == es[i];
        }
      }
      assert forall i :: 0 <= i < |init| ==> init[i] == es[i];
    }
  }

  /**
   * The last retained entry with a given name registered under ns wins: the
   * index at ns maps that name to that entry's route.
   */
  lemma {:induction false} LoadLastWins(m: map<string, RouteMap>, es: seq<RouteEntry>, i: nat, ns: string)
    requires forall n :: n in m ==> UniqueKeys(m[n])
    requires i < |es| && WrittenUnder(es[i], ns)
    requires forall j :: i < j < |es| && es[j].name == es[i].name ==> !WrittenUnder(es[j], ns)
    ensures (forall n :: n in Load(m, es) ==> UniqueKeys(Load(m, es)[n]))
    ensures ns in Load(m, es) && Get(Load(m, es)[ns], es[i].name) == Some(es[i].route)
  {
    var init := es[..|es| - 1];
    var e := es[|es| - 1];
    var before := Load(m, init);
    LoadUnique(m, init);
    if i < |es| - 1 {
      assert init[i] == es[i];
      LoadLastWins(m, init, i, ns);
      if !Falsy(e.controller) {
        RegisterEffect(before, ClassPart(e.controller.value), e.name, e.route, ns, es[i].name);
      }
    } else {
      RegisterEffect(before, ClassPart(e.controller.value), e.name, e.route, ns, e.name);
    }
    LoadUnique(m, es);
  }

  /** The controllers "Basic::one" and "Basic::two" both live in class Basic. */
  lemma BasicClassParts()
    ensures ClassPart("Basic::one") == "Basic" && ClassPart("Basic::two") == "Basic"
  {
    assert DoubleColonAt("Basic::one", 5);
    assert forall i :: 0 <= i < 5 ==> !DoubleColonAt("Basic::one", i);
    assert DoubleColonAt("Basic::two", 5);
    assert forall i :: 0 <= i < 5 ==> !DoubleColonAt("Basic::two", i);
  }

  /** Two routes whose controllers live in class Basic are both found at Basic. */
  lemma LoadFromRouterExample()
    ensures var es := [RouteEntry("route", Some("Basic::one"), Route("/route", false)),
                       RouteEntry("route2", Some("Basic::two"), Route("/route2", false))];
      && "Basic" in Load(map[], es)
      && Get(Load(map[], es)["Basic"], "route") == Some(Route("/route", false))
      && Get(Load(map[], es)["Basic"], "route2") == Some(Route("/route2", false))
  {
    var es := [RouteEntry("route", Some("Basic::one"), Route("/route", false)),
               RouteEntry("route2", Some("Basic::two"), Route("/route2", false))];
    BasicClassParts();
    LoadLastWins(map[], es, 0, "Basic");
    LoadLastWins(map[], es, 1, "Basic");
  }

  /** Loading keeps every route map free of duplicate names. */
  lemma {:induction false} LoadUnique(m: map<string, RouteMap>, es: seq<RouteEntry>)
    requires forall n :: n in m ==> UniqueKeys(m[n])
    ensures forall n :: n in Load(m, es) ==> UniqueKeys(Load(m, es)[n])
  {
    if es != [] {
      var e := es[|es| - 1];
      LoadUnique(m, es[..|es| - 1]);
      if !Falsy(e.controller) {
        var before := Load(m, es[..|es| - 1]);
        forall n | n in Load(m, es) ensures UniqueKeys(Load(m, es)[n]) {
          RegisterEffect(before, ClassPart(e.controller.value), e.name, e.route, n, e.name);
        }
      }
    }
  }

  class RoutesByNamespace {
    var routeMappingByPHPNamespace: map<string, RouteMap>

    ghost predicate Valid()
      reads this
    {
      forall ns :: ns in routeMappingByPHPNamespace ==> UniqueKeys(routeMappingByPHPNamespace[ns])
    }

    constructor ()
      ensures Valid() && routeMappingByPHPNamespace == map[]
    {
      routeMappingByPHPNamespace := map[];
    }

    /** createFromRouter: a fresh index loaded from the router's collection. */
    static method CreateFromRouter(routes: seq<RouteEntry>) returns (that: RoutesByNamespace)
      ensures fresh(that) && that.Valid()
      ensures that.routeMappingByPHPNamespace == Load(map[], routes)
    {
      that := new RoutesByNamespace();
      that.LoadFromRouteCollection(routes);
    }

    /** The routes stored at a namespace, or a missing-mapping error naming it. */
    function GetRoutesByPHPNamespace(phpNamespace: string): (r: Result<RouteMap>)
      reads this
      ensures r.Ok? <==> phpNamespace in routeMappingByPHPNamespace
      ensures r.Ok? ==> r.value == routeMappingByPHPNamespace[phpNamespace]
      ensures r.Err? ==> r.error == MissingMapping(phpNamespace)
    {
      if phpNamespace !in routeMappingByPHPNamespace then Err(MissingMapping(phpNamespace))
      else Ok(routeMappingByPHPNamespace[phpNamespace])
    }

    /** Registers every route whose controller is truthy, in collection order. */
    method LoadFromRouteCollection(routes: seq<RouteEntry>)
      requires Valid()
      modifies this
      ensures Valid()
      ensures routeMappingByPHPNamespace == Load(old(routeMappingByPHPNamespace), routes)
    {
      for i := 0 to |routes|
        invariant Valid()
        invariant routeMappingByPHPNamespace == Load(old(routeMappingByPHPNamespace), routes[..i])
      {
        var e := routes[i];
        assert routes[..i + 1][..i] == routes[..i];
        if Falsy(e.controller) {
          continue;
        }
        AddRouteNamespace(ClassPart(e.controller.value), e.name, e.route);
      }
      assert routes[..|routes|] == routes;
    }

    /** Writes name -> route at the class name and at each of its ancestors. */
    method AddRouteNamespace(controllerClassName: string, routeName: string, route: Route)
      requires Valid()
      modifies this
      ensures Valid()
      ensures routeMappingByPHPNamespace
           == RegisterAt(old(routeMappingByPHPNamespace), Chain(controllerClassName), routeName, route)
    {
      ghost var m0 := routeMappingByPHPNamespace;
      var c := controllerClassName;
      ghost var done: seq<string> := [];
      while c != ""
        invariant done + Chain(c) == Chain(controllerClassName)
        invariant routeMappingByPHPNamespace == RegisterAt(m0, done, routeName, route)
        decreases |c|
      {
        var stored := if c in routeMappingByPHPNamespace then routeMappingByPHPNamespace[c] else [];
        RegisterOneMore(m0, done, c, routeName, route);
        routeMappingByPHPNamespace := routeMappingByPHPNamespace[c := Put(stored, routeName, route)];
        if !HasSeparator(c) {
          ChainEnd(done, c);
          done := done + [c];
          break;
        }
        ChainStep(done, c);
        done := done + [c];
        c := Parent(c);
      }
      ChainEnd(done, c);
      RegisterUnique(m0, done, routeName, route);
    }
  }
}

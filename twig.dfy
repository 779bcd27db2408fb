/**
 * TwigNamespaceMapper: bundle name to PHP namespace, looked up by the Twig
 * namespace tag (the bundle name without its "Bundle" suffix), and the
 * extraction of that tag from an "@Tag/..." template path.
 */
module Twig {
  import opened Errors

  const BundleSuffix: string := "Bundle"

  /** A kernel bundle as the mapper sees it. */
  datatype Bundle = Bundle(name: string, namespace: string)

  /** The mapping after adding the bundles one after another. */
  function AddAll(m: map<string, string>, bundles: seq<Bundle>): (m': map<string, string>)
    ensures m'.Keys == m.Keys + set i | 0 <= i < |bundles| :: bundles[i].name
  {
    if bundles == [] then m
    else
      var last := bundles[|bundles| - 1];
      var init := bundles[..|bundles| - 1];
      var r := AddAll(m, init)[last.name := last.namespace];
      assert (set i | 0 <= i < |bundles| :: bundles[i].name)
          == (set i | 0 <= i < |init| :: init[i].name) + {last.name} by {
        forall i | 0 <= i < |init| ensures init[i] == bundles[i] { }
      }
      r
  }

  /** The last bundle with a given name decides its namespace. */
  lemma {:induction false} AddAllLastWins(m: map<string, string>, bundles: seq<Bundle>, i: nat)
    requires i < |bundles|
    requires forall j :: i < j < |bundles| ==> bundles[j].name != bundles[i].name
    ensures bundles[i].name in AddAll(m, bundles)
    ensures AddAll(m, bundles)[bundles[i].name] == bundles[i].namespace
  {
    if i < |bundles| - 1 {
      var init := bundles[..|bundles| - 1];
      assert init[i] == bundles[i];
      AddAllLastWins(m, init, i);
    }
  }

  /** Names no bundle carries keep their earlier value. */
  lemma {:induction false} AddAllOthersKept(m: map<string, string>, bundles: seq<Bundle>, name: string)
    requires forall j :: 0 <= j < |bundles| ==> bundles[j].name != name
    ensures name in AddAll(m, bundles) <==> name in m
    ensures name in m ==> AddAll(m, bundles)[name] == m[name]
  {
    if bundles != [] {
      var init := bundles[..|bundles| - 1];
      assert forall j :: 0 <= j < |init| ==> init[j] == bundles[j];
      AddAllOthersKept(m, init, name);
    }
  }

  predicate HasSlash(s: string) {
    exists i :: 0 <= i < |s| && s[i] == '/'
  }

  /** strpos($s, '/') for a string that contains one. */
  function FirstSlash(s: string): (k: nat)
    requires HasSlash(s)
    ensures k < |s| && s[k] == '/'
    ensures forall j :: 0 <= j < k ==> s[j] != '/'
  {
    if s[0] == '/' then 0
    else
      assert HasSlash(s[1..]) by {
        var i :| 0 <= i < |s| && s[i] == '/';
        assert s[1..][i - 1] == '/';
      }
      1 + FirstSlash(s[1..])
  }

  /**
   * PHP's substr($s, $offset, $length) for 0 <= offset <= |s|: a negative
   * length stops that many characters before the end.
   */
  function Substr(s: string, offset: nat, length: int): (r: string)
    requires offset <= |s|
    ensures length >= 0 ==> |r| == if offset + length <= |s| then length else |s| - offset
    ensures length < 0 ==> |r| == if |s| + length <= offset then 0 else |s| + length - offset
    ensures r <= s[offset..]
  {
    var stop := if length >= 0 then offset + length else |s| + length;
    if stop <= offset then ""
    else if stop >= |s| then s[offset..]
    else s[offset..stop]
  }

  /**
   * getTwigNamespaceFromPath as written: when the path has no '/', strpos
   * gives false, false - 1 is -1, and substr drops the last character.
   */
  function TwigNamespaceFromPathAsWritten(twigPath: string): (r: Result<string>)
    ensures r.Err? <==> !(|twigPath| > 0 && twigPath[0] == '@')
  {
    if !(|twigPath| > 0 && twigPath[0] == '@') then Err(InvalidArgument("Twig path must start with @"))
    else
      var pos := if HasSlash(twigPath) then FirstSlash(twigPath) else 0;
      Ok(Substr(twigPath, 1, pos - 1))
  }

  /** "@Twiggy" has no '/' and yields the tag "Twigg". */
  lemma AsWrittenTruncatesTag()
    ensures TwigNamespaceFromPathAsWritten("@Twiggy") == Ok("Twigg")
  {
    var p := "@Twiggy";
    assert forall i :: 0 <= i < |p| ==> p[i] != '/';
    assert p[1..|p| - 1] == "Twigg";
  }

  /**
   * As written, a path that starts with '@' and has no '/' loses its first
   * and its last character.
   */
  lemma AsWrittenWithoutSlash(twigPath: string)
    requires |twigPath| > 0 && twigPath[0] == '@' && !HasSlash(twigPath)
    ensures TwigNamespaceFromPathAsWritten(twigPath)
         == Ok(if |twigPath| <= 2 then "" else twigPath[1..|twigPath| - 1])
  {
  }

  /** With a '/', the as-written and the corrected extraction agree. */
  lemma AsWrittenAgreesWithSlash(twigPath: string)
    requires HasSlash(twigPath)
    ensures TwigNamespaceFromPathAsWritten(twigPath) == GetTwigNamespaceFromPath(twigPath)
  {
  }

  /**
   * getTwigNamespaceFromPath, with a path that has no '/' rejected as an
   * invalid argument instead of losing its last character.
   */
  function GetTwigNamespaceFromPath(twigPath: string): (r: Result<string>)
    ensures r.Err? <==> !(|twigPath| > 0 && twigPath[0] == '@' && HasSlash(twigPath))
    ensures r.Err? ==> r.error.InvalidArgument?
    ensures r.Ok? ==> !HasSlash(r.value) && "@" + r.value + "/" <= twigPath
  {
    if !(|twigPath| > 0 && twigPath[0] == '@') then Err(InvalidArgument("Twig path must start with @"))
    else if !HasSlash(twigPath) then Err(InvalidArgument("Twig path must contain /"))
    else
      var tag := twigPath[1..FirstSlash(twigPath)];
      assert "@" + tag + "/" == twigPath[..FirstSlash(twigPath) + 1];
      Ok(tag)
  }

  /** The tag of "@" + tag + "/" + rest is tag itself. */
  lemma TagRoundTrip(tag: string, rest: string)
    requires !HasSlash(tag)
    ensures GetTwigNamespaceFromPath("@" + tag + "/" + rest) == Ok(tag)
  {
    var p := "@" + tag + "/" + rest;
    assert p[|tag| + 1] == '/';
    assert forall j :: 1 <= j < |tag| + 1 ==> p[j] == tag[j - 1];
    assert p[1..|tag| + 1] == tag;
  }

  class TwigNamespaceMapper {
    var bundleNamespaceMapping: map<string, string>

    constructor (bundleNamespaceMapping: map<string, string>)
      ensures this.bundleNamespaceMapping == bundleNamespaceMapping
    {
      this.bundleNamespaceMapping := bundleNamespaceMapping;
    }

    /** Last write wins for a bundle name; other bundle names are untouched. */
    method AddNamespaceMapping(bundleName: string, phpNamespace: string)
      modifies this
      ensures bundleNamespaceMapping == old(bundleNamespaceMapping)[bundleName := phpNamespace]
      ensures forall t :: t + BundleSuffix == bundleName ==> GetPHPNamespaceFromTwigNamespace(t) == Ok(phpNamespace)
      ensures forall t :: t + BundleSuffix != bundleName ==>
        GetPHPNamespaceFromTwigNamespace(t) == old(GetPHPNamespaceFromTwigNamespace(t))
    {
      bundleNamespaceMapping := bundleNamespaceMapping[bundleName := phpNamespace];
    }

    /** createFromKernel: a fresh mapper holding every bundle, in kernel order. */
    static method CreateFromKernel(bundles: seq<Bundle>) returns (that: TwigNamespaceMapper)
      ensures fresh(that)
      ensures that.bundleNamespaceMapping == AddAll(map[], bundles)
    {
      that := new TwigNamespaceMapper(map[]);
      for i := 0 to |bundles|
        invariant that.bundleNamespaceMapping == AddAll(map[], bundles[..i])
      {
        assert bundles[..i + 1][..i] == bundles[..i];
        that.AddNamespaceMapping(bundles[i].name, bundles[i].namespace);
      }
      assert bundles[..|bundles|] == bundles;
    }

    /**
     * The namespace of the bundle named tag + "Bundle"; a missing bundle
     * fails with a missing-mapping error naming the tag.
     */
    function GetPHPNamespaceFromTwigNamespace(twigNamespace: string): (r: Result<string>)
      reads this
      ensures r.Ok? <==> twigNamespace + BundleSuffix in bundleNamespaceMapping
      ensures r.Ok? ==> r.value == bundleNamespaceMapping[twigNamespace + BundleSuffix]
      ensures r.Err? ==> r.error == MissingMapping(twigNamespace)
    {
      var bundleName := twigNamespace + BundleSuffix;
      if bundleName !in bundleNamespaceMapping then Err(MissingMapping(twigNamespace))
      else Ok(bundleNamespaceMapping[bundleName])
    }
  }
}

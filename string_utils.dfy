/**
 * StringUtils::getPrefixForStrings: the longest common prefix of a list of
 * strings, with the convention that fewer than two strings have none.
 */
module StringUtils {

  predicate IsPrefix(p: string, s: string) {
    p <= s
  }

  /** p is a literal prefix of every string in ss. */
  predicate IsCommonPrefix(p: string, ss: seq<string>) {
    forall i :: 0 <= i < |ss| ==> IsPrefix(p, ss[i])
  }

  /** p is a common prefix, and every common prefix is a prefix of p. */
  ghost predicate IsLongestCommonPrefix(p: string, ss: seq<string>) {
    IsCommonPrefix(p, ss) && forall q :: IsCommonPrefix(q, ss) ==> IsPrefix(q, p)
  }

  /** Longest common prefix of two strings. */
  function CommonPrefix(a: string, b: string): (r: string)
    ensures IsPrefix(r, a) && IsPrefix(r, b)
    ensures forall q :: IsPrefix(q, a) && IsPrefix(q, b) ==> IsPrefix(q, r)
  {
    if a == [] || b == [] || a[0] != b[0] then []
    else
      var r := [a[0]] + CommonPrefix(a[1..], b[1..]);
      assert forall q :: IsPrefix(q, a) && IsPrefix(q, b) && q != [] ==>
        q[0] == a[0] && IsPrefix(q[1..], a[1..]) && IsPrefix(q[1..], b[1..]);
      r
  }

  /** Longest common prefix of a non-empty list, folded from the left. */
  function Fold(ss: seq<string>): (r: string)
    requires |ss| >= 1
    ensures IsPrefix(r, ss[0]) && IsPrefix(r, ss[|ss| - 1])
  {
    if |ss| == 1 then ss[0] else CommonPrefix(Fold(ss[..|ss| - 1]), ss[|ss| - 1])
  }

  /** The value getPrefixForStrings promises: "" for fewer than two strings. */
  function Lcp(ss: seq<string>): (r: string)
    ensures |ss| <= 1 ==> r == ""
    ensures |ss| >= 2 ==> IsPrefix(r, ss[0]) && IsPrefix(r, ss[|ss| - 1])
  {
    if |ss| <= 1 then "" else Fold(ss)
  }

  lemma {:induction false} FoldIsLongest(ss: seq<string>)
    requires |ss| >= 1
    ensures IsLongestCommonPrefix(Fold(ss), ss)
  {
    if |ss| > 1 {
      var init := ss[..|ss| - 1];
      var last := ss[|ss| - 1];
      FoldIsLongest(init);
      var p := Fold(ss);
      assert p == CommonPrefix(Fold(init), last);
      forall i | 0 <= i < |ss| ensures IsPrefix(p, ss[i]) {
        if i < |ss| - 1 {
          assert ss[i] == init[i];
          assert IsPrefix(Fold(init), init[i]);
        }
      }
      forall q | IsCommonPrefix(q, ss) ensures IsPrefix(q, p) {
        assert IsCommonPrefix(q, init) by {
          forall i | 0 <= i < |init| ensures IsPrefix(q, init[i]) {
            assert init[i] == ss[i];
          }
        }
        assert IsPrefix(q, last);
      }
    }
  }

  /** For two or more strings, Lcp is the longest common prefix; otherwise "". */
  lemma LcpSpec(ss: seq<string>)
    ensures |ss| <= 1 ==> Lcp(ss) == ""
    ensures |ss| >= 2 ==> IsLongestCommonPrefix(Lcp(ss), ss)
  {
    if |ss| >= 2 {
      FoldIsLongest(ss);
    }
  }

  /** A longest common prefix is unique. */
  lemma LongestUnique(p: string, q: string, ss: seq<string>)
    requires IsLongestCommonPrefix(p, ss) && IsLongestCommonPrefix(q, ss)
    ensures p == q
  {
  }

  /** Lcp is a prefix of the first string, and no longer than any input. */
  lemma LcpBounded(ss: seq<string>)
    ensures |ss| > 0 ==> IsPrefix(Lcp(ss), ss[0])
    ensures forall i :: 0 <= i < |ss| ==> |Lcp(ss)| <= |ss[i]|
  {
    LcpSpec(ss);
  }

  /** Two or more copies of the same string have that string as prefix. */
  lemma LcpOfIdentical(ss: seq<string>, s: string)
    requires |ss| >= 2
    requires forall i :: 0 <= i < |ss| ==> ss[i] == s
    ensures Lcp(ss) == s
  {
    LcpSpec(ss);
    assert IsCommonPrefix(s, ss);
    assert IsPrefix(Lcp(ss), ss[0]);
  }

  /** The order of the inputs does not matter. */
  lemma LcpOrderIndependent(ss: seq<string>, tt: seq<string>)
    requires multiset(ss) == multiset(tt)
    ensures Lcp(ss) == Lcp(tt)
  {
    assert |ss| == |multiset(ss)| == |multiset(tt)| == |tt|;
    if |ss| >= 2 {
      LcpSpec(ss);
      LcpSpec(tt);
      forall p ensures IsCommonPrefix(p, ss) <==> IsCommonPrefix(p, tt) {
        if IsCommonPrefix(p, ss) {
          forall j | 0 <= j < |tt| ensures IsPrefix(p, tt[j]) {
            assert tt[j] in multiset(ss);
            var i :| 0 <= i < |ss| && ss[i] == tt[j];
          }
        }
        if IsCommonPrefix(p, tt) {
          forall i | 0 <= i < |ss| ensures IsPrefix(p, ss[i]) {
            assert ss[i] in multiset(tt);
            var j :| 0 <= j < |tt| && tt[j] == ss[i];
          }
        }
      }
      LongestUnique(Lcp(ss), Lcp(tt), ss);
    }
  }

  /** Two strings that differ at position n share no prefix longer than n. */
  lemma SharedPrefixAgrees(p: string, a: string, b: string, n: nat)
    ensures IsPrefix(p, a) && IsPrefix(p, b) && n < |p| ==> a[n] == b[n]
  {
  }

  /**
   * A common prefix that ends where one input ends, or where two inputs
   * differ, is the longest one.
   */
  lemma LcpAtDivergence(ss: seq<string>, p: string, a: nat, b: nat)
    requires |ss| >= 2 && IsCommonPrefix(p, ss) && a < |ss| && b < |ss|
    requires |p| == |ss[a]| || (|p| < |ss[a]| && |p| < |ss[b]| && ss[a][|p|] != ss[b][|p|])
    ensures Lcp(ss) == p
  {
    LcpSpec(ss);
    SharedPrefixAgrees(Lcp(ss), ss[a], ss[b], |p|);
  }

  /** tom_resume_pdf, tom_resume_html and tom_bob share "tom_". */
  lemma LcpSharedExample()
    ensures Lcp(["tom_resume_pdf", "tom_resume_html", "tom_bob"]) == "tom_"
  {
    var ss := ["tom_resume_pdf", "tom_resume_html", "tom_bob"];
    assert IsCommonPrefix("tom_", ss);
    LcpAtDivergence(ss, "tom_", 0, 2);
  }

  /** Strings with different first characters share only "". */
  lemma LcpDisjointExample()
    ensures Lcp(["aomresume_pdf", "bomresume_html", "comresumebob"]) == ""
  {
  }

  /**
   * The loop of getPrefixForStrings: shorten the running prefix one
   * character at a time until each string starts with it, stopping at once
   * when it becomes empty.
   */
  method GetPrefixForStrings(strings: seq<string>) returns (prefix: string)
    ensures |strings| <= 1 ==> prefix == ""
    ensures |strings| >= 2 ==> IsLongestCommonPrefix(prefix, strings)
    ensures prefix == Lcp(strings)
  {
    if |strings| <= 1 {
      return "";
    }
    prefix := strings[0];
    var i := 0;
    while i < |strings|
      invariant 0 <= i <= |strings|
      invariant IsPrefix(prefix, strings[0])
      invariant IsCommonPrefix(prefix, strings[..i])
      invariant forall q :: IsCommonPrefix(q, strings[..i]) && IsPrefix(q, strings[0]) ==> IsPrefix(q, prefix)
    {
      var key := strings[i];
      while !IsPrefix(prefix, key)
        invariant IsPrefix(prefix, strings[0])
        invariant IsCommonPrefix(prefix, strings[..i])
        invariant forall q :: IsCommonPrefix(q, strings[..i + 1]) && IsPrefix(q, strings[0]) ==> IsPrefix(q, prefix)
        decreases |prefix|
      {
        prefix := prefix[..|prefix| - 1];
        if prefix == "" {
          break break;
        }
      }
      assert strings[..i + 1] == strings[..i] + [key];
      i := i + 1;
    }
    LcpSpec(strings);
    assert IsLongestCommonPrefix(prefix, strings) by {
      assert strings[..|strings|] == strings;
      forall q | IsCommonPrefix(q, strings) ensures IsPrefix(q, prefix) {
        if i < |strings| {
          assert IsCommonPrefix(q, strings[..i + 1]);
        }
      }
    }
    LongestUnique(prefix, Lcp(strings), strings);
  }
}

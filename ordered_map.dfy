/**
 * A PHP array used as a dictionary keeps its keys in insertion order.
 * Assigning to an existing key replaces the value where it stands;
 * assigning to a new key appends it. Such an array is modelled as a
 * sequence of (key, value) pairs whose keys are pairwise distinct.
 */
module OrderedMap {

  type Entries<V> = seq<(string, V)>

  predicate UniqueKeys<V>(m: Entries<V>) {
    forall i, j :: 0 <= i < j < |m| ==> m[i].0 != m[j].0
  }

  /** array_keys: the keys in insertion order. */
  function Keys<V>(m: Entries<V>): (ks: seq<string>)
    ensures |ks| == |m|
    ensures forall i :: 0 <= i < |m| ==> ks[i] == m[i].0
  {
    if m == [] then [] else [m[0].0] + Keys(m[1..])
  }

  predicate HasKey<V>(m: Entries<V>, k: string) {
    exists i :: 0 <= i < |m| && m[i].0 == k
  }

  /** Position of key k, if present. */
  function IndexOf<V>(m: Entries<V>, k: string): (r: int)
    ensures -1 <= r < |m|
    ensures r == -1 <==> !HasKey(m, k)
    ensures 0 <= r ==> m[r].0 == k && forall j :: 0 <= j < r ==> m[j].0 != k
  {
    if m == [] then -1
    else if m[0].0 == k then 0
    else
      var r := IndexOf(m[1..], k);
      assert forall j :: 0 <= j < |m| - 1 ==> m[1..][j] == m[j + 1];
      if r == -1 then -1 else r + 1
  }

  /** `$m[$k] ?? null`. */
  function Get<V>(m: Entries<V>, k: string): (r: Option<V>)
    ensures r.Some? <==> HasKey(m, k)
    ensures r.Some? ==> exists i :: 0 <= i < |m| && m[i] == (k, r.value)
  {
    var i := IndexOf(m, k);
    if i == -1 then None else Some(m[i].1)
  }

  datatype Option<+V> = None | Some(value: V)

  /**
   * `$m[$k] = $v`: an existing key is replaced where it stands and every
   * other position is kept; a new key is appended. Either way the keys keep
   * their order.
   */
  function Put<V>(m: Entries<V>, k: string, v: V): (r: Entries<V>)
    ensures HasKey(m, k) ==>
              && |r| == |m|
              && r[IndexOf(m, k)] == (k, v)
              && forall j :: 0 <= j < |m| && j != IndexOf(m, k) ==> r[j] == m[j]
    ensures !HasKey(m, k) ==> r == m + [(k, v)]
    ensures Keys(r) == if HasKey(m, k) then Keys(m) else Keys(m) + [k]
  {
    var i := IndexOf(m, k);
    if i == -1 then m + [(k, v)] else m[i := (k, v)]
  }

  /** Assignment keeps keys unique, stores the value, and no other key changes. */
  lemma PutGet<V>(m: Entries<V>, k: string, v: V, k': string)
    requires UniqueKeys(m)
    ensures UniqueKeys(Put(m, k, v))
    ensures Get(Put(m, k, v), k') == if k' == k then Some(v) else Get(m, k')
  {
    PutUnique(m, k, v);
    var r := Put(m, k, v);
    var i := IndexOf(m, k);
    var at := if i == -1 then |m| else i;
    assert r[at] == (k, v);
    if k' == k {
      assert IndexOf(r, k) == at;
    } else {
      var g := Get(m, k');
      if g.Some? {
        var j :| 0 <= j < |m| && m[j] == (k', g.value);
        assert j != at && r[j] == (k', g.value);
        assert IndexOf(r, k') == j;
      } else {
        assert forall j :: 0 <= j < |r| && j != at ==> r[j] == m[j];
      }
    }
  }

  /** Assignment keeps the keys pairwise distinct. */
  lemma PutUnique<V>(m: Entries<V>, k: string, v: V)
    requires UniqueKeys(m)
    ensures UniqueKeys(Put(m, k, v))
  {
  }

  /** Assigning the same value to the same key twice equals assigning it once. */
  lemma PutIdempotent<V>(m: Entries<V>, k: string, v: V)
    ensures Put(Put(m, k, v), k, v) == Put(m, k, v)
  {
    var r := Put(m, k, v);
    var i := IndexOf(m, k);
    if i == -1 {
      assert r[|m|].0 == k;
      var j := IndexOf(r, k);
      assert j != -1;
      assert r[j] == (k, v);
    } else {
      assert r[i].0 == k;
      assert IndexOf(r, k) == i;
    }
  }
}

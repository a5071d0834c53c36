/** Python's `dict`: insertion-ordered, each key at most once. Assigning to a
    present key replaces its value in place; assigning to a new key appends. */
module OrderedDict {
  import opened Wrappers

  /** The key at position `i`; uniqueness is stated through it so that the
      solver only weighs it where a proof names a position's key. */
  function KeyAt<K, V>(s: seq<(K, V)>, i: nat): K
    requires i < |s|
  {
    s[i].0
  }

  predicate UniqueKeys<K(==), V>(s: seq<(K, V)>)
  {
    forall i, j :: 0 <= i < j < |s| ==> KeyAt(s, i) != KeyAt(s, j)
  }

  type Dict<K(==), V> = s: seq<(K, V)> | UniqueKeys(s) witness []

  /** The keys, in insertion order (`list(d.keys())`). */
  function Keys<K(==), V>(s: seq<(K, V)>): (ks: seq<K>)
    ensures |ks| == |s| && forall i :: 0 <= i < |s| ==> ks[i] == s[i].0
  {
    if s == [] then [] else [s[0].0] + Keys(s[1..])
  }

  /** The first `n` pairs of a dict form a dict. */
  function Prefix<K, V>(d: Dict<K, V>, n: nat): (r: Dict<K, V>)
    requires n <= |d|
    ensures r == d[..n]
  {
    assert UniqueKeys(d[..n]) by {
      forall i, j | 0 <= i < j < n ensures KeyAt(d[..n], i) != KeyAt(d[..n], j) {
        assert KeyAt(d, i) != KeyAt(d, j);
      }
    }
    d[..n]
  }

  /** Copying a dict pair by pair: assigning the next pair to the copy of
      the first `j` pairs gives the copy of the first `j + 1`. */
  lemma PutNext<K(!new), V>(d: Dict<K, V>, j: nat)
    requires j < |d|
    ensures Put(Prefix(d, j), d[j].0, d[j].1) == Prefix(d, j + 1)
  {
    var front := Prefix(d, j);
    assert d[j].0 !in Keys(front) by {
      forall i | 0 <= i < j ensures Keys(front)[i] != d[j].0 {
        assert KeyAt(d, i) != KeyAt(d, j);
      }
    }
    assert front + [d[j]] == d[..j + 1];
  }

  /** The keys of a dict are pairwise distinct. */
  lemma KeysDistinct<K, V>(d: Dict<K, V>)
    ensures forall i, j :: 0 <= i < j < |d| ==> Keys(d)[i] != Keys(d)[j]
  {
    forall i, j | 0 <= i < j < |d| ensures Keys(d)[i] != Keys(d)[j] {
      assert KeyAt(d, i) != KeyAt(d, j);
    }
  }

  /** `d.get(k)`: the value stored under `k`, or None. */
  function Get<K(==), V>(s: seq<(K, V)>, k: K): (r: Option<V>)
    ensures r.Some? <==> k in Keys(s)
  {
    if s == [] then None
    else if s[0].0 == k then Some(s[0].1)
    else Get(s[1..], k)
  }

  /** The position of the first pair with key `k`. */
  function IndexOf<K(==), V>(s: seq<(K, V)>, k: K): (i: nat)
    requires k in Keys(s)
    ensures i < |s| && s[i].0 == k
    ensures forall j :: 0 <= j < i ==> s[j].0 != k
  {
    if s[0].0 == k then 0 else 1 + IndexOf(s[1..], k)
  }

  /** In a dict, the key of position `i` is found at position `i`. */
  lemma GetAt<K, V>(d: Dict<K, V>, i: nat)
    requires i < |d|
    ensures Get(d, d[i].0) == Some(d[i].1)
  {
    var k := d[i].0;
    assert k in Keys(d) by { assert Keys(d)[i] == k; }
    forall j | 0 <= j < i ensures d[j].0 != k {
      assert KeyAt(d, j) != KeyAt(d, i);
    }
    assert IndexOf(d, k) == i;
    GetIsFirst(d, k);
  }

  lemma {:induction false} GetIsFirst<K, V>(s: seq<(K, V)>, k: K)
    requires k in Keys(s)
    ensures Get(s, k) == Some(s[IndexOf(s, k)].1)
  {
    if s[0].0 != k {
      assert k in Keys(s[1..]) by {
        var i :| 0 <= i < |s| && Keys(s)[i] == k;
        assert Keys(s[1..])[i - 1] == k;
      }
      GetIsFirst(s[1..], k);
    }
  }

  /** `d[k] = v`. */
  function Put<K(==, !new), V>(d: Dict<K, V>, k: K, v: V): (r: Dict<K, V>)
    ensures Keys(r) == if k in Keys(d) then Keys(d) else Keys(d) + [k]
    ensures Get(r, k) == Some(v)
    ensures forall k' {:trigger Get(r, k')} :: k' != k ==> Get(r, k') == Get(d, k')
    ensures k !in Keys(d) ==> r == d + [(k, v)]
  {
    if k in Keys(d) then
      var i := IndexOf(d, k);
      ReplaceFacts(d, i, v);
      d[i := (k, v)]
    else
      AppendFacts(d, k, v);
      d + [(k, v)]
  }

  /** Replacing the value of a present key keeps the keys and changes the
      value of that key alone. */
  lemma ReplaceFacts<K, V>(d: Dict<K, V>, i: nat, v: V)
    requires i < |d|
    ensures UniqueKeys(d[i := (d[i].0, v)])
    ensures Keys(d[i := (d[i].0, v)]) == Keys(d)
    ensures Get(d[i := (d[i].0, v)], d[i].0) == Some(v)
    ensures forall k' :: k' != d[i].0 ==> Get(d[i := (d[i].0, v)], k') == Get(d, k')
  {
    var k := d[i].0;
    var r := d[i := (k, v)];
    assert Keys(r) == Keys(d);
    assert UniqueKeys(r) by {
      forall a, b | 0 <= a < b < |r| ensures KeyAt(r, a) != KeyAt(r, b) {
        assert KeyAt(d, a) != KeyAt(d, b);
      }
    }
    GetAt(r, i);
    forall k' | k' != k ensures Get(r, k') == Get(d, k') {
      GetReplace(d, i, v, k');
    }
  }

  /** Appending a pair with a new key adds that key at the end and changes
      no other key's value. */
  lemma AppendFacts<K, V>(d: Dict<K, V>, k: K, v: V)
    requires k !in Keys(d)
    ensures UniqueKeys(d + [(k, v)])
    ensures Keys(d + [(k, v)]) == Keys(d) + [k]
    ensures Get(d + [(k, v)], k) == Some(v)
    ensures forall k' :: k' != k ==> Get(d + [(k, v)], k') == Get(d, k')
  {
    var r := d + [(k, v)];
    assert Keys(r) == Keys(d) + [k];
    assert UniqueKeys(r) by {
      forall a, b | 0 <= a < b < |r| ensures KeyAt(r, a) != KeyAt(r, b) {
        if b == |d| { assert Keys(d)[a] == r[a].0; } else { assert KeyAt(d, a) != KeyAt(d, b); }
      }
    }
    GetAt(r, |d|);
    forall k' | k' != k ensures Get(r, k') == Get(d, k') {
      GetAppend(d, k, v, k');
    }
  }

  /** The second of two assignments to the same key wins, and the key keeps
      the position the first gave it. */
  lemma PutTwice<K(!new), V>(d: Dict<K, V>, k: K, v1: V, v2: V)
    ensures Put(Put(d, k, v1), k, v2) == Put(d, k, v2)
  {
    var d1 := Put(d, k, v1);
    if k in Keys(d) {
      var i := IndexOf(d, k);
      assert d1 == d[i := (k, v1)];
      assert IndexOf(d1, k) == i;
    } else {
      assert d1 == d + [(k, v1)];
      assert k in Keys(d1);
      forall j | 0 <= j < |d| ensures d1[j].0 != k {
        assert Keys(d)[j] == d[j].0;
      }
      assert IndexOf(d1, k) == |d|;
      assert d1[|d| := (k, v2)] == d + [(k, v2)];
    }
  }

  /** Every pair of `Put(d, k, v)` is the new pair or a pair of `d`. */
  lemma PutPairs<K(!new), V>(d: Dict<K, V>, k: K, v: V)
    ensures forall i :: 0 <= i < |Put(d, k, v)| ==> Put(d, k, v)[i] == (k, v) || Put(d, k, v)[i] in d
  {
    if k in Keys(d) {
      var i := IndexOf(d, k);
      assert Put(d, k, v) == d[i := (k, v)];
    }
  }

  lemma {:induction false} GetReplace<K, V>(s: seq<(K, V)>, i: nat, v: V, k': K)
    requires i < |s| && s[i].0 != k'
    ensures Get(s[i := (s[i].0, v)], k') == Get(s, k')
  {
    var t := s[i := (s[i].0, v)];
    if s[0].0 != k' && i > 0 {
      assert t[1..] == s[1..][i - 1 := (s[i].0, v)];
      GetReplace(s[1..], i - 1, v, k');
    } else if i == 0 {
      assert t[1..] == s[1..];
    }
  }

  lemma {:induction false} GetAppend<K, V>(s: seq<(K, V)>, k: K, v: V, k': K)
    requires k' != k
    ensures Get(s + [(k, v)], k') == Get(s, k')
  {
    if s == [] {
      assert Get([(k, v)][1..], k') == None;
    } else {
      assert (s + [(k, v)])[1..] == s[1..] + [(k, v)];
      GetAppend(s[1..], k, v, k');
    }
  }
}

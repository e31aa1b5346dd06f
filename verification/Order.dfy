/**
 * A Python dict remembers the order in which its keys were first inserted.
 * The registry keeps that order as a sequence of distinct keys beside its
 * map; these are the operations on that sequence.
 */
module Order {

  /** No key occurs twice: the first is not among the rest, and neither is any later one. */
  predicate Distinct<K(==)>(s: seq<K>)
  {
    s == [] || (s[0] !in s[1..] && Distinct(s[1..]))
  }

  lemma DistinctCons<K(!new)>(x: K, s: seq<K>)
    ensures Distinct([x] + s) <==> x !in s && Distinct(s)
  {
    assert ([x] + s)[1..] == s;
  }

  /** Two different places of a distinct sequence hold different keys. */
  lemma {:induction false} DistinctAt<K(!new)>(s: seq<K>, i: int, j: int)
    requires Distinct(s)
    requires 0 <= i < |s| && 0 <= j < |s| && i != j
    ensures s[i] != s[j]
  {
    if i == 0 {
      assert s[1..][j - 1] == s[j];
    } else if j == 0 {
      assert s[1..][i - 1] == s[i];
    } else {
      DistinctAt(s[1..], i - 1, j - 1);
    }
  }

  lemma {:induction false} DistinctSnoc<K(!new)>(s: seq<K>, x: K)
    ensures Distinct(s + [x]) <==> x !in s && Distinct(s)
  {
    if s != [] {
      var t := s + [x];
      assert t[0] == s[0] && t[1..] == s[1..] + [x];
      DistinctSnoc(s[1..], x);
      assert x in s <==> x == s[0] || x in s[1..] by {
        assert s == [s[0]] + s[1..];
      }
    }
  }

  /** `del d[k]` on the key order: k leaves, the others keep their order. */
  function RemoveKey<K(==, !new)>(s: seq<K>, k: K): (r: seq<K>)
    ensures forall x :: x in r <==> x in s && x != k
    ensures |r| <= |s|
    ensures Distinct(s) ==> Distinct(r)
    ensures Distinct(s) && k in s ==> |r| == |s| - 1
    ensures k !in s ==> r == s
  {
    if s == [] then []
    else
      var rest := RemoveKey(s[1..], k);
      if s[0] == k then rest
      else
        DistinctCons(s[0], s[1..]);
        DistinctCons(s[0], rest);
        assert s == [s[0]] + s[1..];
        [s[0]] + rest
  }

  /** Removing a key that occurs once, at a known place, joins its two sides. */
  lemma {:induction false} RemoveKeyBetween<K(!new)>(a: seq<K>, k: K, b: seq<K>)
    requires k !in a && k !in b
    ensures RemoveKey(a + [k] + b, k) == a + b
  {
    if a == [] {
      assert a + [k] + b == [k] + b;
      assert ([k] + b)[1..] == b;
    } else {
      var s, tail := a + [k] + b, a[1..] + b;
      assert s[0] == a[0] != k;
      assert s[1..] == a[1..] + [k] + b;
      RemoveKeyBetween(a[1..], k, b);
      assert RemoveKey(s, k) == [a[0]] + tail;
      assert a + b == [a[0]] + tail by {
        assert a == [a[0]] + a[1..];
      }
    }
  }

  /** `d[k] = v` on the key order: a new key goes last, an existing key keeps its place. */
  function PutKey<K(==, !new)>(s: seq<K>, k: K): (r: seq<K>)
    ensures forall x :: x in r <==> x in s || x == k
    ensures Distinct(s) ==> Distinct(r)
    ensures |r| == if k in s then |s| else |s| + 1
    ensures r[..|s|] == s
  {
    DistinctSnoc(s, k);
    if k in s then s else s + [k]
  }

  /** The key order of a dict filled by inserting these keys one after another. */
  function Dedup<K(==, !new)>(s: seq<K>): (r: seq<K>)
    ensures forall x :: x in r <==> x in s
    ensures Distinct(r)
  {
    if s == [] then [] else PutKey(Dedup(s[..|s| - 1]), s[|s| - 1])
  }

  /** Filling a dict key by key: one more insertion is one more `PutKey`. */
  lemma DedupStep<K(!new)>(s: seq<K>, i: nat)
    requires i < |s|
    ensures Dedup(s[..i + 1]) == PutKey(Dedup(s[..i]), s[i])
  {
    assert s[..i + 1][..i] == s[..i];
  }

  /** Inserting distinct keys keeps every one of them, in order. */
  lemma {:induction false} DedupOfDistinct<K(!new)>(s: seq<K>)
    requires Distinct(s)
    ensures Dedup(s) == s
  {
    if s != [] {
      var init := s[..|s| - 1];
      assert s == init + [s[|s| - 1]];
      DistinctSnoc(init, s[|s| - 1]);
      DedupOfDistinct(init);
    }
  }

  /** The keys of s that are in `keep`, in their order in s. */
  function KeepWhere<K(==, !new)>(s: seq<K>, keep: set<K>): (r: seq<K>)
    ensures forall x :: x in r <==> x in s && x in keep
    ensures Distinct(s) ==> Distinct(r)
    ensures |r| <= |s|
  {
    if s == [] then []
    else
      var init := s[..|s| - 1];
      var last := s[|s| - 1];
      assert s == init + [last];
      DistinctSnoc(init, last);
      var r := KeepWhere(init, keep);
      DistinctSnoc(r, last);
      if last in keep then r + [last] else r
  }

  /** Filtering one more key: it is kept at the end exactly when its flag is set. */
  lemma KeepWhereStep<K(!new)>(s: seq<K>, i: nat, keep: set<K>)
    requires i < |s|
    ensures KeepWhere(s[..i + 1], keep) == KeepWhere(s[..i], keep) + (if s[i] in keep then [s[i]] else [])
  {
    assert s[..i + 1][..i] == s[..i];
  }

  /** The key at place i of a distinct sequence occurs neither before nor after it. */
  lemma DistinctSplit<K(!new)>(keys: seq<K>, i: nat)
    requires i < |keys| && Distinct(keys)
    ensures keys[i] !in keys[..i] && keys[i] !in keys[i + 1..]
  {
    var head, tail := keys[..i], keys[i + 1..];
    forall j | 0 <= j < |head| ensures head[j] != keys[i] {
      DistinctAt(keys, j, i);
    }
    forall j | 0 <= j < |tail| ensures tail[j] != keys[i] {
      assert tail[j] == keys[i + 1 + j];
      DistinctAt(keys, i + 1 + j, i);
    }
  }

  /**
   * Walking a distinct key list while deleting the keys not in `keep`:
   * handling key i, kept or deleted, moves the boundary one key on.
   */
  lemma KeepWhereAdvance<K(!new)>(keys: seq<K>, i: nat, keep: set<K>)
    requires i < |keys| && Distinct(keys)
    ensures keys[i] in keep ==>
              KeepWhere(keys[..i], keep) + keys[i..] == KeepWhere(keys[..i + 1], keep) + keys[i + 1..]
    ensures keys[i] !in keep ==>
              RemoveKey(KeepWhere(keys[..i], keep) + keys[i..], keys[i])
              == KeepWhere(keys[..i + 1], keep) + keys[i + 1..]
  {
    if keys[i] in keep {
      KeepWhereKept(keys, i, keep);
    } else {
      KeepWhereDropped(keys, i, keep);
    }
  }

  /** A kept key stays where it is: only the boundary moves past it. */
  lemma KeepWhereKept<K(!new)>(keys: seq<K>, i: nat, keep: set<K>)
    requires i < |keys| && keys[i] in keep
    ensures KeepWhere(keys[..i], keep) + keys[i..] == KeepWhere(keys[..i + 1], keep) + keys[i + 1..]
  {
    var k, tail := keys[i], keys[i + 1..];
    var done := KeepWhere(keys[..i], keep);
    KeepWhereStep(keys, i, keep);
    assert keys[i..] == [k] + tail;
    assert done + ([k] + tail) == (done + [k]) + tail;
  }

  /** A dropped key is deleted from between the kept keys before it and the keys after it. */
  lemma KeepWhereDropped<K(!new)>(keys: seq<K>, i: nat, keep: set<K>)
    requires i < |keys| && Distinct(keys) && keys[i] !in keep
    ensures RemoveKey(KeepWhere(keys[..i], keep) + keys[i..], keys[i])
            == KeepWhere(keys[..i + 1], keep) + keys[i + 1..]
  {
    var k, tail := keys[i], keys[i + 1..];
    var done := KeepWhere(keys[..i], keep);
    KeepWhereStep(keys, i, keep);
    assert KeepWhere(keys[..i + 1], keep) == done;
    assert keys[i..] == [k] + tail;
    var joined := done + keys[i..];
    assert joined == done + [k] + tail;
    DistinctSplit(keys, i);
    RemoveKeyBetween(done, k, tail);
    assert RemoveKey(joined, k) == done + tail;
  }


  /** The values of m at these keys, in order. */
  function Lookup<K(==, !new), V>(keys: seq<K>, m: map<K, V>): (vs: seq<V>)
    requires forall k :: k in keys ==> k in m
    ensures |vs| == |keys|
    ensures forall i :: 0 <= i < |keys| ==> vs[i] == m[keys[i]]
  {
    if keys == [] then [] else Lookup(keys[..|keys| - 1], m) + [m[keys[|keys| - 1]]]
  }

  /** Looking up one more key appends its value. */
  lemma LookupSnoc<K(!new), V>(keys: seq<K>, k: K, m: map<K, V>)
    requires forall x :: x in keys ==> x in m
    requires k in m
    ensures Lookup(keys + [k], m) == Lookup(keys, m) + [m[k]]
  {
    assert (keys + [k])[..|keys|] == keys;
  }

  /** A map whose keys are exactly the elements of a distinct sequence has that many entries. */
  lemma {:induction false} SizeOfKeys<K(!new), V>(s: seq<K>, m: map<K, V>)
    requires Distinct(s)
    requires forall k :: k in s <==> k in m
    ensures |m| == |s|
  {
    if s == [] {
      assert m.Keys == {};
      assert m == map[];
    } else {
      var init := s[..|s| - 1];
      var last := s[|s| - 1];
      assert s == init + [last];
      DistinctSnoc(init, last);
      var m' := m - {last};
      assert forall k :: k in init <==> k in m';
      SizeOfKeys(init, m');
      assert m'.Keys == m.Keys - {last};
      assert |m'.Keys| == |m.Keys| - 1;
    }
  }
}

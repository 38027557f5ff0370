/** The JavaScript `Map` the relay keeps its state in. Every such map
    in the relay is keyed by strings. Besides key/value lookup, a `Map`
    remembers insertion order: `set` on a new key appends it, `set` on an existing key
    keeps its position, and `delete` removes it. The relay's room lists, member lists and
    online-user list are produced in that order, so the model keeps it. */
module JsMaps {
  import opened JsValues

  ghost predicate Distinct(s: seq<string>)
  {
    forall i, j :: 0 <= i < j < |s| ==> s[i] != s[j]
  }

  datatype MapState<V> = MapState(keys: seq<string>, entries: map<string, V>)

  /** The key order lists every key exactly once. */
  ghost predicate WellFormed<V>(m: MapState<V>)
  {
    && Distinct(m.keys)
    && (forall k :: k in m.keys <==> k in m.entries)
  }

  type JsMap<V> = m: MapState<V> | WellFormed(m) witness MapState([], map[])

  /** `new Map()` */
  function Empty<V>(): (r: JsMap<V>)
    ensures r.entries == map[]
    ensures Size(r) == 0
  {
    MapState([], map[])
  }

  /** `m.size` */
  function Size<V>(m: JsMap<V>): nat
  {
    |m.keys|
  }

  /** `m.has(k)` */
  predicate Has<V>(m: JsMap<V>, k: string)
  {
    k in m.entries
  }

  /** `m.get(k)`, with `undefined` as `None` */
  function Get<V>(m: JsMap<V>, k: string): (r: Option<V>)
    ensures r.Some? <==> k in m.entries
    ensures r.Some? ==> r.value == m.entries[k]
  {
    if k in m.entries then Some(m.entries[k]) else None
  }

  /** `m.set(k, v)`: overwrites in place or appends a new key at the end of the order. */
  function Set<V>(m: JsMap<V>, k: string, v: V): (r: JsMap<V>)
    ensures r.entries == m.entries[k := v]
    ensures k in m.entries ==> r.keys == m.keys
    ensures k !in m.entries ==> r.keys == m.keys + [k]
  {
    if k in m.entries then MapState(m.keys, m.entries[k := v])
    else MapState(m.keys + [k], m.entries[k := v])
  }

  /** `s` with every occurrence of `k` removed, the rest in order. */
  function Without(s: seq<string>, k: string): (r: seq<string>)
    ensures forall x :: x in r <==> x in s && x != k
    ensures k !in s ==> r == s
    ensures |r| <= |s|
    decreases |s|
  {
    if |s| == 0 then []
    else if s[0] == k then Without(s[1..], k)
    else [s[0]] + Without(s[1..], k)
  }

  lemma {:induction false} WithoutDistinct(s: seq<string>, k: string)
    requires Distinct(s)
    ensures Distinct(Without(s, k))
    ensures k in s ==> |Without(s, k)| == |s| - 1
    decreases |s|
  {
    if |s| > 0 {
      var tail := s[1..];
      assert Distinct(tail) by {
        forall i, j | 0 <= i < j < |tail| ensures tail[i] != tail[j] {
          assert tail[i] == s[i + 1] && tail[j] == s[j + 1];
        }
      }
      WithoutDistinct(tail, k);
      assert s[0] !in tail by {
        forall j | 0 <= j < |tail| ensures tail[j] != s[0] {
          assert tail[j] == s[j + 1];
        }
      }
      if s[0] != k {
        var r := [s[0]] + Without(tail, k);
        assert s[0] !in Without(tail, k);
        forall i, j | 0 <= i < j < |r| ensures r[i] != r[j] {
          if i == 0 {
            assert r[j] in Without(tail, k);
          } else {
            assert r[i] == Without(tail, k)[i - 1] && r[j] == Without(tail, k)[j - 1];
          }
        }
      } else {
        assert k !in tail;
      }
    }
  }

  /** Removing a key from a concatenation removes it from each part in place. */
  lemma {:induction false} WithoutAppend(a: seq<string>, b: seq<string>, k: string)
    ensures Without(a + b, k) == Without(a, k) + Without(b, k)
    decreases |a|
  {
    if |a| > 0 {
      assert (a + b)[0] == a[0];
      assert (a + b)[1..] == a[1..] + b;
      WithoutAppend(a[1..], b, k);
    } else {
      assert a + b == b;
    }
  }

  /** In a list of distinct keys, removing the key at position `i` closes the gap and
      leaves the keys before and after it in their order. */
  lemma WithoutAt(s: seq<string>, i: nat, k: string)
    requires Distinct(s) && i < |s| && s[i] == k
    ensures Without(s, k) == s[..i] + s[i + 1..]
  {
    var before, after := s[..i], s[i + 1..];
    assert s == before + ([k] + after);
    assert k !in before by {
      forall j | 0 <= j < |before| ensures before[j] != k { assert before[j] == s[j]; }
    }
    assert k !in after by {
      forall j | 0 <= j < |after| ensures after[j] != k { assert after[j] == s[i + 1 + j]; }
    }
    WithoutAppend(before, [k] + after, k);
    assert ([k] + after)[0] == k && ([k] + after)[1..] == after;
  }

  /** `m.delete(k)`: removes the key and its place in the order; the other keys keep
      their relative order. */
  function Delete<V>(m: JsMap<V>, k: string): (r: JsMap<V>)
    ensures r.entries == m.entries - {k}
    ensures Size(r) == if k in m.entries then Size(m) - 1 else Size(m)
    ensures forall x :: x in r.keys <==> x in m.keys && x != k
    ensures k !in m.entries ==> r.keys == m.keys
    ensures r.keys == Without(m.keys, k)
    ensures forall i :: 0 <= i < |m.keys| && m.keys[i] == k ==> r.keys == m.keys[..i] + m.keys[i + 1..]
  {
    WithoutDistinct(m.keys, k);
    forall i | 0 <= i < |m.keys| && m.keys[i] == k
      ensures Without(m.keys, k) == m.keys[..i] + m.keys[i + 1..]
    {
      WithoutAt(m.keys, i, k);
    }
    MapState(Without(m.keys, k), m.entries - {k})
  }

  /** The elements of `s` that lie in `keep`, in their order in `s`. */
  function KeepOnly(s: seq<string>, keep: set<string>): (r: seq<string>)
    ensures forall x :: x in r <==> x in s && x in keep
    ensures |r| <= |s|
    decreases |s|
  {
    if |s| == 0 then []
    else if s[0] in keep then [s[0]] + KeepOnly(s[1..], keep)
    else KeepOnly(s[1..], keep)
  }

  /** Filtering a concatenation filters each part in place, so the kept elements stay in
      their order. */
  lemma {:induction false} KeepOnlyAppend(a: seq<string>, b: seq<string>, keep: set<string>)
    ensures KeepOnly(a + b, keep) == KeepOnly(a, keep) + KeepOnly(b, keep)
    decreases |a|
  {
    if |a| > 0 {
      assert (a + b)[0] == a[0] && (a + b)[1..] == a[1..] + b;
      KeepOnlyAppend(a[1..], b, keep);
    } else {
      assert a + b == b;
    }
  }

  /** A single element is kept exactly when it lies in `keep`. */
  lemma KeepOnlyOne(k: string, keep: set<string>)
    ensures KeepOnly([k], keep) == if k in keep then [k] else []
  {
    assert [k][0] == k && [k][1..] == [];
  }

  /** Filtering a list of distinct keys gives distinct keys. */
  lemma {:induction false} KeepOnlyDistinct(s: seq<string>, keep: set<string>)
    requires Distinct(s)
    ensures Distinct(KeepOnly(s, keep))
    decreases |s|
  {
    if |s| > 0 {
      var tail := s[1..];
      assert Distinct(tail) by {
        forall i, j | 0 <= i < j < |tail| ensures tail[i] != tail[j] {
          assert tail[i] == s[i + 1] && tail[j] == s[j + 1];
        }
      }
      assert s[0] !in tail by {
        forall j | 0 <= j < |tail| ensures tail[j] != s[0] {
          assert tail[j] == s[j + 1];
        }
      }
      KeepOnlyDistinct(tail, keep);
      var rest := KeepOnly(tail, keep);
      if s[0] in keep {
        var r := [s[0]] + rest;
        forall i, j | 0 <= i < j < |r| ensures r[i] != r[j] {
          if i == 0 {
            assert r[j] == rest[j - 1] && rest[j - 1] in rest;
          } else {
            assert r[i] == rest[i - 1] && r[j] == rest[j - 1];
          }
        }
      }
    }
  }

  /** Keeping a whole list keeps it as it is. */
  lemma {:induction false} KeepOnlyAll(s: seq<string>, keep: set<string>)
    requires forall x :: x in s ==> x in keep
    ensures KeepOnly(s, keep) == s
    decreases |s|
  {
    if |s| > 0 {
      KeepOnlyAll(s[1..], keep);
      assert [s[0]] + s[1..] == s;
    }
  }

  /** Filtering out a key that is not kept anyway changes nothing afterwards. */
  lemma {:induction false} KeepOnlyWithout(s: seq<string>, k: string, keep: set<string>)
    requires k !in keep
    ensures KeepOnly(Without(s, k), keep) == KeepOnly(s, keep)
    decreases |s|
  {
    if |s| > 0 {
      KeepOnlyWithout(s[1..], k, keep);
      if s[0] != k {
        assert ([s[0]] + Without(s[1..], k))[1..] == Without(s[1..], k);
      }
    }
  }

  /** `Array.from(m.values())`: the values in insertion order. */
  function Values<V>(m: JsMap<V>): (r: seq<V>)
    ensures |r| == Size(m)
    ensures forall i :: 0 <= i < |r| ==> r[i] == m.entries[m.keys[i]]
  {
    seq(|m.keys|, i requires 0 <= i < |m.keys| => m.entries[m.keys[i]])
  }

  lemma {:induction false} DistinctCardinality(s: seq<string>)
    requires Distinct(s)
    ensures |set x | x in s| == |s|
    decreases |s|
  {
    if |s| > 0 {
      var tail := s[1..];
      assert Distinct(tail) by {
        forall i, j | 0 <= i < j < |tail| ensures tail[i] != tail[j] {
          assert tail[i] == s[i + 1] && tail[j] == s[j + 1];
        }
      }
      DistinctCardinality(tail);
      assert s[0] !in tail by {
        forall j | 0 <= j < |tail| ensures tail[j] != s[0] {
          assert tail[j] == s[j + 1];
        }
      }
      assert (set x | x in s) == {s[0]} + (set x | x in tail) by {
        assert s == [s[0]] + tail;
      }
    }
  }

  /** `m.size` counts the distinct keys present. */
  lemma SizeIsKeyCount<V>(m: JsMap<V>)
    ensures Size(m) == |m.entries|
  {
    DistinctCardinality(m.keys);
    assert (set x | x in m.keys) == m.entries.Keys;
  }
}

/**
 * The part of Python's insertion-ordered `dict` the parser relies on: `get` with a
 * default, item assignment (a new key goes to the end, an existing key keeps its
 * place) and `pop` with a default.
 */
module OrderedDict {
  import opened Wrappers

  /** A dict value: its keys in insertion order, and what each key maps to. */
  datatype Dict<V> = Dict(keys: seq<string>, items: map<string, V>)

  /** The keys are listed once each, and they are exactly the keys of the map. */
  ghost predicate Distinct(s: seq<string>) {
    forall i, j :: 0 <= i < j < |s| ==> s[i] != s[j]
  }

  ghost predicate Valid<V>(d: Dict<V>) {
    && Distinct(d.keys)
    && (forall k :: k in d.items <==> k in d.keys)
  }

  function Empty<V>(): (d: Dict<V>)
    ensures Valid(d) && d.keys == [] && d.items == map[]
  {
    Dict([], map[])
  }

  /** `d.get(k, default)`. */
  function Get<V>(d: Dict<V>, k: string, default: V): V {
    if k in d.items then d.items[k] else default
  }

  /** `d[k] = v`: the map is updated, a new key is appended to the order, an existing
      key keeps its position; the dict stays well formed. */
  function Put<V>(d: Dict<V>, k: string, v: V): (r: Dict<V>)
    ensures Valid(d) ==> Valid(r)
    ensures r.items == d.items[k := v]
    ensures Valid(d) ==> r.keys == if k in d.keys then d.keys else d.keys + [k]
  {
    Dict(if k in d.items then d.keys else d.keys + [k], d.items[k := v])
  }

  /** The sequence without any occurrence of k. */
  function Without(s: seq<string>, k: string): (r: seq<string>)
    ensures forall x :: x in r <==> x in s && x != k
    ensures |r| <= |s|
  {
    if s == [] then [] else (if s[0] == k then [] else [s[0]]) + Without(s[1..], k)
  }

  /** Removing a key from a duplicate-free order keeps it duplicate-free. */
  lemma {:induction false} WithoutDistinct(s: seq<string>, k: string)
    requires Distinct(s)
    ensures Distinct(Without(s, k))
  {
    if s != [] {
      assert Distinct(s[1..]) by {
        forall i, j | 0 <= i < j < |s[1..]| ensures s[1..][i] != s[1..][j] {
          assert s[1..][i] == s[i + 1] && s[1..][j] == s[j + 1];
        }
      }
      WithoutDistinct(s[1..], k);
      var rest := Without(s[1..], k);
      if s[0] != k {
        var r := Without(s, k);
        assert r == [s[0]] + rest;
        assert s[0] !in s[1..] by {
          forall j | 0 <= j < |s[1..]| ensures s[1..][j] != s[0] {
            assert s[1..][j] == s[j + 1];
          }
        }
        forall i, j | 0 <= i < j < |r| ensures r[i] != r[j] {
          assert r[j] == rest[j - 1];
          if i > 0 { assert r[i] == rest[i - 1]; }
        }
      }
    }
  }

  /** `d.pop(k, None)`: the value k had, if any, and the dict without k, whose other keys
      keep their order. */
  function Pop<V>(d: Dict<V>, k: string): (r: (Option<V>, Dict<V>))
    ensures r.0 == if k in d.items then Some(d.items[k]) else None
    ensures r.1.items == d.items - {k}
    ensures forall x :: x in r.1.keys <==> x in d.keys && x != k
    ensures k !in d.keys ==> r.1.keys == d.keys
    ensures Valid(d) && k in d.keys ==>
      exists p :: 0 <= p < |d.keys| && d.keys[p] == k && r.1.keys == d.keys[..p] + d.keys[p + 1..]
  {
    WithoutOrder(d.keys, k);
    (if k in d.items then Some(d.items[k]) else None, Dict(Without(d.keys, k), d.items - {k}))
  }

  /** Popping a key keeps a dict well formed. */
  lemma PopValid<V>(d: Dict<V>, k: string)
    requires Valid(d)
    ensures Valid(Pop(d, k).1)
  {
    WithoutDistinct(d.keys, k);
  }

  /** When k is the first key, popping it leaves the remaining keys in order. */
  lemma PopFirst<V>(d: Dict<V>)
    requires Valid(d) && |d.keys| > 0
    ensures Pop(d, d.keys[0]).1.keys == d.keys[1..]
  {
    var k := d.keys[0];
    assert forall x :: x in d.keys[1..] ==> x != k by {
      forall x | x in d.keys[1..] ensures x != k {
        var j :| 0 <= j < |d.keys[1..]| && d.keys[1..][j] == x;
        assert d.keys[j + 1] == x;
      }
    }
    WithoutAbsent(d.keys[1..], k);
  }

  /** Removing a key that is absent changes nothing; removing one listed once cuts out
      that one place. */
  lemma WithoutOrder(s: seq<string>, k: string)
    ensures k !in s ==> Without(s, k) == s
    ensures Distinct(s) && k in s ==>
      exists p :: 0 <= p < |s| && s[p] == k && Without(s, k) == s[..p] + s[p + 1..]
  {
    if k !in s {
      WithoutAbsent(s, k);
    } else if Distinct(s) {
      var p :| 0 <= p < |s| && s[p] == k;
      WithoutAt(s, p);
    }
  }

  lemma {:induction false} WithoutAt(s: seq<string>, p: nat)
    requires Distinct(s) && p < |s|
    ensures Without(s, s[p]) == s[..p] + s[p + 1..]
    decreases p
  {
    var k := s[p];
    assert Distinct(s[1..]) by {
      forall i, j | 0 <= i < j < |s[1..]| ensures s[1..][i] != s[1..][j] {
        assert s[1..][i] == s[i + 1] && s[1..][j] == s[j + 1];
      }
    }
    if p == 0 {
      assert k !in s[1..] by {
        forall j | 0 <= j < |s[1..]| ensures s[1..][j] != k {
          assert s[1..][j] == s[j + 1];
        }
      }
      WithoutAbsent(s[1..], k);
    } else {
      var t := s[1..];
      assert t[p - 1] == k;
      WithoutAt(t, p - 1);
      assert s[..p] == [s[0]] + t[..p - 1];
      assert s[p + 1..] == t[p..];
    }
  }

  lemma {:induction false} WithoutAbsent(s: seq<string>, k: string)
    requires k !in s
    ensures Without(s, k) == s
  {
    if s != [] { WithoutAbsent(s[1..], k); }
  }
  /** The sum of size(v) over the values of d, taken in key order. */
  function SumOver<V>(keys: seq<string>, items: map<string, V>, size: V -> nat): nat {
    if keys == [] then 0
    else
      var k := keys[|keys| - 1];
      SumOver(keys[..|keys| - 1], items, size) + (if k in items then size(items[k]) else 0)
  }

  /** Changing the value of a key that is not listed does not change the sum. */
  lemma {:induction false} SumOverOther<V>(keys: seq<string>, items: map<string, V>, size: V -> nat, k: string, v: V)
    requires k !in keys
    ensures SumOver(keys, items[k := v], size) == SumOver(keys, items, size)
  {
    if keys != [] {
      SumOverOther(keys[..|keys| - 1], items, size, k, v);
    }
  }

  /** Changing the value of a key listed once changes the sum by the difference. */
  lemma {:induction false} SumOverUpdate<V>(keys: seq<string>, items: map<string, V>, size: V -> nat, k: string, v: V)
    requires Distinct(keys) && k in keys && k in items
    ensures SumOver(keys, items[k := v], size) + size(items[k]) == SumOver(keys, items, size) + size(v)
  {
    var init := keys[..|keys| - 1];
    var last := keys[|keys| - 1];
    assert Distinct(init);
    if last == k {
      assert k !in init by {
        forall i | 0 <= i < |init| ensures init[i] != k {
          assert init[i] == keys[i];
        }
      }
      SumOverOther(init, items, size, k, v);
    } else {
      assert k in init by {
        var i :| 0 <= i < |keys| && keys[i] == k;
        assert init[i] == k;
      }
      SumOverUpdate(init, items, size, k, v);
    }
  }

  /** How `d[k] = v` changes the sum over a well-formed dict. */
  lemma SumOverPut<V>(d: Dict<V>, size: V -> nat, k: string, v: V)
    requires Valid(d)
    ensures var r := Put(d, k, v);
      SumOver(r.keys, r.items, size) + (if k in d.items then size(d.items[k]) else 0)
        == SumOver(d.keys, d.items, size) + size(v)
  {
    var r := Put(d, k, v);
    if k in d.items {
      SumOverUpdate(d.keys, d.items, size, k, v);
    } else {
      assert (d.keys + [k])[..|d.keys|] == d.keys;
      SumOverOther(d.keys, d.items, size, k, v);
    }
  }
}

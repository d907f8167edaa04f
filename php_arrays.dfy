/**
 * A PHP array with string keys, as the palette uses it: the values by key,
 * and the keys in the order they were first written.
 */
module PhpArrays {
  datatype Table<V> = Table(keys: seq<string>, values: map<string, V>)

  function Empty<V>(): Table<V> {
    Table([], map[])
  }

  /** Each key is listed once, and the listed keys are exactly the keys with a value. */
  ghost predicate WellFormed<V>(t: Table<V>) {
    (forall k :: multiset(t.keys)[k] <= 1) && (forall k :: k in t.values <==> k in t.keys)
  }

  /** $array[k] = v. */
  function Put<V>(t: Table<V>, k: string, v: V): (r: Table<V>)
    ensures k in r.values && r.values[k] == v
    ensures |t.keys| <= |r.keys| <= |t.keys| + 1 && r.keys[..|t.keys|] == t.keys
  {
    if k in t.values then Table(t.keys, t.values[k := v]) else Table(t.keys + [k], t.values[k := v])
  }

  /** Writing key k replaces the value under k and leaves the value under any other key j. */
  lemma PutValueAt<V>(t: Table<V>, k: string, v: V, j: string)
    ensures j in Put(t, k, v).values <==> j == k || j in t.values
    ensures j == k ==> Put(t, k, v).values[j] == v
    ensures j != k && j in t.values ==> Put(t, k, v).values[j] == t.values[j]
  {
  }

  /** A key already present keeps its place, and a new key goes last. */
  lemma PutKeys<V>(t: Table<V>, k: string, v: V)
    ensures k in t.values ==> Put(t, k, v).keys == t.keys
    ensures k !in t.values ==> Put(t, k, v).keys == t.keys + [k]
  {
  }

  /** Writing a key keeps the keys listed once each and in step with the values. */
  lemma PutWellFormed<V>(t: Table<V>, k: string, v: V)
    requires WellFormed(t)
    ensures WellFormed(Put(t, k, v))
  {
    if k !in t.values {
      assert multiset(t.keys + [k]) == multiset(t.keys) + multiset{k};
    }
  }

  /** The values in key order, the way foreach visits them. */
  function Values<V>(t: Table<V>): (vs: seq<V>)
    requires WellFormed(t)
    ensures |vs| == |t.keys|
    ensures forall i :: 0 <= i < |t.keys| ==> vs[i] == t.values[t.keys[i]]
  {
    seq(|t.keys|, i requires 0 <= i < |t.keys| => t.values[t.keys[i]])
  }

  /**
   * The array after uasort(): the same values under the same keys, listed
   * in the given order.
   */
  function Reorder<V>(t: Table<V>, order: seq<string>): (r: Table<V>)
    requires multiset(order) == multiset(t.keys)
    ensures WellFormed(t) ==> WellFormed(r)
    ensures r.values == t.values && multiset(r.keys) == multiset(t.keys)
  {
    assert forall k :: k in order <==> k in multiset(order);
    assert forall k :: k in t.keys <==> k in multiset(t.keys);
    Table(order, t.values)
  }

  /** Each value written in turn under its own key, as a foreach loop does. */
  function PutEach<V>(t: Table<V>, key: V -> string, vs: seq<V>): Table<V>
    decreases |vs|
  {
    if vs == [] then t else PutEach(Put(t, key(vs[0]), vs[0]), key, vs[1..])
  }

  // ---------------------------------------------------------------------
  // Properties.

  /** Writing a key twice leaves the array as writing the second value alone would. */
  lemma PutTwice<V>(t: Table<V>, k: string, v: V, w: V)
    ensures Put(Put(t, k, v), k, w) == Put(t, k, w)
  {
    assert t.values[k := v][k := w] == t.values[k := w];
  }

  /** Writing a key already present changes no position: key i stays key i. */
  lemma PutKeepsPositions<V>(t: Table<V>, k: string, v: V, i: nat)
    requires i < |t.keys|
    ensures i < |Put(t, k, v).keys| && Put(t, k, v).keys[i] == t.keys[i]
  {
  }

  /** Writing two lists one after the other is writing their concatenation. */
  lemma {:induction false} PutEachAppend<V>(t: Table<V>, key: V -> string, a: seq<V>, b: seq<V>)
    ensures PutEach(t, key, a + b) == PutEach(PutEach(t, key, a), key, b)
    decreases |a|
  {
    if a == [] {
      assert a + b == b;
    } else {
      assert (a + b)[0] == a[0];
      assert (a + b)[1..] == a[1..] + b;
      PutEachAppend(Put(t, key(a[0]), a[0]), key, a[1..], b);
    }
  }

  /** Writing one value is a single assignment. */
  lemma PutEachOne<V>(t: Table<V>, key: V -> string, v: V)
    ensures PutEach(t, key, [v]) == Put(t, key(v), v)
  {
    assert [v][1..] == [];
  }

  /** Writing values keeps the keys listed once each and in step with the values. */
  lemma {:induction false} PutEachWellFormed<V>(t: Table<V>, key: V -> string, vs: seq<V>)
    requires WellFormed(t)
    ensures WellFormed(PutEach(t, key, vs))
    decreases |vs|
  {
    if vs != [] {
      PutWellFormed(t, key(vs[0]), vs[0]);
      PutEachWellFormed(Put(t, key(vs[0]), vs[0]), key, vs[1..]);
    }
  }

  /** Keys already present keep their places; new ones come after them. */
  lemma {:induction false} PutEachKeepsOrder<V>(t: Table<V>, key: V -> string, vs: seq<V>)
    ensures |t.keys| <= |PutEach(t, key, vs).keys| && PutEach(t, key, vs).keys[..|t.keys|] == t.keys
    decreases |vs|
  {
    if vs != [] {
      var u := Put(t, key(vs[0]), vs[0]);
      PutKeys(t, key(vs[0]), vs[0]);
      PutEachKeepsOrder(u, key, vs[1..]);
      var r := PutEach(u, key, vs[1..]);
      assert r.keys[..|t.keys|] == r.keys[..|u.keys|][..|t.keys|];
    }
  }

  /** A key is there afterwards exactly when it was there before or is the key of a value written. */
  lemma {:induction false} PutEachHas<V>(t: Table<V>, key: V -> string, vs: seq<V>, k: string)
    ensures k in PutEach(t, key, vs).values <==> k in t.values || exists i :: 0 <= i < |vs| && key(vs[i]) == k
    decreases |vs|
  {
    if vs != [] {
      var u := Put(t, key(vs[0]), vs[0]);
      PutValueAt(t, key(vs[0]), vs[0], k);
      PutEachHas(u, key, vs[1..], k);
      if exists i :: 0 <= i < |vs[1..]| && key(vs[1..][i]) == k {
        var i :| 0 <= i < |vs[1..]| && key(vs[1..][i]) == k;
        assert vs[i + 1] == vs[1..][i];
      }
      if exists i :: 0 <= i < |vs| && key(vs[i]) == k {
        var i :| 0 <= i < |vs| && key(vs[i]) == k;
        if i > 0 {
          assert vs[1..][i - 1] == vs[i];
        }
      }
    }
  }

  /** The value under a key is the one that was there, or a value written under that key. */
  lemma {:induction false} PutEachValue<V>(t: Table<V>, key: V -> string, vs: seq<V>, k: string)
    requires k in PutEach(t, key, vs).values
    ensures (k in t.values && PutEach(t, key, vs).values[k] == t.values[k])
      || exists i :: 0 <= i < |vs| && key(vs[i]) == k && PutEach(t, key, vs).values[k] == vs[i]
    decreases |vs|
  {
    if vs != [] {
      var u := Put(t, key(vs[0]), vs[0]);
      var r := PutEach(u, key, vs[1..]);
      PutValueAt(t, key(vs[0]), vs[0], k);
      PutEachValue(u, key, vs[1..], k);
      if exists i :: 0 <= i < |vs[1..]| && key(vs[1..][i]) == k && r.values[k] == vs[1..][i] {
        var i :| 0 <= i < |vs[1..]| && key(vs[1..][i]) == k && r.values[k] == vs[1..][i];
        assert vs[i + 1] == vs[1..][i];
      } else if k == key(vs[0]) {
        assert r.values[k] == vs[0];
      }
    }
  }

  /** Writes under other keys leave the value under k as it was. */
  lemma {:induction false} PutEachOthers<V>(t: Table<V>, key: V -> string, vs: seq<V>, k: string)
    requires k in t.values
    requires forall j :: 0 <= j < |vs| ==> key(vs[j]) != k
    ensures k in PutEach(t, key, vs).values && PutEach(t, key, vs).values[k] == t.values[k]
    decreases |vs|
  {
    if vs != [] {
      PutValueAt(t, key(vs[0]), vs[0], k);
      assert forall j :: 0 <= j < |vs[1..]| ==> vs[1..][j] == vs[j + 1];
      PutEachOthers(Put(t, key(vs[0]), vs[0]), key, vs[1..], k);
    }
  }

  /** The last write wins: a value no later value shares a key with is the one left under its key. */
  lemma PutEachLast<V>(t: Table<V>, key: V -> string, vs: seq<V>, i: nat)
    requires i < |vs|
    requires forall j :: i < j < |vs| ==> key(vs[j]) != key(vs[i])
    ensures key(vs[i]) in PutEach(t, key, vs).values && PutEach(t, key, vs).values[key(vs[i])] == vs[i]
  {
    var before, after := vs[..i], vs[i + 1..];
    assert vs == before + [vs[i]] + after;
    PutEachAppend(t, key, before + [vs[i]], after);
    PutEachAppend(t, key, before, [vs[i]]);
    var u := PutEach(t, key, before);
    PutEachOne(u, key, vs[i]);
    assert forall j :: 0 <= j < |after| ==> after[j] == vs[i + 1 + j];
    PutEachOthers(Put(u, key(vs[i]), vs[i]), key, after, key(vs[i]));
  }

  /** Two values with different keys are listed in the order they were written. */
  lemma PutEachTwo<V>(key: V -> string, x: V, y: V)
    requires key(x) != key(y)
    ensures PutEach(Empty(), key, [x, y]).keys == [key(x), key(y)]
  {
    var u: Table<V> := Put(Empty(), key(x), x);
    PutValueAt(Empty(), key(x), x, key(y));
    assert [x, y][1..] == [y];
    PutEachOne(u, key, y);
  }
}

/** The JavaScript `Map` (and the insertion-ordered plain object used as the
    mandal registry): a finite map that remembers the order in which keys were
    first set, which is the order `for ... of` and `forEach` visit them. */
module JsMaps {

  datatype JsMap<K(==), V> = JsMap(keys: seq<K>, entries: map<K, V>) {

    /** Every key listed once, every listed key present, and no key present
        that is not listed (as many entries as listed keys; UnlistedAbsent states
        it as membership). */
    ghost predicate Valid() {
      && (forall i, j :: 0 <= i < j < |keys| ==> keys[i] != keys[j])
      && (forall t :: 0 <= t < |keys| ==> keys[t] in entries)
      && |entries| == |keys|
    }

    /** `m.has(k)` */
    predicate Has(k: K) {
      k in entries
    }

    /** `m.get(k)` for a present key. */
    function Get(k: K): V
      requires Has(k)
    {
      entries[k]
    }

    /** `m.set(k, v)`: a new key goes to the end of the order, an existing key
        keeps its place and only its value changes. */
    function Set(k: K, v: V): (m: JsMap<K, V>)
      ensures Valid() ==> m.Valid()
      ensures m.entries == entries[k := v]
      ensures m.keys == if k in entries then keys else keys + [k]
    {
      JsMap(if k in entries then keys else keys + [k], entries[k := v])
    }

    /** `m.size` */
    function Size(): nat {
      |keys|
    }

    /** The values in iteration order. */
    function Values(): (vs: seq<V>)
      requires Valid()
      ensures |vs| == |keys|
      ensures forall t :: 0 <= t < |keys| ==> vs[t] == entries[keys[t]]
    {
      seq(|keys|, t requires 0 <= t < |keys| => entries[keys[t]])
    }
  }

  /** `new Map()` */
  function EmptyMap<K(==), V>(): (m: JsMap<K, V>)
    ensures m.Valid() && m.keys == [] && m.entries == map[]
  {
    JsMap([], map[])
  }

  /** `Object.values` / `m.values()` lists exactly the values of the present
      keys: a value is listed if and only if some present key holds it. */
  lemma ValuesMembers<K, V>(m: JsMap<K, V>, v: V)
    requires m.Valid()
    ensures v in m.Values() <==> exists k :: k in m.entries && m.entries[k] == v
  {
    var vs := m.Values();
    if v in vs {
      var t :| 0 <= t < |vs| && vs[t] == v;
      assert m.keys[t] in m.entries && m.entries[m.keys[t]] == v;
    }
    if exists k :: k in m.entries && m.entries[k] == v {
      var k :| k in m.entries && m.entries[k] == v;
      if k !in m.keys {
        UnlistedAbsent(m, k);
      }
      var t :| 0 <= t < |m.keys| && m.keys[t] == k;
      assert vs[t] == v;
    }
  }

  /** In a valid map a key that is not listed is not present: the listed
      keys are exactly the domain. */
  lemma {:induction false} UnlistedAbsent<K, V>(m: JsMap<K, V>, k: K)
    requires m.Valid() && k !in m.keys
    ensures k !in m.entries
  {
    var listed := set x | x in m.keys;
    DistinctSeqCardinality(m.keys);
    assert listed <= m.entries.Keys;
    SubsetOfSameSize(listed, m.entries.Keys);
  }

  lemma SubsetOfSameSize<K>(a: set<K>, b: set<K>)
    requires a <= b && |a| == |b|
    ensures a == b
  {
    if a != b {
      var x :| x in b && x !in a;
      SubsetCardinality(a, b - {x});
    }
  }

  lemma {:induction false} SubsetCardinality<K>(a: set<K>, b: set<K>)
    requires a <= b
    ensures |a| <= |b|
    decreases a
  {
    if a != {} {
      var y :| y in a;
      SubsetCardinality(a - {y}, b - {y});
    }
  }

  lemma {:induction false} DistinctSeqCardinality<K>(s: seq<K>)
    requires forall i, j :: 0 <= i < j < |s| ==> s[i] != s[j]
    ensures |set k | k in s| == |s|
  {
    if s != [] {
      var init := s[..|s| - 1];
      DistinctSeqCardinality(init);
      assert (set k | k in s) == (set k | k in init) + {s[|s| - 1]};
      assert s[|s| - 1] !in init;
    }
  }
}

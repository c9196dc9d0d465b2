/**
 * A Python `dict` keyed by `int`: besides its entries it remembers the order in
 * which keys were first inserted, which is the order `values()` yields them in.
 */
module Dicts {
  import opened Json

  /** The distinct elements of `s`, each once. */
  ghost predicate Distinct(s: seq<int>) {
    forall i, j :: 0 <= i < j < |s| ==> s[i] != s[j]
  }

  /** The position of `k` in `s`. */
  function Position(s: seq<int>, k: int): (p: nat)
    requires k in s
    ensures p < |s| && s[p] == k
    ensures forall j :: 0 <= j < p ==> s[j] != k
  {
    if s[0] == k then 0 else 1 + Position(s[1..], k)
  }

  datatype Dict<V> = Dict(entries: map<int, V>, keys: seq<int>)
  {
    /** The key order lists every key exactly once. */
    ghost predicate Valid() {
      && Distinct(keys)
      && (forall k :: k in entries <==> k in keys)
      && (forall i :: 0 <= i < |keys| ==> keys[i] in entries)
    }

    /** `list(d.values())`: the values in key-insertion order. */
    function Values(): (vs: seq<V>)
      requires Valid()
      ensures |vs| == |keys|
      ensures forall i :: 0 <= i < |keys| ==> vs[i] == entries[keys[i]]
    {
      seq(|keys|, i requires 0 <= i < |keys| => entries[keys[i]])
    }

    /** `d.get(k)` */
    function Get(k: int): (r: Option<V>)
      ensures r.None? <==> k !in entries
      ensures r.Some? ==> r.value == entries[k]
    {
      if k in entries then Some(entries[k]) else None
    }

    /** Where `k`'s value sits in `Values()`. */
    function IndexOf(k: int): (p: nat)
      requires Valid() && k in entries
      ensures p < |keys| && keys[p] == k
    {
      Position(keys, k)
    }

    /**
     * `d[k] = v`: a new key is appended to the order, an existing key keeps its
     * place and only its value changes.
     */
    function Put(k: int, v: V): (d: Dict<V>)
      requires Valid()
      ensures d.Valid()
      ensures d.entries == entries[k := v]
      ensures k in entries ==> d.keys == keys
      ensures k !in entries ==> d.keys == keys + [k]
      ensures d.Values() == if k in entries then Values()[IndexOf(k) := v] else Values() + [v]
    {
      if k in entries then
        var d := Dict(entries[k := v], keys);
        assert forall i :: 0 <= i < |keys| && i != IndexOf(k) ==> keys[i] != k;
        d
      else
        Dict(entries[k := v], keys + [k])
    }

    /** `del d[k]`: the key leaves both the entries and the order; the rest keep their order. */
    function Del(k: int): (d: Dict<V>)
      requires Valid() && k in entries
      ensures d.Valid()
      ensures d.entries == entries - {k}
      ensures d.Values() == Values()[..IndexOf(k)] + Values()[IndexOf(k) + 1..]
    {
      var p := IndexOf(k);
      RemoveAtKeepsOthers(keys, p);
      Dict(entries - {k}, keys[..p] + keys[p + 1..])
    }
  }

  /** `d.values()` holds each stored value once per key, and nothing else. */
  lemma ValuesExactly<V>(d: Dict<V>)
    requires d.Valid()
    ensures |d.Values()| == |d.entries|
    ensures forall x :: x in d.Values() <==> exists k :: k in d.entries && d.entries[k] == x
  {
    var vs := d.Values();
    DistinctCount(d.keys, d.entries.Keys);
    forall x | x in vs ensures exists k :: k in d.entries && d.entries[k] == x {
      var i :| 0 <= i < |vs| && vs[i] == x;
      assert d.keys[i] in d.entries;
    }
    forall k | k in d.entries ensures d.entries[k] in vs {
      assert vs[d.IndexOf(k)] == d.entries[k];
    }
  }

  /** A sequence without repeats has as many elements as the set of its elements. */
  lemma {:induction false} DistinctCount(s: seq<int>, m: set<int>)
    requires Distinct(s)
    requires forall k :: k in m <==> k in s
    ensures |m| == |s|
    decreases |s|
  {
    if s == [] {
      assert forall k :: k in m ==> k in s;
      assert m <= set k | k in s;
    } else {
      var last := s[|s| - 1];
      var init := s[..|s| - 1];
      assert forall k :: k in m - {last} <==> k in init by {
        forall k ensures k in m - {last} <==> k in init {
          assert k in s <==> k in init || k == last;
        }
      }
      assert last in m;
      assert Distinct(init);
      DistinctCount(init, m - {last});
      assert |m| == |m - {last}| + 1;
    }
  }

  /** Dropping position `p` of a sequence of distinct keys leaves exactly the other keys, still distinct. */
  lemma RemoveAtKeepsOthers(s: seq<int>, p: nat)
    requires Distinct(s) && p < |s|
    ensures Distinct(s[..p] + s[p + 1..])
    ensures forall x :: x in s[..p] + s[p + 1..] <==> x in s && x != s[p]
  {
    var t := s[..p] + s[p + 1..];
    assert forall j :: 0 <= j < |t| ==> t[j] == if j < p then s[j] else s[j + 1];
    forall x | x in s && x != s[p] ensures x in t {
      var j :| 0 <= j < |s| && s[j] == x;
      if j < p { assert t[j] == x; } else { assert t[j - 1] == x; }
    }
  }

  /** `{}` */
  function Empty<V>(): (d: Dict<V>)
    ensures d.Valid() && d.entries == map[] && d.Values() == []
  {
    Dict(map[], [])
  }
}

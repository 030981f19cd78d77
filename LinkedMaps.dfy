/**
  Insertion-ordered maps from string keys, the behaviour of a
  `java.util.LinkedHashMap<String, V>`: iteration visits each key once, in the
  order in which it was first inserted, and re-inserting a key replaces its
  value without moving it.
*/
module LinkedMaps {
  import opened Sequences

  /** No element of `s` occurs twice. */
  predicate Distinct(s: seq<string>) {
    forall i, j :: 0 <= i < j < |s| ==> s[i] != s[j]
  }

  /** The position of the first occurrence of `x` in `s`. */
  function IndexIn(s: seq<string>, x: string): (i: nat)
    requires x in s
    ensures i < |s| && s[i] == x
    ensures forall j :: 0 <= j < i ==> s[j] != x
  {
    if s[0] == x then 0 else 1 + IndexIn(s[1..], x)
  }

  /** The iteration order after inserting the keys `ks` in turn into an empty map. */
  function InsertionOrder(ks: seq<string>): (o: seq<string>)
    ensures Distinct(o)
    ensures forall k :: k in o <==> k in ks
  {
    if ks == [] then []
    else
      var o := InsertionOrder(ks[..|ks| - 1]);
      if ks[|ks| - 1] in o then o else o + [ks[|ks| - 1]]
  }

  /** The first occurrence of a key already present in a prefix lies in that prefix. */
  lemma IndexInPrefix(s: seq<string>, t: seq<string>, x: string)
    requires x in s
    ensures IndexIn(s + t, x) == IndexIn(s, x)
  {
    var i := IndexIn(s, x);
    assert (s + t)[i] == x;
    assert forall j :: 0 <= j < i ==> (s + t)[j] == s[j];
  }

  /** Every element of `xs` occurs in `ks`, and their first positions in `ks` strictly increase along `xs`. */
  predicate Increasing(ks: seq<string>, xs: seq<string>) {
    && (forall i :: 0 <= i < |xs| ==> xs[i] in ks)
    && (forall p, q :: 0 <= p < q < |xs| ==> IndexIn(ks, xs[p]) < IndexIn(ks, xs[q]))
  }

  /** Extending `ks` at the end moves no first occurrence. */
  lemma IncreasingExtend(ks: seq<string>, t: seq<string>, xs: seq<string>)
    requires Increasing(ks, xs)
    ensures Increasing(ks + t, xs)
  {
    forall i | 0 <= i < |xs| ensures IndexIn(ks + t, xs[i]) == IndexIn(ks, xs[i]) {
      IndexInPrefix(ks, t, xs[i]);
    }
  }

  /** A new key appended to `ks` may be appended to `xs`: it comes after all of them. */
  lemma IncreasingSnoc(ks: seq<string>, last: string, xs: seq<string>)
    requires Increasing(ks, xs)
    requires last !in ks
    ensures Increasing(ks + [last], xs + [last])
  {
    IncreasingExtend(ks, [last], xs);
    var ks', xs' := ks + [last], xs + [last];
    assert IndexIn(ks', last) == |ks|;
    forall p, q | 0 <= p < q < |xs'| ensures IndexIn(ks', xs'[p]) < IndexIn(ks', xs'[q]) {
      assert xs'[p] == xs[p];
      if q < |xs| {
        assert xs'[q] == xs[q];
      }
    }
  }

  /** Keys iterate in the order of their first insertion. */
  lemma {:induction false} InsertionOrderFollowsFirstOccurrence(ks: seq<string>)
    ensures Increasing(ks, InsertionOrder(ks))
  {
    if ks != [] {
      var init, last := ks[..|ks| - 1], ks[|ks| - 1];
      SplitLast(ks);
      InsertionOrderFollowsFirstOccurrence(init);
      var o := InsertionOrder(init);
      if last in o {
        IncreasingExtend(init, [last], o);
      } else {
        IncreasingSnoc(init, last, o);
      }
    }
  }

  /** `keys` is the iteration order, `entries` the key-to-value mapping. */
  datatype LinkedMap<V> = LinkedMap(keys: seq<string>, entries: map<string, V>) {

    ghost predicate Valid() {
      && Distinct(keys)
      && (forall k :: k in entries <==> k in keys)
    }

    /** `put(k, v)`: a new key goes to the end of the iteration order, a known key keeps its place. */
    function Put(k: string, v: V): (r: LinkedMap<V>)
      ensures k in r.entries && r.entries[k] == v
      ensures forall j :: j in r.entries <==> j in entries || j == k
      ensures forall j :: j in entries && j != k ==> r.entries[j] == entries[j]
      ensures k in entries ==> r.keys == keys
      ensures k !in entries ==> r.keys == keys + [k]
    {
      if k in entries then LinkedMap(keys, entries[k := v])
      else LinkedMap(keys + [k], entries[k := v])
    }
  }

  /** `put` keeps a map well formed. */
  lemma PutValid<V>(m: LinkedMap<V>, k: string, v: V)
    requires m.Valid()
    ensures m.Put(k, v).Valid()
  {
  }

  function Empty<V>(): (m: LinkedMap<V>)
    ensures m.Valid() && m.keys == [] && m.entries == map[]
  {
    LinkedMap([], map[])
  }
}

/** A JavaScript `Map` as the task list uses it: an insertion-ordered list of
    entries whose keys are distinct. Iteration order (`forEach`, spread) is the
    order of the list. */
module OrderedMaps {
  import opened Wrappers
  import opened Sequences

  /** The keys of `m` in iteration order. */
  function Keys<K, V>(m: seq<(K, V)>): seq<K> {
    seq(|m|, i requires 0 <= i < |m| => m[i].0)
  }

  /** The representation invariant of a Map: no key occurs twice. */
  predicate Valid<K(==,!new), V>(m: seq<(K, V)>) {
    Distinct(Keys(m))
  }

  lemma KeysCons<K, V>(m: seq<(K, V)>)
    requires m != []
    ensures Keys(m) == [m[0].0] + Keys(m[1..])
  {
  }

  lemma ValidTail<K(!new), V>(m: seq<(K, V)>)
    requires m != [] && Valid(m)
    ensures Valid(m[1..])
    ensures m[0].0 !in Keys(m[1..])
  {
    KeysCons(m);
    DistinctTail(Keys(m));
  }

  lemma KeysAppend<K, V>(a: seq<(K, V)>, b: seq<(K, V)>)
    ensures Keys(a + b) == Keys(a) + Keys(b)
  {
  }

  lemma EntryKeys<K, V>(m: seq<(K, V)>)
    ensures forall e :: e in m ==> e.0 in Keys(m)
  {
    forall e | e in m ensures e.0 in Keys(m) {
      var i :| 0 <= i < |m| && m[i] == e;
      assert Keys(m)[i] == e.0;
    }
  }

  /** `Map.prototype.get`: the value stored under `k`, None for `undefined`. */
  function Get<K(==), V>(m: seq<(K, V)>, k: K): (r: Option<V>)
    ensures r.Some? <==> k in Keys(m)
    ensures r.Some? ==> (k, r.value) in m
  {
    if m == [] then None
    else
      KeysCons(m);
      if m[0].0 == k then Some(m[0].1) else Get(m[1..], k)
  }

  /** In a valid map the entry at position `i` is the one `get` finds. */
  lemma {:induction false} GetAt<K(!new), V>(m: seq<(K, V)>, i: nat)
    requires Valid(m) && i < |m|
    ensures Get(m, m[i].0) == Some(m[i].1)
  {
    if i > 0 {
      ValidTail(m);
      assert Keys(m)[0] != Keys(m)[i];
      GetAt(m[1..], i - 1);
    }
  }

  /** Two valid maps with the same key order and the same value under every key
      are the same map. */
  lemma Extensionality<K(!new), V>(a: seq<(K, V)>, b: seq<(K, V)>)
    requires Valid(a) && Valid(b)
    requires Keys(a) == Keys(b)
    requires forall k :: Get(a, k) == Get(b, k)
    ensures a == b
  {
    assert |a| == |Keys(a)| == |b|;
    forall i | 0 <= i < |a| ensures a[i] == b[i] {
      assert Keys(a)[i] == Keys(b)[i];
      GetAt(a, i);
      GetAt(b, i);
    }
  }

  /** `Map.prototype.set`: a new key is appended at the end; an existing key
      keeps its position and only its value changes. */
  function Set<K(==,!new), V>(m: seq<(K, V)>, k: K, v: V): (r: seq<(K, V)>)
    requires Valid(m)
    ensures Valid(r)
    ensures k !in Keys(m) ==> r == m + [(k, v)]
    ensures k in Keys(m) ==> Keys(r) == Keys(m)
    ensures Get(r, k) == Some(v)
    ensures forall k' :: k' != k ==> Get(r, k') == Get(m, k')
  {
    if m == [] then [(k, v)]
    else
      ValidTail(m);
      KeysCons(m);
      if m[0].0 == k then
        KeysCons([(k, v)] + m[1..]);
        [(k, v)] + m[1..]
      else
        var rest := Set(m[1..], k, v);
        KeysCons([m[0]] + rest);
        KeysAppend(m[1..], [(k, v)]);
        DistinctCons(m[0].0, Keys(rest));
        [m[0]] + rest
  }

  /** `Map.prototype.delete`: removes the entry under `k`, if any; the other
      entries keep their values and relative order. */
  function Delete<K(==,!new), V(!new)>(m: seq<(K, V)>, k: K): (r: seq<(K, V)>)
    requires Valid(m)
    ensures Valid(r)
    ensures k !in Keys(m) ==> r == m
    ensures k in Keys(m) ==> |r| == |m| - 1
    ensures Keys(r) == Without(Keys(m), k)
    ensures forall e :: e in r <==> e in m && e.0 != k
    ensures Get(r, k) == None
    ensures forall k' :: k' != k ==> Get(r, k') == Get(m, k')
  {
    if m == [] then []
    else
      ValidTail(m);
      KeysCons(m);
      if m[0].0 == k then
        WithoutAbsent(Keys(m[1..]), k);
        EntryKeys(m[1..]);
        m[1..]
      else
        var rest := Delete(m[1..], k);
        KeysCons([m[0]] + rest);
        [m[0]] + rest
  }

  /** The value of the last entry with key `k` in an entry list: the value a
      Map built from that list ends up holding for `k`. */
  function LastValue<K(==), V>(es: seq<(K, V)>, k: K): Option<V> {
    if es == [] then None
    else if es[|es| - 1].0 == k then Some(es[|es| - 1].1)
    else LastValue(es[..|es| - 1], k)
  }

  /** `new Map(entries)`: `set` applied to every entry in order, so a repeated
      key keeps its first position and its last value. */
  function FromEntries<K(==,!new), V>(es: seq<(K, V)>): (r: seq<(K, V)>)
    ensures Valid(r)
    ensures forall k :: k in Keys(r) <==> k in Keys(es)
    ensures forall k :: Get(r, k) == LastValue(es, k)
    ensures Keys(r) == FirstOccurrences(Keys(es))
  {
    if es == [] then []
    else
      var init := es[..|es| - 1];
      KeysAppend(init, [es[|es| - 1]]);
      assert es == init + [es[|es| - 1]];
      var prev := FromEntries(init);
      KeysAppend(prev, [es[|es| - 1]]);
      assert Keys(es)[..|es| - 1] == Keys(init);
      Set(prev, es[|es| - 1].0, es[|es| - 1].1)
  }

  /** Building a Map from the entries of a valid map gives that map back. */
  lemma {:induction false} FromEntriesOfValid<K(!new), V>(m: seq<(K, V)>)
    requires Valid(m)
    ensures FromEntries(m) == m
  {
    if m != [] {
      var init := m[..|m| - 1];
      KeysAppend(init, [m[|m| - 1]]);
      assert m == init + [m[|m| - 1]];
      assert Valid(init) by {
        assert Keys(init) == Keys(m)[..|m| - 1];
      }
      FromEntriesOfValid(init);
      assert m[|m| - 1].0 !in Keys(init) by {
        assert Keys(m)[|m| - 1] == m[|m| - 1].0;
      }
    }
  }

  /** Deleting a key just set for the first time undoes the `set`. */
  lemma SetThenDelete<K(!new), V(!new)>(m: seq<(K, V)>, k: K, v: V)
    requires Valid(m) && k !in Keys(m)
    ensures Delete(Set(m, k, v), k) == m
  {
    var s := Set(m, k, v);
    var r := Delete(s, k);
    assert s == m + [(k, v)];
    KeysAppend(m, [(k, v)]);
    assert Keys(s) == Keys(m) + [k];
    WithoutAppend(Keys(m), [k], k);
    WithoutAbsent(Keys(m), k);
    assert Without([k], k) == [];
    assert Keys(r) == Keys(m);
    forall k' ensures Get(r, k') == Get(m, k') {
      if k' == k {
        assert Get(r, k') == None == Get(m, k');
      } else {
        assert Get(r, k') == Get(s, k') == Get(m, k');
      }
    }
    Extensionality(r, m);
  }
}

/**
 A slot array as a store: what it means that the array holds exactly the entries of a finite map,
 and how filling and removing a slot change that map.
 */
module SlotStore {
  import opened SlotRing

  datatype Entry<K, V> = Entry(key: K, val: V)

  ghost predicate IsEntry<K(!new), V(!new)>(x: Slot<Entry<K, V>>, hashOf: K -> nat, held: map<K, V>) {
    x.Used? && x.elem.key in held && x.elem.val == held[x.elem.key] && x.hash == hashOf(x.elem.key)
  }

  /** Each held key is stored once, under its hash and with its holder, and nothing else is stored. */
  ghost predicate Stores<K(!new), V(!new)>(s: seq<Slot<Entry<K, V>>>, hashOf: K -> nat, held: map<K, V>) {
    forall x: Slot<Entry<K, V>> :: x.Used? ==> multiset(s)[x] == if IsEntry(x, hashOf, held) then 1 else 0
  }

  /** A key is stored at one slot only. */
  lemma StoredOnce<K(!new), V(!new)>(s: seq<Slot<Entry<K, V>>>, hashOf: K -> nat, held: map<K, V>, p: nat, q: nat)
    requires Stores(s, hashOf, held)
    requires p < |s| && q < |s| && s[p].Used? && s[q].Used? && s[p].elem.key == s[q].elem.key
    ensures p == q
  {
    assert s[p] in multiset(s) && s[q] in multiset(s);
    var t := s[p := Empty];
    assert multiset(t)[s[p]] == 0;
    assert t[q] in multiset(t);
  }

  lemma SlotIsEntry<K(!new), V(!new)>(s: seq<Slot<Entry<K, V>>>, hashOf: K -> nat, held: map<K, V>, p: nat)
    requires Stores(s, hashOf, held) && p < |s| && s[p].Used?
    ensures IsEntry(s[p], hashOf, held)
  {
  }

  lemma EntryHasSlot<K(!new), V(!new)>(s: seq<Slot<Entry<K, V>>>, hashOf: K -> nat, held: map<K, V>, k: K)
    returns (p: nat)
    requires Stores(s, hashOf, held) && k in held
    ensures p < |s| && s[p] == Used(hashOf(k), Entry(k, held[k]))
  {
    var x := Used(hashOf(k), Entry(k, held[k]));
    assert multiset(s)[x] == 1;
    assert x in s;
    p :| p < |s| && s[p] == x;
  }

  lemma FillStores<K(!new), V(!new)>(s: seq<Slot<Entry<K, V>>>, hashOf: K -> nat, held: map<K, V>, p: nat, k: K, v: V)
    requires Stores(s, hashOf, held) && p < |s| && s[p].Empty? && k !in held
    ensures Stores(s[p := Used(hashOf(k), Entry(k, v))], hashOf, held[k := v])
  {
  }

  lemma ReplaceStores<K(!new), V(!new)>(s: seq<Slot<Entry<K, V>>>, hashOf: K -> nat, held: map<K, V>, p: nat, v: V)
    requires Stores(s, hashOf, held) && p < |s| && s[p].Used?
    ensures s[p].elem.key in held
    ensures Stores(s[p := Used(s[p].hash, Entry(s[p].elem.key, v))], hashOf, held[s[p].elem.key := v])
    ensures multiset(s[p := Used(s[p].hash, Entry(s[p].elem.key, v))])[Empty] == multiset(s)[Empty]
  {
  }

  lemma RemoveStores<K(!new), V(!new)>(was: seq<Slot<Entry<K, V>>>, now: seq<Slot<Entry<K, V>>>,
                                       hashOf: K -> nat, held: map<K, V>, del: nat, end: nat)
    requires Stores(was, hashOf, held) && Removed(was, now, del, end) && was[del].Used?
    ensures Stores(now, hashOf, held - {was[del].elem.key})
    ensures multiset(now)[Empty] == multiset(was)[Empty] + 1
    ensures |held - {was[del].elem.key}| == |held| - 1
  {
  }

  lemma AllEmpty<K(!new), V(!new)>(s: seq<Slot<Entry<K, V>>>)
    requires forall p: nat :: p < |s| ==> s[p].Empty?
    ensures multiset(s)[Empty] == |s|
    ensures forall x: Slot<Entry<K, V>> :: x.Used? ==> multiset(s)[x] == 0
  {
    if |s| > 0 {
      AllEmpty(s[..|s| - 1]);
      assert s == s[..|s| - 1] + [s[|s| - 1]];
    }
  }
}

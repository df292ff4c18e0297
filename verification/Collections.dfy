// Collections of content-identified references: canonical order, and the merge by identity.
//
// An identity is a SHA-256 digest of the content. It is a number here, because the source orders
// identities by their fixed-width hexadecimal text, which is the order of those numbers.

module Collections {
  import opened Wrappers

  datatype Item<T> = Item(identity: nat, content: T)

  // The items of a collection carry the digests of their contents.
  ghost predicate Identified<T(!new)>(digest: T -> nat, items: seq<Item<T>>) {
    forall i | 0 <= i < |items| :: items[i].identity == digest(items[i].content)
  }

  ghost predicate CollisionFree<T(!new)>(digest: T -> nat) {
    forall a, b :: digest(a) == digest(b) ==> a == b
  }

  // Sorted by identity without duplicates.
  predicate Canonical<T>(items: seq<Item<T>>) {
    forall i, j | 0 <= i < j < |items| :: items[i].identity < items[j].identity
  }

  predicate Distinct<T>(items: seq<Item<T>>) {
    forall i, j | 0 <= i < j < |items| :: items[i].identity != items[j].identity
  }

  // ---------- sorting a set of identities ----------

  lemma {:induction false} HasGreatest(keys: set<nat>)
    requires keys != {}
    ensures exists g :: g in keys && forall k | k in keys :: k <= g
  {
    var g :| g in keys;
    var rest := keys - {g};
    assert forall k | k in keys :: k == g || k in rest;
    if rest != {} {
      HasGreatest(rest);
      var other :| other in rest && forall k | k in rest :: k <= other;
      assert g <= other || forall k | k in keys :: k <= g;
      assert other in keys;
    }
  }

  function Greatest(keys: set<nat>): (greatest: nat)
    requires keys != {}
    ensures greatest in keys && forall k | k in keys :: k <= greatest
  {
    HasGreatest(keys);
    var g :| g in keys && forall k | k in keys :: k <= g;
    g
  }

  function Sorted(keys: set<nat>): seq<nat>
    decreases |keys|
  {
    if keys == {} then [] else
      var g := Greatest(keys);
      Sorted(keys - {g}) + [g]
  }

  lemma {:induction false} SortedExact(keys: set<nat>)
    ensures |Sorted(keys)| == |keys|
    ensures forall k :: k in Sorted(keys) <==> k in keys
    ensures forall i, j | 0 <= i < j < |keys| :: Sorted(keys)[i] < Sorted(keys)[j]
    decreases |keys|
  {
    if keys != {} {
      var g := Greatest(keys);
      var before := Sorted(keys - {g});
      SortedExact(keys - {g});
      forall k ensures k in Sorted(keys) <==> k in keys {
        assert k in Sorted(keys) <==> k in before || k == g;
      }
      forall i, j | 0 <= i < j < |keys| ensures Sorted(keys)[i] < Sorted(keys)[j] {
        assert before[i] in before;
      }
    }
  }

  // ---------- merging ----------

  // The dictionary after the items were entered one by one; two contents under one identity raise.
  function Entered<T(==)>(items: seq<Item<T>>): Result<map<nat, Item<T>>> {
    if items == [] then Ok(map[])
    else
      var n := |items| - 1;
      var before :- Entered(items[..n]);
      var item := items[n];
      if item.identity in before && before[item.identity] != item then Raised
      else Ok(before[item.identity := item])
  }

  function Values<T>(byIdentity: map<nat, Item<T>>): (values: seq<Item<T>>)
    ensures |values| == |byIdentity.Keys|
  {
    var keys := Sorted(byIdentity.Keys);
    SortedExact(byIdentity.Keys);
    seq(|keys|, i requires 0 <= i < |keys| => assert keys[i] in keys; byIdentity[keys[i]])
  }

  function Merged<T(==)>(items: seq<Item<T>>): Result<seq<Item<T>>> {
    var byIdentity :- Entered(items);
    Ok(Values(byIdentity))
  }

  function Flattened<T>(collections: seq<seq<T>>): seq<T> {
    if collections == [] then []
    else Flattened(collections[..|collections| - 1]) + collections[|collections| - 1]
  }

  // The inner loop: the items of one collection, after those of the collections before it.
  method Enter<T(==)>(before: seq<Item<T>>, held: map<nat, Item<T>>, items: seq<Item<T>>)
    returns (entered: Result<map<nat, Item<T>>>)
    requires Entered(before) == Ok(held)
    ensures entered == Entered(before + items)
  {
    var byIdentity := held;
    assert before + items[..0] == before;
    for i := 0 to |items|
      invariant Entered(before + items[..i]) == Ok(byIdentity)
    {
      var item := items[i];
      var all := before + items[..i + 1];
      assert all[..|all| - 1] == before + items[..i] && all[|all| - 1] == item;
      if item.identity in byIdentity && byIdentity[item.identity] != item {
        RaisedForGood(all, before + items);
        return Raised;
      }
      byIdentity := byIdentity[item.identity := item];
    }
    assert items[..|items|] == items;
    return Ok(byIdentity);
  }

  // `_merge_artifacts` and `_merge_decisions`
  method Merge<T(==)>(collections: seq<seq<Item<T>>>) returns (merged: Result<seq<Item<T>>>)
    ensures merged == Merged(Flattened(collections))
  {
    var byIdentity: map<nat, Item<T>> := map[];
    for c := 0 to |collections|
      invariant Entered(Flattened(collections[..c])) == Ok(byIdentity)
    {
      assert collections[..c + 1][..c] == collections[..c];
      var entered := Enter(Flattened(collections[..c]), byIdentity, collections[c]);
      if entered.Raised? {
        FlattenedPrefix(collections, c + 1);
        RaisedForGood(Flattened(collections[..c + 1]), Flattened(collections));
        return Raised;
      }
      byIdentity := entered.value;
    }
    assert collections[..|collections|] == collections;
    return Ok(Values(byIdentity));
  }

  lemma {:induction false} RaisedForGood<T>(items: seq<Item<T>>, more: seq<Item<T>>)
    requires Entered(items).Raised? && |items| <= |more| && more[..|items|] == items
    ensures Entered(more).Raised?
    decreases |more|
  {
    if |items| < |more| {
      var n := |more| - 1;
      assert more[..n][..|items|] == items;
      RaisedForGood(items, more[..n]);
    } else {
      assert more == items;
    }
  }

  lemma {:induction false} FlattenedPrefix<T>(collections: seq<seq<T>>, c: nat)
    requires c <= |collections|
    ensures var part, all := Flattened(collections[..c]), Flattened(collections);
            |part| <= |all| && all[..|part|] == part
    decreases |collections|
  {
    if c == |collections| {
      assert collections[..c] == collections;
    } else {
      var n := |collections| - 1;
      assert collections[..n][..c] == collections[..c];
      FlattenedPrefix(collections[..n], c);
    }
  }

  // What the dictionary holds: the items, each under its identity.
  lemma {:induction false} EnteredHolds<T>(items: seq<Item<T>>)
    requires Entered(items).Ok?
    ensures forall i | 0 <= i < |items| ::
              items[i].identity in Entered(items).value && Entered(items).value[items[i].identity] == items[i]
    ensures forall k | k in Entered(items).value ::
              Entered(items).value[k].identity == k && Entered(items).value[k] in items
    decreases |items|
  {
    if items != [] {
      var n := |items| - 1;
      EnteredHolds(items[..n]);
      assert forall i | 0 <= i < n :: items[..n][i] == items[i];
    }
  }

  predicate NoCollision<T(==)>(items: seq<Item<T>>) {
    forall i, j | 0 <= i < |items| && 0 <= j < |items| && items[i].identity == items[j].identity :: items[i] == items[j]
  }

  lemma {:induction false} EnteredUnlessCollision<T>(items: seq<Item<T>>)
    ensures Entered(items).Ok? <==> NoCollision(items)
    decreases |items|
  {
    if items != [] {
      var n := |items| - 1;
      var last, before := items[n], items[..n];
      EnteredUnlessCollision(before);
      assert forall i | 0 <= i < n :: before[i] == items[i];
      if Entered(before).Ok? {
        EnteredHolds(before);
        var held := Entered(before).value;
        if last.identity in held && held[last.identity] != last {
          var i :| 0 <= i < n && before[i] == held[last.identity];
          assert items[i].identity == items[n].identity && items[i] != items[n];
        }
      }
    }
  }

  lemma ValuesHold<T>(held: map<nat, Item<T>>)
    requires forall k | k in held :: held[k].identity == k
    ensures Canonical(Values(held))
    ensures forall i | 0 <= i < |Values(held)| ::
              Values(held)[i].identity in held && held[Values(held)[i].identity] == Values(held)[i]
    ensures forall k | k in held :: held[k] in Values(held)
  {
    var keys, values := Sorted(held.Keys), Values(held);
    SortedExact(held.Keys);
    forall i | 0 <= i < |values| ensures values[i].identity == keys[i] && keys[i] in held { assert keys[i] in keys; }
    forall k | k in held ensures held[k] in values {
      assert k in keys;
      var i :| 0 <= i < |keys| && keys[i] == k;
      assert values[i] == held[k];
    }
  }

  // The merge fails only on a collision; otherwise it gives exactly the items, sorted and unique.
  lemma MergeExact<T>(items: seq<Item<T>>)
    ensures Merged(items).Ok? <==> NoCollision(items)
    ensures Merged(items).Ok? ==>
              var merged := Merged(items).value;
              Canonical(merged) && forall item :: item in merged <==> item in items
  {
    EnteredUnlessCollision(items);
    if Merged(items).Ok? {
      var held := Entered(items).value;
      EnteredHolds(items);
      ValuesHold(held);
      forall item | item in items ensures item in Merged(items).value { assert held[item.identity] == item; }
    }
  }

  // Content identities never collide, so the merge of identified collections never fails.
  lemma MergeNeverFails<T(!new)>(digest: T -> nat, items: seq<Item<T>>)
    requires CollisionFree(digest) && Identified(digest, items)
    ensures Merged(items).Ok?
    ensures Identified(digest, Merged(items).value)
  {
    MergeExact(items);
    forall i, j | 0 <= i < |items| && 0 <= j < |items| && items[i].identity == items[j].identity
      ensures items[i] == items[j]
    {
      assert digest(items[i].content) == digest(items[j].content);
    }
    var merged := Merged(items).value;
    assert Merged(items).Ok?;
    assert Canonical(merged);
    forall k | 0 <= k < |merged| ensures merged[k] in items { assert merged[k] in merged; }
    PartIsIdentified(digest, items, merged);
  }

  lemma PartIsIdentified<T(!new)>(digest: T -> nat, items: seq<Item<T>>, part: seq<Item<T>>)
    requires Identified(digest, items) && forall item | item in part :: item in items
    ensures Identified(digest, part)
  {
    forall i | 0 <= i < |part| ensures part[i].identity == digest(part[i].content) {
      assert part[i] in items;
    }
  }
}

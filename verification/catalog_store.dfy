/** The in-memory catalog of `load_trick_catalog`: a map from `compositeKey`
    to the catalog entry, built in one pass over the document's trick list. */
module CatalogStore {
  import opened Wrappers

  /** A catalog entry as the resolver reads it: the key, the `canonicalName`
      and the list of `otherNames`. */
  datatype Entry = Entry(compositeKey: string, canonicalName: string, otherNames: seq<string>)

  type Catalog = map<string, Entry>

  /** The index of the last entry whose key is `k`, or -1 when there is none:
      the reference definition of "later entries win". */
  function LastIndexOf(tricks: seq<Entry>, k: string): (r: int)
    ensures -1 <= r < |tricks|
    ensures r == -1 <==> forall i :: 0 <= i < |tricks| ==> tricks[i].compositeKey != k
    ensures r >= 0 ==> tricks[r].compositeKey == k
    ensures r >= 0 ==> forall j :: r < j < |tricks| ==> tricks[j].compositeKey != k
  {
    if |tricks| == 0 then -1
    else if tricks[|tricks| - 1].compositeKey == k then |tricks| - 1
    else LastIndexOf(tricks[..|tricks| - 1], k)
  }

  /** The keys that occur in the trick list. */
  function KeysOf(tricks: seq<Entry>): set<string> {
    set i | 0 <= i < |tricks| :: tricks[i].compositeKey
  }

  /** The dictionary comprehension `{ t["compositeKey"]: t for t in tricks }`:
      entries are inserted in list order, so a later entry replaces an
      earlier one with the same key. */
  function Load(tricks: seq<Entry>): (c: Catalog)
    ensures c.Keys == KeysOf(tricks)
    ensures forall k :: k in c ==> c[k] == tricks[LastIndexOf(tricks, k)]
  {
    if |tricks| == 0 then map[]
    else
      var init := tricks[..|tricks| - 1];
      var last := tricks[|tricks| - 1];
      KeysOfSnoc(init, last);
      assert init + [last] == tricks;
      Load(init)[last.compositeKey := last]
  }

  lemma KeysOfSnoc(init: seq<Entry>, last: Entry)
    ensures KeysOf(init + [last]) == KeysOf(init) + {last.compositeKey}
  {
    var tricks := init + [last];
    assert forall i :: 0 <= i < |init| ==> init[i] == tricks[i];
    assert tricks[|init|] == last;
  }

  /** The entry a lookup by `k` finds, if any. */
  function Lookup(c: Catalog, k: string): (r: Option<Entry>)
    ensures r.Some? <==> k in c
    ensures r.Some? ==> r.value == c[k]
  {
    if k in c then Some(c[k]) else None
  }

  /** A lookup in the loaded catalog finds exactly the last entry with that key,
      and misses exactly the keys that no entry carries. */
  lemma LoadLookup(tricks: seq<Entry>, k: string)
    ensures Lookup(Load(tricks), k).Some? <==> exists i :: 0 <= i < |tricks| && tricks[i].compositeKey == k
    ensures Lookup(Load(tricks), k).Some? ==>
      exists i :: 0 <= i < |tricks| && Lookup(Load(tricks), k).value == tricks[i]
                  && tricks[i].compositeKey == k
                  && forall j :: i < j < |tricks| ==> tricks[j].compositeKey != k
  {
    var i := LastIndexOf(tricks, k);
    if i >= 0 {
      assert tricks[i].compositeKey in KeysOf(tricks);
    }
  }

  /** Loading a concatenated list is loading each part and letting the
      second part's entries override the first's. */
  lemma {:induction false} LoadAppend(a: seq<Entry>, b: seq<Entry>)
    ensures Load(a + b) == Load(a) + Load(b)
    decreases |b|
  {
    if |b| == 0 {
      assert a + b == a;
    } else {
      var b', last := b[..|b| - 1], b[|b| - 1];
      assert (a + b)[..|a + b| - 1] == a + b';
      assert (a + b)[|a + b| - 1] == last;
      assert Load(a + b) == Load(a + b')[last.compositeKey := last];
      LoadAppend(a, b');
      UnionUpdate(Load(a), Load(b'), last.compositeKey, last);
    }
  }

  lemma UnionUpdate(m1: Catalog, m2: Catalog, k: string, v: Entry)
    ensures (m1 + m2)[k := v] == m1 + m2[k := v]
  {
  }

  /** An entry appended after a list always wins its key. */
  lemma LoadLastWins(tricks: seq<Entry>, e: Entry)
    ensures Load(tricks + [e])[e.compositeKey] == e
  {
    assert (tricks + [e])[..|tricks|] == tricks;
  }

  /** Without duplicate keys nothing is overwritten: one map entry per trick. */
  lemma {:induction false} LoadDistinctSize(tricks: seq<Entry>)
    requires forall i, j :: 0 <= i < j < |tricks| ==> tricks[i].compositeKey != tricks[j].compositeKey
    ensures |Load(tricks)| == |tricks|
  {
    if |tricks| > 0 {
      var init := tricks[..|tricks| - 1];
      var last := tricks[|tricks| - 1];
      LoadDistinctSize(init);
      assert last.compositeKey !in KeysOf(init) by {
        assert forall i :: 0 <= i < |init| ==> init[i].compositeKey == tricks[i].compositeKey;
      }
      assert Load(tricks) == Load(init)[last.compositeKey := last];
      assert last.compositeKey !in Load(init);
    }
  }
}

/** page/elements/indexed.py: the index an IndexedElement builds over its
    objects. The dict it builds is modelled with its insertion order,
    because objects() iterates it in that order. */
module IndexMaps {
  import opened Wrappers
  import opened Errors

  /** A dict from index to object: the keys in insertion order, and the
      key-to-object map. */
  datatype IndexTable<T> = IndexTable(order: seq<int>, entries: map<int, T>)

  /** The order lists every key of the map exactly once. */
  predicate Valid<T>(t: IndexTable<T>) {
    (forall i, j | 0 <= i < j < |t.order| :: t.order[i] != t.order[j]) &&
    (forall k | k in t.entries :: k in t.order) &&
    (forall i | 0 <= i < |t.order| :: t.order[i] in t.entries)
  }

  /** A table that satisfies Valid, as every constructed index does. */
  type ValidTable<T> = t: IndexTable<T> | Valid(t) witness IndexTable([], map[])

  /** Every object is stored under its own index. */
  predicate Keyed<T>(t: IndexTable<T>, key: T -> Option<int>) {
    forall k | k in t.entries :: key(t.entries[k]) == Some(k)
  }

  function Empty<T>(): IndexTable<T> {
    IndexTable([], map[])
  }

  /** index[k] = v: a new key goes last; an existing key keeps its place
      and gets the new object. */
  function Insert<T>(t: IndexTable<T>, k: int, v: T): (r: IndexTable<T>)
    ensures r.entries == t.entries[k := v]
    ensures r.order == if k in t.entries then t.order else t.order + [k]
    ensures Valid(t) ==> Valid(r)
  {
    if k in t.entries then IndexTable(t.order, t.entries[k := v])
    else IndexTable(t.order + [k], t.entries[k := v])
  }

  /** The loop of __build_index from the table built so far: each object
      goes in under its index, and the first object without one raises. */
  function IndexFrom<T>(acc: IndexTable<T>, objs: seq<T>, key: T -> Option<int>): (r: Parse<IndexTable<T>>)
    ensures r.Err? ==> r.error == MissingIndex
    ensures Valid(acc) && r.Ok? ==> Valid(r.value)
    ensures Keyed(acc, key) && r.Ok? ==> Keyed(r.value, key)
    decreases |objs|
  {
    if |objs| == 0 then Ok(acc)
    else
      match key(objs[0])
      case None => Err(MissingIndex)
      case Some(k) => IndexFrom(Insert(acc, k, objs[0]), objs[1..], key)
  }

  /** IndexedElement.__build_index(objects), from an empty dict. */
  function Indexing<T>(objs: seq<T>, key: T -> Option<int>): (r: Parse<IndexTable<T>>)
    ensures |objs| == 0 ==> r == Ok(Empty())
    ensures r.Err? ==> r.error == MissingIndex
    ensures r.Ok? ==> Valid(r.value) && Keyed(r.value, key)
  {
    IndexFrom(Empty(), objs, key)
  }

  /** __build_index as the source writes it: a loop inserting into the
      dict that raises on the first object without an index. */
  method BuildIndex<T>(objs: seq<T>, key: T -> Option<int>) returns (r: Parse<IndexTable<T>>)
    ensures r == Indexing(objs, key)
  {
    var table: IndexTable<T> := Empty();
    for i := 0 to |objs|
      invariant Indexing(objs, key) == IndexFrom(table, objs[i..], key)
    {
      assert objs[i..][0] == objs[i] && objs[i..][1..] == objs[i + 1..];
      var idx := key(objs[i]);
      if idx.None? {
        return Err(MissingIndex);
      }
      table := Insert(table, idx.value, objs[i]);
    }
    assert objs[|objs|..] == [];
    return Ok(table);
  }

  /** get_from_index(k): the stored object, or None; it never fails. */
  function Lookup<T>(t: IndexTable<T>, k: int): (r: Option<T>)
    ensures r.Some? <==> k in t.entries
    ensures r.Some? ==> r.value == t.entries[k]
  {
    if k in t.entries then Some(t.entries[k]) else None
  }

  /** objects(): the dict's values in key insertion order. */
  function Objects<T>(t: IndexTable<T>): (r: seq<T>)
    requires Valid(t)
    ensures |r| == |t.order|
    ensures forall i | 0 <= i < |r| :: t.order[i] in t.entries && r[i] == t.entries[t.order[i]]
  {
    seq(|t.order|, i requires 0 <= i < |t.order| => t.entries[t.order[i]])
  }

  lemma {:induction false} IndexFromFails<T>(acc: IndexTable<T>, objs: seq<T>, key: T -> Option<int>)
    ensures IndexFrom(acc, objs, key).Err? <==> exists i | 0 <= i < |objs| :: key(objs[i]).None?
    decreases |objs|
  {
    if |objs| > 0 && key(objs[0]).Some? {
      IndexFromFails(Insert(acc, key(objs[0]).value, objs[0]), objs[1..], key);
      assert forall i | 1 <= i < |objs| :: objs[i] == objs[1..][i - 1];
    }
  }

  /** Construction fails exactly when some object, wherever it is in the
      list, has no index; the error is the missing index. */
  lemma IndexingFails<T>(objs: seq<T>, key: T -> Option<int>)
    ensures Indexing(objs, key).Err? <==> exists i | 0 <= i < |objs| :: key(objs[i]).None?
    ensures Indexing(objs, key).Err? ==> Indexing(objs, key) == Err(MissingIndex)
  {
    IndexFromFails(Empty(), objs, key);
  }

  /** The object of the last position in objs with index k. */
  predicate IsLastWithIndex<T>(objs: seq<T>, key: T -> Option<int>, k: int, i: int) {
    0 <= i < |objs| && key(objs[i]) == Some(k) &&
    forall j | i < j < |objs| :: key(objs[j]) != Some(k)
  }

  lemma {:induction false} IndexFromLookup<T>(acc: IndexTable<T>, objs: seq<T>, key: T -> Option<int>, k: int)
    requires IndexFrom(acc, objs, key).Ok?
    ensures var t := IndexFrom(acc, objs, key).value;
      ((forall i | 0 <= i < |objs| :: key(objs[i]) != Some(k)) ==> Lookup(t, k) == Lookup(acc, k)) &&
      ((exists i | 0 <= i < |objs| :: key(objs[i]) == Some(k)) ==>
        exists i :: IsLastWithIndex(objs, key, k, i) && Lookup(t, k) == Some(objs[i]))
    decreases |objs|
  {
    if |objs| > 0 {
      var k0 := key(objs[0]).value;
      var acc' := Insert(acc, k0, objs[0]);
      var rest := objs[1..];
      IndexFromLookup(acc', rest, key, k);
      var t := IndexFrom(acc, objs, key).value;
      assert t == IndexFrom(acc', rest, key).value;
      assert forall i | 1 <= i < |objs| :: objs[i] == rest[i - 1];
      if exists i | 0 <= i < |rest| :: key(rest[i]) == Some(k) {
        var i :| IsLastWithIndex(rest, key, k, i) && Lookup(t, k) == Some(rest[i]);
        assert IsLastWithIndex(objs, key, k, i + 1);
      } else if k0 == k {
        assert IsLastWithIndex(objs, key, k, 0);
      }
    }
  }

  /** get_from_index(k) after construction is the last object whose index
      is k (a later duplicate overwrites an earlier one), and None exactly
      when no object has index k. */
  lemma IndexingLookup<T>(objs: seq<T>, key: T -> Option<int>, k: int)
    requires Indexing(objs, key).Ok?
    ensures var t := Indexing(objs, key).value;
      (Lookup(t, k).None? <==> forall i | 0 <= i < |objs| :: key(objs[i]) != Some(k)) &&
      (Lookup(t, k).Some? ==> exists i :: IsLastWithIndex(objs, key, k, i) && Lookup(t, k).value == objs[i])
  {
    IndexFromLookup(Empty(), objs, key, k);
  }

  /** After construction the key set is the set of the objects' indices. */
  lemma IndexingKeys<T>(objs: seq<T>, key: T -> Option<int>)
    requires Indexing(objs, key).Ok?
    ensures forall k :: k in Indexing(objs, key).value.entries <==> exists i | 0 <= i < |objs| :: key(objs[i]) == Some(k)
  {
    forall k ensures k in Indexing(objs, key).value.entries <==> exists i | 0 <= i < |objs| :: key(objs[i]) == Some(k) {
      IndexingLookup(objs, key, k);
    }
  }

  /** Every stored object is one of the objects the table was built from. */
  lemma IndexingValuesFromList<T>(objs: seq<T>, key: T -> Option<int>)
    requires Indexing(objs, key).Ok?
    ensures forall v | v in Objects(Indexing(objs, key).value) :: v in objs
  {
    var t := Indexing(objs, key).value;
    forall v | v in Objects(t) ensures v in objs {
      var i :| 0 <= i < |Objects(t)| && Objects(t)[i] == v;
      IndexingLookup(objs, key, t.order[i]);
    }
  }

  /** objects() yields exactly the stored values, one per distinct index. */
  lemma ObjectsAreStoredValues<T>(t: IndexTable<T>)
    requires Valid(t)
    ensures |Objects(t)| == |t.order|
    ensures forall v :: v in Objects(t) <==> exists k | k in t.entries :: t.entries[k] == v
  {
    forall v | v in Objects(t) ensures exists k | k in t.entries :: t.entries[k] == v {
      var i :| 0 <= i < |Objects(t)| && Objects(t)[i] == v;
      assert t.order[i] in t.entries;
    }
    forall v | exists k | k in t.entries :: t.entries[k] == v ensures v in Objects(t) {
      var k :| k in t.entries && t.entries[k] == v;
      var i :| 0 <= i < |t.order| && t.order[i] == k;
      assert Objects(t)[i] == v;
    }
  }

  /** The first n keys of t and their objects. */
  function Prefix<T>(t: IndexTable<T>, n: nat): (r: IndexTable<T>)
    requires Valid(t) && n <= |t.order|
    ensures Valid(r)
  {
    IndexTable(t.order[..n], map k | k in t.order[..n] :: t.entries[k])
  }

  lemma {:induction false} IndexFromObjects<T>(t: IndexTable<T>, key: T -> Option<int>, n: nat)
    requires Valid(t) && Keyed(t, key) && n <= |t.order|
    ensures IndexFrom(Prefix(t, n), Objects(t)[n..], key) == Ok(t)
    decreases |t.order| - n
  {
    var objs := Objects(t)[n..];
    if n == |t.order| {
      PrefixAll(t);
    } else {
      var k := t.order[n];
      assert objs[0] == t.entries[k] && key(objs[0]) == Some(k);
      InsertNext(t, n);
      assert objs[1..] == Objects(t)[n + 1..];
      IndexFromObjects(t, key, n + 1);
    }
  }

  lemma PrefixAll<T>(t: IndexTable<T>)
    requires Valid(t)
    ensures Prefix(t, |t.order|) == t
  {
    assert t.order[..|t.order|] == t.order;
    assert forall k :: k in Prefix(t, |t.order|).entries <==> k in t.entries;
    assert Prefix(t, |t.order|).entries == t.entries;
  }

  /** Inserting the next key of the order extends the prefix by one. */
  lemma InsertNext<T>(t: IndexTable<T>, n: nat)
    requires Valid(t) && n < |t.order|
    ensures Insert(Prefix(t, n), t.order[n], t.entries[t.order[n]]) == Prefix(t, n + 1)
  {
    var k := t.order[n];
    assert k !in t.order[..n];
    assert t.order[..n + 1] == t.order[..n] + [k];
    var a := Insert(Prefix(t, n), k, t.entries[k]);
    var b := Prefix(t, n + 1);
    assert a.order == b.order;
    assert forall j :: j in a.entries <==> j in b.entries;
    assert a.entries == b.entries;
  }

  /** Rebuilding the index from objects() gives back the same table when
      each object is stored under its own index. */
  lemma IndexingObjects<T>(t: IndexTable<T>, key: T -> Option<int>)
    requires Valid(t) && Keyed(t, key)
    ensures Indexing(Objects(t), key) == Ok(t)
  {
    IndexFromObjects(t, key, 0);
    assert Prefix(t, 0) == Empty();
    assert Objects(t)[0..] == Objects(t);
  }

  /** Repeating the first object in front changes nothing: it is inserted
      twice under the same index. */
  lemma IndexingRepeatFirst<T>(objs: seq<T>, key: T -> Option<int>)
    requires |objs| >= 1 && key(objs[0]).Some?
    ensures Indexing([objs[0]] + objs, key) == Indexing(objs, key)
  {
    var x := objs[0];
    var t1: IndexTable<T> := Insert(Empty(), key(x).value, x);
    assert ([x] + objs)[1..] == objs;
    assert Indexing([x] + objs, key) == IndexFrom(t1, objs, key);
    assert Insert(t1, key(x).value, x) == t1;
    assert IndexFrom(t1, objs, key) == IndexFrom(t1, objs[1..], key);
  }
}

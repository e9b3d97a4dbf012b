/**
 * The tag's attribute map (`wicket.util.value.ValueMap`), of which only the
 * behaviour the tag relies on is modelled: an insertion-ordered mapping from
 * attribute names to string values that can be frozen, after which writes
 * fail.
 */
module ValueMaps {
  import opened Wrappers
  import opened JavaLang

  datatype Entry = Entry(key: string, value: string)

  /** The attribute names in map order. */
  function Keys(es: seq<Entry>): (ks: seq<string>)
    ensures |ks| == |es|
    ensures forall i :: 0 <= i < |es| ==> ks[i] == es[i].key
  {
    if es == [] then [] else [es[0].key] + Keys(es[1..])
  }

  /** No attribute name occurs twice. */
  predicate UniqueKeys(es: seq<Entry>) {
    forall i, j :: 0 <= i < j < |es| ==> es[i].key != es[j].key
  }

  /** The value stored under `k` (`getString`), if any. */
  function Lookup(es: seq<Entry>, k: string): (r: Option<string>)
    ensures r.Some? ==> Entry(k, r.value) in es
    ensures r.None? ==> forall e :: e in es ==> e.key != k
  {
    if es == [] then None
    else if es[0].key == k then Some(es[0].value)
    else Lookup(es[1..], k)
  }

  /** `put(k, v)`: replaces the value of an existing key in place, otherwise appends the key. */
  function Insert(es: seq<Entry>, k: string, v: string): (r: seq<Entry>)
    ensures Entry(k, v) in r
    ensures forall e :: e in es && e.key != k ==> e in r
    ensures |r| == |es| || |r| == |es| + 1
  {
    if es == [] then [Entry(k, v)]
    else if es[0].key == k then [Entry(k, v)] + es[1..]
    else [es[0]] + Insert(es[1..], k, v)
  }

  /** `remove(k)`: drops the entry for `k`, keeping the order of the others. */
  function Delete(es: seq<Entry>, k: string): (r: seq<Entry>)
    ensures |r| <= |es|
    ensures forall e :: e in r ==> e.key != k
  {
    if es == [] then []
    else if es[0].key == k then Delete(es[1..], k)
    else [es[0]] + Delete(es[1..], k)
  }

  /** A key is present exactly when it is one of the map's names. */
  lemma {:induction false} LookupPresent(es: seq<Entry>, k: string)
    ensures Lookup(es, k).Some? <==> k in Keys(es)
  {
    if es != [] {
      LookupPresent(es[1..], k);
      assert Keys(es) == [es[0].key] + Keys(es[1..]);
    }
  }

  /** After `put(k, v)` the key `k` reads `v` and every other key reads as before. */
  lemma {:induction false} LookupInsert(es: seq<Entry>, k: string, v: string, q: string)
    ensures Lookup(Insert(es, k, v), q) == if q == k then Some(v) else Lookup(es, q)
  {
    if es != [] && es[0].key != k {
      LookupInsert(es[1..], k, v, q);
    }
  }

  /** `put` keeps the order of the existing names and appends only a new one. */
  lemma {:induction false} KeysInsert(es: seq<Entry>, k: string, v: string)
    ensures Keys(Insert(es, k, v)) == if k in Keys(es) then Keys(es) else Keys(es) + [k]
  {
    if es != [] {
      assert Keys(es) == [es[0].key] + Keys(es[1..]);
      if es[0].key != k {
        KeysInsert(es[1..], k, v);
        assert Insert(es, k, v) == [es[0]] + Insert(es[1..], k, v);
        assert Keys(Insert(es, k, v)) == [es[0].key] + Keys(Insert(es[1..], k, v));
      } else {
        assert Keys(Insert(es, k, v)) == [k] + Keys(es[1..]);
      }
    }
  }

  /** Distinct names stay distinct under `put`, and the size grows by one exactly for a new key. */
  lemma InsertUnique(es: seq<Entry>, k: string, v: string)
    requires UniqueKeys(es)
    ensures UniqueKeys(Insert(es, k, v))
    ensures |Insert(es, k, v)| == if Lookup(es, k).Some? then |es| else |es| + 1
  {
    KeysInsert(es, k, v);
    LookupPresent(es, k);
    var after := Insert(es, k, v);
    var ks := Keys(after);
    if k in Keys(es) {
      assert ks == Keys(es);
    } else {
      assert ks == Keys(es) + [k];
      forall i, j | 0 <= i < j < |after| ensures after[i].key != after[j].key {
        assert ks[i] == after[i].key && ks[j] == after[j].key;
        if j < |es| {
          assert ks[i] == es[i].key && ks[j] == es[j].key;
        } else {
          assert ks[i] == Keys(es)[i];
        }
      }
    }
  }

  /** After `remove(k)` the key `k` is absent and every other key reads as before. */
  lemma {:induction false} LookupDelete(es: seq<Entry>, k: string, q: string)
    ensures Lookup(Delete(es, k), q) == if q == k then None else Lookup(es, q)
  {
    if es != [] {
      LookupDelete(es[1..], k, q);
    }
  }

  /** The names `ks` without `k`, in their order. */
  function Without(ks: seq<string>, k: string): seq<string> {
    if ks == [] then []
    else if ks[0] == k then Without(ks[1..], k)
    else [ks[0]] + Without(ks[1..], k)
  }

  /**
   * `remove(k)` drops exactly the entries for `k`: every other entry survives,
   * and the remaining names keep their order.
   */
  lemma {:induction false} DeleteSubsequence(es: seq<Entry>, k: string)
    ensures forall e :: e in Delete(es, k) <==> e in es && e.key != k
    ensures Keys(Delete(es, k)) == Without(Keys(es), k)
  {
    if es != [] {
      DeleteSubsequence(es[1..], k);
      var ks := Keys(es);
      assert ks[0] == es[0].key && ks[1..] == Keys(es[1..]);
      if es[0].key != k {
        assert Keys(Delete(es, k)) == [es[0].key] + Keys(Delete(es[1..], k));
      }
    }
  }

  /** Under distinct names `remove` shrinks the map by one exactly when the key was present. */
  lemma {:induction false} DeleteUnique(es: seq<Entry>, k: string)
    requires UniqueKeys(es)
    ensures UniqueKeys(Delete(es, k))
    ensures |Delete(es, k)| == if Lookup(es, k).Some? then |es| - 1 else |es|
  {
    if es != [] {
      var rest := es[1..];
      assert UniqueKeys(rest);
      DeleteUnique(rest, k);
      DeleteSubsequence(rest, k);
      if es[0].key != k {
        var d := Delete(rest, k);
        assert Delete(es, k) == [es[0]] + d;
        forall e | e in d ensures e.key != es[0].key {
          var j :| 0 <= j < |rest| && rest[j] == e;
          assert es[j + 1] == e;
        }
      } else {
        LookupPresent(rest, k);
      }
    }
  }

  /** The message a write to a frozen map fails with. */
  const ImmutableMapMessage := "Map is immutable"

  /** `wicket.util.value.ValueMap`: an attribute map with a one-way freeze. */
  class ValueMap {
    var entries: seq<Entry>
    var frozen: bool

    ghost predicate Valid()
      reads this
    {
      UniqueKeys(entries)
    }

    /** `new ValueMap()`: empty and writable. */
    constructor ()
      ensures Valid() && entries == [] && !frozen
    {
      entries := [];
      frozen := false;
    }

    /** `new ValueMap(map)`: a separate, writable map with the same contents. */
    constructor CopyOf(other: ValueMap)
      requires other.Valid()
      ensures Valid() && entries == other.entries && !frozen
    {
      entries := other.entries;
      frozen := false;
    }

    /** `size()`: the number of attributes. */
    function Size(): nat
      reads this
    {
      |entries|
    }

    /** `getString(key)`. */
    function GetString(key: string): Option<string>
      reads this
    {
      Lookup(entries, key)
    }

    /** `makeImmutable()`: from now on writes fail. */
    method MakeImmutable()
      requires Valid()
      modifies this
      ensures Valid() && frozen && entries == old(entries)
    {
      frozen := true;
    }

    /** `put(key, value)`: fails on a frozen map and changes nothing there. */
    method Put(key: string, value: string) returns (outcome: Outcome)
      requires Valid()
      modifies this
      ensures Valid() && frozen == old(frozen)
      ensures outcome == if old(frozen) then Threw(UnsupportedOperation(ImmutableMapMessage)) else Completed
      ensures entries == if old(frozen) then old(entries) else Insert(old(entries), key, value)
    {
      if frozen {
        return Threw(UnsupportedOperation(ImmutableMapMessage));
      }
      InsertUnique(entries, key, value);
      entries := Insert(entries, key, value);
      outcome := Completed;
    }

    /** `remove(key)`: fails on a frozen map and changes nothing there. */
    method Remove(key: string) returns (outcome: Outcome)
      requires Valid()
      modifies this
      ensures Valid() && frozen == old(frozen)
      ensures outcome == if old(frozen) then Threw(UnsupportedOperation(ImmutableMapMessage)) else Completed
      ensures entries == if old(frozen) then old(entries) else Delete(old(entries), key)
    {
      if frozen {
        return Threw(UnsupportedOperation(ImmutableMapMessage));
      }
      DeleteUnique(entries, key);
      entries := Delete(entries, key);
      outcome := Completed;
    }
  }
}

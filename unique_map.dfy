/** Unique_map: a map from uid to values that each carry a Unique, keyed by the value's
    own uid. */
module UniqueMaps {
  import opened Wrappers

  const ACCESS_MESSAGE: string := "Unique_map::operator[]: Element does not exist"

  /** std::map::emplace: a key already present keeps its entry. */
  function Emplaced<T>(m: map<nat, T>, k: nat, v: T): (r: map<nat, T>)
  {
    if k in m then m else m[k := v]
  }

  class UniqueMap<T> {
    var entries: map<nat, T>
    /** get_uid of a stored value. */
    const uid: T -> nat

    constructor (uid: T -> nat)
      ensures entries == map[] && this.uid == uid
    {
      entries := map[];
      this.uid := uid;
    }

    /** emplace: stores the value under its uid, unless that uid already has an entry. */
    method Emplace(value: T)
      modifies this
      ensures entries == Emplaced(old(entries), uid(value), value)
    {
      if uid(value) !in entries {
        entries := entries[uid(value) := value];
      }
    }

    /** insert (reference_wrapper and shared_ptr versions): stores the value under its uid,
        replacing any entry. */
    method Insert(value: T)
      modifies this
      ensures entries == old(entries)[uid(value) := value]
    {
      entries := entries[uid(value) := value];
    }

    method Clear()
      modifies this
      ensures entries == map[]
    {
      entries := map[];
    }

    method Swap(other: UniqueMap<T>)
      modifies this, other
      ensures entries == old(other.entries) && other.entries == old(entries)
    {
      entries, other.entries := other.entries, entries;
    }

    /** operator[]: the entry for the key, or out_of_range when there is none. */
    method Get(key: nat) returns (r: Result<T>)
      ensures key in entries ==> r == Success(entries[key])
      ensures key !in entries ==> r == Failure(OutOfRange(ACCESS_MESSAGE))
    {
      if key !in entries {
        return Failure(OutOfRange(ACCESS_MESSAGE));
      }
      return Success(entries[key]);
    }

    /** has_key: a scan over the entries. */
    method HasKey(key: nat) returns (r: bool)
      ensures r <==> key in entries
    {
      var rest := entries.Keys;
      while rest != {}
        invariant rest <= entries.Keys
        invariant key in entries ==> key in rest
        decreases |rest|
      {
        var k :| k in rest;
        if k == key {
          return true;
        }
        rest := rest - {k};
      }
      return false;
    }

    function Size(): nat
      reads this
    {
      |entries|
    }

    /** erase: removes the entry for the key, if any. */
    method Erase(key: nat)
      modifies this
      ensures entries == old(entries) - {key}
    {
      entries := entries - {key};
    }
  }

  /** Emplacing adds an entry exactly when the key was absent and never replaces one;
      erasing the key afterwards gives back a map that lacked it. */
  lemma EmplaceNeverReplaces<T>(m: map<nat, T>, k: nat, v: T)
    ensures k in Emplaced(m, k, v)
    ensures k in m ==> Emplaced(m, k, v) == m
    ensures k !in m ==> Emplaced(m, k, v)[k] == v && |Emplaced(m, k, v)| == |m| + 1
    ensures k !in m ==> Emplaced(m, k, v) - {k} == m
    ensures forall j :: j != k ==> (j in Emplaced(m, k, v) <==> j in m)
  {
    if k !in m {
      assert Emplaced(m, k, v).Keys == m.Keys + {k};
    }
  }

  /** Erasing removes exactly one entry when the key is there and nothing otherwise. */
  lemma EraseRemovesOnlyIt<T>(m: map<nat, T>, k: nat)
    ensures k !in m - {k}
    ensures forall j :: j != k && j in m ==> j in m - {k} && (m - {k})[j] == m[j]
    ensures |m - {k}| == if k in m then |m| - 1 else |m|
  {
    if k in m {
      assert m.Keys == (m - {k}).Keys + {k};
    } else {
      assert m - {k} == m;
    }
  }
}

/**
 * The ordered collection primitive the store is built on (a gkvlite collection):
 * a byte-keyed map kept in `bytes.Compare` order, whose writes may fail, and its
 * ascending traversal with early stop.
 */
module Collections {
  import opened ByteOrder
  import opened Items

  class Collection {
    var entries: map<Bytes, Bytes>

    constructor ()
      ensures entries == map[]
    {
      entries := map[];
    }

    /** Stores `val` under `key`; on error (the collection layer could not load or write its nodes) nothing changes. */
    method Set(key: Bytes, val: Bytes) returns (err: Option<Error>)
      modifies this
      ensures err.None? ==> entries == old(entries)[key := val]
      ensures err.Some? ==> entries == old(entries) && err == Some(CollectionError)
    {
      var failed: bool := *;
      if failed {
        err := Some(CollectionError);
      } else {
        entries := entries[key := val];
        err := None;
      }
    }

    /** Removes `key` if present; on error nothing changes. */
    method Delete(key: Bytes) returns (err: Option<Error>)
      modifies this
      ensures err.None? ==> entries == old(entries) - {key}
      ensures err.Some? ==> entries == old(entries) && err == Some(CollectionError)
    {
      var failed: bool := *;
      if failed {
        err := Some(CollectionError);
      } else {
        entries := entries - {key};
        err := None;
      }
    }

    /** `MinItem`: the smallest key, or none when the collection is empty. */
    method MinKey() returns (k: Option<Bytes>)
      ensures k.None? <==> entries == map[]
      ensures k.Some? ==> IsLeast(k.value, entries.Keys)
    {
      if entries == map[] {
        k := None;
      } else {
        assert entries.Keys != {} by {
          var x :| x in entries;
        }
        LeastExists(entries.Keys);
        var m :| IsLeast(m, entries.Keys);
        k := Some(m);
      }
    }
  }

  /** The keys of `ks` not below `start`, in their order in `ks`. */
  function DropBelow(ks: seq<Bytes>, start: Bytes): (r: seq<Bytes>)
    ensures forall k :: k in r <==> k in ks && !Less(k, start)
  {
    if ks == [] then []
    else (if Less(ks[0], start) then [] else [ks[0]]) + DropBelow(ks[1..], start)
  }

  lemma {:induction false} DropBelowAscending(ks: seq<Bytes>, start: Bytes)
    requires StrictlyAscending(ks)
    ensures StrictlyAscending(DropBelow(ks, start))
  {
    if ks != [] {
      assert StrictlyAscending(ks[1..]);
      DropBelowAscending(ks[1..], start);
      var rest := DropBelow(ks[1..], start);
      forall j | 0 <= j < |rest| ensures Less(ks[0], rest[j]) {
        assert rest[j] in ks[1..];
      }
    }
  }

  /** A bound that no key lies below drops nothing. */
  lemma {:induction false} DropBelowNothing(ks: seq<Bytes>, start: Bytes)
    requires forall k :: k in ks ==> !Less(k, start)
    ensures DropBelow(ks, start) == ks
  {
    if ks != [] {
      assert forall k :: k in ks[1..] ==> k in ks;
      DropBelowNothing(ks[1..], start);
      assert ks == [ks[0]] + ks[1..];
    }
  }

  /** The keys of `m` not below `start`, in ascending order. */
  ghost function KeysFrom(m: map<Bytes, Bytes>, start: Bytes): (ks: seq<Bytes>)
    ensures StrictlyAscending(ks)
    ensures forall k :: k in ks <==> k in m && !Less(k, start)
  {
    var all := Ascending(m.Keys);
    DropBelowAscending(all, start);
    DropBelow(all, start)
  }

  /**
   * The keys a visitor is called on when walking `ks`: every key up to and
   * including the first one on which it answers false.
   */
  function TakeVisited(ks: seq<Bytes>, m: map<Bytes, Bytes>, v: (Bytes, Bytes) -> bool): (r: seq<Bytes>)
    requires forall k :: k in ks ==> k in m
    ensures |r| <= |ks| && r == ks[..|r|]
    ensures forall i :: 0 <= i < |r| - 1 ==> v(r[i], m[r[i]])
    ensures |r| < |ks| ==> |r| > 0 && !v(r[|r| - 1], m[r[|r| - 1]])
    ensures |ks| > 0 ==> |r| > 0
  {
    if ks == [] then []
    else if v(ks[0], m[ks[0]]) then [ks[0]] + TakeVisited(ks[1..], m, v)
    else [ks[0]]
  }

  /** `VisitItemsAscend(start, v)`: visits the entries with key >= start in ascending order until `v` answers false. */
  ghost function VisitAscend(m: map<Bytes, Bytes>, start: Bytes, v: (Bytes, Bytes) -> bool): (r: seq<Bytes>)
    ensures StrictlyAscending(r)
    ensures forall k :: k in r ==> k in m && !Less(k, start)
    ensures |r| <= |KeysFrom(m, start)| && r == KeysFrom(m, start)[..|r|]
    ensures forall i :: 0 <= i < |r| - 1 ==> v(r[i], m[r[i]])
    ensures |r| < |KeysFrom(m, start)| ==> |r| > 0 && !v(r[|r| - 1], m[r[|r| - 1]])
    ensures |KeysFrom(m, start)| > 0 ==> |r| > 0
  {
    var ks := KeysFrom(m, start);
    VisitedPrefix(ks, m, start, v);
    TakeVisited(ks, m, v)
  }

  /** Walking a strictly ascending listing of keys not below `start` visits a strictly ascending prefix of it. */
  lemma VisitedPrefix(ks: seq<Bytes>, m: map<Bytes, Bytes>, start: Bytes, v: (Bytes, Bytes) -> bool)
    requires StrictlyAscending(ks)
    requires forall k :: k in ks ==> k in m && !Less(k, start)
    ensures StrictlyAscending(TakeVisited(ks, m, v))
    ensures forall k :: k in TakeVisited(ks, m, v) ==> k in m && !Less(k, start)
  {
    var r := TakeVisited(ks, m, v);
    forall i, j | 0 <= i < j < |r| ensures Less(r[i], r[j]) {
      assert r[i] == ks[i] && r[j] == ks[j];
    }
    forall k | k in r ensures k in ks {
      var i :| 0 <= i < |r| && r[i] == k;
      assert ks[i] == k;
    }
  }
}

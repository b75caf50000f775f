/**
 * The bucket store engine: per partition, an items collection (key -> cas bytes)
 * and a changes collection (cas bytes -> serialised item, empty for a deletion),
 * a dirtiness counter driving flushes, and I/O counters.
 *
 * Each operation is one sequential step: the engine runs every mutation and
 * every flush inside its single service loop.
 */
module BucketStore {
  import opened ByteOrder
  import opened Items
  import opened Collections
  import StoreStats

  /** What `getItem` returns: an item, nothing (not found), or an error. */
  datatype GetResult = Hit(item: Item) | Miss | Fail(err: Error)

  /** The receiver `&item{key: key}` that a looked-up payload is decoded into. */
  function KeyedItem(key: Bytes): Item {
    EmptyItem.(key := key)
  }

  /**
   * `getItem` over the two maps: key -> cas bytes in the items map, then
   * cas bytes -> payload in the changes map, then decode.
   */
  function Lookup(im: map<Bytes, Bytes>, cm: map<Bytes, Bytes>, key: Bytes, codec: Codec): (r: GetResult)
    ensures key !in im ==> r == Miss
    ensures key in im && im[key] !in cm ==> r == Miss
    ensures key in im && im[key] in cm ==> !r.Miss?
    ensures r.Hit? ==> key in im && im[key] in cm
                       && codec.fromValueBytes(KeyedItem(key), cm[im[key]]) == Some(r.item)
    ensures r.Fail? ==> r.err == DecodeError && key in im && im[key] in cm
                        && codec.fromValueBytes(KeyedItem(key), cm[im[key]]) == None
    ensures r.Hit? && KeepsKey(codec) ==> r.item.key == key
  {
    if key !in im then Miss
    else if im[key] !in cm then Miss
    else match codec.fromValueBytes(KeyedItem(key), cm[im[key]])
      case None => Fail(DecodeError)
      case Some(i) => Hit(i)
  }

  /** What a successful decode of `payload` for `key` yields through `getItem`. */
  function Decoded(key: Bytes, payload: Bytes, codec: Codec): GetResult {
    match codec.fromValueBytes(KeyedItem(key), payload)
    case None => Fail(DecodeError)
    case Some(i) => Hit(i)
  }

  /** Every key in the index points at an entry of the change log. */
  ghost predicate IndexConsistent(im: map<Bytes, Bytes>, cm: map<Bytes, Bytes>) {
    forall k :: k in im ==> im[k] in cm
  }

  /** A `set` of `item` followed by a `get` of its key yields the payload just written. */
  lemma LookupAfterSet(im: map<Bytes, Bytes>, cm: map<Bytes, Bytes>, item: Item, codec: Codec)
    requires |item.key| > 0
    ensures var cb := codec.casBytes(item.cas);
            var vb := codec.toValueBytes(item);
            Lookup(im[item.key := cb], cm[cb := vb], item.key, codec) == Decoded(item.key, vb, codec)
  {
  }

  /** After a `del` of `key`, a `get` of `key` finds nothing and reports no error. */
  lemma LookupAfterDel(im: map<Bytes, Bytes>, cm: map<Bytes, Bytes>, key: Bytes, cas: U64, codec: Codec)
    requires |key| > 0
    ensures Lookup(im - {key}, cm[codec.casBytes(cas) := []], key, codec) == Miss
  {
  }

  /**
   * A `set` of one key leaves every other key's lookup as it was, as long as
   * no other key already refers to the new cas.
   */
  lemma LookupOtherKeyAfterSet(im: map<Bytes, Bytes>, cm: map<Bytes, Bytes>, item: Item, other: Bytes, codec: Codec)
    requires other != item.key
    requires other in im ==> im[other] != codec.casBytes(item.cas)
    ensures var cb := codec.casBytes(item.cas);
            var im' := if |item.key| > 0 then im[item.key := cb] else im;
            Lookup(im', cm[cb := codec.toValueBytes(item)], other, codec) == Lookup(im, cm, other, codec)
  {
  }

  /** With a consistent index, `get` misses exactly on the keys that are not indexed. */
  lemma ConsistentMissIffAbsent(im: map<Bytes, Bytes>, cm: map<Bytes, Bytes>, key: Bytes, codec: Codec)
    requires IndexConsistent(im, cm)
    ensures Lookup(im, cm, key, codec) == Miss <==> key !in im
  {
    if key in im {
      assert im[key] in cm;
    }
  }

  predicate IsDigit(c: char) {
    '0' <= c <= '9'
  }

  /** The number a string of decimal digits denotes. */
  function DigitsValue(s: string): nat
    requires forall i :: 0 <= i < |s| ==> IsDigit(s[i])
  {
    if s == [] then 0
    else
      assert IsDigit(s[|s| - 1]);
      10 * DigitsValue(s[..|s| - 1]) + (s[|s| - 1] as int - '0' as int)
  }

  /** `fmt.Sprintf("%v", n)` for a natural number: the decimal digits of `n`, without leading zeros. */
  function Decimal(n: nat): (s: string)
    ensures |s| > 0
    ensures forall i :: 0 <= i < |s| ==> IsDigit(s[i])
    ensures DigitsValue(s) == n
    ensures |s| > 1 ==> s[0] != '0'
    decreases n
  {
    var digit := ['0' + (n % 10) as char];
    if n < 10 then digit
    else
      var s := Decimal(n / 10) + digit;
      assert s[..|s| - 1] == Decimal(n / 10);
      s
  }

  /** The name of partition `vbid`'s collection with the given suffix. */
  function CollName(vbid: U16, suffix: string): string {
    Decimal(vbid) + suffix
  }

  lemma CollNamesDiffer(vbid: U16, s1: string, s2: string)
    requires s1 != s2
    ensures CollName(vbid, s1) != CollName(vbid, s2)
  {
    var d := Decimal(vbid);
    assert (d + s1)[|d|..] == s1;
    assert (d + s2)[|d|..] == s2;
  }

  /** The number of decimal digits `s` starts with. */
  function LeadingDigits(s: string): (n: nat)
    ensures n <= |s|
  {
    if s == [] || !IsDigit(s[0]) then 0 else 1 + LeadingDigits(s[1..])
  }

  lemma {:induction false} LeadingDigitsOf(d: string, t: string)
    requires forall i :: 0 <= i < |d| ==> IsDigit(d[i])
    requires |t| > 0 ==> !IsDigit(t[0])
    ensures LeadingDigits(d + t) == |d|
  {
    if d == [] {
      assert d + t == t;
    } else {
      assert (d + t)[1..] == d[1..] + t;
      LeadingDigitsOf(d[1..], t);
    }
  }

  /**
   * Distinct partitions, or distinct suffixes, give distinct collection names,
   * as long as no suffix starts with a digit.
   */
  lemma CollNameInjective(a: U16, b: U16, s1: string, s2: string)
    requires |s1| > 0 ==> !IsDigit(s1[0])
    requires |s2| > 0 ==> !IsDigit(s2[0])
    requires CollName(a, s1) == CollName(b, s2)
    ensures a == b && s1 == s2
  {
    var d1, d2 := Decimal(a), Decimal(b);
    var name := CollName(a, s1);
    LeadingDigitsOf(d1, s1);
    LeadingDigitsOf(d2, s2);
    assert d1 == name[..|d1|] == d2;
    assert s1 == name[|d1|..] == s2;
  }

  /** Whether `k` lies in `[lo, hi)`, an empty bound meaning no bound. */
  predicate InRange(k: Bytes, lo: Bytes, hi: Bytes) {
    && (|lo| == 0 || !Less(k, lo))
    && (|hi| == 0 || Less(k, hi))
  }

  /**
   * The entries of `src` a range copy from `minKey` writes into the destination:
   * the in-range keys at or above `minKey`, and, when the destination's write
   * failed at key `stop`, only those below `stop`.
   */
  function CopiedPart(src: map<Bytes, Bytes>, minKey: Bytes, lo: Bytes, hi: Bytes, stop: Option<Bytes>): map<Bytes, Bytes> {
    map k | k in src && !Less(k, minKey) && InRange(k, lo, hi) && (stop.None? || Less(k, stop.value)) :: src[k]
  }

  /** The head of an ascending listing of a set is the set's least element. */
  lemma AscendingHeadIsLeast(ks: seq<Bytes>, s: set<Bytes>)
    requires StrictlyAscending(ks) && |ks| > 0
    requires forall k :: k in ks <==> k in s
    ensures IsLeast(ks[0], s)
  {
    forall x | x in s ensures !Less(x, ks[0]) {
      var j :| 0 <= j < |ks| && ks[j] == x;
      if j > 0 {
        LessTotal(ks[0], x);
      }
    }
  }

  /** Starting from the least key lists the same keys as starting from the empty key. */
  lemma KeysFromLeast(m: map<Bytes, Bytes>, least: Bytes)
    requires IsLeast(least, m.Keys)
    ensures KeysFrom(m, least) == KeysFrom(m, [])
  {
    var all := Ascending(m.Keys);
    forall x | x in all ensures !Less(x, []) && !Less(x, least) {
      EmptyIsBottom(x);
    }
    DropBelowNothing(all, least);
    DropBelowNothing(all, []);
  }

  /** The keys a traversal handed to its callback, the items it delivered to the visitor, and its error. */
  datatype VisitTrace = VisitTrace(rows: seq<Bytes>, delivered: seq<Item>, err: Option<Error>)

  /** The item an index row leads to: none when its change is missing or does not decode. */
  function RowItem(cm: map<Bytes, Bytes>, codec: Codec, key: Bytes, cb: Bytes): Option<Item> {
    if cb !in cm then None else codec.fromValueBytes(KeyedItem(key), cm[cb])
  }

  /**
   * The callback `visitItems` hands to `visit` for one index row: a row whose
   * change is missing is skipped, a change that does not decode stops the walk
   * (the error is dropped), otherwise the visitor decides.
   */
  function RowContinues(cm: map<Bytes, Bytes>, codec: Codec, visitor: Item -> bool, key: Bytes, cb: Bytes): bool {
    if cb !in cm then true
    else match codec.fromValueBytes(KeyedItem(key), cm[cb])
      case None => false
      case Some(i) => visitor(i)
  }

  /** The callback `visitItems` hands to `visit`. */
  function RowCallback(cm: map<Bytes, Bytes>, codec: Codec, visitor: Item -> bool): (f: (Bytes, Bytes) -> bool)
  {
    (k, cb) => RowContinues(cm, codec, visitor, k, cb)
  }

  /** The items delivered to the visitor while walking the index rows `rows`. */
  function RowItems(rows: seq<Bytes>, im: map<Bytes, Bytes>, cm: map<Bytes, Bytes>, codec: Codec): (r: seq<Item>)
    requires forall k :: k in rows ==> k in im
    ensures |r| <= |rows|
    ensures (forall j :: 0 <= j < |rows| ==> RowItem(cm, codec, rows[j], im[rows[j]]).Some?) ==>
              |r| == |rows| && forall j :: 0 <= j < |rows| ==> Some(r[j]) == RowItem(cm, codec, rows[j], im[rows[j]])
    ensures KeepsKey(codec) ==> forall i :: i in r ==> i.key in rows
  {
    if rows == [] then []
    else
      var here := match RowItem(cm, codec, rows[0], im[rows[0]]) case Some(i) => [i] case None => [];
      var rest := RowItems(rows[1..], im, cm, codec);
      assert forall k :: k in rows[1..] ==> k in rows;
      here + rest
  }

  /** The callback `visitChanges` hands to `visit`: a payload that does not decode stops the walk. */
  function ChangeContinues(codec: Codec, visitor: Item -> bool, key: Bytes, payload: Bytes): bool {
    match codec.fromValueBytes(EmptyItem, payload)
    case None => false
    case Some(i) => visitor(i)
  }

  /** The items delivered to the visitor while walking the change-log rows `rows`. */
  function ChangeItems(rows: seq<Bytes>, cm: map<Bytes, Bytes>, codec: Codec): (r: seq<Item>)
    requires forall k :: k in rows ==> k in cm
    ensures |r| <= |rows|
  {
    if rows == [] then []
    else
      var here := match codec.fromValueBytes(EmptyItem, cm[rows[0]]) case Some(i) => [i] case None => [];
      here + ChangeItems(rows[1..], cm, codec)
  }

  /** The items delivered over two stretches of index rows are those of the first, then those of the second. */
  lemma {:induction false} RowItemsAppend(a: seq<Bytes>, b: seq<Bytes>, im: map<Bytes, Bytes>, cm: map<Bytes, Bytes>, codec: Codec)
    requires forall k :: k in a + b ==> k in im
    ensures RowItems(a + b, im, cm, codec) == RowItems(a, im, cm, codec) + RowItems(b, im, cm, codec)
  {
    if a != [] {
      assert (a + b)[0] == a[0];
      assert (a + b)[1..] == a[1..] + b;
      RowItemsAppend(a[1..], b, im, cm, codec);
    } else {
      assert a + b == b;
    }
  }

  /**
   * One index row delivers its decoded item, and nothing when its change is
   * missing or does not decode.
   */
  lemma RowItemsOne(k: Bytes, im: map<Bytes, Bytes>, cm: map<Bytes, Bytes>, codec: Codec)
    requires k in im
    ensures im[k] !in cm ==> RowItems([k], im, cm, codec) == []
    ensures im[k] in cm ==>
              RowItems([k], im, cm, codec) == match codec.fromValueBytes(KeyedItem(k), cm[im[k]]) case Some(i) => [i] case None => []
  {
    assert RowItems([k], im, cm, codec) == (match RowItem(cm, codec, k, im[k]) case Some(i) => [i] case None => []) + RowItems([], im, cm, codec);
  }

  /** The items delivered over two stretches of change-log rows are those of the first, then those of the second. */
  lemma {:induction false} ChangeItemsAppend(a: seq<Bytes>, b: seq<Bytes>, cm: map<Bytes, Bytes>, codec: Codec)
    requires forall k :: k in a + b ==> k in cm
    ensures ChangeItems(a + b, cm, codec) == ChangeItems(a, cm, codec) + ChangeItems(b, cm, codec)
  {
    if a != [] {
      assert (a + b)[0] == a[0];
      assert (a + b)[1..] == a[1..] + b;
      RowsTail(a + b, cm);
      RowsTail(a, cm);
      ChangeItemsAppend(a[1..], b, cm, codec);
    } else {
      assert a + b == b;
    }
  }

  lemma RowsTail(rows: seq<Bytes>, m: map<Bytes, Bytes>)
    requires |rows| > 0 && forall k :: k in rows ==> k in m
    ensures forall k :: k in rows[1..] ==> k in m
  {
    assert forall k :: k in rows[1..] ==> k in rows;
  }

  /** One change-log row delivers its decoded item, and nothing when it does not decode. */
  lemma ChangeItemsOne(k: Bytes, cm: map<Bytes, Bytes>, codec: Codec)
    requires k in cm
    ensures ChangeItems([k], cm, codec) == match codec.fromValueBytes(EmptyItem, cm[k]) case Some(i) => [i] case None => []
  {
    assert ChangeItems([k], cm, codec) == (match codec.fromValueBytes(EmptyItem, cm[k]) case Some(i) => [i] case None => []) + ChangeItems([], cm, codec);
  }

  /** When every change-log row decodes, each row delivers exactly its decoded item, in order. */
  lemma {:induction false} ChangeItemsAllDecoded(rows: seq<Bytes>, cm: map<Bytes, Bytes>, codec: Codec)
    requires forall k :: k in rows ==> k in cm
    requires forall j :: 0 <= j < |rows| ==> codec.fromValueBytes(EmptyItem, cm[rows[j]]).Some?
    ensures var r := ChangeItems(rows, cm, codec);
            |r| == |rows| && forall j :: 0 <= j < |rows| ==> Some(r[j]) == codec.fromValueBytes(EmptyItem, cm[rows[j]])
  {
    if rows != [] {
      assert forall k :: k in rows[1..] ==> k in rows;
      assert forall j :: 0 <= j < |rows[1..]| ==> rows[1..][j] == rows[j + 1];
      ChangeItemsAllDecoded(rows[1..], cm, codec);
    }
  }

  /**
   * The index rows `visitItems` walks from `from`: in ascending key order; a
   * row whose change is missing is skipped, a change that does not decode
   * stops the walk, otherwise the visitor decides whether it goes on.
   */
  ghost function ItemWalkRows(im: map<Bytes, Bytes>, cm: map<Bytes, Bytes>, from: Bytes, codec: Codec,
                              visitor: Item -> bool): (rows: seq<Bytes>)
    ensures StrictlyAscending(rows)
    ensures forall k :: k in rows ==> k in im && !Less(k, from)
    ensures |rows| <= |KeysFrom(im, from)| && rows == KeysFrom(im, from)[..|rows|]
    ensures forall j :: 0 <= j < |rows| - 1 ==> RowContinues(cm, codec, visitor, rows[j], im[rows[j]])
    ensures |rows| < |KeysFrom(im, from)| ==>
              && |rows| > 0
              && im[rows[|rows| - 1]] in cm
              && !RowContinues(cm, codec, visitor, rows[|rows| - 1], im[rows[|rows| - 1]])
  {
    RowsAnswered(im, from, cm, codec, visitor);
    VisitAscend(im, from, RowCallback(cm, codec, visitor))
  }

  /**
   * The walk `visitItems` performs from `from`: the rows of `ItemWalkRows`,
   * the items their changes decode to, and never an error, even when a
   * change fails to decode.
   */
  ghost function WalkItems(im: map<Bytes, Bytes>, cm: map<Bytes, Bytes>, from: Bytes, codec: Codec,
                           visitor: Item -> bool): (r: VisitTrace)
    ensures r.err == None
    ensures r.rows == ItemWalkRows(im, cm, from, codec, visitor)
    ensures |r.delivered| <= |r.rows|
  {
    var rows := ItemWalkRows(im, cm, from, codec, visitor);
    VisitTrace(rows, RowItems(rows, im, cm, codec), None)
  }

  /** What `visit` observed through the row callback, stated in terms of `RowContinues`. */
  lemma RowsAnswered(im: map<Bytes, Bytes>, from: Bytes, cm: map<Bytes, Bytes>, codec: Codec, visitor: Item -> bool)
    ensures var rows := VisitAscend(im, from, RowCallback(cm, codec, visitor));
            forall j :: 0 <= j < |rows| - 1 ==> RowContinues(cm, codec, visitor, rows[j], im[rows[j]])
    ensures var rows := VisitAscend(im, from, RowCallback(cm, codec, visitor));
            |rows| < |KeysFrom(im, from)| ==>
              && |rows| > 0
              && im[rows[|rows| - 1]] in cm
              && !RowContinues(cm, codec, visitor, rows[|rows| - 1], im[rows[|rows| - 1]])
  {
    var v := RowCallback(cm, codec, visitor);
    var rows := VisitAscend(im, from, v);
    forall j | 0 <= j < |rows| - 1 ensures RowContinues(cm, codec, visitor, rows[j], im[rows[j]]) {
      assert v(rows[j], im[rows[j]]);
    }
  }

  /** The callback `visitChanges` hands to `visit`. */
  function ChangeCallback(codec: Codec, visitor: Item -> bool): (f: (Bytes, Bytes) -> bool)
  {
    (k, p) => ChangeContinues(codec, visitor, k, p)
  }

  /** The error `visitChanges` returns: the decode error of the row it stopped on, if any. */
  function StopError(rows: seq<Bytes>, cm: map<Bytes, Bytes>, codec: Codec): Option<Error>
    requires forall k :: k in rows ==> k in cm
  {
    if |rows| > 0 && codec.fromValueBytes(EmptyItem, cm[rows[|rows| - 1]]).None? then Some(DecodeError) else None
  }

  /**
   * The walk `visitChanges` performs from `from`: change-log rows in ascending
   * order, each payload decoded into a fresh item for the visitor; a payload
   * that does not decode stops the walk and its error is returned.
   */
  ghost function WalkChanges(cm: map<Bytes, Bytes>, from: Bytes, codec: Codec, visitor: Item -> bool): (r: VisitTrace)
    ensures StrictlyAscending(r.rows)
    ensures forall k :: k in r.rows ==> k in cm && !Less(k, from)
    ensures |r.rows| <= |KeysFrom(cm, from)| && r.rows == KeysFrom(cm, from)[..|r.rows|]
    ensures forall j :: 0 <= j < |r.rows| - 1 ==> ChangeContinues(codec, visitor, r.rows[j], cm[r.rows[j]])
    ensures |r.rows| < |KeysFrom(cm, from)| ==>
              && |r.rows| > 0
              && !ChangeContinues(codec, visitor, r.rows[|r.rows| - 1], cm[r.rows[|r.rows| - 1]])
    ensures r.err.Some? <==> |r.rows| > 0 && codec.fromValueBytes(EmptyItem, cm[r.rows[|r.rows| - 1]]).None?
    ensures r.err.Some? ==> r.err == Some(DecodeError)
    ensures |r.delivered| <= |r.rows|
  {
    var rows := VisitAscend(cm, from, ChangeCallback(codec, visitor));
    VisitTrace(rows, ChangeItems(rows, cm, codec), StopError(rows, cm, codec))
  }

  /** The entries of `src` whose keys are in `keys` and in `[lo, hi)`. */
  function CopyOf(src: map<Bytes, Bytes>, keys: set<Bytes>, lo: Bytes, hi: Bytes): map<Bytes, Bytes> {
    map k | k in src && k in keys && InRange(k, lo, hi) :: src[k]
  }

  /**
   * `collRangeCopy(src, dst, minKey, lo, hi)`: walks `src` upwards from `minKey`,
   * skipping (without stopping) keys outside `[lo, hi)` and writing the others
   * into `dst`. A failed write stops the walk, but because the error is checked
   * before the walk runs, no error is ever returned. `failedAt` is the key whose
   * write failed, if any.
   */
  method CollRangeCopy(src: Collection, dst: Collection, minKey: Bytes, lo: Bytes, hi: Bytes)
    returns (err: Option<Error>, ghost failedAt: Option<Bytes>)
    modifies dst
    ensures err == None
    ensures src.entries == old(src.entries)
    ensures dst.entries == old(dst.entries) + CopiedPart(old(src.entries), minKey, lo, hi, failedAt)
    ensures failedAt.Some? ==> var k := failedAt.value;
              k in old(src.entries) && !Less(k, minKey) && InRange(k, lo, hi)
  {
    ghost var s0, d0 := src.entries, dst.entries;
    var errVisit: Option<Error> := None;
    // the error is checked here, before the walk has run
    err := errVisit;
    failedAt := None;
    var remaining := set k | k in src.entries && !Less(k, minKey);
    ghost var all := remaining;
    ghost var done: set<Bytes> := {};
    while remaining != {}
      invariant src.entries == s0
      invariant remaining <= all && done == all - remaining
      invariant forall x, y :: x in done && y in remaining ==> Less(x, y)
      invariant dst.entries == d0 + CopyOf(s0, done, lo, hi)
      invariant forall k :: k in all <==> k in s0 && !Less(k, minKey)
      decreases remaining
    {
      LeastExists(remaining);
      var k :| IsLeast(k, remaining);
      CopyStep(s0, d0, done, lo, hi, k);
      if InRange(k, lo, hi) {
        ghost var before := dst.entries;
        errVisit := dst.Set(k, src.entries[k]);
        if errVisit.Some? {
          failedAt := Some(k);
          CutAtLeast(s0, minKey, lo, hi, all, done, remaining, k);
          return;
        }
        if src == dst {
          UpdateSame(before, k);
        }
      }
      WalkedBelowRemaining(done, remaining, k);
      done := done + {k};
      remaining := remaining - {k};
    }
    CopyAll(s0, minKey, lo, hi, all, done);
  }

  /** Writing the next key of the walk extends the copy by that key exactly. */
  lemma CopyStep(s0: map<Bytes, Bytes>, d0: map<Bytes, Bytes>, done: set<Bytes>, lo: Bytes, hi: Bytes, k: Bytes)
    requires k in s0
    ensures InRange(k, lo, hi) ==> d0 + CopyOf(s0, done + {k}, lo, hi) == (d0 + CopyOf(s0, done, lo, hi))[k := s0[k]]
    ensures !InRange(k, lo, hi) ==> CopyOf(s0, done + {k}, lo, hi) == CopyOf(s0, done, lo, hi)
  {
  }

  lemma UpdateSame(m: map<Bytes, Bytes>, k: Bytes)
    requires k in m
    ensures m[k := m[k]] == m
  {
  }

  lemma WalkedBelowRemaining(done: set<Bytes>, remaining: set<Bytes>, k: Bytes)
    requires forall x, y :: x in done && y in remaining ==> Less(x, y)
    requires IsLeast(k, remaining)
    ensures forall x, y :: x in done + {k} && y in remaining - {k} ==> Less(x, y)
  {
    forall x, y | x in done + {k} && y in remaining - {k} ensures Less(x, y) {
      if x == k {
        LeastIsBelowOthers(k, remaining, y);
      }
    }
  }

  lemma CopyAll(s0: map<Bytes, Bytes>, minKey: Bytes, lo: Bytes, hi: Bytes, all: set<Bytes>, done: set<Bytes>)
    requires forall x :: x in all <==> x in s0 && !Less(x, minKey)
    requires done == all
    ensures CopyOf(s0, done, lo, hi) == CopiedPart(s0, minKey, lo, hi, None)
  {
  }

  /** At the failing key, the keys already walked are exactly those of the walk that lie below it. */
  lemma CutAtLeast(s0: map<Bytes, Bytes>, minKey: Bytes, lo: Bytes, hi: Bytes,
                   all: set<Bytes>, done: set<Bytes>, remaining: set<Bytes>, k: Bytes)
    requires forall x :: x in all <==> x in s0 && !Less(x, minKey)
    requires remaining <= all && done == all - remaining
    requires forall x, y :: x in done && y in remaining ==> Less(x, y)
    requires IsLeast(k, remaining)
    ensures CopyOf(s0, done, lo, hi) == CopiedPart(s0, minKey, lo, hi, Some(k))
  {
    forall x | x in all && Less(x, k) ensures x in done {
      LessTotal(x, k);
    }
  }

  /** Starting the copy at the least key of the source copies the same entries as starting at the empty key. */
  lemma CopiedFromLeast(src: map<Bytes, Bytes>, least: Bytes, lo: Bytes, hi: Bytes, stop: Option<Bytes>)
    requires IsLeast(least, src.Keys)
    ensures CopiedPart(src, least, lo, hi, stop) == CopiedPart(src, [], lo, hi, stop)
  {
    forall x | x in src ensures !Less(x, []) {
      EmptyIsBottom(x);
    }
  }

  /** The keys of `ks` that lie in `[lo, hi)`, in their order in `ks`. */
  function InRangeKeys(ks: seq<Bytes>, lo: Bytes, hi: Bytes): (r: seq<Bytes>)
    ensures forall k :: k in r <==> k in ks && InRange(k, lo, hi)
  {
    if ks == [] then []
    else (if InRange(ks[0], lo, hi) then [ks[0]] else []) + InRangeKeys(ks[1..], lo, hi)
  }

  lemma {:induction false} InRangeKeysAscending(ks: seq<Bytes>, lo: Bytes, hi: Bytes)
    requires StrictlyAscending(ks)
    ensures StrictlyAscending(InRangeKeys(ks, lo, hi))
  {
    if ks != [] {
      assert StrictlyAscending(ks[1..]);
      InRangeKeysAscending(ks[1..], lo, hi);
      var rest := InRangeKeys(ks[1..], lo, hi);
      forall j | 0 <= j < |rest| ensures Less(ks[0], rest[j]) {
        assert rest[j] in ks[1..];
      }
    }
  }

  /**
   * A complete range copy into an empty destination, walked from the start,
   * lists exactly the source's keys in `[lo, hi)`, in the source's order.
   */
  lemma RangeCopyListing(src: map<Bytes, Bytes>, lo: Bytes, hi: Bytes)
    ensures KeysFrom(map[] + CopiedPart(src, [], lo, hi, None), []) == InRangeKeys(KeysFrom(src, []), lo, hi)
  {
    var copy := map[] + CopiedPart(src, [], lo, hi, None);
    forall k ensures k in KeysFrom(copy, []) <==> k in InRangeKeys(KeysFrom(src, []), lo, hi) {
      EmptyIsBottom(k);
    }
    InRangeKeysAscending(KeysFrom(src, []), lo, hi);
    AscendingUnique(KeysFrom(copy, []), InRangeKeys(KeysFrom(src, []), lo, hi));
  }

  /**
   * With a visitor that always continues and no change that fails to decode,
   * `visitItems` walks every index row from `from`: rows whose change is
   * missing are skipped, not stopped at.
   */
  lemma WalkItemsVisitsAll(im: map<Bytes, Bytes>, cm: map<Bytes, Bytes>, from: Bytes, codec: Codec, visitor: Item -> bool)
    requires forall i :: visitor(i)
    requires forall k :: k in im && im[k] in cm ==> codec.fromValueBytes(KeyedItem(k), cm[im[k]]).Some?
    ensures WalkItems(im, cm, from, codec, visitor).rows == KeysFrom(im, from)
  {
    RowsNeverStopped(ItemWalkRows(im, cm, from, codec, visitor), KeysFrom(im, from), im, cm, codec, visitor);
  }

  /** A prefix walk of `ks` that ends only where a row stops it is all of `ks` when no row can stop it. */
  lemma RowsNeverStopped(rows: seq<Bytes>, ks: seq<Bytes>, im: map<Bytes, Bytes>, cm: map<Bytes, Bytes>, codec: Codec, visitor: Item -> bool)
    requires forall i :: visitor(i)
    requires forall k :: k in im && im[k] in cm ==> codec.fromValueBytes(KeyedItem(k), cm[im[k]]).Some?
    requires forall k :: k in rows ==> k in im
    requires |rows| <= |ks| && rows == ks[..|rows|]
    requires |rows| < |ks| ==> |rows| > 0 && !RowContinues(cm, codec, visitor, rows[|rows| - 1], im[rows[|rows| - 1]])
    ensures rows == ks
  {
    if |rows| > 0 {
      var last := rows[|rows| - 1];
      assert last in rows;
      assert RowContinues(cm, codec, visitor, last, im[last]);
    }
    assert |rows| == |ks|;
  }

  /** Rows whose changes all decode deliver exactly their decoded items, in order. */
  lemma RowItemsAllDecoded(rows: seq<Bytes>, im: map<Bytes, Bytes>, cm: map<Bytes, Bytes>, codec: Codec)
    requires forall k :: k in rows ==> k in im && im[k] in cm && codec.fromValueBytes(KeyedItem(k), cm[im[k]]).Some?
    ensures |RowItems(rows, im, cm, codec)| == |rows|
    ensures forall j :: 0 <= j < |rows| ==> Some(RowItems(rows, im, cm, codec)[j]) == codec.fromValueBytes(KeyedItem(rows[j]), cm[im[rows[j]]])
  {
    forall j | 0 <= j < |rows| ensures RowItem(cm, codec, rows[j], im[rows[j]]).Some? {
      assert rows[j] in rows;
    }
  }

  /**
   * When, besides, every index row has its change, each row delivers exactly
   * its decoded item, in key order.
   */
  lemma WalkItemsDeliversAll(im: map<Bytes, Bytes>, cm: map<Bytes, Bytes>, from: Bytes, codec: Codec, visitor: Item -> bool)
    requires forall i :: visitor(i)
    requires forall k :: k in im ==> im[k] in cm && codec.fromValueBytes(KeyedItem(k), cm[im[k]]).Some?
    ensures var r := WalkItems(im, cm, from, codec, visitor);
            |r.delivered| == |r.rows| == |KeysFrom(im, from)|
            && forall j :: 0 <= j < |r.rows| ==> Some(r.delivered[j]) == codec.fromValueBytes(KeyedItem(r.rows[j]), cm[im[r.rows[j]]])
  {
    WalkItemsVisitsAll(im, cm, from, codec, visitor);
    RowItemsAllDecoded(ItemWalkRows(im, cm, from, codec, visitor), im, cm, codec);
  }

  /**
   * A change that fails to decode stops `visitItems` at that row, yet the
   * traversal reports no error: here the very first row.
   */
  lemma WalkItemsDropsDecodeError(im: map<Bytes, Bytes>, cm: map<Bytes, Bytes>, from: Bytes, codec: Codec, visitor: Item -> bool)
    requires |KeysFrom(im, from)| > 0
    requires var k := KeysFrom(im, from)[0];
             im[k] in cm && codec.fromValueBytes(KeyedItem(k), cm[im[k]]).None?
    ensures var r := WalkItems(im, cm, from, codec, visitor);
            r.rows == [KeysFrom(im, from)[0]] && r.delivered == [] && r.err == None
  {
    var r := WalkItems(im, cm, from, codec, visitor);
    var k := KeysFrom(im, from)[0];
    assert r.rows[0] == k;
    assert !RowContinues(cm, codec, visitor, k, im[k]);
    assert r.rows == [k];
    assert RowItem(cm, codec, k, im[k]).None?;
    assert RowItems([k], im, cm, codec) == [] + RowItems([], im, cm, codec);
  }

  /**
   * For a codec that rejects the empty payload, a tombstone stops
   * `visitChanges` at that row and the decode error is returned: here the very
   * first row.
   */
  lemma WalkChangesStopsAtTombstone(cm: map<Bytes, Bytes>, from: Bytes, codec: Codec, visitor: Item -> bool)
    requires codec.fromValueBytes(EmptyItem, []).None?
    requires |KeysFrom(cm, from)| > 0 && cm[KeysFrom(cm, from)[0]] == []
    ensures var r := WalkChanges(cm, from, codec, visitor);
            r.rows == [KeysFrom(cm, from)[0]] && r.delivered == [] && r.err == Some(DecodeError)
  {
    var r := WalkChanges(cm, from, codec, visitor);
    var k := KeysFrom(cm, from)[0];
    assert r.rows[0] == k;
    assert !ChangeContinues(codec, visitor, k, cm[k]);
    assert r.rows == [k];
    assert ChangeItems([k], cm, codec) == [] + ChangeItems([], cm, codec);
  }

  /**
   * With a visitor that always continues and a codec that decodes every
   * change, `visitChanges` walks every change-log row from `from` and returns
   * no error.
   */
  lemma WalkChangesVisitsAll(cm: map<Bytes, Bytes>, from: Bytes, codec: Codec, visitor: Item -> bool)
    requires forall i :: visitor(i)
    requires forall k :: k in cm ==> codec.fromValueBytes(EmptyItem, cm[k]).Some?
    ensures WalkChanges(cm, from, codec, visitor).rows == KeysFrom(cm, from)
    ensures WalkChanges(cm, from, codec, visitor).err == None
  {
    var r := WalkChanges(cm, from, codec, visitor);
    var ks := KeysFrom(cm, from);
    if |r.rows| > 0 {
      var last := r.rows[|r.rows| - 1];
      assert last in cm;
      assert ChangeContinues(codec, visitor, last, cm[last]);
    }
    assert |r.rows| == |ks|;
    assert r.rows == ks[..|ks|];
  }

  /**
   * A `visitChanges` walk that a decode failure stopped has handed the visitor
   * the decoded item of every row before the failing one, in order, and
   * nothing for the failing row.
   */
  lemma WalkChangesStoppedDelivers(cm: map<Bytes, Bytes>, from: Bytes, codec: Codec, visitor: Item -> bool)
    requires WalkChanges(cm, from, codec, visitor).err.Some?
    ensures |WalkChanges(cm, from, codec, visitor).delivered| == |WalkChanges(cm, from, codec, visitor).rows| - 1
    ensures forall j :: 0 <= j < |WalkChanges(cm, from, codec, visitor).delivered| ==>
              Some(WalkChanges(cm, from, codec, visitor).delivered[j])
                == codec.fromValueBytes(EmptyItem, cm[WalkChanges(cm, from, codec, visitor).rows[j]])
  {
    var r := WalkChanges(cm, from, codec, visitor);
    StoppedRows(cm, from, codec, visitor);
    ChangeItemsStopped(r.rows, cm, codec);
    var items := ChangeItems(r.rows, cm, codec);
    assert r.delivered == items;
  }

  /** The rows of a `visitChanges` walk that a decode failure stopped: all decode but the last. */
  lemma StoppedRows(cm: map<Bytes, Bytes>, from: Bytes, codec: Codec, visitor: Item -> bool)
    requires WalkChanges(cm, from, codec, visitor).err.Some?
    ensures var rows := WalkChanges(cm, from, codec, visitor).rows;
            && |rows| > 0 && (forall k :: k in rows ==> k in cm)
            && (forall j :: 0 <= j < |rows| - 1 ==> codec.fromValueBytes(EmptyItem, cm[rows[j]]).Some?)
            && codec.fromValueBytes(EmptyItem, cm[rows[|rows| - 1]]).None?
            && WalkChanges(cm, from, codec, visitor).delivered == ChangeItems(rows, cm, codec)
  {
    var rows := WalkChanges(cm, from, codec, visitor).rows;
    forall j | 0 <= j < |rows| - 1 ensures codec.fromValueBytes(EmptyItem, cm[rows[j]]).Some? {
      assert ChangeContinues(codec, visitor, rows[j], cm[rows[j]]);
    }
  }

  /** Rows that all decode but the last deliver one item each, and the last delivers nothing. */
  lemma ChangeItemsStopped(rows: seq<Bytes>, cm: map<Bytes, Bytes>, codec: Codec)
    requires |rows| > 0 && forall k :: k in rows ==> k in cm
    requires forall j :: 0 <= j < |rows| - 1 ==> codec.fromValueBytes(EmptyItem, cm[rows[j]]).Some?
    requires codec.fromValueBytes(EmptyItem, cm[rows[|rows| - 1]]).None?
    ensures var r := ChangeItems(rows, cm, codec);
            |r| == |rows| - 1
            && forall j :: 0 <= j < |r| ==> Some(r[j]) == codec.fromValueBytes(EmptyItem, cm[rows[j]])
  {
    var n := |rows| - 1;
    var front, last := rows[..n], rows[n];
    assert rows == front + [last];
    assert forall k :: k in front ==> k in rows;
    forall j | 0 <= j < |front| ensures codec.fromValueBytes(EmptyItem, cm[front[j]]).Some? {
      assert front[j] == rows[j];
    }
    ChangeItemsAppend(front, [last], cm, codec);
    ChangeItemsOne(last, cm, codec);
    ChangeItemsAllDecoded(front, cm, codec);
  }

  /** How a tick of the flush timer ended. */
  datatype TickOutcome = Idle | Flushed | FlushFailed

  class Store {
    /** Mutations applied since the last successful flush (atomically updated `int64`). */
    var dirtiness: int
    const stats: StoreStats.Stats
    /** The underlying collection store's named collections. */
    var colls: map<string, Collection>
    /** The item helpers defined outside the store. */
    const codec: Codec
    /** `COLL_SUFFIX_ITEMS` and `COLL_SUFFIX_CHANGES`. */
    const itemsSuffix: string
    const changesSuffix: string

    ghost predicate Valid()
      reads this, stats
    {
      && itemsSuffix != changesSuffix
      && dirtiness >= 0
      // nothing in the store ever counts a flush
      && stats.totFlush == 0
      // one collection object per name
      && forall a, b :: a in colls && b in colls && a != b ==> colls[a] != colls[b]
    }

    /** A store over a freshly opened, empty collection store. */
    constructor (codec: Codec, itemsSuffix: string, changesSuffix: string)
      requires itemsSuffix != changesSuffix
      ensures Valid() && fresh(stats)
      ensures dirtiness == 0 && colls == map[] && stats.Snapshot() == StoreStats.Zero
      ensures this.codec == codec && this.itemsSuffix == itemsSuffix && this.changesSuffix == changesSuffix
    {
      dirtiness := 0;
      stats := new StoreStats.Stats();
      colls := map[];
      this.codec := codec;
      this.itemsSuffix := itemsSuffix;
      this.changesSuffix := changesSuffix;
    }

    /** `Stats()`: a fresh record holding a copy of the current counters. */
    method Stats() returns (r: StoreStats.Stats)
      ensures fresh(r)
      ensures r.Snapshot() == stats.Snapshot()
    {
      r := new StoreStats.Stats();
      r.Add(stats);
      StoreStats.SumZeroLeft(stats.Snapshot());
    }

    /** `dirty()`: one more mutation awaits flushing. */
    method Dirty()
      requires Valid()
      modifies this`dirtiness
      ensures Valid()
      ensures dirtiness == old(dirtiness) + 1
    {
      dirtiness := dirtiness + 1;
    }

    /**
     * `Flush()`: persists the collection store and, only on success, subtracts
     * the dirtiness read when the flush started. `racing` counts the `dirty()`
     * calls made by other stores' range copies while the flush was running;
     * they stay counted.
     */
    method Flush(racing: nat) returns (err: Option<Error>)
      requires Valid()
      modifies this`dirtiness
      ensures Valid()
      ensures err.None? ==> dirtiness == old(dirtiness) + racing - old(dirtiness)
      ensures err.Some? ==> dirtiness == old(dirtiness) + racing
    {
      var d := dirtiness;
      var failed: bool := *;
      dirtiness := dirtiness + racing;
      if failed {
        err := Some(CollectionError);
      } else {
        dirtiness := dirtiness - d;
        err := None;
      }
    }

    /**
     * One tick of the flush timer in the service loop: flushes only when
     * dirtiness is positive, counts a failed flush in `FlushErrors`.
     */
    method Tick(racing: nat) returns (outcome: TickOutcome)
      requires Valid()
      modifies this`dirtiness, stats`flushErrors
      ensures Valid()
      ensures old(dirtiness) <= 0 ==> outcome == Idle
      ensures outcome == Idle ==> dirtiness == old(dirtiness) && stats.Snapshot() == old(stats.Snapshot())
      ensures outcome == Flushed ==>
        dirtiness == old(dirtiness) + racing - old(dirtiness) && stats.Snapshot() == old(stats.Snapshot())
      ensures outcome == FlushFailed ==>
        && dirtiness == old(dirtiness) + racing
        && stats.Snapshot() == old(stats.Snapshot()).(flushErrors := StoreStats.Add64(old(stats.flushErrors), 1))
      ensures old(dirtiness) > 0 ==> outcome != Idle
    {
      var d := dirtiness;
      if d > 0 {
        var failed: bool := *;
        dirtiness := dirtiness + racing;
        if failed {
          stats.flushErrors := StoreStats.Add64(stats.flushErrors, 1);
          outcome := FlushFailed;
        } else {
          dirtiness := dirtiness - d;
          outcome := Flushed;
        }
      } else {
        outcome := Idle;
      }
    }

    /** The counter bookkeeping of `ReadAt`, given the byte count and failure the file read reported. */
    method ReadAt(n: U64, ioFailed: bool)
      requires Valid()
      modifies stats
      ensures Valid()
      ensures stats.Snapshot() == old(stats.Snapshot()).(
        totRead := StoreStats.Add64(old(stats.totRead), 1),
        readErrors := if ioFailed then StoreStats.Add64(old(stats.readErrors), 1) else old(stats.readErrors),
        readBytes := StoreStats.Add64(old(stats.readBytes), n))
    {
      stats.totRead := StoreStats.Add64(stats.totRead, 1);
      if ioFailed {
        stats.readErrors := StoreStats.Add64(stats.readErrors, 1);
      }
      stats.readBytes := StoreStats.Add64(stats.readBytes, n);
    }

    /** The counter bookkeeping of `WriteAt`, given the byte count and failure the file write reported. */
    method WriteAt(n: U64, ioFailed: bool)
      requires Valid()
      modifies stats
      ensures Valid()
      ensures stats.Snapshot() == old(stats.Snapshot()).(
        totWrite := StoreStats.Add64(old(stats.totWrite), 1),
        writeErrors := if ioFailed then StoreStats.Add64(old(stats.writeErrors), 1) else old(stats.writeErrors),
        writeBytes := StoreStats.Add64(old(stats.writeBytes), n))
    {
      stats.totWrite := StoreStats.Add64(stats.totWrite, 1);
      if ioFailed {
        stats.writeErrors := StoreStats.Add64(stats.writeErrors, 1);
      }
      stats.writeBytes := StoreStats.Add64(stats.writeBytes, n);
    }

    /** The counter bookkeeping of `Stat`, given whether the file stat failed. */
    method Stat(ioFailed: bool)
      requires Valid()
      modifies stats
      ensures Valid()
      ensures stats.Snapshot() == old(stats.Snapshot()).(
        totStat := StoreStats.Add64(old(stats.totStat), 1),
        statErrors := if ioFailed then StoreStats.Add64(old(stats.statErrors), 1) else old(stats.statErrors))
    {
      stats.totStat := StoreStats.Add64(stats.totStat, 1);
      if ioFailed {
        stats.statErrors := StoreStats.Add64(stats.statErrors, 1);
      }
    }

    /** `coll(name)`: the named collection, created empty when absent. */
    method Coll(name: string) returns (c: Collection)
      requires Valid()
      modifies this`colls
      ensures Valid()
      ensures name in colls && c == colls[name]
      ensures name in old(colls) ==> colls == old(colls)
      ensures name !in old(colls) ==> fresh(c) && c.entries == map[] && colls == old(colls)[name := c]
    {
      if name in colls {
        c := colls[name];
      } else {
        c := new Collection();
        colls := colls[name := c];
      }
    }

    /**
     * `vbucketColls(vbid)`: partition `vbid`'s items and changes collections,
     * created when absent; two different objects. Calling it again returns the
     * same pair and changes nothing.
     */
    method VBucketColls(vbid: U16) returns (items: Collection, changes: Collection)
      requires Valid()
      modifies this`colls
      ensures Valid()
      ensures CollName(vbid, itemsSuffix) in colls && items == colls[CollName(vbid, itemsSuffix)]
      ensures CollName(vbid, changesSuffix) in colls && changes == colls[CollName(vbid, changesSuffix)]
      ensures items != changes
      ensures colls.Keys == old(colls).Keys + {CollName(vbid, itemsSuffix), CollName(vbid, changesSuffix)}
      ensures forall n :: n in old(colls) ==> colls[n] == old(colls)[n]
      ensures CollName(vbid, itemsSuffix) !in old(colls) ==> fresh(items) && items.entries == map[]
      ensures CollName(vbid, changesSuffix) !in old(colls) ==> fresh(changes) && changes.entries == map[]
    {
      CollNamesDiffer(vbid, itemsSuffix, changesSuffix);
      items := Coll(CollName(vbid, itemsSuffix));
      changes := Coll(CollName(vbid, changesSuffix));
    }

    /** `getItem(items, changes, key, withValue)`. */
    function GetItem(items: Collection, changes: Collection, key: Bytes, withValue: bool): (r: GetResult)
      reads items, changes
      ensures r == Lookup(items.entries, changes.entries, key, codec)
      ensures r == Miss <==> key !in items.entries || items.entries[key] !in changes.entries
    {
      Lookup(items.entries, changes.entries, key, codec)
    }

    /** `get`: a lookup that loads the value. */
    function Get(items: Collection, changes: Collection, key: Bytes): (r: GetResult)
      reads items, changes
      ensures r == Miss <==> key !in items.entries || items.entries[key] !in changes.entries
      ensures r.Hit? ==> key in items.entries && items.entries[key] in changes.entries
                         && codec.fromValueBytes(KeyedItem(key), changes.entries[items.entries[key]]) == Some(r.item)
      ensures r.Fail? ==> r.err == DecodeError
                          && codec.fromValueBytes(KeyedItem(key), changes.entries[items.entries[key]]) == None
    {
      GetItem(items, changes, key, true)
    }

    /** `getMeta`: a lookup that need not load the value. */
    function GetMeta(items: Collection, changes: Collection, key: Bytes): (r: GetResult)
      reads items, changes
      ensures r == Miss <==> key !in items.entries || items.entries[key] !in changes.entries
      ensures r.Hit? ==> key in items.entries && items.entries[key] in changes.entries
                         && codec.fromValueBytes(KeyedItem(key), changes.entries[items.entries[key]]) == Some(r.item)
      ensures r.Fail? ==> r.err == DecodeError
                          && codec.fromValueBytes(KeyedItem(key), changes.entries[items.entries[key]]) == None
    {
      GetItem(items, changes, key, false)
    }

    /**
     * `visit(coll, start, v)`: an ascending walk from `start`, or from the
     * smallest key when `start` is nil; an empty collection visits nothing.
     * The result is the keys `v` was called on.
     */
    ghost function Visit(coll: Collection, start: Option<Bytes>, v: (Bytes, Bytes) -> bool): (r: seq<Bytes>)
      reads coll
      ensures start.None? && coll.entries == map[] ==> r == []
      ensures start.None? && coll.entries != map[] ==> r != [] && IsLeast(r[0], coll.entries.Keys)
      ensures start.None? ==> r == VisitAscend(coll.entries, [], v)
      ensures start.Some? ==> r == VisitAscend(coll.entries, start.value, v)
    {
      match start
      case Some(s) => VisitAscend(coll.entries, s, v)
      case None =>
        if coll.entries == map[] then
          assert KeysFrom(coll.entries, []) == [];
          []
        else
          var m := coll.entries;
          assert m.Keys != {} by { var x :| x in m; }
          var least := Least(m.Keys);
          KeysFromLeast(m, least);
          var r := VisitAscend(m, least, v);
          assert least in KeysFrom(m, least);
          AscendingHeadIsLeast(KeysFrom(m, least), m.Keys);
          r
    }

    /**
     * `visitItems`: `visit` over the index with the row callback of `WalkItems`;
     * lookup and decode errors inside the callback are dropped.
     */
    ghost function VisitItems(items: Collection, changes: Collection, start: Option<Bytes>, withValue: bool,
                              visitor: Item -> bool): (r: VisitTrace)
      reads items, changes
      ensures r == WalkItems(items.entries, changes.entries, if start.Some? then start.value else [], codec, visitor)
    {
      var cm := changes.entries;
      var rows := Visit(items, start, RowCallback(cm, codec, visitor));
      VisitTrace(rows, RowItems(rows, items.entries, cm, codec), None)
    }

    /** `visitChanges`: `visit` over the change log with the callback of `WalkChanges`. */
    ghost function VisitChanges(changes: Collection, start: Option<Bytes>, withValue: bool,
                                visitor: Item -> bool): (r: VisitTrace)
      reads changes
      ensures r == WalkChanges(changes.entries, if start.Some? then start.value else [], codec, visitor)
    {
      var cm := changes.entries;
      var rows := Visit(changes, start, ChangeCallback(codec, visitor));
      VisitTrace(rows, ChangeItems(rows, cm, codec), StopError(rows, cm, codec))
    }

    /**
     * `rangeCopy(src, dst, dstColl, lo, hi)`: copies the entries of `src` in
     * `[lo, hi)` into `dstColl` and marks `dst` dirty once; an empty source
     * copies nothing and marks nothing.
     */
    method RangeCopy(src: Collection, dst: Store, dstColl: Collection, lo: Bytes, hi: Bytes)
      returns (err: Option<Error>, ghost failedAt: Option<Bytes>)
      requires dst.Valid()
      modifies dst`dirtiness, dstColl
      ensures dst.Valid()
      ensures err == None
      ensures src.entries == old(src.entries)
      ensures dstColl.entries == old(dstColl.entries) + CopiedPart(old(src.entries), [], lo, hi, failedAt)
      ensures failedAt.Some? ==> failedAt.value in old(src.entries) && InRange(failedAt.value, lo, hi)
      ensures dst.dirtiness == old(dst.dirtiness) + (if old(src.entries) == map[] then 0 else 1)
    {
      ghost var s0 := src.entries;
      var minItem := src.MinKey();
      err, failedAt := None, None;
      if minItem.Some? {
        var e;
        e, failedAt := CollRangeCopy(src, dstColl, minItem.value, lo, hi);
        if e.Some? {
          err := e;
          return;
        }
        CopiedFromLeast(s0, minItem.value, lo, hi, failedAt);
        dst.Dirty();
      } else {
        assert CopiedPart(s0, [], lo, hi, None) == map[];
      }
    }

    /**
     * `set(items, changes, newItem, oldMeta)`: appends the serialised item at its
     * cas bytes in the change log, then, for a non-empty key, points the key at
     * that cas. A failed change-log write changes nothing; a failed index write
     * leaves the change-log entry written. Only success counts as dirty.
     */
    method Set(items: Collection, changes: Collection, newItem: Item, oldMeta: Option<Item>) returns (err: Option<Error>)
      requires Valid()
      requires items != changes
      modifies items, changes, this`dirtiness
      ensures Valid()
      ensures var cb, vb := codec.casBytes(newItem.cas), codec.toValueBytes(newItem);
              err.None? ==> && changes.entries == old(changes.entries)[cb := vb]
                            && items.entries == (if |newItem.key| > 0 then old(items.entries)[newItem.key := cb] else old(items.entries))
                            && dirtiness == old(dirtiness) + 1
      ensures var cb, vb := codec.casBytes(newItem.cas), codec.toValueBytes(newItem);
              err.Some? ==> && items.entries == old(items.entries)
                            && dirtiness == old(dirtiness)
                            && (changes.entries == old(changes.entries)
                                || (|newItem.key| > 0 && changes.entries == old(changes.entries)[cb := vb]))
      ensures IndexConsistent(old(items.entries), old(changes.entries)) ==> IndexConsistent(items.entries, changes.entries)
    {
      var vBytes := codec.toValueBytes(newItem);
      var cBytes := codec.casBytes(newItem.cas);
      err := changes.Set(cBytes, vBytes);
      if err.Some? {
        return;
      }
      if |newItem.key| > 0 {
        err := items.Set(newItem.key, cBytes);
        if err.Some? {
          return;
        }
      }
      Dirty();
    }

    /**
     * `del(items, changes, key, cas)`: appends a tombstone (empty payload) at the
     * cas bytes, then, for a non-empty key, removes the key from the index.
     */
    method Del(items: Collection, changes: Collection, key: Bytes, cas: U64) returns (err: Option<Error>)
      requires Valid()
      requires items != changes
      modifies items, changes, this`dirtiness
      ensures Valid()
      ensures var cb := codec.casBytes(cas);
              err.None? ==> && changes.entries == old(changes.entries)[cb := []]
                            && items.entries == (if |key| > 0 then old(items.entries) - {key} else old(items.entries))
                            && dirtiness == old(dirtiness) + 1
      ensures var cb := codec.casBytes(cas);
              err.Some? ==> && items.entries == old(items.entries)
                            && dirtiness == old(dirtiness)
                            && (changes.entries == old(changes.entries)
                                || (|key| > 0 && changes.entries == old(changes.entries)[cb := []]))
      ensures IndexConsistent(old(items.entries), old(changes.entries)) ==> IndexConsistent(items.entries, changes.entries)
    {
      var cBytes := codec.casBytes(cas);
      err := changes.Set(cBytes, []);
      if err.Some? {
        return;
      }
      if |key| > 0 {
        err := items.Delete(key);
        if err.Some? {
          return;
        }
      }
      Dirty();
    }
  }
}

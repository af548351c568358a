/** What the StorageUtils helpers promise across calls: a counter after a
    write, `pull` leaving nothing behind, `add` keeping the first value,
    `only`/`except` as views of the area, `times` keys, and the expiry
    arithmetic of `expireMany`, `extend` and `reduce`. */
module UtilsProps {

  import opened Wrappers
  import opened Json
  import opened JsonText
  import Dict
  import opened BaseAdapter
  import opened Adapters
  import opened Storage
  import opened Utils

  // ---------------------------------------------------------------- counters

  /** After `set(k, v)`, `increment(k, a)` succeeds exactly when v is a
      non-zero number. A stored 0 (like any other falsy value) reads back
      as the whole envelope object, which is not a number, so it throws. */
  lemma {:induction false} IncrementAfterSet(e: Entries, ns: Namespace, k: string, v: Json, m: int, a: int, now: int)
    requires now >= 0
    ensures Bumped(Dict.Put(e, ns.NormalizeKey(k), EnvelopeText(v, Stamp(now, m))), ns, k, a, now) ==
      if v.JNum? && v.n != 0 then Ok(v.n + a) else Err("Cannot increment non-numeric value for key: " + k)
  {
    SetReadsBack(e, ns, k, v, m, now);
    if Truthy(v) {
      BumpedFrom(Dict.Put(e, ns.NormalizeKey(k), EnvelopeText(v, Stamp(now, m))), ns, k, a, now, v);
    } else {
      BumpedFrom(Dict.Put(e, ns.NormalizeKey(k), EnvelopeText(v, Stamp(now, m))), ns, k, a, now, Envelope(v, Stamp(now, m)));
    }
  }

  /** Right after `set`, `get` gives the value, or the envelope when the value
      is falsy. */
  lemma {:induction false} SetReadsBack(e: Entries, ns: Namespace, k: string, v: Json, m: int, now: int)
    requires now >= 0
    ensures GetValue(Dict.Put(e, ns.NormalizeKey(k), EnvelopeText(v, Stamp(now, m))), ns, k, now) ==
      Some(if Truthy(v) then v else Envelope(v, Stamp(now, m)))
  {
    Storage.SetThenGet(e, ns, k, v, m, now, now);
    if m > 0 {
      assert m * MinuteMs > 0;
    }
  }

  /** `increment` on a key that reads as g. */
  lemma {:induction false} BumpedFrom(e: Entries, ns: Namespace, k: string, a: int, now: int, g: Json)
    requires GetValue(e, ns, k, now) == Some(g)
    ensures Bumped(e, ns, k, a, now) ==
      if !Truthy(g) then Ok(a)
      else if g.JNum? then Ok(g.n + a)
      else Err("Cannot increment non-numeric value for key: " + k)
  {
  }

  /** A counter written by `increment` reads back as the new count when it
      is not 0; on an absent key the count starts from 0. */
  lemma {:induction false} IncrementThenGet(e: Entries, ns: Namespace, k: string, a: int, m: int, now: int)
    requires now >= 0
    requires Bumped(e, ns, k, a, now).Ok? && Bumped(e, ns, k, a, now).value != 0
    ensures GetValue(e, ns, k, now).None? ==> Bumped(e, ns, k, a, now) == Ok(a)
    ensures var n := Bumped(e, ns, k, a, now).value;
      GetValue(Dict.Put(AfterGet(e, ns, k, now), ns.NormalizeKey(k), EnvelopeText(JNum(n), Stamp(now, m))), ns, k, now)
        == Some(JNum(n))
  {
    var n := Bumped(e, ns, k, a, now).value;
    SetGetRoundTrip(AfterGet(e, ns, k, now), ns, k, JNum(n), m, now);
  }

  /** `increment("c", 3)` on an absent key gives 3, and 3 is stored. */
  lemma {:induction false} IncrementAbsentExample(e: Entries, ns: Namespace, m: int, now: int)
    requires now >= 0 && GetValue(e, ns, "c", now).None?
    ensures Bumped(e, ns, "c", 3, now) == Ok(3)
    ensures GetValue(Dict.Put(AfterGet(e, ns, "c", now), ns.NormalizeKey("c"), EnvelopeText(JNum(3), Stamp(now, m))), ns, "c", now)
      == Some(JNum(3))
  {
    IncrementThenGet(e, ns, "c", 3, m, now);
  }

  /** `increment` on a key holding "x" throws. */
  lemma {:induction false} IncrementStringExample(e: Entries, ns: Namespace, m: int, a: int, now: int)
    requires now >= 0
    ensures Bumped(Dict.Put(e, ns.NormalizeKey("k"), EnvelopeText(JStr("x"), Stamp(now, m))), ns, "k", a, now)
      == Err("Cannot increment non-numeric value for key: k")
  {
    IncrementAfterSet(e, ns, "k", JStr("x"), m, a, now);
  }

  // ---------------------------------------------------------------- pull, add, forever

  /** After `pull(k)` nothing is left under k, at any time. */
  lemma {:induction false} PullEmpties(e: Entries, ns: Namespace, k: string, later: int)
    ensures View(Dict.Delete(e, ns.NormalizeKey(k)), ns, k, later) == Absent
  {
    Dict.GetDelete(e, ns.NormalizeKey(k), ns.NormalizeKey(k));
  }

  /** What `add` (and `remember`) writes is there at once: a second `add`
      at the same time finds the key, returns false and changes nothing,
      and a truthy first value is what `get` returns. */
  lemma {:induction false} AddKeepsFirst(e: Entries, ns: Namespace, k: string, v: Json, m: int, now: int)
    requires now >= 0
    ensures var e1 := Dict.Put(e, ns.NormalizeKey(k), EnvelopeText(v, Stamp(now, m)));
      && GetValue(e1, ns, k, now).Some?
      && AfterGet(e1, ns, k, now) == e1
      && (Truthy(v) ==> GetValue(e1, ns, k, now) == Some(v))
  {
    Storage.SetThenGet(e, ns, k, v, m, now, now);
  }

  /** `forever(k, v)`: the key never expires, whenever it is read, and
      `getExpire` reports Infinity. */
  lemma {:induction false} ForeverLasts(e: Entries, ns: Namespace, k: string, v: Json, later: int)
    ensures View(Dict.Put(e, ns.NormalizeKey(k), EnvelopeText(v, 0)), ns, k, later) ==
      Live(if Truthy(v) then v else Envelope(v, 0))
    ensures RemainingIn(Dict.Put(e, ns.NormalizeKey(k), EnvelopeText(v, 0)), ns, k, later) == Storage.Forever
  {
    Dict.GetPut(e, ns.NormalizeKey(k), EnvelopeText(v, 0), ns.NormalizeKey(k));
    ReadEnvelope(v, 0, later);
    ParseEnvelope(v, 0);
  }

  /** `isEmpty(k)` right after `set(k, v)` is true only for [] and {}: the
      other empty values ("", null) are falsy, so `get` returns the
      envelope object, which is not empty. */
  lemma {:induction false} IsEmptyAfterSet(e: Entries, ns: Namespace, k: string, v: Json, m: int, now: int)
    requires now >= 0
    ensures Empty(GetValue(Dict.Put(e, ns.NormalizeKey(k), EnvelopeText(v, Stamp(now, m))), ns, k, now)) <==>
      v == JArr([]) || v == JObj([])
  {
    Storage.SetThenGet(e, ns, k, v, m, now, now);
  }

  // ---------------------------------------------------------------- only, except

  /** `only(keys)` holds exactly the listed keys that have a value, with
      the value `get` returns. */
  lemma {:induction false} OnlyKeys(e: Entries, ns: Namespace, keys: seq<string>, now: int, k: string)
    ensures Dict.Get(OnlyOf(e, ns, keys, now), k) == if k in keys then GetValue(e, ns, k, now) else None
  {
    if keys != [] {
      var front := keys[..|keys| - 1];
      var last := keys[|keys| - 1];
      OnlyKeys(e, ns, front, now, k);
      assert keys == front + [last];
      assert k in keys <==> k in front || k == last;
      match GetValue(e, ns, last, now)
      case Some(v) => Dict.GetPut(OnlyOf(e, ns, front, now), last, v, k);
      case None =>
    }
  }

  /** `except(keys)` holds every live owned entry of the area except the
      listed keys. */
  lemma {:induction false} ExceptKeys(e: Entries, ns: Namespace, keys: seq<string>, now: int, lk: string)
    requires Dict.Distinct(e)
    ensures Dict.Get(Dict.Without(Collect(ns, Owned(ns, e), now), KeySet(keys)), lk) ==
      if lk in keys then None
      else match Dict.Get(e, ns.Head() + lk)
        case None => None
        case Some(t) => match ScanEntry(t, now) case Keep(v) => Some(v) case _ => None
  {
    Dict.GetWithout(Collect(ns, Owned(ns, e), now), KeySet(keys), lk);
    GetAllReports(e, ns, now, lk);
  }

  // ---------------------------------------------------------------- times

  /** No "item_<i>" key contains a dot. */
  lemma {:induction false} ItemKeyNoDot(i: nat, j: nat)
    requires j < |ItemKey(i)|
    ensures ItemKey(i)[j] != '.'
  {
    if j >= 5 {
      assert ItemKey(i)[j] == NatToString(i)[j - 5];
    }
  }

  /** Distinct indexes give distinct keys. */
  lemma {:induction false} ItemKeyInjective(a: nat, b: nat)
    requires ItemKey(a) == ItemKey(b)
    ensures a == b
  {
    assert NatToString(a) == ItemKey(a)[5..];
    assert NatToString(b) == ItemKey(b)[5..];
    NatRoundTrip(a);
    NatRoundTrip(b);
  }

  /** "item_<i>" is never taken for an already-prefixed key, since every
      namespace head ends in a dot. */
  lemma {:induction false} ItemKeyStored(ns: Namespace, i: nat)
    ensures ns.NormalizeKey(ItemKey(i)) == ns.Head() + ItemKey(i)
  {
    var h := ns.Head();
    if ns.Owns(ItemKey(i)) {
      assert ItemKey(i)[|h| - 1] == h[|h| - 1] == '.';
      ItemKeyNoDot(i, |h| - 1);
    }
  }

  /** `times(count, f)`: the i-th value is stored under "item_<i>". */
  lemma {:induction false} TimesStores(e: Entries, ns: Namespace, count: int, f: nat -> Json, stamp: int, i: nat)
    requires i < count
    ensures Dict.Get(PutAll(e, ns, TimesPairs(count, f), stamp), ns.Head() + ItemKey(i)) ==
      Some(EnvelopeText(f(i), stamp))
  {
    var pairs := TimesPairs(count, f);
    forall a, b | 0 <= a < b < |pairs| ensures ns.NormalizeKey(pairs[a].0) != ns.NormalizeKey(pairs[b].0) {
      ItemKeyStored(ns, a);
      ItemKeyStored(ns, b);
      if ns.NormalizeKey(pairs[a].0) == ns.NormalizeKey(pairs[b].0) {
        assert ItemKey(a) == (ns.Head() + ItemKey(a))[|ns.Head()|..];
        assert ItemKey(b) == (ns.Head() + ItemKey(b))[|ns.Head()|..];
        ItemKeyInjective(a, b);
      }
    }
    PutAllGet(e, ns, pairs, stamp, i);
    ItemKeyStored(ns, i);
  }

  // ---------------------------------------------------------------- expiry

  /** Expiring keys keeps readable entries readable and adds none. */
  lemma {:induction false} ExpireAllStored(e: Entries, ns: Namespace, keys: seq<string>, m: int, now: int, pk: string)
    ensures Stored(Dict.Get(ExpireAll(e, ns, keys, m, now), pk)).Some? <==> Stored(Dict.Get(e, pk)).Some?
  {
    if keys != [] {
      var front := ExpireAll(e, ns, keys[..|keys| - 1], m, now);
      var key := keys[|keys| - 1];
      ExpireAllStored(e, ns, keys[..|keys| - 1], m, now, pk);
      match Stored(Dict.Get(front, ns.NormalizeKey(key)))
      case None =>
      case Some(j) =>
        Dict.GetPut(front, ns.NormalizeKey(key), EnvelopeText(Unwrap(j), Stamp(now, m)), pk);
        ParseEnvelope(Unwrap(j), Stamp(now, m));
    }
  }

  /** `expire` on one key leaves the remaining time of every key stored
      elsewhere alone. */
  lemma {:induction false} ExpireOtherRemaining(e: Entries, ns: Namespace, key: string, k: string, m: int, now: int)
    requires ns.NormalizeKey(key) != ns.NormalizeKey(k)
    ensures RemainingIn(AfterExpire(e, ns, key, m, now), ns, k, now) == RemainingIn(e, ns, k, now)
  {
    match Stored(Dict.Get(e, ns.NormalizeKey(key)))
    case None =>
    case Some(j) =>
      Dict.GetPut(e, ns.NormalizeKey(key), EnvelopeText(Unwrap(j), Stamp(now, m)), ns.NormalizeKey(k));
  }

  /** Two keys with one physical key report the same remaining time. */
  lemma {:induction false} SamePhysicalRemaining(e: Entries, ns: Namespace, a: string, b: string, now: int)
    requires ns.NormalizeKey(a) == ns.NormalizeKey(b)
    ensures RemainingIn(e, ns, a, now) == RemainingIn(e, ns, b, now)
  {
  }

  /** `expireMany(keys, m)`: every listed key that held a readable entry
      then reports m minutes (Infinity when m is not positive). */
  lemma {:induction false} ExpireManyRemaining(e: Entries, ns: Namespace, keys: seq<string>, m: int, now: int, i: nat)
    requires now >= 0 && i < |keys|
    requires Stored(Dict.Get(e, ns.NormalizeKey(keys[i]))).Some?
    ensures RemainingIn(ExpireAll(e, ns, keys, m, now), ns, keys[i], now) == if m > 0 then Minutes(m) else Storage.Forever
  {
    if i < |keys| - 1 && ns.NormalizeKey(keys[|keys| - 1]) != ns.NormalizeKey(keys[i]) {
      assert keys[..|keys| - 1][i] == keys[i];
      ExpireManyRemaining(e, ns, keys[..|keys| - 1], m, now, i);
      ExpireManyOther(e, ns, keys, m, now, i, if m > 0 then Minutes(m) else Storage.Forever);
    } else {
      ExpireManyLast(e, ns, keys, m, now, i);
    }
  }

  /** The last key expired is stored where keys[i] is. */
  lemma {:induction false} ExpireManyLast(e: Entries, ns: Namespace, keys: seq<string>, m: int, now: int, i: nat)
    requires now >= 0 && i < |keys|
    requires i == |keys| - 1 || ns.NormalizeKey(keys[|keys| - 1]) == ns.NormalizeKey(keys[i])
    requires Stored(Dict.Get(e, ns.NormalizeKey(keys[i]))).Some?
    ensures RemainingIn(ExpireAll(e, ns, keys, m, now), ns, keys[i], now) == if m > 0 then Minutes(m) else Storage.Forever
  {
    assert ns.NormalizeKey(keys[|keys| - 1]) == ns.NormalizeKey(keys[i]);
    ExpireAllStored(e, ns, keys[..|keys| - 1], m, now, ns.NormalizeKey(keys[i]));
    LastExpiredRemaining(ExpireAll(e, ns, keys[..|keys| - 1], m, now), ns, keys[|keys| - 1], keys[i], m, now);
    ExpireAllLast(e, ns, keys, m, now);
  }

  /** expire(key) and then a key with the same physical key. */
  lemma {:induction false} LastExpiredRemaining(front: Entries, ns: Namespace, key: string, k: string, m: int, now: int)
    requires now >= 0 && ns.NormalizeKey(key) == ns.NormalizeKey(k)
    requires Stored(Dict.Get(front, ns.NormalizeKey(k))).Some?
    ensures RemainingIn(AfterExpire(front, ns, key, m, now), ns, k, now) == if m > 0 then Minutes(m) else Storage.Forever
  {
    ExpireThenRemaining(front, ns, key, m, now);
    SamePhysicalRemaining(AfterExpire(front, ns, key, m, now), ns, key, k, now);
  }

  /** The last key expired is stored elsewhere: keys[i] keeps what the
      earlier keys left. */
  lemma {:induction false} ExpireManyOther(e: Entries, ns: Namespace, keys: seq<string>, m: int, now: int, i: nat, r: Remaining)
    requires i < |keys| - 1
    requires ns.NormalizeKey(keys[|keys| - 1]) != ns.NormalizeKey(keys[i])
    requires RemainingIn(ExpireAll(e, ns, keys[..|keys| - 1], m, now), ns, keys[i], now) == r
    ensures RemainingIn(ExpireAll(e, ns, keys, m, now), ns, keys[i], now) == r
  {
    ExpireAllLast(e, ns, keys, m, now);
    ExpireOtherRemaining(ExpireAll(e, ns, keys[..|keys| - 1], m, now), ns, keys[|keys| - 1], keys[i], m, now);
  }

  /** `expireMany` over a list is `expire` on its last key after the rest. */
  lemma {:induction false} ExpireAllLast(e: Entries, ns: Namespace, keys: seq<string>, m: int, now: int)
    requires keys != []
    ensures ExpireAll(e, ns, keys, m, now) ==
      AfterExpire(ExpireAll(e, ns, keys[..|keys| - 1], m, now), ns, keys[|keys| - 1], m, now)
  {
  }

  /** `extend(k, x)` on c remaining minutes leaves c + x (Infinity once
      that is not positive). */
  lemma {:induction false} ExtendRemaining(e: Entries, ns: Namespace, k: string, c: nat, x: int, now: int)
    requires now >= 0 && RemainingIn(e, ns, k, now) == Minutes(c)
    ensures RemainingIn(AfterExpire(e, ns, k, c + x, now), ns, k, now) ==
      if c + x > 0 then Minutes(c + x) else Storage.Forever
  {
    ExpireThenRemaining(e, ns, k, c + x, now);
  }

  /** `reduce(k, x)` on c remaining minutes leaves c - x when that is
      positive; reducing to 0 or below writes 0, which means "never", so
      the key then reports Infinity rather than 0. */
  lemma {:induction false} ReduceRemaining(e: Entries, ns: Namespace, k: string, c: nat, x: int, now: int)
    requires now >= 0 && RemainingIn(e, ns, k, now) == Minutes(c)
    ensures RemainingIn(AfterExpire(e, ns, k, AtLeastZero(c - x), now), ns, k, now) ==
      if c > x then Minutes(c - x) else Storage.Forever
  {
    ExpireThenRemaining(e, ns, k, AtLeastZero(c - x), now);
  }

  /** `reduce(k, x)` on a never-expiring key gives it x minutes, where
      `extend` would have left it alone: the asymmetry of the two helpers. */
  lemma {:induction false} ReduceForever(e: Entries, ns: Namespace, k: string, x: int, now: int)
    requires now >= 0 && RemainingIn(e, ns, k, now) == Storage.Forever
    ensures RemainingIn(AfterExpire(e, ns, k, x, now), ns, k, now) == if x > 0 then Minutes(x) else Storage.Forever
  {
    ExpireThenRemaining(e, ns, k, x, now);
  }

  /** From 10 minutes, `extend(k, 5)` leaves 15 and `reduce(k, 15)` leaves
      a key that never expires. */
  lemma {:induction false} ExtendReduceExample(e: Entries, ns: Namespace, k: string, now: int)
    requires now >= 0 && RemainingIn(e, ns, k, now) == Minutes(10)
    ensures RemainingIn(AfterExpire(e, ns, k, 10 + 5, now), ns, k, now) == Minutes(15)
    ensures RemainingIn(AfterExpire(e, ns, k, AtLeastZero(10 - 15), now), ns, k, now) == Storage.Forever
  {
    ExtendRemaining(e, ns, k, 10, 5, now);
    ReduceRemaining(e, ns, k, 10, 15, now);
  }
}

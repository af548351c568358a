/** StorageUtils: the helpers layered on StorageCore. Each helper runs through
    the core's `get`, `set`, `remove`, `clear`, `getAll`, `expire` and
    `getExpire`, so each one inherits their effects on the storage area:
    even a question such as `has` deletes an expired entry it reads.
    Callbacks are pure: their results are parameters of the helper, or
    functions the helper applies. */
module Utils {

  import opened Wrappers
  import opened Json
  import opened JsonText
  import Dict
  import opened BaseAdapter
  import opened Adapters
  import opened Storage

  // ---------------------------------------------------------------- counters

  /** The start of a counter: `get(key) || 0`, when that is a number. */
  function Counter(v: Option<Json>): (r: Option<int>)
    ensures v.None? ==> r == Some(0)
    ensures r.None? <==> v.Some? && Truthy(v.value) && !v.value.JNum?
  {
    match v
    case None => Some(0)
    case Some(j) => if !Truthy(j) then Some(0) else if j.JNum? then Some(j.n) else None
  }

  /** What `increment(key, amount)` returns, or the error it throws. */
  function Bumped(e: Entries, ns: Namespace, key: string, amount: int, now: int): Result<int> {
    match Counter(GetValue(e, ns, key, now))
    case Some(n) => Ok(n + amount)
    case None => Err("Cannot increment non-numeric value for key: " + key)
  }

  // ---------------------------------------------------------------- scans

  /** What `get` returns for each key when all are read from the same area.
      A run of `get`s reads exactly these: one `get` deletes only its own
      expired entry, which reads as null either way (SweepKeepsValues). */
  function Gets(e: Entries, ns: Namespace, keys: seq<string>, now: int): (r: seq<Option<Json>>)
    ensures |r| == |keys|
  {
    if keys == [] then [] else Gets(e, ns, keys[..|keys| - 1], now) + [GetValue(e, ns, keys[|keys| - 1], now)]
  }

  /** The index of the first value whose presence (`has`) is `want`. */
  function HitIn(vals: seq<Option<Json>>, want: bool): (r: Option<nat>)
    ensures r.Some? ==> r.value < |vals|
  {
    if vals == [] then None
    else
      match HitIn(vals[..|vals| - 1], want)
      case Some(i) => Some(i)
      case None => if vals[|vals| - 1].Some? == want then Some(|vals| - 1) else None
  }

  /** How many values a forward scan for `want` reads before it stops. */
  function TriedIn(vals: seq<Option<Json>>, want: bool): (n: nat)
    ensures n <= |vals|
  {
    match HitIn(vals, want)
    case Some(i) => i + 1
    case None => |vals|
  }

  /** What a forward scan such as `first` returns: the first present value. */
  function FirstIn(vals: seq<Option<Json>>): Option<Json> {
    if vals == [] then None
    else
      match FirstIn(vals[..|vals| - 1])
      case Some(v) => Some(v)
      case None => vals[|vals| - 1]
  }

  /** The index of the last present value: where a backward scan stops. */
  function LastHitIn(vals: seq<Option<Json>>): (r: Option<nat>)
    ensures r.Some? ==> r.value < |vals|
  {
    if vals == [] then None
    else
      match LastHitIn(vals[1..])
      case Some(j) => Some(j + 1)
      case None => if vals[0].Some? then Some(0) else None
  }

  /** The lowest index a backward scan reads: its stop, or 0. */
  function LastStop(vals: seq<Option<Json>>): (n: nat)
    ensures n <= |vals|
  {
    match LastHitIn(vals)
    case Some(j) => j
    case None => 0
  }

  /** What a backward scan such as `last` returns: the last present value. */
  function LastIn(vals: seq<Option<Json>>): Option<Json> {
    if vals == [] then None
    else
      match LastIn(vals[1..])
      case Some(v) => Some(v)
      case None => vals[0]
  }

  /** The area after `get` on each of ks, from the last key to the first. */
  function SweepDown(e: Entries, ns: Namespace, ks: seq<string>, now: int): Entries {
    if ks == [] then e
    else AfterGet(SweepDown(e, ns, ks[1..], now), ns, ks[0], now)
  }

  /** The dictionary `only(...keys)` builds. */
  function OnlyOf(e: Entries, ns: Namespace, keys: seq<string>, now: int): seq<(string, Json)> {
    if keys == [] then []
    else
      var r := OnlyOf(e, ns, keys[..|keys| - 1], now);
      match GetValue(e, ns, keys[|keys| - 1], now)
      case Some(v) => Dict.Put(r, keys[|keys| - 1], v)
      case None => r
  }

  /** The key `times` writes its i-th value under. */
  function ItemKey(i: nat): string {
    "item_" + NatToString(i)
  }

  /** The pairs `times(count, callback)` writes, in order. */
  function TimesPairs(count: int, f: nat -> Json): (r: seq<(string, Json)>)
    ensures |r| == if count <= 0 then 0 else count
    ensures forall i: nat :: i < |r| ==> r[i] == (ItemKey(i), f(i))
  {
    if count <= 0 then [] else seq(count, (i: int) requires 0 <= i < count => (ItemKey(i), f(i)))
  }

  /** The area after `expire(key, minutes)` on each key in turn. */
  function ExpireAll(e: Entries, ns: Namespace, keys: seq<string>, minutes: int, now: int): Entries {
    if keys == [] then e
    else AfterExpire(ExpireAll(e, ns, keys[..|keys| - 1], minutes, now), ns, keys[|keys| - 1], minutes, now)
  }

  /** `Math.max(0, n)`. */
  function AtLeastZero(n: int): (r: nat)
    ensures r >= n && (r == 0 || r == n)
  {
    if n < 0 then 0 else n
  }

  /** The keys of a list, as a set. */
  function KeySet(keys: seq<string>): set<string> {
    set k | k in keys
  }

  /** `[...keys].sort(() => 0.5 - Math.random())` cut to its first `want`
      entries: `want` distinct positions below n, in an order left open. */
  method Draw(n: nat, want: nat) returns (picks: seq<nat>)
    requires want <= n
    ensures |picks| == want
    ensures forall t :: 0 <= t < want ==> picks[t] < n
    ensures forall s, t :: 0 <= s < t < want ==> picks[s] != picks[t]
  {
    var rest: seq<nat> := seq(n, (i: int) requires 0 <= i < n => i as nat);
    picks := [];
    while |picks| < want
      invariant |picks| <= want && |picks| + |rest| == n
      invariant forall t :: 0 <= t < |picks| ==> picks[t] < n
      invariant forall t :: 0 <= t < |rest| ==> rest[t] < n
      invariant forall s, t :: 0 <= s < t < |picks| ==> picks[s] != picks[t]
      invariant forall s, t :: 0 <= s < t < |rest| ==> rest[s] != rest[t]
      invariant forall s, t :: 0 <= s < |picks| && 0 <= t < |rest| ==> picks[s] != rest[t]
      decreases want - |picks|
    {
      var j :| 0 <= j < |rest|;
      picks := picks + [rest[j]];
      rest := rest[..j] + rest[j + 1..];
    }
  }

  /** The `delete` loop of `except`: each key in turn leaves the dictionary. */
  method DeleteKeys(all: seq<(string, Json)>, keys: seq<string>) returns (r: seq<(string, Json)>)
    ensures r == Dict.Without(all, KeySet(keys))
  {
    r := all;
    assert Dict.Without(all, {}) == all by {
      WithoutNothing(all);
    }
    var i := 0;
    assert KeySet(keys[..0]) == {};
    while i < |keys|
      invariant 0 <= i <= |keys|
      invariant r == Dict.Without(all, KeySet(keys[..i]))
    {
      Dict.DeleteWithout(all, KeySet(keys[..i]), keys[i]);
      assert KeySet(keys[..i + 1]) == KeySet(keys[..i]) + {keys[i]} by {
        assert keys[..i + 1] == keys[..i] + [keys[i]];
      }
      r := Dict.Delete(r, keys[i]);
      i := i + 1;
    }
    Dict.WholePrefix(keys);
  }

  /** What `random(count)` returns. */
  datatype Pick = One(value: Option<Json>) | Several(values: seq<Json>)

  // ---------------------------------------------------------------- the class

  class StorageUtils {
    const core: StorageCore

    constructor (core: StorageCore)
      ensures this.core == core
    {
      this.core := core;
    }

    predicate Valid()
      reads core.adapter.store
    {
      core.Valid()
    }

    /** The entries of the storage area. */
    function Contents(): Entries
      reads core.adapter.store
    {
      core.adapter.store.entries
    }

    /** `increment(key, amount)`: a counter read with `get`, written back with
        `set` under the default expiry; anything other than a number throws
        before writing. */
    method Increment(key: string, amount: int, now: int) returns (r: Result<int>)
      requires Valid()
      modifies core.adapter.store
      ensures Valid()
      ensures r == Bumped(old(Contents()), core.adapter.ns, key, amount, now)
      ensures r.Ok? ==> Contents() == Dict.Put(AfterGet(old(Contents()), core.adapter.ns, key, now),
        core.adapter.ns.NormalizeKey(key), EnvelopeText(JNum(r.value), Stamp(now, EffectiveMinutes(None, core.defaultExpire))))
      ensures r.Err? ==> Contents() == AfterGet(old(Contents()), core.adapter.ns, key, now)
    {
      var value := core.Get(key, now);
      var current := if value.None? || !Truthy(value.value) then JNum(0) else value.value;
      if !current.JNum? {
        return Err("Cannot increment non-numeric value for key: " + key);
      }
      var newValue := current.n + amount;
      core.Set(key, JNum(newValue), None, now);
      return Ok(newValue);
    }

    /** `decrement(key, amount)` is `increment(key, -amount)`. */
    method Decrement(key: string, amount: int, now: int) returns (r: Result<int>)
      requires Valid()
      modifies core.adapter.store
      ensures Valid()
      ensures r == Bumped(old(Contents()), core.adapter.ns, key, -amount, now)
      ensures r.Ok? ==> Contents() == Dict.Put(AfterGet(old(Contents()), core.adapter.ns, key, now),
        core.adapter.ns.NormalizeKey(key), EnvelopeText(JNum(r.value), Stamp(now, EffectiveMinutes(None, core.defaultExpire))))
      ensures r.Err? ==> Contents() == AfterGet(old(Contents()), core.adapter.ns, key, now)
    {
      r := Increment(key, -amount, now);
    }

    /** `remember(key, callback, expire)`: the stored value if there is one,
        otherwise the callback's value, which is stored. */
    method Remember(key: string, computed: Json, expire: Option<int>, now: int) returns (r: Json)
      requires Valid()
      modifies core.adapter.store
      ensures Valid()
      ensures GetValue(old(Contents()), core.adapter.ns, key, now).Some? ==>
        r == GetValue(old(Contents()), core.adapter.ns, key, now).value &&
        Contents() == AfterGet(old(Contents()), core.adapter.ns, key, now)
      ensures GetValue(old(Contents()), core.adapter.ns, key, now).None? ==>
        r == computed &&
        Contents() == Dict.Put(AfterGet(old(Contents()), core.adapter.ns, key, now),
          core.adapter.ns.NormalizeKey(key), EnvelopeText(computed, Stamp(now, EffectiveMinutes(expire, core.defaultExpire))))
    {
      var value := core.Get(key, now);
      if value.Some? {
        return value.value;
      }
      core.Set(key, computed, expire, now);
      return computed;
    }

    /** `pull(key)`: `get`, then `remove`. */
    method Pull(key: string, now: int) returns (r: Option<Json>)
      requires Valid()
      modifies core.adapter.store
      ensures Valid()
      ensures r == GetValue(old(Contents()), core.adapter.ns, key, now)
      ensures Contents() == Dict.Delete(old(Contents()), core.adapter.ns.NormalizeKey(key))
    {
      ghost var e := Contents();
      r := core.Get(key, now);
      core.Remove([key]);
      assert [key][..0] == [];
      if View(e, core.adapter.ns, key, now) == Expired {
        Dict.DeleteTwice(e, core.adapter.ns.NormalizeKey(key));
      }
    }

    /** `has(key)`: `get(key) !== null`. */
    method Has(key: string, now: int) returns (r: bool)
      requires Valid()
      modifies core.adapter.store
      ensures Valid()
      ensures r == GetValue(old(Contents()), core.adapter.ns, key, now).Some?
      ensures Contents() == AfterGet(old(Contents()), core.adapter.ns, key, now)
    {
      var value := core.Get(key, now);
      r := value.Some?;
    }

    method Exists(key: string, now: int) returns (r: bool)
      requires Valid()
      modifies core.adapter.store
      ensures Valid()
      ensures r == GetValue(old(Contents()), core.adapter.ns, key, now).Some?
      ensures Contents() == AfterGet(old(Contents()), core.adapter.ns, key, now)
    {
      r := Has(key, now);
    }

    method Missing(key: string, now: int) returns (r: bool)
      requires Valid()
      modifies core.adapter.store
      ensures Valid()
      ensures r == GetValue(old(Contents()), core.adapter.ns, key, now).None?
      ensures Contents() == AfterGet(old(Contents()), core.adapter.ns, key, now)
    {
      var h := Has(key, now);
      r := !h;
    }

    /** `put(key, value, expire)` is `set`. */
    method Put(key: string, value: Json, expire: Option<int>, now: int)
      requires Valid()
      modifies core.adapter.store
      ensures Valid()
      ensures Contents() == Dict.Put(old(Contents()), core.adapter.ns.NormalizeKey(key),
        EnvelopeText(value, Stamp(now, EffectiveMinutes(expire, core.defaultExpire))))
    {
      core.Set(key, value, expire, now);
    }

    /** `add(key, value, expire)`: writes only when `has(key)` is false. */
    method Add(key: string, value: Json, expire: Option<int>, now: int) returns (r: bool)
      requires Valid()
      modifies core.adapter.store
      ensures Valid()
      ensures r == GetValue(old(Contents()), core.adapter.ns, key, now).None?
      ensures !r ==> Contents() == AfterGet(old(Contents()), core.adapter.ns, key, now)
      ensures r ==> Contents() == Dict.Put(AfterGet(old(Contents()), core.adapter.ns, key, now),
        core.adapter.ns.NormalizeKey(key), EnvelopeText(value, Stamp(now, EffectiveMinutes(expire, core.defaultExpire))))
    {
      var h := Has(key, now);
      if h {
        return false;
      }
      core.Set(key, value, expire, now);
      return true;
    }

    /** `forever(key, value)`: `set` with 0 minutes, which is "never". */
    method Forever(key: string, value: Json, now: int)
      requires Valid()
      modifies core.adapter.store
      ensures Valid()
      ensures Contents() == Dict.Put(old(Contents()), core.adapter.ns.NormalizeKey(key), EnvelopeText(value, 0))
    {
      core.Set(key, value, Some(0), now);
    }

    /** `forget(...keys)` is `remove`. */
    method Forget(keys: seq<string>)
      requires Valid()
      modifies core.adapter.store
      ensures Valid()
      ensures Contents() == RemoveKeys(old(Contents()), core.adapter.ns, keys)
    {
      core.Remove(keys);
    }

    /** `flush()` is `clear`. */
    method Flush()
      requires Valid()
      modifies core.adapter.store
      ensures Valid()
      ensures Contents() == ClearWalk(core.adapter.ns, old(Contents()), 0)
    {
      core.Clear();
    }

    /** `except(...keys)`: the `getAll` dictionary with the keys deleted. */
    method Except(keys: seq<string>, now: int) returns (r: seq<(string, Json)>)
      requires Valid()
      modifies core.adapter.store
      ensures Valid()
      ensures r == Dict.Without(Collect(core.adapter.ns, Owned(core.adapter.ns, old(Contents())), now), KeySet(keys))
      ensures Contents() == RemoveKeys(old(Contents()), core.adapter.ns,
        Doomed(core.adapter.ns, Owned(core.adapter.ns, old(Contents())), now))
    {
      var all := core.GetAll(now);
      r := DeleteKeys(all, keys);
    }

    /** `keys.some(key => has(key) === want)`: asks `has` about each key in
        turn and stops at the first answer equal to `want`. */
    method SomeHas(keys: seq<string>, want: bool, now: int) returns (found: bool)
      requires Valid()
      modifies core.adapter.store
      ensures Valid()
      ensures found <==> exists i :: 0 <= i < |keys| && Gets(old(Contents()), core.adapter.ns, keys, now)[i].Some? == want
      ensures Contents() == Sweep(old(Contents()), core.adapter.ns,
        keys[..TriedIn(Gets(old(Contents()), core.adapter.ns, keys, now), want)], now)
    {
      ghost var e := Contents();
      found := false;
      var i := 0;
      while i < |keys| && !found
        invariant 0 <= i <= |keys| && Valid()
        invariant HitIn(Gets(e, core.adapter.ns, keys[..i], now), want) == if found then Some(i - 1) else None
        invariant Contents() == Sweep(e, core.adapter.ns, keys[..i], now)
      {
        ghost var vals := Gets(e, core.adapter.ns, keys[..i], now);
        var value := ReadNext(e, keys, i, now);
        found := value.Some? == want;
        ForwardStep(vals, value, want);
        i := i + 1;
      }
      ScanEnd(e, core.adapter.ns, keys, now, i, want);
      HitInMeaning(Gets(e, core.adapter.ns, keys, now), want);
    }

    /** `hasAny(keys)`: some key has a value; false for no keys. */
    method HasAny(keys: seq<string>, now: int) returns (r: bool)
      requires Valid()
      modifies core.adapter.store
      ensures Valid()
      ensures r <==> exists i :: 0 <= i < |keys| && Gets(old(Contents()), core.adapter.ns, keys, now)[i].Some?
      ensures Contents() == Sweep(old(Contents()), core.adapter.ns,
        keys[..TriedIn(Gets(old(Contents()), core.adapter.ns, keys, now), true)], now)
    {
      r := SomeHas(keys, true, now);
    }

    /** `hasAll(keys)`: every key has a value; true for no keys. */
    method HasAll(keys: seq<string>, now: int) returns (r: bool)
      requires Valid()
      modifies core.adapter.store
      ensures Valid()
      ensures r <==> forall i :: 0 <= i < |keys| ==> Gets(old(Contents()), core.adapter.ns, keys, now)[i].Some?
      ensures Contents() == Sweep(old(Contents()), core.adapter.ns,
        keys[..TriedIn(Gets(old(Contents()), core.adapter.ns, keys, now), false)], now)
    {
      var missing := SomeHas(keys, false, now);
      r := !missing;
    }

    /** `missingAny(keys)`: some key has no value; false for no keys. */
    method MissingAny(keys: seq<string>, now: int) returns (r: bool)
      requires Valid()
      modifies core.adapter.store
      ensures Valid()
      ensures r <==> exists i :: 0 <= i < |keys| && Gets(old(Contents()), core.adapter.ns, keys, now)[i].None?
      ensures Contents() == Sweep(old(Contents()), core.adapter.ns,
        keys[..TriedIn(Gets(old(Contents()), core.adapter.ns, keys, now), false)], now)
    {
      r := SomeHas(keys, false, now);
    }

    /** `missingAll(keys)`: no key has a value; true for no keys. */
    method MissingAll(keys: seq<string>, now: int) returns (r: bool)
      requires Valid()
      modifies core.adapter.store
      ensures Valid()
      ensures r <==> forall i :: 0 <= i < |keys| ==> Gets(old(Contents()), core.adapter.ns, keys, now)[i].None?
      ensures Contents() == Sweep(old(Contents()), core.adapter.ns,
        keys[..TriedIn(Gets(old(Contents()), core.adapter.ns, keys, now), true)], now)
    {
      var present := SomeHas(keys, true, now);
      r := !present;
    }

    /** `only(...keys)`: the keys whose `get` is not null, with their values. */
    method Only(keys: seq<string>, now: int) returns (r: seq<(string, Json)>)
      requires Valid()
      modifies core.adapter.store
      ensures Valid()
      ensures r == OnlyOf(old(Contents()), core.adapter.ns, keys, now)
      ensures Contents() == Sweep(old(Contents()), core.adapter.ns, keys, now)
    {
      ghost var e := Contents();
      var ns := core.adapter.ns;
      r := [];
      var i := 0;
      while i < |keys|
        invariant 0 <= i <= |keys| && Valid()
        invariant r == OnlyOf(e, ns, keys[..i], now)
        invariant Contents() == Sweep(e, ns, keys[..i], now)
      {
        SweepKeepsValues(e, ns, keys[..i], keys[i], now);
        SweepStep(e, ns, keys, i, now);
        OnlyStep(e, ns, keys, i, now);
        var value := core.Get(keys[i], now);
        if value.Some? {
          r := Dict.Put(r, keys[i], value.value);
        }
        i := i + 1;
      }
      Dict.WholePrefix(keys);
    }

    /** The i-th `get` of a forward scan over keys. */
    method ReadNext(ghost e: Entries, keys: seq<string>, i: nat, now: int) returns (value: Option<Json>)
      requires Valid() && i < |keys| && Contents() == Sweep(e, core.adapter.ns, keys[..i], now)
      modifies core.adapter.store
      ensures Valid() && Contents() == Sweep(e, core.adapter.ns, keys[..i + 1], now)
      ensures Gets(e, core.adapter.ns, keys[..i + 1], now) == Gets(e, core.adapter.ns, keys[..i], now) + [value]
    {
      GetsStep(e, core.adapter.ns, keys, i, now);
      SweepStep(e, core.adapter.ns, keys, i, now);
      SweepKeepsValues(e, core.adapter.ns, keys[..i], keys[i], now);
      value := core.Get(keys[i], now);
    }

    /** The `get` of keys[i] in a backward scan over keys. */
    method ReadPrev(ghost e: Entries, keys: seq<string>, i: nat, now: int) returns (value: Option<Json>)
      requires Valid() && i < |keys| && Contents() == SweepDown(e, core.adapter.ns, keys[i + 1..], now)
      modifies core.adapter.store
      ensures Valid() && Contents() == SweepDown(e, core.adapter.ns, keys[i..], now)
      ensures Gets(e, core.adapter.ns, keys[i..], now) == [value] + Gets(e, core.adapter.ns, keys[i + 1..], now)
    {
      GetsBackStep(e, core.adapter.ns, keys, i, now);
      SweepDownKeepsValues(e, core.adapter.ns, keys[i + 1..], keys[i], now);
      value := core.Get(keys[i], now);
      assert keys[i..][1..] == keys[i + 1..];
    }

    /** `first(keys)`: the first value found scanning forward, or null. */
    method First(keys: seq<string>, now: int) returns (r: Option<Json>)
      requires Valid()
      modifies core.adapter.store
      ensures Valid()
      ensures r == FirstIn(Gets(old(Contents()), core.adapter.ns, keys, now))
      ensures Contents() == Sweep(old(Contents()), core.adapter.ns,
        keys[..TriedIn(Gets(old(Contents()), core.adapter.ns, keys, now), true)], now)
    {
      ghost var e := Contents();
      r := None;
      var i := 0;
      while i < |keys| && r.None?
        invariant 0 <= i <= |keys| && Valid()
        invariant r == FirstIn(Gets(e, core.adapter.ns, keys[..i], now))
        invariant HitIn(Gets(e, core.adapter.ns, keys[..i], now), true) == if r.Some? then Some(i - 1) else None
        invariant Contents() == Sweep(e, core.adapter.ns, keys[..i], now)
      {
        ghost var vals := Gets(e, core.adapter.ns, keys[..i], now);
        r := ReadNext(e, keys, i, now);
        ForwardStep(vals, r, true);
        i := i + 1;
      }
      ScanEnd(e, core.adapter.ns, keys, now, i, true);
    }

    /** `last(keys)`: the first value found scanning backward, or null. */
    method Last(keys: seq<string>, now: int) returns (r: Option<Json>)
      requires Valid()
      modifies core.adapter.store
      ensures Valid()
      ensures r == LastIn(Gets(old(Contents()), core.adapter.ns, keys, now))
      ensures Contents() == SweepDown(old(Contents()), core.adapter.ns,
        keys[LastStop(Gets(old(Contents()), core.adapter.ns, keys, now))..], now)
    {
      ghost var e := Contents();
      r := None;
      var i := |keys|;
      while i > 0 && r.None?
        invariant 0 <= i <= |keys| && Valid()
        invariant r == LastIn(Gets(e, core.adapter.ns, keys[i..], now))
        invariant LastHitIn(Gets(e, core.adapter.ns, keys[i..], now)) == if r.Some? then Some(0) else None
        invariant Contents() == SweepDown(e, core.adapter.ns, keys[i..], now)
      {
        ghost var vals := Gets(e, core.adapter.ns, keys[i..], now);
        r := ReadPrev(e, keys, i - 1, now);
        BackwardStep(r, vals);
        i := i - 1;
      }
      BackScanEnd(e, core.adapter.ns, keys, now, i);
    }

    /** `random(count)`: one value of `getAll` when count is 1, otherwise
        min(count, n) values from distinct keys in a random order. The
        random choices are left open: `picks` are the positions chosen in
        the `getAll` dictionary. */
    method Random(count: int, now: int) returns (r: Pick, ghost picks: seq<nat>)
      requires Valid()
      modifies core.adapter.store
      ensures Valid()
      ensures Contents() == RemoveKeys(old(Contents()), core.adapter.ns,
        Doomed(core.adapter.ns, Owned(core.adapter.ns, old(Contents())), now))
      ensures var all := Collect(core.adapter.ns, Owned(core.adapter.ns, old(Contents())), now);
        && (count == 1 <==> r.One?)
        && (r.One? ==> (r.value.None? <==> all == []))
        && (r.One? && r.value.Some? ==> |picks| == 1 && picks[0] < |all| && r.value.value == all[picks[0]].1)
        && (r.Several? ==> |r.values| == (if count <= 0 then 0 else if count < |all| then count else |all|))
        && (r.Several? ==> |picks| == |r.values|)
        && (r.Several? ==> forall t :: 0 <= t < |picks| ==> picks[t] < |all| && r.values[t] == all[picks[t]].1)
        && (forall s, t :: 0 <= s < t < |picks| ==> picks[s] != picks[t])
    {
      var all := core.GetAll(now);
      var n := |all|;
      picks := [];
      if n == 0 {
        if count == 1 {
          return One(None), picks;
        }
        return Several([]), picks;
      }
      if count == 1 {
        var i :| 0 <= i < n;
        picks := [i];
        return One(Some(all[i].1)), picks;
      }
      var want := if count <= 0 then 0 else if count < n then count else n;
      var drawn := Draw(n, want);
      picks := drawn;
      var values := seq(want, (t: int) requires 0 <= t < want => all[drawn[t]].1);
      return Several(values), picks;
    }

    /** `isEmpty(key)`: `empty(get(key))`. */
    method IsEmpty(key: string, now: int) returns (r: bool)
      requires Valid()
      modifies core.adapter.store
      ensures Valid()
      ensures r == Empty(GetValue(old(Contents()), core.adapter.ns, key, now))
      ensures Contents() == AfterGet(old(Contents()), core.adapter.ns, key, now)
    {
      var value := core.Get(key, now);
      r := Empty(value);
    }

    method IsNotEmpty(key: string, now: int) returns (r: bool)
      requires Valid()
      modifies core.adapter.store
      ensures Valid()
      ensures r == !Empty(GetValue(old(Contents()), core.adapter.ns, key, now))
      ensures Contents() == AfterGet(old(Contents()), core.adapter.ns, key, now)
    {
      var empty := IsEmpty(key, now);
      r := !empty;
    }

    /** `count()`: the number of keys of a `getAll` snapshot. */
    method Count(now: int) returns (r: nat)
      requires Valid()
      modifies core.adapter.store
      ensures Valid()
      ensures r == |Dict.Keys(Collect(core.adapter.ns, Owned(core.adapter.ns, old(Contents())), now))|
      ensures Contents() == RemoveKeys(old(Contents()), core.adapter.ns,
        Doomed(core.adapter.ns, Owned(core.adapter.ns, old(Contents())), now))
    {
      var all := core.GetAll(now);
      r := |Dict.Keys(all)|;
    }

    /** `keys()`: the keys of a `getAll` snapshot. */
    method Keys(now: int) returns (r: seq<string>)
      requires Valid()
      modifies core.adapter.store
      ensures Valid()
      ensures r == Dict.Keys(Collect(core.adapter.ns, Owned(core.adapter.ns, old(Contents())), now))
      ensures Contents() == RemoveKeys(old(Contents()), core.adapter.ns,
        Doomed(core.adapter.ns, Owned(core.adapter.ns, old(Contents())), now))
    {
      var all := core.GetAll(now);
      r := Dict.Keys(all);
    }

    /** `values()`: the values of a `getAll` snapshot. */
    method Values(now: int) returns (r: seq<Json>)
      requires Valid()
      modifies core.adapter.store
      ensures Valid()
      ensures r == Dict.Values(Collect(core.adapter.ns, Owned(core.adapter.ns, old(Contents())), now))
      ensures Contents() == RemoveKeys(old(Contents()), core.adapter.ns,
        Doomed(core.adapter.ns, Owned(core.adapter.ns, old(Contents())), now))
    {
      var all := core.GetAll(now);
      r := Dict.Values(all);
    }

    /** `keyExists(key)`: the key is among `keys()`. */
    method KeyExists(key: string, now: int) returns (r: bool)
      requires Valid()
      modifies core.adapter.store
      ensures Valid()
      ensures r <==> key in Dict.Keys(Collect(core.adapter.ns, Owned(core.adapter.ns, old(Contents())), now))
      ensures Contents() == RemoveKeys(old(Contents()), core.adapter.ns,
        Doomed(core.adapter.ns, Owned(core.adapter.ns, old(Contents())), now))
    {
      var ks := Keys(now);
      r := key in ks;
    }

    /** `tap(key, callback)`: a present value is replaced by what the
        callback makes of it, under the default expiry. */
    method Tap(key: string, f: Json -> Json, now: int)
      requires Valid()
      modifies core.adapter.store
      ensures Valid()
      ensures GetValue(old(Contents()), core.adapter.ns, key, now).None? ==>
        Contents() == AfterGet(old(Contents()), core.adapter.ns, key, now)
      ensures GetValue(old(Contents()), core.adapter.ns, key, now).Some? ==>
        Contents() == Dict.Put(AfterGet(old(Contents()), core.adapter.ns, key, now), core.adapter.ns.NormalizeKey(key),
          EnvelopeText(f(GetValue(old(Contents()), core.adapter.ns, key, now).value),
            Stamp(now, EffectiveMinutes(None, core.defaultExpire))))
    {
      var value := core.Get(key, now);
      if value.Some? {
        var newValue := f(value.value);
        core.Set(key, newValue, None, now);
      }
    }

    /** `times(count, callback, expire)`: writes callback(i) under
        "item_<i>" for i from 0 below count. */
    method Times(count: int, f: nat -> Json, expire: Option<int>, now: int)
      requires Valid()
      modifies core.adapter.store
      ensures Valid()
      ensures Contents() == PutAll(old(Contents()), core.adapter.ns, TimesPairs(count, f),
        Stamp(now, EffectiveMinutes(expire, core.defaultExpire)))
    {
      ghost var e := Contents();
      ghost var pairs := TimesPairs(count, f);
      ghost var stamp := Stamp(now, EffectiveMinutes(expire, core.defaultExpire));
      var i := 0;
      while i < count
        invariant 0 <= i <= |pairs| && Valid()
        invariant Contents() == PutAll(e, core.adapter.ns, pairs[..i], stamp)
      {
        core.Set(ItemKey(i), f(i), expire, now);
        Dict.PrefixStep(pairs, i);
        assert pairs[i] == (ItemKey(i), f(i));
        i := i + 1;
      }
      Dict.WholePrefix(pairs);
    }

    /** `wrap(key, callback, expire)`: the callback sees `get(key)`, and
        its result is stored and returned. */
    method Wrap(key: string, f: Option<Json> -> Json, expire: Option<int>, now: int) returns (r: Json)
      requires Valid()
      modifies core.adapter.store
      ensures Valid()
      ensures r == f(GetValue(old(Contents()), core.adapter.ns, key, now))
      ensures Contents() == Dict.Put(AfterGet(old(Contents()), core.adapter.ns, key, now),
        core.adapter.ns.NormalizeKey(key), EnvelopeText(r, Stamp(now, EffectiveMinutes(expire, core.defaultExpire))))
    {
      var value := core.Get(key, now);
      r := f(value);
      core.Set(key, r, expire, now);
    }

    /** `expireMany(keys, minutes)`: `expire` on each key in turn. */
    method ExpireMany(keys: seq<string>, minutes: int, now: int)
      requires Valid()
      modifies core.adapter.store
      ensures Valid()
      ensures Contents() == ExpireAll(old(Contents()), core.adapter.ns, keys, minutes, now)
    {
      ghost var e := Contents();
      var i := 0;
      while i < |keys|
        invariant 0 <= i <= |keys| && Valid()
        invariant Contents() == ExpireAll(e, core.adapter.ns, keys[..i], minutes, now)
      {
        core.Expire(keys[i], minutes, now);
        Dict.PrefixStep(keys, i);
        i := i + 1;
      }
      Dict.WholePrefix(keys);
    }

    /** `extend(key, minutes)`: a finite remaining time grows by minutes;
        an absent or never-expiring key is left alone. */
    method Extend(key: string, minutes: int, now: int)
      requires Valid()
      modifies core.adapter.store
      ensures Valid()
      ensures match RemainingIn(old(Contents()), core.adapter.ns, key, now)
        case Minutes(c) => Contents() == AfterExpire(old(Contents()), core.adapter.ns, key, c + minutes, now)
        case _ => Contents() == old(Contents())
    {
      var current := core.GetExpire(key, now);
      if current == NotFound {
        return;
      }
      if current == Storage.Forever {
        return;
      }
      core.Expire(key, current.m + minutes, now);
    }

    /** `reduce(key, minutes)`: a finite remaining time shrinks by minutes,
        down to 0, which means "never"; a never-expiring key is given the
        minutes. */
    method Reduce(key: string, minutes: int, now: int)
      requires Valid()
      modifies core.adapter.store
      ensures Valid()
      ensures match RemainingIn(old(Contents()), core.adapter.ns, key, now)
        case NotFound => Contents() == old(Contents())
        case Forever => Contents() == AfterExpire(old(Contents()), core.adapter.ns, key, minutes, now)
        case Minutes(c) => Contents() == AfterExpire(old(Contents()), core.adapter.ns, key, AtLeastZero(c - minutes), now)
    {
      var current := core.GetExpire(key, now);
      if current == NotFound {
        return;
      }
      if current == Storage.Forever {
        core.Expire(key, minutes, now);
        return;
      }
      var newExpire := AtLeastZero(current.m - minutes);
      core.Expire(key, newExpire, now);
    }
  }

  // ---------------------------------------------------------------- lemmas

  lemma {:induction false} WithoutNothing<K, V>(d: seq<(K, V)>)
    ensures Dict.Without(d, {}) == d
  {
    if d != [] {
      WithoutNothing(d[1..]);
    }
  }

  /** One more key read by a forward scan. */
  lemma {:induction false} OnlyStep(e: Entries, ns: Namespace, keys: seq<string>, i: nat, now: int)
    requires i < |keys|
    ensures OnlyOf(e, ns, keys[..i + 1], now) ==
      match GetValue(e, ns, keys[i], now)
      case Some(v) => Dict.Put(OnlyOf(e, ns, keys[..i], now), keys[i], v)
      case None => OnlyOf(e, ns, keys[..i], now)
  {
    Dict.PrefixStep(keys, i);
  }

  lemma {:induction false} GetsStep(e: Entries, ns: Namespace, keys: seq<string>, i: nat, now: int)
    requires i < |keys|
    ensures Gets(e, ns, keys[..i + 1], now) == Gets(e, ns, keys[..i], now) + [GetValue(e, ns, keys[i], now)]
  {
    Dict.PrefixStep(keys, i);
  }

  lemma {:induction false} GetsAppend(e: Entries, ns: Namespace, a: seq<string>, b: seq<string>, now: int)
    ensures Gets(e, ns, a + b, now) == Gets(e, ns, a, now) + Gets(e, ns, b, now)
    decreases |b|
  {
    if b != [] {
      var front := b[..|b| - 1];
      assert (a + b)[..|a + b| - 1] == a + front;
      GetsAppend(e, ns, a, front, now);
    } else {
      assert a + b == a;
    }
  }

  lemma {:induction false} GetsPrefix(e: Entries, ns: Namespace, keys: seq<string>, now: int, n: nat)
    requires n <= |keys|
    ensures Gets(e, ns, keys[..n], now) == Gets(e, ns, keys, now)[..n]
  {
    GetsAppend(e, ns, keys[..n], keys[n..], now);
    assert keys[..n] + keys[n..] == keys;
  }

  lemma {:induction false} GetsSuffix(e: Entries, ns: Namespace, keys: seq<string>, now: int, n: nat)
    requires n <= |keys|
    ensures Gets(e, ns, keys[n..], now) == Gets(e, ns, keys, now)[n..]
  {
    GetsAppend(e, ns, keys[..n], keys[n..], now);
    assert keys[..n] + keys[n..] == keys;
  }

  /** One more key read by a backward scan. */
  lemma {:induction false} GetsBackStep(e: Entries, ns: Namespace, keys: seq<string>, i: nat, now: int)
    requires i < |keys|
    ensures Gets(e, ns, keys[i..], now) == [GetValue(e, ns, keys[i], now)] + Gets(e, ns, keys[i + 1..], now)
  {
    var k := keys[i];
    assert [k] + keys[i + 1..] == keys[i..];
    GetsAppend(e, ns, [k], keys[i + 1..], now);
    GetsOne(e, ns, k, now);
  }

  lemma {:induction false} GetsOne(e: Entries, ns: Namespace, k: string, now: int)
    ensures Gets(e, ns, [k], now) == [GetValue(e, ns, k, now)]
  {
    assert [k][..0] == [];
  }

  /** Gets reads what `get` returns for each key. */
  lemma {:induction false} GetsAt(e: Entries, ns: Namespace, keys: seq<string>, now: int, i: nat)
    requires i < |keys|
    ensures Gets(e, ns, keys, now)[i] == GetValue(e, ns, keys[i], now)
  {
    if i < |keys| - 1 {
      GetsAt(e, ns, keys[..|keys| - 1], now, i);
    }
  }

  /** A backward run of `get`s leaves every value readable as before. */
  lemma {:induction false} SweepDownKeepsValues(e: Entries, ns: Namespace, ks: seq<string>, k: string, now: int)
    ensures GetValue(SweepDown(e, ns, ks, now), ns, k, now) == GetValue(e, ns, k, now)
  {
    if ks != [] {
      SweepDownKeepsValues(e, ns, ks[1..], k, now);
      AfterGetKeepsValues(SweepDown(e, ns, ks[1..], now), ns, ks[0], k, now);
    }
  }

  /** A forward scan reading one more value. */
  lemma {:induction false} ForwardStep(vals: seq<Option<Json>>, v: Option<Json>, want: bool)
    ensures HitIn(vals + [v], want) ==
      if HitIn(vals, want).Some? then HitIn(vals, want) else if v.Some? == want then Some(|vals|) else None
    ensures FirstIn(vals + [v]) == if FirstIn(vals).Some? then FirstIn(vals) else v
  {
    assert (vals + [v])[..|vals|] == vals;
  }

  /** A backward scan reading one more value. */
  lemma {:induction false} BackwardStep(v: Option<Json>, vals: seq<Option<Json>>)
    ensures LastHitIn([v] + vals) ==
      if LastHitIn(vals).Some? then Some(LastHitIn(vals).value + 1) else if v.Some? then Some(0) else None
    ensures LastIn([v] + vals) == if LastIn(vals).Some? then LastIn(vals) else v
  {
    assert ([v] + vals)[1..] == vals;
  }

  /** A forward scan that stopped after n keys, at a hit on the n-th or at
      the end, has read n keys, and its answers are those of the first n. */
  lemma {:induction false} ScanEnd(e: Entries, ns: Namespace, keys: seq<string>, now: int, n: nat, want: bool)
    requires n <= |keys|
    requires HitIn(Gets(e, ns, keys[..n], now), want) == Some(n - 1)
      || (n == |keys| && HitIn(Gets(e, ns, keys[..n], now), want).None?)
    ensures HitIn(Gets(e, ns, keys, now), want) == HitIn(Gets(e, ns, keys[..n], now), want)
    ensures TriedIn(Gets(e, ns, keys, now), want) == n
    ensures want ==> FirstIn(Gets(e, ns, keys, now)) == FirstIn(Gets(e, ns, keys[..n], now))
  {
    GetsPrefix(e, ns, keys, now, n);
    if n < |keys| {
      HitInPrefix(Gets(e, ns, keys, now), want, n);
      if want {
        FirstInHit(Gets(e, ns, keys[..n], now));
        FirstInPrefix(Gets(e, ns, keys, now), n);
      }
    } else {
      assert keys[..n] == keys;
    }
  }

  /** A backward scan that stopped at keys[n], at a hit or at the front, has
      read down to n and returns what the suffix from n returns. */
  lemma {:induction false} BackScanEnd(e: Entries, ns: Namespace, keys: seq<string>, now: int, n: nat)
    requires n <= |keys|
    requires LastHitIn(Gets(e, ns, keys[n..], now)) == Some(0)
      || (n == 0 && LastHitIn(Gets(e, ns, keys[n..], now)).None?)
    ensures LastStop(Gets(e, ns, keys, now)) == n
    ensures LastIn(Gets(e, ns, keys, now)) == LastIn(Gets(e, ns, keys[n..], now))
  {
    GetsSuffix(e, ns, keys, now, n);
    if LastHitIn(Gets(e, ns, keys[n..], now)).Some? {
      LastInSuffix(Gets(e, ns, keys, now), n);
    } else {
      assert keys[n..] == keys;
    }
  }

  /** HitIn against its meaning: no value has presence `want` when there is
      no hit, and a hit is a value with presence `want` and none before it. */
  lemma {:induction false} HitInMeaning(vals: seq<Option<Json>>, want: bool)
    ensures HitIn(vals, want).None? <==> forall j :: 0 <= j < |vals| ==> vals[j].Some? != want
    ensures HitIn(vals, want).Some? ==>
      var i := HitIn(vals, want).value;
      vals[i].Some? == want && forall j :: 0 <= j < i ==> vals[j].Some? != want
  {
    if vals != [] {
      var front := vals[..|vals| - 1];
      HitInMeaning(front, want);
      assert forall j :: 0 <= j < |front| ==> front[j] == vals[j];
    }
  }

  /** Once a prefix has a hit, the longer scan stops there. */
  lemma {:induction false} HitInPrefix(vals: seq<Option<Json>>, want: bool, n: nat)
    requires n <= |vals| && HitIn(vals[..n], want).Some?
    ensures HitIn(vals, want) == HitIn(vals[..n], want)
    decreases |vals| - n
  {
    if n < |vals| {
      assert vals[..|vals| - 1][..n] == vals[..n];
      HitInPrefix(vals[..|vals| - 1], want, n);
    } else {
      assert vals[..n] == vals;
    }
  }

  /** Once a prefix has a present value, the forward scan returns it. */
  lemma {:induction false} FirstInPrefix(vals: seq<Option<Json>>, n: nat)
    requires n <= |vals| && FirstIn(vals[..n]).Some?
    ensures FirstIn(vals) == FirstIn(vals[..n])
    decreases |vals| - n
  {
    if n < |vals| {
      assert vals[..|vals| - 1][..n] == vals[..n];
      FirstInPrefix(vals[..|vals| - 1], n);
    } else {
      assert vals[..n] == vals;
    }
  }

  /** The forward scan returns the value at its hit, and null without one. */
  lemma {:induction false} FirstInHit(vals: seq<Option<Json>>)
    ensures FirstIn(vals) == match HitIn(vals, true) case Some(i) => vals[i] case None => None
  {
    if vals != [] {
      var front := vals[..|vals| - 1];
      FirstInHit(front);
      HitInMeaning(front, true);
      if HitIn(front, true).Some? {
        assert front[HitIn(front, true).value] == vals[HitIn(front, true).value];
      }
    }
  }

  /** LastHitIn against its meaning: no present value when there is no hit,
      and a hit is a present value with none after it. */
  lemma {:induction false} LastHitInMeaning(vals: seq<Option<Json>>)
    ensures LastHitIn(vals).None? <==> forall j :: 0 <= j < |vals| ==> vals[j].None?
    ensures LastHitIn(vals).Some? ==>
      var i := LastHitIn(vals).value;
      vals[i].Some? && forall j :: i < j < |vals| ==> vals[j].None?
  {
    if vals != [] {
      var back := vals[1..];
      LastHitInMeaning(back);
      assert forall j :: 1 <= j < |vals| ==> back[j - 1] == vals[j];
    }
  }

  /** The backward scan returns the value at its hit, and null without one. */
  lemma {:induction false} LastInHit(vals: seq<Option<Json>>)
    ensures LastIn(vals) == match LastHitIn(vals) case Some(i) => vals[i] case None => None
  {
    if vals != [] {
      var back := vals[1..];
      LastInHit(back);
      LastHitInMeaning(back);
      if LastHitIn(back).Some? {
        assert back[LastHitIn(back).value] == vals[LastHitIn(back).value + 1];
      }
    }
  }

  /** Once a suffix has a present value, the backward scan stops in it. */
  lemma {:induction false} LastInSuffix(vals: seq<Option<Json>>, n: nat)
    requires n <= |vals| && LastHitIn(vals[n..]).Some?
    ensures LastHitIn(vals) == Some(LastHitIn(vals[n..]).value + n)
    ensures LastIn(vals) == LastIn(vals[n..])
  {
    if n > 0 {
      assert vals[1..][n - 1..] == vals[n..];
      LastInSuffix(vals[1..], n - 1);
      LastInHit(vals[n..]);
      LastHitInMeaning(vals[n..]);
    } else {
      assert vals[n..] == vals;
    }
  }
}

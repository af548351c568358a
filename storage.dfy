/** StorageCore: values stored as `{value, expire}` envelopes in JSON text
    through an adapter. `expire` is an absolute time in milliseconds, 0 for
    "never". Reads check the expiry and delete an expired entry on the spot;
    text that does not parse is treated as absent. The clock is the `now`
    parameter of each operation. */
module Storage {

  import opened Wrappers
  import opened Json
  import opened JsonText
  import Dict
  import opened BaseAdapter
  import opened WebStorage
  import opened Adapters

  /** Milliseconds in a minute (`60 * 1000`). */
  const MinuteMs: int := 60000

  // ---------------------------------------------------------------- empty

  /** `empty(value)`: null, undefined, "", [] and {} are empty. */
  predicate Empty(v: Option<Json>) {
    match v
    case None => true
    case Some(JNull) => true
    case Some(JStr(s)) => s == ""
    case Some(JArr(items)) => items == []
    case Some(JObj(fields)) => fields == []
    case Some(_) => false
  }

  /** The adapter's answer (a string or null) as a value `empty` can inspect. */
  function AsValue(data: Option<string>): Option<Json> {
    match data
    case None => None
    case Some(s) => Some(JStr(s))
  }

  // ---------------------------------------------------------------- envelopes

  /** JSON.parse(text) when it succeeds and gives something other than null:
      every caller goes on to read a property of the result, which throws on
      null, so null ends up where a syntax error does. */
  function Parsed(text: string): (r: Option<Json>)
    ensures r.Some? ==> r.value != JNull
  {
    match Decode(text)
    case None => None
    case Some(j) => if j == JNull then None else Some(j)
  }

  /** What `get`, `expire` and `getExpire` make of the adapter's answer: None
      when it is empty or does not parse. */
  function Stored(data: Option<string>): Option<Json> {
    if Empty(AsValue(data)) then None else Parsed(data.value)
  }

  /** `parsed.value || parsed`. */
  function Unwrap(j: Json): Json {
    match Property(j, "value")
    case Some(v) => if Truthy(v) then v else j
    case None => j
  }

  /** `parsed.expire || 0`. */
  function ExpireOf(j: Json): Json {
    match Property(j, "expire")
    case Some(e) => if Truthy(e) then e else JNum(0)
    case None => JNum(0)
  }

  /** The test of `get`: `expire > 0 && now >= expire`. A comparison with NaN
      is false. */
  predicate ExpiredAt(j: Json, now: int) {
    match Coerce(ExpireOf(j))
    case Some(c) => c > 0 && now >= c
    case None => false
  }

  /** The test of `getAll`: `parsed.expire && now >= parsed.expire`, with no
      check that the time is positive. */
  predicate ExpiredInScan(j: Json, now: int) {
    match Property(j, "expire")
    case Some(e) =>
      Truthy(e) && (match Coerce(e) case Some(c) => now >= c case None => false)
    case None => false
  }

  /** The minutes `set` uses: the explicit argument if given, otherwise the
      default, otherwise 0. A null, NaN or infinite argument counts as 0 and
      is written Some(0). */
  function EffectiveMinutes(expire: Option<int>, defaultExpire: Option<int>): (m: int)
    ensures expire.Some? ==> m == expire.value
    ensures expire.None? && defaultExpire.Some? ==> m == defaultExpire.value
    ensures expire.None? && defaultExpire.None? ==> m == 0
  {
    var chosen := if expire.Some? then expire else defaultExpire;
    if chosen.Some? then chosen.value else 0
  }

  /** The expire timestamp written for `minutes` at time now: 0 ("never")
      unless the minutes are positive. */
  function Stamp(now: int, minutes: int): (t: int)
    ensures minutes > 0 ==> t == now + minutes * MinuteMs
    ensures minutes <= 0 ==> t == 0
  {
    if minutes > 0 then now + minutes * MinuteMs else 0
  }

  /** The envelope object `{value, expire}`. */
  function Envelope(v: Json, stamp: int): Json {
    JObj([("value", v), ("expire", JNum(stamp))])
  }

  /** The text written for an envelope. */
  function EnvelopeText(v: Json, stamp: int): string {
    Stringify(Envelope(v, stamp))
  }

  /** ceil(a / b) for positive a and b. */
  function CeilDiv(a: int, b: int): (q: nat)
    requires a > 0 && b > 0
    ensures (q - 1) * b < a <= q * b
  {
    (a + b - 1) / b
  }

  // ---------------------------------------------------------------- readings

  /** What `get` finds under a key. */
  datatype Reading = Absent | Expired | Live(value: Json)

  function Read(data: Option<string>, now: int): Reading {
    match Stored(data)
    case None => Absent
    case Some(j) => if ExpiredAt(j, now) then Expired else Live(Unwrap(j))
  }

  /** The reading of a logical key in a storage area. */
  function View(e: Entries, ns: Namespace, key: string, now: int): Reading {
    Read(Dict.Get(e, ns.NormalizeKey(key)), now)
  }

  /** What `get(key)` returns: the value, or null (None). */
  function GetValue(e: Entries, ns: Namespace, key: string, now: int): Option<Json> {
    match View(e, ns, key, now)
    case Live(v) => Some(v)
    case _ => None
  }

  /** The area after `get(key)`: an expired entry is deleted. */
  function AfterGet(e: Entries, ns: Namespace, key: string, now: int): Entries {
    if View(e, ns, key, now) == Expired then Dict.Delete(e, ns.NormalizeKey(key)) else e
  }

  /** The area after `get` on each of ks in turn. */
  function Sweep(e: Entries, ns: Namespace, ks: seq<string>, now: int): Entries {
    if ks == [] then e
    else AfterGet(Sweep(e, ns, ks[..|ks| - 1], now), ns, ks[|ks| - 1], now)
  }

  /** The area after `remove(...ks)`. */
  function RemoveKeys(e: Entries, ns: Namespace, ks: seq<string>): Entries {
    if ks == [] then e
    else Dict.Delete(RemoveKeys(e, ns, ks[..|ks| - 1]), ns.NormalizeKey(ks[|ks| - 1]))
  }

  /** The area after `set` on each pair of a dictionary in turn. */
  function PutAll(e: Entries, ns: Namespace, pairs: seq<(string, Json)>, stamp: int): Entries {
    if pairs == [] then e
    else
      var (k, v) := pairs[|pairs| - 1];
      Dict.Put(PutAll(e, ns, pairs[..|pairs| - 1], stamp), ns.NormalizeKey(k), EnvelopeText(v, stamp))
  }

  /** The dictionary `many(ks)` builds. */
  function ManyResult(e: Entries, ns: Namespace, ks: seq<string>, now: int): seq<(string, Option<Json>)> {
    if ks == [] then []
    else Dict.Put(ManyResult(e, ns, ks[..|ks| - 1], now), ks[|ks| - 1], GetValue(e, ns, ks[|ks| - 1], now))
  }

  /** The area after `expire(key, minutes)`: the value is rewritten with the
      new timestamp; nothing happens when there is nothing readable. */
  function AfterExpire(e: Entries, ns: Namespace, key: string, minutes: int, now: int): Entries {
    match Stored(Dict.Get(e, ns.NormalizeKey(key)))
    case None => e
    case Some(j) => Dict.Put(e, ns.NormalizeKey(key), EnvelopeText(Unwrap(j), Stamp(now, minutes)))
  }

  /** AfterExpire on a key with nothing readable, and on one holding j. */
  lemma {:induction false} AfterExpireNothing(e: Entries, ns: Namespace, key: string, minutes: int, now: int)
    requires Stored(Dict.Get(e, ns.NormalizeKey(key))).None?
    ensures AfterExpire(e, ns, key, minutes, now) == e
  {
  }

  lemma {:induction false} AfterExpireStored(e: Entries, ns: Namespace, key: string, minutes: int, now: int, j: Json)
    requires Stored(Dict.Get(e, ns.NormalizeKey(key))) == Some(j)
    ensures AfterExpire(e, ns, key, minutes, now) == Dict.Put(e, ns.NormalizeKey(key), EnvelopeText(Unwrap(j), Stamp(now, minutes)))
  {
  }

  /** What `getExpire` returns: null, Infinity, or whole minutes. */
  datatype Remaining = NotFound | Forever | Minutes(m: nat)

  function RemainingOf(data: Option<string>, now: int): Remaining {
    match Stored(data)
    case None => NotFound
    case Some(j) =>
      var expire := ExpireOf(j);
      if expire == JNum(0) then Forever
      else
        match Coerce(expire)
        case Some(c) => if c - now > 0 then Minutes(CeilDiv(c - now, MinuteMs)) else Minutes(0)
        case None => Minutes(0)
  }

  function RemainingIn(e: Entries, ns: Namespace, key: string, now: int): Remaining {
    RemainingOf(Dict.Get(e, ns.NormalizeKey(key)), now)
  }

  // ---------------------------------------------------------------- getAll

  /** The position of the first occurrence of pat in s. */
  function IndexOf(s: string, pat: string): (r: Option<nat>)
    ensures r.Some? ==> r.value + |pat| <= |s| && s[r.value..r.value + |pat|] == pat
    decreases |s|
  {
    if |pat| <= |s| && s[..|pat|] == pat then Some(0)
    else if s == [] then None
    else
      match IndexOf(s[1..], pat)
      case None => None
      case Some(i) =>
        assert s[1..][i..i + |pat|] == s[i + 1..i + 1 + |pat|];
        Some(i + 1)
  }

  /** `s.replace(pat, '')` with a string pattern: the first occurrence goes. */
  function ReplaceFirst(s: string, pat: string): string {
    match IndexOf(s, pat)
    case None => s
    case Some(i) => s[..i] + s[i + |pat|..]
  }

  /** What `getAll` does with one entry of the adapter's snapshot. */
  datatype Scan = Skip | Drop | Keep(value: Json)

  function ScanEntry(text: string, now: int): Scan {
    match Parsed(text)
    case None => Skip
    case Some(j) => if ExpiredInScan(j, now) then Drop else Keep(Unwrap(j))
  }

  /** The logical key `getAll` reports for a physical key. */
  function LogicalKey(ns: Namespace, pk: string): string {
    ReplaceFirst(pk, ns.GetPrefix() + ".")
  }

  /** The dictionary `getAll` returns for an adapter snapshot. */
  function Collect(ns: Namespace, snap: Entries, now: int): seq<(string, Json)> {
    if snap == [] then []
    else
      var (pk, text) := snap[|snap| - 1];
      var r := Collect(ns, snap[..|snap| - 1], now);
      match ScanEntry(text, now)
      case Keep(v) => Dict.Put(r, LogicalKey(ns, pk), v)
      case _ => r
  }

  /** The logical keys `getAll` passes to `remove`. */
  function Doomed(ns: Namespace, snap: Entries, now: int): seq<string> {
    if snap == [] then []
    else
      var (pk, text) := snap[|snap| - 1];
      Doomed(ns, snap[..|snap| - 1], now) + if ScanEntry(text, now) == Drop then [LogicalKey(ns, pk)] else []
  }

  // ---------------------------------------------------------------- the class

  class StorageCore {
    const adapter: WebStorageAdapter
    const defaultExpire: Option<int>

    constructor (adapter: WebStorageAdapter, defaultExpire: Option<int>)
      ensures this.adapter == adapter && this.defaultExpire == defaultExpire
    {
      this.adapter := adapter;
      this.defaultExpire := defaultExpire;
    }

    predicate Valid()
      reads adapter.store
    {
      adapter.store.Valid()
    }

    /** `get(key)` for a single key. */
    method Get(key: string, now: int) returns (r: Option<Json>)
      requires Valid()
      modifies adapter.store
      ensures Valid()
      ensures r == GetValue(old(adapter.store.entries), adapter.ns, key, now)
      ensures adapter.store.entries == AfterGet(old(adapter.store.entries), adapter.ns, key, now)
    {
      var data := adapter.Get(key);
      if Empty(AsValue(data)) {
        return None;
      }
      var parsed := Decode(data.value);
      if parsed.None? || parsed.value == JNull {
        return None;
      }
      var j := parsed.value;
      var expire := ExpireOf(j);
      var n := Coerce(expire);
      if n.Some? && n.value > 0 && now >= n.value {
        Remove([key]);
        return None;
      }
      return Some(Unwrap(j));
    }

    /** `many(keys)`, also what `get` does with an array of keys. */
    method Many(keys: seq<string>, now: int) returns (r: seq<(string, Option<Json>)>)
      requires Valid()
      modifies adapter.store
      ensures Valid()
      ensures r == ManyResult(old(adapter.store.entries), adapter.ns, keys, now)
      ensures adapter.store.entries == Sweep(old(adapter.store.entries), adapter.ns, keys, now)
    {
      r := [];
      var i := 0;
      while i < |keys|
        invariant 0 <= i <= |keys| && Valid()
        invariant r == ManyResult(old(adapter.store.entries), adapter.ns, keys[..i], now)
        invariant adapter.store.entries == Sweep(old(adapter.store.entries), adapter.ns, keys[..i], now)
      {
        SweepKeepsValues(old(adapter.store.entries), adapter.ns, keys[..i], keys[i], now);
        var v := Get(keys[i], now);
        r := Dict.Put(r, keys[i], v);
        Dict.PrefixStep(keys, i);
        i := i + 1;
      }
      Dict.WholePrefix(keys);
    }

    /** `set(key, value, expire)` for a single key. */
    method Set(key: string, value: Json, expire: Option<int>, now: int)
      requires Valid()
      modifies adapter.store
      ensures Valid()
      ensures adapter.store.entries == Dict.Put(old(adapter.store.entries), adapter.ns.NormalizeKey(key),
        EnvelopeText(value, Stamp(now, EffectiveMinutes(expire, defaultExpire))))
    {
      var expireTime := if expire.Some? then expire else defaultExpire;
      var finalExpire := if expireTime.Some? then expireTime.value else 0;
      var cloned := Decode(Stringify(value));
      DecodeStringify(value);
      var expirationTime := 0;
      if finalExpire > 0 {
        expirationTime := now + finalExpire * MinuteMs;
      }
      assert expirationTime == Stamp(now, EffectiveMinutes(expire, defaultExpire));
      var data := Envelope(cloned.value, expirationTime);
      adapter.Set(key, Stringify(data), Some(finalExpire));
    }

    /** `setMany(values, expire)`, also what `set` does with an object. */
    method SetMany(values: seq<(string, Json)>, expire: Option<int>, now: int)
      requires Valid()
      modifies adapter.store
      ensures Valid()
      ensures adapter.store.entries == PutAll(old(adapter.store.entries), adapter.ns, values,
        Stamp(now, EffectiveMinutes(expire, defaultExpire)))
    {
      var i := 0;
      while i < |values|
        invariant 0 <= i <= |values| && Valid()
        invariant adapter.store.entries == PutAll(old(adapter.store.entries), adapter.ns, values[..i],
          Stamp(now, EffectiveMinutes(expire, defaultExpire)))
      {
        var (k, v) := values[i];
        Set(k, v, expire, now);
        Dict.PrefixStep(values, i);
        i := i + 1;
      }
      Dict.WholePrefix(values);
    }

    /** `remove(...keys)`. */
    method Remove(keys: seq<string>)
      requires Valid()
      modifies adapter.store
      ensures Valid()
      ensures adapter.store.entries == RemoveKeys(old(adapter.store.entries), adapter.ns, keys)
    {
      var i := 0;
      while i < |keys|
        invariant 0 <= i <= |keys| && Valid()
        invariant adapter.store.entries == RemoveKeys(old(adapter.store.entries), adapter.ns, keys[..i])
      {
        adapter.Remove(keys[i]);
        Dict.PrefixStep(keys, i);
        i := i + 1;
      }
      Dict.WholePrefix(keys);
    }

    method Clear()
      requires Valid()
      modifies adapter.store
      ensures Valid()
      ensures adapter.store.entries == ClearWalk(adapter.ns, old(adapter.store.entries), 0)
    {
      adapter.Clear();
    }

    /** `getAll()`: the adapter's snapshot, read entry by entry; expired
        entries are removed (through `remove` of the reported key) and left
        out, entries that do not parse are skipped. */
    method GetAll(now: int) returns (r: seq<(string, Json)>)
      requires Valid()
      modifies adapter.store
      ensures Valid()
      ensures r == Collect(adapter.ns, Owned(adapter.ns, old(adapter.store.entries)), now)
      ensures adapter.store.entries == RemoveKeys(old(adapter.store.entries), adapter.ns,
        Doomed(adapter.ns, Owned(adapter.ns, old(adapter.store.entries)), now))
    {
      var all := adapter.GetAll();
      r := [];
      var i := 0;
      while i < |all|
        invariant 0 <= i <= |all| && Valid()
        invariant r == Collect(adapter.ns, all[..i], now)
        invariant adapter.store.entries == RemoveKeys(old(adapter.store.entries), adapter.ns, Doomed(adapter.ns, all[..i], now))
      {
        var (key, value) := all[i];
        var logical := ReplaceFirst(key, adapter.ns.GetPrefix() + ".");
        ScanStep(adapter.ns, all, i, now);
        match ScanEntry(value, now) {
          case Drop =>
            ghost var doomed := Doomed(adapter.ns, all[..i], now);
            ghost var before := adapter.store.entries;
            Remove([logical]);
            RemoveKeysAppend(old(adapter.store.entries), adapter.ns, doomed, logical);
            assert adapter.store.entries == RemoveKeys(before, adapter.ns, [logical]);
          case Keep(v) =>
            r := Dict.Put(r, logical, v);
          case Skip =>
        }
        i := i + 1;
      }
      Dict.WholePrefix(all);
    }

    /** `expire(key, minutes)`. */
    method Expire(key: string, minutes: int, now: int)
      requires Valid()
      modifies adapter.store
      ensures Valid()
      ensures adapter.store.entries == AfterExpire(old(adapter.store.entries), adapter.ns, key, minutes, now)
    {
      ghost var e := adapter.store.entries;
      var data := adapter.Get(key);
      assert data == Dict.Get(e, adapter.ns.NormalizeKey(key));
      if Empty(AsValue(data)) {
        AfterExpireNothing(e, adapter.ns, key, minutes, now);
        return;
      }
      var parsed := Decode(data.value);
      if parsed.None? || parsed.value == JNull {
        AfterExpireNothing(e, adapter.ns, key, minutes, now);
        return;
      }
      var expirationTime := 0;
      if minutes > 0 {
        expirationTime := now + minutes * MinuteMs;
      }
      AfterExpireStored(e, adapter.ns, key, minutes, now, parsed.value);
      assert expirationTime == Stamp(now, minutes);
      var newData := Envelope(Unwrap(parsed.value), expirationTime);
      adapter.Set(key, Stringify(newData), Some(minutes));
    }

    /** `getExpire(key)`: reads only. */
    method GetExpire(key: string, now: int) returns (r: Remaining)
      requires Valid()
      ensures r == RemainingIn(adapter.store.entries, adapter.ns, key, now)
      ensures r == NotFound <==> View(adapter.store.entries, adapter.ns, key, now) == Absent
    {
      var data := adapter.Get(key);
      if Empty(AsValue(data)) {
        return NotFound;
      }
      var parsed := Decode(data.value);
      if parsed.None? || parsed.value == JNull {
        return NotFound;
      }
      var expire := ExpireOf(parsed.value);
      if expire == JNum(0) {
        return Forever;
      }
      var n := Coerce(expire);
      if n.Some? && n.value - now > 0 {
        return Minutes(CeilDiv(n.value - now, MinuteMs));
      }
      return Minutes(0);
    }
  }

  // ---------------------------------------------------------------- lemmas

  /** The adapter's answer is empty exactly when it is null or "". */
  lemma {:induction false} EmptyData(data: Option<string>)
    ensures Empty(AsValue(data)) <==> data.None? || data == Some("")
  {
  }

  /** `expire` and `getAll` read a stored text the same way `get` does when
      it is not empty; "" never parses. */
  lemma {:induction false} StoredText(t: string)
    ensures Stored(Some(t)) == Parsed(t)
  {
    if t == "" {
      assert Decode(t) == None;
    }
  }

  /** A written envelope reads back as itself. */
  lemma {:induction false} ParseEnvelope(v: Json, stamp: int)
    ensures Stored(Some(EnvelopeText(v, stamp))) == Some(Envelope(v, stamp))
    ensures Property(Envelope(v, stamp), "value") == Some(v)
    ensures ExpireOf(Envelope(v, stamp)) == JNum(stamp)
  {
    DecodeStringify(Envelope(v, stamp));
    StoredText(EnvelopeText(v, stamp));
    var fields := [("value", v), ("expire", JNum(stamp))];
    assert fields[..1] == [("value", v)];
    assert "value" != "expire" by {
      assert "value"[0] != "expire"[0];
    }
  }

  /** Reading back what `set` wrote: the value itself when it is truthy, the
      whole envelope when it is falsy; expired once the clock reaches a
      positive timestamp. */
  lemma {:induction false} ReadEnvelope(v: Json, stamp: int, later: int)
    ensures Read(Some(EnvelopeText(v, stamp)), later) ==
      if stamp > 0 && later >= stamp then Expired
      else Live(if Truthy(v) then v else Envelope(v, stamp))
  {
    ParseEnvelope(v, stamp);
  }

  /** `set(k, v, m)` at time now, then `get(k)` at time later. */
  lemma {:induction false} SetThenGet(e: Entries, ns: Namespace, k: string, v: Json, m: int, now: int, later: int)
    requires now >= 0
    ensures View(Dict.Put(e, ns.NormalizeKey(k), EnvelopeText(v, Stamp(now, m))), ns, k, later) ==
      if m > 0 && later >= now + m * MinuteMs then Expired
      else Live(if Truthy(v) then v else Envelope(v, Stamp(now, m)))
  {
    Dict.GetPut(e, ns.NormalizeKey(k), EnvelopeText(v, Stamp(now, m)), ns.NormalizeKey(k));
    ReadEnvelope(v, Stamp(now, m), later);
  }

  /** The round trip: a truthy value set with no time passing reads back as
      itself. */
  lemma {:induction false} SetGetRoundTrip(e: Entries, ns: Namespace, k: string, v: Json, m: int, now: int)
    requires Truthy(v) && now >= 0
    ensures GetValue(Dict.Put(e, ns.NormalizeKey(k), EnvelopeText(v, Stamp(now, m))), ns, k, now) == Some(v)
  {
    SetThenGet(e, ns, k, v, m, now, now);
  }

  /** Writing a key leaves the readings of keys stored elsewhere alone. */
  lemma {:induction false} PutOtherView(e: Entries, ns: Namespace, pk: string, t: string, k: string, now: int)
    requires ns.NormalizeKey(k) != pk
    ensures View(Dict.Put(e, pk, t), ns, k, now) == View(e, ns, k, now)
  {
    Dict.GetPut(e, pk, t, ns.NormalizeKey(k));
  }

  /** `get` deletes exactly the expired entry it reads and nothing else. */
  lemma {:induction false} AfterGetEntries(e: Entries, ns: Namespace, key: string, now: int, pk: string)
    ensures Dict.Get(AfterGet(e, ns, key, now), pk) ==
      if View(e, ns, key, now) == Expired && pk == ns.NormalizeKey(key) then None else Dict.Get(e, pk)
  {
    if View(e, ns, key, now) == Expired {
      Dict.GetDelete(e, ns.NormalizeKey(key), pk);
    }
  }

  /** Deleting expired entries never changes what `get` returns. */
  lemma {:induction false} AfterGetKeepsValues(e: Entries, ns: Namespace, key: string, k: string, now: int)
    ensures GetValue(AfterGet(e, ns, key, now), ns, k, now) == GetValue(e, ns, k, now)
  {
    AfterGetEntries(e, ns, key, now, ns.NormalizeKey(k));
  }

  lemma {:induction false} SweepKeepsValues(e: Entries, ns: Namespace, ks: seq<string>, k: string, now: int)
    ensures GetValue(Sweep(e, ns, ks, now), ns, k, now) == GetValue(e, ns, k, now)
  {
    if ks != [] {
      SweepKeepsValues(e, ns, ks[..|ks| - 1], k, now);
      AfterGetKeepsValues(Sweep(e, ns, ks[..|ks| - 1], now), ns, ks[|ks| - 1], k, now);
    }
  }

  /** One more `get` in a sequence of them. */
  lemma {:induction false} SweepStep(e: Entries, ns: Namespace, ks: seq<string>, i: nat, now: int)
    requires i < |ks|
    ensures Sweep(e, ns, ks[..i + 1], now) == AfterGet(Sweep(e, ns, ks[..i], now), ns, ks[i], now)
  {
    Dict.PrefixStep(ks, i);
  }

  /** `many(ks)` maps each requested key, and no other, to what `get` gives. */
  lemma {:induction false} ManyKeys(e: Entries, ns: Namespace, ks: seq<string>, now: int, k: string)
    ensures Dict.Get(ManyResult(e, ns, ks, now), k) == if k in ks then Some(GetValue(e, ns, k, now)) else None
  {
    if ks != [] {
      var init := ks[..|ks| - 1];
      assert ks == init + [ks[|ks| - 1]];
      ManyKeys(e, ns, init, now, k);
      Dict.GetPut(ManyResult(e, ns, init, now), ks[|ks| - 1], GetValue(e, ns, ks[|ks| - 1], now), k);
    }
  }

  /** After `setMany(pairs)` with keys that are stored apart, every key
      holds the envelope of its own value. */
  lemma {:induction false} PutAllGet(e: Entries, ns: Namespace, pairs: seq<(string, Json)>, stamp: int, i: nat)
    requires i < |pairs|
    requires forall a, b :: 0 <= a < b < |pairs| ==> ns.NormalizeKey(pairs[a].0) != ns.NormalizeKey(pairs[b].0)
    ensures Dict.Get(PutAll(e, ns, pairs, stamp), ns.NormalizeKey(pairs[i].0)) == Some(EnvelopeText(pairs[i].1, stamp))
  {
    var init := pairs[..|pairs| - 1];
    var (k, v) := pairs[|pairs| - 1];
    Dict.GetPut(PutAll(e, ns, init, stamp), ns.NormalizeKey(k), EnvelopeText(v, stamp), ns.NormalizeKey(pairs[i].0));
    if i < |pairs| - 1 {
      assert init[i] == pairs[i];
      assert forall a, b :: 0 <= a < b < |init| ==> ns.NormalizeKey(init[a].0) != ns.NormalizeKey(init[b].0) by {
        forall a, b | 0 <= a < b < |init| ensures ns.NormalizeKey(init[a].0) != ns.NormalizeKey(init[b].0) {
          assert init[a] == pairs[a] && init[b] == pairs[b];
        }
      }
      PutAllGet(e, ns, init, stamp, i);
    }
  }

  /** Keys that `setMany` does not name keep their entries. */
  lemma {:induction false} PutAllOther(e: Entries, ns: Namespace, pairs: seq<(string, Json)>, stamp: int, pk: string)
    requires forall i :: 0 <= i < |pairs| ==> ns.NormalizeKey(pairs[i].0) != pk
    ensures Dict.Get(PutAll(e, ns, pairs, stamp), pk) == Dict.Get(e, pk)
  {
    if pairs != [] {
      var init := pairs[..|pairs| - 1];
      var (k, v) := pairs[|pairs| - 1];
      assert forall i :: 0 <= i < |init| ==> init[i] == pairs[i];
      PutAllOther(e, ns, init, stamp, pk);
      Dict.GetPut(PutAll(e, ns, init, stamp), ns.NormalizeKey(k), EnvelopeText(v, stamp), pk);
    }
  }

  /** After `remove(...ks)` the physical key of every listed key is gone and
      every other entry is as it was. */
  lemma {:induction false} RemoveKeysEntries(e: Entries, ns: Namespace, ks: seq<string>, pk: string)
    ensures Dict.Get(RemoveKeys(e, ns, ks), pk) ==
      if exists k :: k in ks && ns.NormalizeKey(k) == pk then None else Dict.Get(e, pk)
  {
    if ks != [] {
      var init, last := ks[..|ks| - 1], ks[|ks| - 1];
      assert ks == init + [last];
      RemoveKeysEntries(e, ns, init, pk);
      Dict.GetDelete(RemoveKeys(e, ns, init), ns.NormalizeKey(last), pk);
    }
  }

  lemma {:induction false} RemoveKeysAppend(e: Entries, ns: Namespace, ks: seq<string>, k: string)
    ensures RemoveKeys(RemoveKeys(e, ns, ks), ns, [k]) == RemoveKeys(e, ns, ks + [k])
  {
    assert (ks + [k])[..|ks|] == ks;
  }

  /** `expire` leaves the area alone when there is nothing readable. */
  lemma {:induction false} ExpireNothing(e: Entries, ns: Namespace, key: string, m: int, now: int)
    requires View(e, ns, key, now) == Absent
    ensures AfterExpire(e, ns, key, m, now) == e
  {
  }

  /** After `expire(key, m)` the key holds the same value with the new
      expiry, whether or not it had already expired: `getExpire` gives m
      minutes for positive m and Infinity otherwise. */
  lemma {:induction false} ExpireThenRemaining(e: Entries, ns: Namespace, key: string, m: int, now: int)
    requires now >= 0
    requires Stored(Dict.Get(e, ns.NormalizeKey(key))).Some?
    ensures RemainingIn(AfterExpire(e, ns, key, m, now), ns, key, now) == if m > 0 then Minutes(m) else Forever
  {
    var j := Stored(Dict.Get(e, ns.NormalizeKey(key))).value;
    var stamp := Stamp(now, m);
    Dict.GetPut(e, ns.NormalizeKey(key), EnvelopeText(Unwrap(j), stamp), ns.NormalizeKey(key));
    RemainingAfterSet(Unwrap(j), m, now);
  }

  /** `expire` keeps the value: a truthy value still reads back as itself
      before the new expiry, even when the entry had already expired. */
  lemma {:induction false} ExpireKeepsValue(e: Entries, ns: Namespace, key: string, m: int, now: int)
    requires now >= 0
    requires Stored(Dict.Get(e, ns.NormalizeKey(key))).Some?
    requires Truthy(Unwrap(Stored(Dict.Get(e, ns.NormalizeKey(key))).value))
    ensures GetValue(AfterExpire(e, ns, key, m, now), ns, key, now) ==
      Some(Unwrap(Stored(Dict.Get(e, ns.NormalizeKey(key))).value))
  {
    var j := Stored(Dict.Get(e, ns.NormalizeKey(key))).value;
    SetGetRoundTrip(e, ns, key, Unwrap(j), m, now);
  }

  /** `getExpire` right after a write with m minutes at the same time. */
  lemma {:induction false} RemainingAfterSet(v: Json, m: int, now: int)
    requires now >= 0
    ensures RemainingOf(Some(EnvelopeText(v, Stamp(now, m))), now) == if m > 0 then Minutes(m) else Forever
  {
    var stamp := Stamp(now, m);
    ParseEnvelope(v, stamp);
    assert ExpireOf(Envelope(v, stamp)) == JNum(stamp);
    if m > 0 {
      WholeMinutes(m);
      assert stamp - now == m * MinuteMs;
    }
  }

  lemma {:induction false} WholeMinutes(m: int)
    requires m > 0
    ensures CeilDiv(m * MinuteMs, MinuteMs) == m
  {
    var q := CeilDiv(m * MinuteMs, MinuteMs);
    assert (q - 1) * 60000 < m * 60000 <= q * 60000;
  }

  /** `getExpire` gives Infinity exactly when the stored expire field is
      missing or falsy, whatever the clock says. */
  lemma {:induction false} ForeverIffNoExpiry(data: Option<string>, now: int)
    ensures RemainingOf(data, now) == Forever <==>
      Stored(data).Some? && (Property(Stored(data).value, "expire").None? || !Truthy(Property(Stored(data).value, "expire").value))
  {
  }

  /** Once a positive timestamp has passed, `get` finds the key expired and
      `getExpire` reports 0 minutes (it does not delete anything). */
  lemma {:induction false} ExpiredRemainingZero(v: Json, stamp: int, later: int)
    requires stamp > 0 && later >= stamp
    ensures Read(Some(EnvelopeText(v, stamp)), later) == Expired
    ensures RemainingOf(Some(EnvelopeText(v, stamp)), later) == Minutes(0)
  {
    ParseEnvelope(v, stamp);
  }

  /** The initialisation test: with no expiry anywhere, `set('key1',
      'value1')` hands the adapter this exact text and a hint of 0. */
  lemma {:induction false} SetTextExample(now: int)
    ensures EffectiveMinutes(None, None) == 0
    ensures EnvelopeText(JStr("value1"), Stamp(now, EffectiveMinutes(None, None))) == "{\"value\":\"value1\",\"expire\":0}"
  {
    assert Stamp(now, EffectiveMinutes(None, None)) == 0;
    ExampleText();
  }

  lemma {:induction false} ExampleText()
    ensures EnvelopeText(JStr("value1"), 0) == "{\"value\":\"value1\",\"expire\":0}"
  {
    EnvelopeTextShape(JStr("value1"), 0);
    ExampleQuote();
    assert IntToString(0) == "0";
    ExampleTextPieces();
  }

  lemma {:induction false} ExampleQuote()
    ensures Stringify(JStr("value1")) == "\"value1\""
  {
    PlainText("value1");
  }

  lemma {:induction false} ExampleTextPieces()
    ensures "{\"value\":" + "\"value1\"" + ",\"expire\":" + "0" + "}" == "{\"value\":\"value1\",\"expire\":0}"
  {
  }

  /** The text of an envelope: the value's text and the timestamp in decimal. */
  lemma {:induction false} EnvelopeTextShape(v: Json, stamp: int)
    ensures EnvelopeText(v, stamp) == "{\"value\":" + Stringify(v) + ",\"expire\":" + IntToString(stamp) + "}"
  {
    TwoMembers("value", v, "expire", JNum(stamp));
    QuotedNames();
    Braced(Stringify(v), IntToString(stamp));
  }

  /** The members of a two-member object, written out. */
  lemma {:induction false} TwoMembers(n1: string, v1: Json, n2: string, v2: Json)
    ensures StringifyMembers([(n1, v1), (n2, v2)]) == Quote(n1) + ":" + Stringify(v1) + "," + (Quote(n2) + ":" + Stringify(v2))
  {
    assert [(n1, v1), (n2, v2)][1..] == [(n2, v2)];
  }

  lemma {:induction false} QuotedNames()
    ensures Quote("value") == "\"value\"" && Quote("expire") == "\"expire\""
  {
    QuotedValue();
    QuotedExpire();
  }

  lemma {:induction false} QuotedValue()
    ensures Quote("value") == "\"value\""
  {
    PlainText("value");
  }

  lemma {:induction false} QuotedExpire()
    ensures Quote("expire") == "\"expire\""
  {
    PlainText("expire");
  }

  /** Regrouping the envelope's pieces. */
  lemma {:induction false} Braced(a: string, b: string)
    ensures "{" + ("\"value\"" + ":" + a + "," + ("\"expire\"" + ":" + b)) + "}" == "{\"value\":" + a + ",\"expire\":" + b + "}"
  {
  }

  /** Text with no quote, backslash or control character is written as is. */
  lemma {:induction false} PlainText(s: string)
    requires forall i :: 0 <= i < |s| ==> s[i] >= ' ' && s[i] != '"' && s[i] != '\\'
    ensures EscapeAll(s) == s
  {
    if s != [] {
      PlainText(s[1..]);
      assert [s[0]] + s[1..] == s;
    }
  }

  /** A default expiry is used by a `set` without one and gives a positive
      timestamp. */
  lemma {:induction false} DefaultExpiryUsed(m: int, now: int)
    requires m > 0 && now >= 0
    ensures Stamp(now, EffectiveMinutes(None, Some(m))) == now + m * MinuteMs > 0
  {
  }

  // ---------------------------------------------------------------- getAll lemmas

  /** One more entry of the snapshot: what Collect and Doomed add for it. */
  lemma {:induction false} ScanStep(ns: Namespace, all: Entries, i: nat, now: int)
    requires i < |all|
    ensures Collect(ns, all[..i + 1], now) ==
      match ScanEntry(all[i].1, now)
      case Keep(v) => Dict.Put(Collect(ns, all[..i], now), LogicalKey(ns, all[i].0), v)
      case _ => Collect(ns, all[..i], now)
    ensures ScanEntry(all[i].1, now) == Drop ==>
      Doomed(ns, all[..i + 1], now) == Doomed(ns, all[..i], now) + [LogicalKey(ns, all[i].0)]
    ensures ScanEntry(all[i].1, now) != Drop ==> Doomed(ns, all[..i + 1], now) == Doomed(ns, all[..i], now)
  {
    Dict.PrefixStep(all, i);
  }

  lemma {:induction false} IndexOfHead(pat: string, rest: string)
    requires pat != []
    ensures IndexOf(pat + rest, pat) == Some(0)
  {
    assert (pat + rest)[..|pat|] == pat;
  }

  /** For a key of the namespace, the string replace of `getAll` and the
      pattern replace of NormalizeKey agree. */
  lemma {:induction false} LogicalKeyOwned(ns: Namespace, pk: string)
    requires ns.Owns(pk)
    ensures LogicalKey(ns, pk) == ns.Strip(pk)
  {
    HeadStrip(ns, pk);
    IndexOfHead(ns.Head(), ns.Strip(pk));
  }

  /** Every key of a snapshot of owned entries. */
  predicate AllOwned(ns: Namespace, snap: Entries) {
    forall i :: 0 <= i < |snap| ==> ns.Owns(snap[i].0)
  }

  lemma {:induction false} OwnedAllOwned(ns: Namespace, e: Entries)
    ensures AllOwned(ns, Owned(ns, e))
  {
    if e != [] {
      OwnedAllOwned(ns, e[..|e| - 1]);
    }
  }

  /** What `getAll` reports under a logical key is read from the physical
      key prefix + "." + key alone. */
  lemma {:induction false} CollectKey(ns: Namespace, snap: Entries, now: int, lk: string)
    requires AllOwned(ns, snap) && Dict.Distinct(snap)
    ensures Dict.Get(Collect(ns, snap, now), lk) ==
      match Dict.Get(snap, ns.Head() + lk)
      case None => None
      case Some(t) => (match ScanEntry(t, now) case Keep(v) => Some(v) case _ => None)
  {
    if snap != [] {
      var init := snap[..|snap| - 1];
      var (pk, text) := snap[|snap| - 1];
      assert snap == init + [(pk, text)];
      assert AllOwned(ns, init) && Dict.Distinct(init);
      CollectKey(ns, init, now, lk);
      Dict.GetAppend(init, (pk, text), ns.Head() + lk);
      LogicalKeyOwned(ns, pk);
      HeadStrip(ns, pk);
      if ScanEntry(text, now).Keep? {
        Dict.GetPut(Collect(ns, init, now), LogicalKey(ns, pk), ScanEntry(text, now).value, lk);
      }
      if pk == ns.Head() + lk {
        Dict.GetBefore(snap, |snap| - 1);
        StripHead(ns, lk);
      }
    }
  }

  /** `getAll` keys are the stored keys of the namespace with "prefix."
      taken off: a live entry is reported with its value, an expired entry
      or one that does not parse is not reported. */
  lemma {:induction false} GetAllReports(e: Entries, ns: Namespace, now: int, lk: string)
    requires Dict.Distinct(e)
    ensures Dict.Get(Collect(ns, Owned(ns, e), now), lk) ==
      match Dict.Get(e, ns.Head() + lk)
      case None => None
      case Some(t) => (match ScanEntry(t, now) case Keep(v) => Some(v) case _ => None)
  {
    OwnedAllOwned(ns, e);
    OwnedDistinct(ns, e);
    CollectKey(ns, Owned(ns, e), now, lk);
    StripHead(ns, lk);
    GetOwned(ns, e, ns.Head() + lk);
  }

  /** The logical keys `getAll` removes come from expired entries. */
  lemma {:induction false} DoomedFrom(ns: Namespace, snap: Entries, now: int, d: string)
    requires d in Doomed(ns, snap, now)
    ensures exists i :: 0 <= i < |snap| && ScanEntry(snap[i].1, now) == Drop && LogicalKey(ns, snap[i].0) == d
  {
    var init := snap[..|snap| - 1];
    if d in Doomed(ns, init, now) {
      DoomedFrom(ns, init, now, d);
      var i :| 0 <= i < |init| && ScanEntry(init[i].1, now) == Drop && LogicalKey(ns, init[i].0) == d;
      assert snap[i] == init[i];
    }
  }

  lemma {:induction false} DoomedHas(ns: Namespace, snap: Entries, now: int, i: nat)
    requires i < |snap| && ScanEntry(snap[i].1, now) == Drop
    ensures LogicalKey(ns, snap[i].0) in Doomed(ns, snap, now)
  {
    if i < |snap| - 1 {
      DoomedHas(ns, snap[..|snap| - 1], now, i);
    }
  }

  /** No key of the area has the form prefix.prefix.x. */
  predicate SingleHeads(ns: Namespace, e: Entries) {
    forall i :: 0 <= i < |e| && ns.Owns(e[i].0) ==> !ns.Owns(ns.Strip(e[i].0))
  }

  /** With no key of the form prefix.prefix.x in the area, `getAll` deletes
      exactly the expired entries of the namespace and leaves every other
      entry, unparsable ones included, as it was. */
  lemma {:induction false} GetAllRemoves(e: Entries, ns: Namespace, now: int, pk: string)
    requires Dict.Distinct(e) && SingleHeads(ns, e)
    ensures Dict.Get(RemoveKeys(e, ns, Doomed(ns, Owned(ns, e), now)), pk) ==
      if ns.Owns(pk) && Dict.Get(e, pk).Some? && ScanEntry(Dict.Get(e, pk).value, now) == Drop then None
      else Dict.Get(e, pk)
  {
    var doomed := Doomed(ns, Owned(ns, e), now);
    RemoveKeysEntries(e, ns, doomed, pk);
    if exists k :: k in doomed && ns.NormalizeKey(k) == pk {
      var k :| k in doomed && ns.NormalizeKey(k) == pk;
      DoomedHit(e, ns, now, k);
    } else if ns.Owns(pk) && Dict.Get(e, pk).Some? && ScanEntry(Dict.Get(e, pk).value, now) == Drop {
      DoomedCovers(e, ns, now, pk);
      assert false;
    }
  }

  /** A removal `getAll` makes hits an expired entry of the namespace. */
  lemma {:induction false} DoomedHit(e: Entries, ns: Namespace, now: int, k: string)
    requires Dict.Distinct(e) && SingleHeads(ns, e)
    requires k in Doomed(ns, Owned(ns, e), now)
    ensures var pk := ns.NormalizeKey(k);
      ns.Owns(pk) && Dict.Get(e, pk).Some? && ScanEntry(Dict.Get(e, pk).value, now) == Drop
  {
    var snap := Owned(ns, e);
    OwnedAllOwned(ns, e);
    OwnedDistinct(ns, e);
    DoomedFrom(ns, snap, now, k);
    var i :| 0 <= i < |snap| && ScanEntry(snap[i].1, now) == Drop && LogicalKey(ns, snap[i].0) == k;
    var q := snap[i].0;
    LogicalKeyOwned(ns, q);
    GetOwned(ns, e, q);
    Dict.GetAt(snap, i);
    var j :| 0 <= j < |e| && e[j] == (q, snap[i].1);
    HeadStrip(ns, q);
    assert ns.NormalizeKey(k) == q;
  }

  /** Every expired entry of the namespace is among the removals of `getAll`. */
  lemma {:induction false} DoomedCovers(e: Entries, ns: Namespace, now: int, pk: string)
    requires Dict.Distinct(e) && SingleHeads(ns, e)
    requires ns.Owns(pk) && Dict.Get(e, pk).Some? && ScanEntry(Dict.Get(e, pk).value, now) == Drop
    ensures LogicalKey(ns, pk) in Doomed(ns, Owned(ns, e), now)
    ensures ns.NormalizeKey(LogicalKey(ns, pk)) == pk
  {
    var i := OwnedIndex(ns, e, pk);
    DoomedHas(ns, Owned(ns, e), now, i);
    var j :| 0 <= j < |e| && e[j] == (pk, Dict.Get(e, pk).value);
    LogicalKeyOwned(ns, pk);
    HeadStrip(ns, pk);
  }

  lemma {:induction false} OwnedDistinct(ns: Namespace, e: Entries)
    requires Dict.Distinct(e)
    ensures Dict.Distinct(Owned(ns, e))
  {
    if e != [] {
      var init, last := e[..|e| - 1], e[|e| - 1];
      assert Dict.Distinct(init);
      OwnedDistinct(ns, init);
      if ns.Owns(last.0) {
        Dict.GetBefore(e, |e| - 1);
        GetOwned(ns, init, last.0);
        Dict.PutAbsent(Owned(ns, init), last.0, last.1);
        Dict.PutDistinct(Owned(ns, init), last.0, last.1);
      } else {
        assert Owned(ns, e) == Owned(ns, init);
      }
    }
  }

  /** The index in Owned(e) of an owned key present in e. */
  lemma {:induction false} OwnedIndex(ns: Namespace, e: Entries, pk: string) returns (i: nat)
    requires Dict.Distinct(e) && ns.Owns(pk) && Dict.Get(e, pk).Some?
    ensures i < |Owned(ns, e)| && Owned(ns, e)[i] == (pk, Dict.Get(e, pk).value)
  {
    OwnedDistinct(ns, e);
    GetOwned(ns, e, pk);
    var v := Dict.Get(e, pk).value;
    i :| 0 <= i < |Owned(ns, e)| && Owned(ns, e)[i] == (pk, v);
  }

  /** The aliasing of `getAll`: with prefix "fs", the logical key of an
      expired entry stored under "fs.fs.x" is "fs.x". Nothing is reported for
      it, and the removal goes to NormalizeKey("fs.x") == "fs.x", so the
      expired entry itself stays. */
  lemma {:induction false} GetAllAliasing(v: Json)
    ensures var e := [("fs.fs.x", EnvelopeText(v, 5))];
      var snap := Owned(Namespace("fs"), e);
      Collect(Namespace("fs"), snap, 10) == [] &&
      Doomed(Namespace("fs"), snap, 10) == ["fs.x"] &&
      RemoveKeys(e, Namespace("fs"), Doomed(Namespace("fs"), snap, 10)) == e
  {
    EnvelopeDropped(v, 5, 10);
    FsKeys();
    DroppedAlias(Namespace("fs"), "fs.x", EnvelopeText(v, 5), 10);
  }

  /** The harmful side of the alias: with prefix "fs", a live "fs.x" next to
      an expired "fs.fs.x". `getAll` reports "x" with the live value, then
      removes "fs.x" for the expired entry, so the live entry goes and the
      expired one stays. */
  lemma {:induction false} GetAllLiveAlias(v: Json, w: Json)
    ensures var e := [("fs.x", EnvelopeText(w, 0)), ("fs.fs.x", EnvelopeText(v, 5))];
      var snap := Owned(Namespace("fs"), e);
      Collect(Namespace("fs"), snap, 10) == [("x", if Truthy(w) then w else Envelope(w, 0))] &&
      RemoveKeys(e, Namespace("fs"), Doomed(Namespace("fs"), snap, 10)) == [("fs.fs.x", EnvelopeText(v, 5))]
  {
    EnvelopeDropped(v, 5, 10);
    EnvelopeKept(w, 0, 10);
    FsKeys();
    LiveAlias(Namespace("fs"), "x", EnvelopeText(w, 0), EnvelopeText(v, 5), 10);
  }

  /** `getAll` keeps an envelope that never expires or whose time has not
      come, and reports its value, or the whole envelope when that is falsy. */
  lemma {:induction false} EnvelopeKept(v: Json, stamp: int, now: int)
    requires stamp == 0 || now < stamp
    ensures ScanEntry(EnvelopeText(v, stamp), now) == Keep(if Truthy(v) then v else Envelope(v, stamp))
  {
    ParseEnvelope(v, stamp);
    StoredText(EnvelopeText(v, stamp));
  }

  /** `getAll` drops an envelope whose time has come. */
  lemma {:induction false} EnvelopeDropped(v: Json, stamp: int, now: int)
    requires 0 < stamp <= now
    ensures ScanEntry(EnvelopeText(v, stamp), now) == Drop
  {
    ParseEnvelope(v, stamp);
    StoredText(EnvelopeText(v, stamp));
  }

  lemma {:induction false} FsKeys()
    ensures Namespace("fs").Owns("fs.x")
    ensures Namespace("fs").Head() + "fs.x" == "fs.fs.x"
    ensures Namespace("fs").Head() + "x" == "fs.x"
  {
    assert Namespace("fs").Head() == "fs.";
    assert "fs.x"[..3] == "fs.";
  }

  /** A dropped entry whose key carries the prefix twice: its logical key,
      and so the removal's target, is the key with the prefix once. Nothing
      is reported for it, and the removal misses it, so the entry stays. */
  lemma {:induction false} DroppedAlias(ns: Namespace, lk: string, t: string, now: int)
    requires ns.Owns(lk) && ScanEntry(t, now) == Drop
    ensures var e := [(ns.Head() + lk, t)];
      Collect(ns, Owned(ns, e), now) == [] &&
      Doomed(ns, Owned(ns, e), now) == [lk] &&
      RemoveKeys(e, ns, Doomed(ns, Owned(ns, e), now)) == e
  {
    var pk := ns.Head() + lk;
    var e := [(pk, t)];
    StripHead(ns, lk);
    OwnedOne(ns, pk, t);
    DoomedOne(ns, pk, t, now);
    CollectDropOne(ns, pk, t, now);
    LogicalKeyOwned(ns, pk);
    RemoveOne(e, ns, lk);
    HeadStrip(ns, lk);
    assert |lk| < |pk|;
    Dict.DeleteAbsent(e, lk);
  }

  /** A live `prefix.x` next to an expired `prefix.prefix.x`: `getAll`
      reports x with the live value, and the removal made for the expired
      entry is aimed at `prefix.x`, which it deletes; the expired entry stays. */
  lemma {:induction false} LiveAlias(ns: Namespace, x: string, tl: string, t: string, now: int)
    requires ScanEntry(tl, now).Keep? && ScanEntry(t, now) == Drop
    ensures var live := ns.Head() + x;
      var e := [(live, tl), (ns.Head() + live, t)];
      Collect(ns, Owned(ns, e), now) == [(x, ScanEntry(tl, now).value)] &&
      Doomed(ns, Owned(ns, e), now) == [live] &&
      RemoveKeys(e, ns, Doomed(ns, Owned(ns, e), now)) == [(ns.Head() + live, t)]
  {
    var live := ns.Head() + x;
    var dead := ns.Head() + live;
    var e := [(live, tl), (dead, t)];
    StripHead(ns, x);
    StripHead(ns, live);
    LogicalKeyOwned(ns, live);
    LogicalKeyOwned(ns, dead);
    assert e[..1] == [(live, tl)];
    OwnedOne(ns, live, tl);
    assert Owned(ns, e) == e;
    CollectKeepOne(ns, live, tl, now);
    assert Collect(ns, e, now) == Collect(ns, e[..1], now);
    DoomedKeepOne(ns, live, tl, now);
    assert Doomed(ns, e, now) == [live];
    RemoveOne(e, ns, live);
    assert ns.NormalizeKey(live) == live;
    assert |live| < |dead|;
    assert Dict.Delete([(dead, t)], live) == [(dead, t)] + Dict.Delete([], live);
  }

  lemma {:induction false} CollectDropOne(ns: Namespace, pk: string, t: string, now: int)
    requires ScanEntry(t, now) == Drop
    ensures Collect(ns, [(pk, t)], now) == []
  {
    assert [(pk, t)][..0] == [];
  }

  lemma {:induction false} CollectKeepOne(ns: Namespace, pk: string, t: string, now: int)
    requires ScanEntry(t, now).Keep?
    ensures Collect(ns, [(pk, t)], now) == [(LogicalKey(ns, pk), ScanEntry(t, now).value)]
  {
    assert [(pk, t)][..0] == [];
  }

  lemma {:induction false} DoomedKeepOne(ns: Namespace, pk: string, t: string, now: int)
    requires ScanEntry(t, now).Keep?
    ensures Doomed(ns, [(pk, t)], now) == []
  {
    assert [(pk, t)][..0] == [];
  }

  lemma {:induction false} OwnedOne(ns: Namespace, pk: string, t: string)
    requires ns.Owns(pk)
    ensures Owned(ns, [(pk, t)]) == [(pk, t)]
  {
    assert [(pk, t)][..0] == [];
  }

  lemma {:induction false} DoomedOne(ns: Namespace, pk: string, t: string, now: int)
    requires ScanEntry(t, now) == Drop
    ensures Doomed(ns, [(pk, t)], now) == [LogicalKey(ns, pk)]
  {
    assert [(pk, t)][..0] == [];
  }

  lemma {:induction false} RemoveOne(e: Entries, ns: Namespace, k: string)
    ensures RemoveKeys(e, ns, [k]) == Dict.Delete(e, ns.NormalizeKey(k))
  {
    assert [k][..0] == [];
  }
}

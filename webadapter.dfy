/** The local-storage and session-storage adapters. The two classes of the
    source differ only in which storage area they talk to, so one class,
    given its area at construction, models both: `window.localStorage` for the
    one, `window.sessionStorage` for the other. Keys go through the
    namespace's NormalizeKey; `clear` and `getAll` walk the area by index and
    act on the keys the anchored pattern `^prefix\.` accepts. */
module Adapters {

  import opened Wrappers
  import Dict
  import opened BaseAdapter
  import opened WebStorage

  type Entries = seq<(string, string)>

  class WebStorageAdapter {
    const ns: Namespace
    const store: Storage

    constructor (prefix: string, area: Storage)
      ensures ns == Namespace(prefix) && store == area
    {
      ns := Namespace(prefix);
      store := area;
    }

    /** `get(key)`: the stored text, or null. */
    function Get(key: string): Option<string>
      reads store
    {
      store.GetItem(ns.NormalizeKey(key))
    }

    /** `set(key, value, expire)`: the expire hint is ignored. */
    method Set(key: string, value: string, expire: Option<int>)
      requires store.Valid()
      modifies store
      ensures store.Valid()
      ensures store.entries == Dict.Put(old(store.entries), ns.NormalizeKey(key), value)
      ensures Get(key) == Some(value)
      ensures forall k :: ns.NormalizeKey(k) != ns.NormalizeKey(key) ==> Get(k) == old(Get(k))
    {
      store.SetItem(ns.NormalizeKey(key), value);
      SetThenGet(ns, old(store.entries), key, value, key);
      forall k | ns.NormalizeKey(k) != ns.NormalizeKey(key) ensures Get(k) == old(Get(k)) {
        SetThenGet(ns, old(store.entries), key, value, k);
      }
    }

    method Remove(key: string)
      requires store.Valid()
      modifies store
      ensures store.Valid()
      ensures store.entries == Dict.Delete(old(store.entries), ns.NormalizeKey(key))
      ensures Get(key) == None
      ensures forall k :: ns.NormalizeKey(k) != ns.NormalizeKey(key) ==> Get(k) == old(Get(k))
    {
      store.RemoveItem(ns.NormalizeKey(key));
      RemoveThenGet(ns, old(store.entries), key, key);
      forall k | ns.NormalizeKey(k) != ns.NormalizeKey(key) ensures Get(k) == old(Get(k)) {
        RemoveThenGet(ns, old(store.entries), key, k);
      }
    }

    /** `clear()`: walks the indices upwards and removes each owned key it
        meets; a removal shifts the later entries down, and the walk still
        moves on to the next index. */
    method Clear()
      requires store.Valid()
      modifies store
      ensures store.Valid()
      ensures store.entries == ClearWalk(ns, old(store.entries), 0)
    {
      var i: nat := 0;
      while i < store.Length()
        invariant store.Valid()
        invariant ClearWalk(ns, store.entries, i) == ClearWalk(ns, old(store.entries), 0)
        decreases store.Length() - i
      {
        var key := store.Key(i);
        if key.Some? && key.value != "" && ns.Owns(key.value) {
          store.RemoveItem(key.value);
        }
        i := i + 1;
      }
    }

    /** `getAll()`: the owned entries under their physical keys. */
    method GetAll() returns (r: Entries)
      requires store.Valid()
      ensures r == Owned(ns, store.entries)
      ensures forall k :: Dict.Get(r, k) == if ns.Owns(k) then Dict.Get(store.entries, k) else None
    {
      r := [];
      var i: nat := 0;
      while i < store.Length()
        invariant i <= |store.entries|
        invariant r == Owned(ns, store.entries[..i])
      {
        var key := store.Key(i);
        if key.Some? && key.value != "" && ns.Owns(key.value) {
          var e := store.entries;
          assert key.value == e[i].0;
          Dict.GetAt(e, i);
          var v := store.GetItem(key.value);
          Dict.GetBefore(e, i);
          GetOwned(ns, e[..i], e[i].0);
          Dict.PutAbsent(r, key.value, v.value);
          r := Dict.Put(r, key.value, v.value);
          assert e[..i + 1] == e[..i] + [e[i]];
        } else {
          assert store.entries[..i + 1] == store.entries[..i] + [store.entries[i]];
        }
        i := i + 1;
      }
      assert store.entries[..i] == store.entries;
      forall k ensures Dict.Get(r, k) == if ns.Owns(k) then Dict.Get(store.entries, k) else None {
        GetOwned(ns, store.entries, k);
      }
    }
  }

  /** The entries `clear` leaves behind, walking from index i. */
  function ClearWalk(ns: Namespace, e: Entries, i: nat): Entries
    decreases |e| - i
  {
    if i >= |e| then e
    else if e[i].0 != "" && ns.Owns(e[i].0) then ClearWalk(ns, Dict.Delete(e, e[i].0), i + 1)
    else ClearWalk(ns, e, i + 1)
  }

  /** The owned entries of e, in order. */
  function Owned(ns: Namespace, e: Entries): Entries {
    if e == [] then []
    else
      var last := e[|e| - 1];
      Owned(ns, e[..|e| - 1]) + if ns.Owns(last.0) then [last] else []
  }

  // ---------------------------------------------------------------- lemmas

  /** Reading back through the adapter after `set`: the key just written
      gives the value; any key with another physical key is unaffected. */
  lemma {:induction false} SetThenGet(ns: Namespace, e: Entries, k: string, v: string, k': string)
    ensures Dict.Get(Dict.Put(e, ns.NormalizeKey(k), v), ns.NormalizeKey(k')) ==
      if ns.NormalizeKey(k') == ns.NormalizeKey(k) then Some(v) else Dict.Get(e, ns.NormalizeKey(k'))
  {
    Dict.GetPut(e, ns.NormalizeKey(k), v, ns.NormalizeKey(k'));
  }

  /** After `remove`: the key reads as null; any key with another physical
      key is unaffected. */
  lemma {:induction false} RemoveThenGet(ns: Namespace, e: Entries, k: string, k': string)
    ensures Dict.Get(Dict.Delete(e, ns.NormalizeKey(k)), ns.NormalizeKey(k')) ==
      if ns.NormalizeKey(k') == ns.NormalizeKey(k) then None else Dict.Get(e, ns.NormalizeKey(k'))
  {
    Dict.GetDelete(e, ns.NormalizeKey(k), ns.NormalizeKey(k'));
  }

  /** `getAll` holds exactly the owned entries, with their values. */
  lemma {:induction false} GetOwned(ns: Namespace, e: Entries, k: string)
    ensures Dict.Get(Owned(ns, e), k) == if ns.Owns(k) then Dict.Get(e, k) else None
    decreases |e|
  {
    if e != [] {
      var init, last := e[..|e| - 1], e[|e| - 1];
      assert e == init + [last];
      GetOwned(ns, init, k);
      Dict.GetAppend(init, last, k);
      if ns.Owns(last.0) {
        Dict.GetAppend(Owned(ns, init), last, k);
      } else {
        assert Owned(ns, e) == Owned(ns, init);
      }
    }
  }

  /** `clear` only removes, and never removes a key outside the namespace. */
  lemma {:induction false} ClearWalkKeeps(ns: Namespace, e: Entries, i: nat, k: string)
    ensures Dict.Get(ClearWalk(ns, e, i), k) == None || Dict.Get(ClearWalk(ns, e, i), k) == Dict.Get(e, k)
    ensures !ns.Owns(k) ==> Dict.Get(ClearWalk(ns, e, i), k) == Dict.Get(e, k)
    decreases |e| - i
  {
    if i < |e| {
      if e[i].0 != "" && ns.Owns(e[i].0) {
        var d := Dict.Delete(e, e[i].0);
        ClearWalkKeeps(ns, d, i + 1, k);
        Dict.GetDelete(e, e[i].0, k);
      } else {
        ClearWalkKeeps(ns, e, i + 1, k);
      }
    }
  }

  /** The adapter test: one entry of the namespace and one foreign entry;
      `clear` leaves only the foreign one. */
  lemma {:induction false} ClearExample()
    ensures ClearWalk(Namespace("test"), [("test.key1", "value1"), ("other.key", "otherValue")], 0)
      == [("other.key", "otherValue")]
  {
    var ns := Namespace("test");
    assert ns.Head() == "test.";
    assert "test.key1"[..5] == "test.";
    assert "other.key"[..5][0] == 'o';
    var e := [("test.key1", "value1"), ("other.key", "otherValue")];
    assert Dict.Delete(e, "test.key1") == [("other.key", "otherValue")];
  }

  /** `clear` skips the entry right after one it removes: of two adjacent
      entries of the namespace, the second survives. */
  lemma {:induction false} ClearSkips()
    ensures ClearWalk(Namespace("fs"), [("fs.a", "1"), ("fs.b", "2")], 0) == [("fs.b", "2")]
  {
    var ns := Namespace("fs");
    assert ns.Head() == "fs.";
    assert "fs.a"[..3] == "fs.";
    var e := [("fs.a", "1"), ("fs.b", "2")];
    assert Dict.Delete(e, "fs.a") == [("fs.b", "2")];
  }
}

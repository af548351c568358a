/** A Web Storage area — `window.localStorage` or `window.sessionStorage` —
    as the adapters use it: `length`, `key(i)`, `getItem`, `setItem` and
    `removeItem` over string keys and string values. The entries are kept in
    the order they were first set, which is the order `key(i)` walks; setting
    an existing key changes its value where it stands. */
module WebStorage {

  import opened Wrappers
  import Dict

  class Storage {
    var entries: seq<(string, string)>

    /** Every key occurs once. */
    predicate Valid()
      reads this
    {
      Dict.Distinct(entries)
    }

    constructor ()
      ensures entries == [] && Valid()
    {
      entries := [];
    }

    function Length(): nat
      reads this
    {
      |entries|
    }

    /** `key(i)`: the i-th key, or null past the end. */
    function Key(i: nat): (r: Option<string>)
      reads this
      ensures r.Some? <==> i < |entries|
      ensures r.Some? ==> Dict.Get(entries, r.value).Some?
    {
      if i < |entries| then Some(entries[i].0) else None
    }

    function GetItem(key: string): Option<string>
      reads this
    {
      Dict.Get(entries, key)
    }

    method SetItem(key: string, value: string)
      requires Valid()
      modifies this
      ensures Valid()
      ensures entries == Dict.Put(old(entries), key, value)
    {
      Dict.PutDistinct(entries, key, value);
      entries := Dict.Put(entries, key, value);
    }

    method RemoveItem(key: string)
      requires Valid()
      modifies this
      ensures Valid()
      ensures entries == Dict.Delete(old(entries), key)
    {
      Dict.DeleteDistinct(entries, key);
      entries := Dict.Delete(entries, key);
    }
  }
}

/** `init(prefix, type, defaultExpire)`: picks the adapter and builds the
    helpers object over a core with the given default expiry. The storage
    type is a name matched without regard to case, or an adapter object
    used as it is. The two browser storage areas are parameters. */
module Init {

  import opened Wrappers
  import opened BaseAdapter
  import opened WebStorage
  import opened Adapters
  import opened Storage
  import opened Utils

  /** The `type` argument: a storage name, or an adapter object. */
  datatype StorageType = Named(name: string) | Given(adapter: WebStorageAdapter)

  /** Which adapter `init` builds. */
  datatype Backend = LocalArea | SessionArea | CookieJar | Custom

  /** `toLowerCase` on one character, as far as it can matter to a match
      against the lower-case ASCII names: A-Z and the Kelvin sign, whose
      lower case is "k". Every other character either is its own lower case
      or lowers to something that is not a lower-case ASCII letter. */
  function LowerChar(c: char): (d: char)
    ensures 'A' <= c <= 'Z' ==> 'a' <= d <= 'z'
    ensures d != c ==> 'A' <= c <= 'Z' || c == '\U{212A}'
  {
    if 'A' <= c <= 'Z' then (c as int - 'A' as int + 'a' as int) as char
    else if c == '\U{212A}' then 'k'
    else c
  }

  function Lower(s: string): (r: string)
    ensures |r| == |s|
    ensures forall i :: 0 <= i < |s| ==> r[i] == LowerChar(s[i])
  {
    seq(|s|, i requires 0 <= i < |s| => LowerChar(s[i]))
  }

  /** `prefix || 'fs'`. */
  function PrefixOf(prefix: Option<string>): string {
    if prefix.None? || prefix.value == "" then "fs" else prefix.value
  }

  /** The adapter `init` chooses for `type || 'localstorage'`. An unknown
      name falls back to local storage. */
  function BackendOf(t: Option<StorageType>): Backend {
    match t
    case None => LocalArea
    case Some(Given(_)) => Custom
    case Some(Named(n)) =>
      var l := Lower(n);
      if l == "sessionstorage" then SessionArea
      else if l == "cookie" then CookieJar
      else LocalArea
  }

  /** `init`: the helpers over a core over the chosen adapter. The cookie
      adapter is not part of this model: for it no object is built. */
  method Init(prefix: Option<string>, t: Option<StorageType>, defaultExpire: Option<int>, local: WebStorage.Storage, session: WebStorage.Storage)
    returns (utils: StorageUtils?)
    ensures utils == null <==> BackendOf(t) == CookieJar
    ensures utils != null ==> fresh(utils) && fresh(utils.core) && utils.core.defaultExpire == defaultExpire
    ensures BackendOf(t) == LocalArea ==>
      utils != null && fresh(utils.core.adapter) &&
      utils.core.adapter.ns == Namespace(PrefixOf(prefix)) && utils.core.adapter.store == local
    ensures BackendOf(t) == SessionArea ==>
      utils != null && fresh(utils.core.adapter) &&
      utils.core.adapter.ns == Namespace(PrefixOf(prefix)) && utils.core.adapter.store == session
    ensures BackendOf(t) == Custom ==> utils != null && utils.core.adapter == t.value.adapter
  {
    var finalPrefix := if prefix.None? || prefix.value == "" then "fs" else prefix.value;
    var adapter: WebStorageAdapter;
    if t.Some? && t.value.Given? {
      adapter := t.value.adapter;
    } else {
      var name := if t.Some? then t.value.name else "localstorage";
      var lower := Lower(name);
      if lower == "sessionstorage" {
        adapter := new WebStorageAdapter(finalPrefix, session);
      } else if lower == "cookie" {
        return null;
      } else {
        adapter := new WebStorageAdapter(finalPrefix, local);
      }
    }
    var core := new StorageCore(adapter, defaultExpire);
    utils := new StorageUtils(core);
  }

  // ---------------------------------------------------------------- lemmas

  /** Lowering twice is lowering once. */
  lemma {:induction false} LowerIdempotent(s: string)
    ensures Lower(Lower(s)) == Lower(s)
  {
  }

  /** The choice ignores case: a name and its lower case pick the same
      adapter. */
  lemma {:induction false} BackendIgnoresCase(n: string)
    ensures BackendOf(Some(Named(n))) == BackendOf(Some(Named(Lower(n))))
  {
    LowerIdempotent(n);
  }

  /** No arguments: local storage under "fs"; an empty prefix is "fs" too,
      and so is an empty type name local storage. */
  lemma {:induction false} InitDefaults()
    ensures BackendOf(None) == LocalArea
    ensures PrefixOf(None) == "fs" && PrefixOf(Some("")) == "fs"
    ensures BackendOf(Some(Named(""))) == LocalArea
  {
  }

  /** A non-empty prefix is used as given. */
  lemma {:induction false} PrefixKept(p: string)
    requires p != ""
    ensures PrefixOf(Some(p)) == p
    ensures Namespace(PrefixOf(Some(p))).Head() == p + "."
  {
  }

  /** Mixed-case names: "SessionStorage" picks session storage, "COOKIE"
      the cookie adapter, "LocalStorage" and an unknown name local storage;
      "COOKIE", spelt with the Kelvin sign, lowers to "cookie". */
  lemma {:induction false} NameExamples()
    ensures BackendOf(Some(Named("SessionStorage"))) == SessionArea
    ensures BackendOf(Some(Named("COOKIE"))) == CookieJar
    ensures BackendOf(Some(Named("LocalStorage"))) == LocalArea
    ensures BackendOf(Some(Named("memory"))) == LocalArea
    ensures BackendOf(Some(Named("COO\U{212A}IE"))) == CookieJar
  {
    assert Lower("SessionStorage") == "sessionstorage";
    assert Lower("COOKIE") == "cookie";
    assert Lower("LocalStorage") == "localstorage";
    assert Lower("memory") == "memory";
    assert Lower("COO\U{212A}IE") == "cookie";
  }
}

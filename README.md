# fluid-storage: a Dafny model of the expiring key-value core

fluid-storage is a small browser library. It keeps JSON values in a Web
Storage area under namespaced keys, and it can give them an expiry time.
This project models its core in Dafny and proves properties of that model:

- **Base adapter** (`baseadapter.dfy`, module `BaseAdapter`). The prefix of
  an adapter and the key normalisation `prefix + "." + key`. A key that
  already starts with `prefix.` loses that start first. This is the
  datatype `Namespace`.
- **Web storage area** (`webstorage.dfy`, class `WebStorage.Storage`). The
  browser API the adapters call: `length`, `key(i)`, `getItem`, `setItem`
  and `removeItem`. It is an ordered list of distinct keys with string
  values.
- **Local and session storage adapters** (`webadapter.dfy`, class
  `Adapters.WebStorageAdapter`). The two source classes differ only in the
  area they use, so one class takes its area at construction.
  - `clear` walks the area by index. After each removal it moves on to the
    next index, so it skips the entry that slid into the removed slot.
  - `getAll` returns the entries whose keys match `^prefix\.`.
- **StorageCore** (`storage.dfy`, class `Storage.StorageCore`). Values are
  stored as the text `{"value":…,"expire":…}`, where `expire` is a
  millisecond timestamp or 0 for "never".
  - `get` deletes an expired entry when it reads it. It returns
    `parsed.value || parsed`, so a falsy value comes back as the whole
    envelope object.
  - `getAll` strips the prefix with a first-occurrence string replace. It
    removes expired entries through `remove`, which normalises the key
    again.
  - `getExpire` reports `NotFound`, `Forever` or whole minutes left.
- **StorageUtils** (`utils.dfy`, class `Utils.StorageUtils`). Every helper,
  built on a `StorageCore` it holds. The cross-call properties are in
  `utilsprops.dfy`.
- **init** (`init.dfy`). The choice of adapter from the `type` argument,
  matched without regard to case, and the defaults `"fs"` and local
  storage.
- **Supporting modules.**
  - `Json`: parsed values, JavaScript truthiness, property lookup, numeric
    coercion.
  - `JsonText`: `JSON.stringify` and `JSON.parse` over that subset, with
    the round trip proved.
  - `Dict`: insertion-ordered dictionaries.
  - `Wrappers`: `Option` and `Result`.

The clock (`Date.now()`) is a parameter `now` of every operation that reads
it. The physical area is a field the methods update in place.

Where the code and its written description disagree, the model follows the
code:

- `reduce(k, 15)` on a key with 10 minutes left writes an expiry of 0
  minutes. 0 means "never", so `getExpire` then reports Infinity, not 0.
  See `UtilsProps.ReduceRemaining` and `UtilsProps.ExtendReduceExample`.
- `isEmpty(k)` after `set(k, "")` or `set(k, null)` is false. `get` returns
  the envelope object for a falsy value, and that object is not empty. See
  `UtilsProps.IsEmptyAfterSet`.
- `random`, `count`, `keys`, `values`, `keyExists` and `except` go through
  `getAll`, so they do delete expired entries of the namespace.
- An expired entry stored under `prefix.prefix.x` makes `getAll` remove
  `prefix.x` instead: a live `prefix.x` is deleted and the expired entry
  stays. See `Storage.LiveAlias` and `Storage.GetAllLiveAlias`.
- `hasAny`, `hasAll`, `missingAny` and `missingAll` stop at the first
  deciding key, and every `has` on the way deletes an expired entry.

## Model

| member | source | states |
|---|---|---|
| BaseAdapter.Namespace.NormalizeKey | src/adapters/base-adapter.ts:16-18 | the physical key is always in the namespace, whatever the key |
| BaseAdapter.GetPrefixUnchanged | src/adapters/base-adapter.ts:7-13 | `getPrefix` returns the prefix the adapter was built with |
| BaseAdapter.StripHead | src/adapters/base-adapter.ts:17 | a key built as `prefix.` + k is in the namespace, and stripping gives back k |
| BaseAdapter.NormalizeIdempotent | src/adapters/base-adapter.ts:16-18 | normalising an already normalised key changes nothing |
| BaseAdapter.NormalizePrefixed | src/adapters/base-adapter.ts:16-18 | `prefix.k` normalises to itself, and to the same key as k exactly when k is not itself prefixed |
| BaseAdapter.NormalizeSame | src/adapters/base-adapter.ts:16-18 | two keys share a physical key exactly when their stripped forms are equal |
| BaseAdapter.NormalizeExample | src/adapters/base-adapter.ts:16-18 | with prefix "test", "myKey" is stored under "test.myKey" |
| Adapters.WebStorageAdapter.constructor | src/adapters/base-adapter.ts:7-9 | the adapter keeps the given prefix and talks to the given area |
| Adapters.WebStorageAdapter.Set | src/adapters/local-storage.ts:9-11 | the area gets the text under the normalised key, that key reads it back, and every key with another physical key reads as before; the expire hint is ignored |
| Adapters.WebStorageAdapter.Remove | src/adapters/local-storage.ts:13-15 | the normalised key is deleted and reads as null, and every other physical key reads as before |
| Adapters.WebStorageAdapter.Clear | src/adapters/local-storage.ts:17-26 | the area becomes the result of the index walk that removes each namespace key it meets and then steps past the next entry |
| Adapters.WebStorageAdapter.GetAll | src/adapters/local-storage.ts:28-40 | the result holds exactly the entries whose keys are in the namespace, under their physical keys and with their stored text |
| Adapters.SetThenGet | src/adapters/local-storage.ts:5-11 | reading through the adapter after `set` gives the written text for that key and the old text for every other physical key |
| Adapters.RemoveThenGet | src/adapters/local-storage.ts:5-15 | after `remove` the key reads as null and every other physical key reads as before |
| Adapters.GetOwned | src/adapters/local-storage.ts:28-40 | a key is in the `getAll` snapshot exactly when it is in the namespace and in the area, with the same text |
| Adapters.ClearWalkKeeps | src/adapters/local-storage.ts:17-26 | `clear` only deletes, and never touches a key outside the namespace |
| Adapters.ClearExample | src/adapters/local-storage.ts:17-26 | with one "test." key and one "other." key, `clear` leaves only the "other." key |
| Adapters.ClearSkips | src/adapters/local-storage.ts:20-25 | of two adjacent namespace keys, `clear` removes the first and skips the second |
| Json.Coerce | src/storage.ts:28 | a stored number compares as itself and an object compares as NaN |
| JsonText.DecodeStringify | src/storage.ts:57 | `JSON.parse(JSON.stringify(v))` gives back v, so the clone that `set` stores equals the value |
| Storage.EffectiveMinutes | src/storage.ts:54-55 | an explicit expiry wins, then the default, then 0 |
| Storage.Stamp | src/storage.ts:58-62 | positive minutes give now plus that many minutes in milliseconds, anything else gives 0 ("never") |
| Storage.CeilDiv | src/storage.ts:164 | the result is the ceiling of the quotient |
| Storage.EmptyData | src/storage.ts:170-184 | an adapter answer counts as empty exactly when it is null or the empty string |
| Storage.StoredText | src/storage.ts:120-127 | `expire` and `getExpire` read a non-empty stored text the same way `get` does, and "" never parses |
| Storage.StorageCore.constructor | src/storage.ts:8-11 | the core keeps the adapter and the default expiry |
| Storage.StorageCore.Get | src/storage.ts:13-37 | returns the value the entry reads as (null for absent, unparsable or expired) and deletes the entry exactly when it has expired |
| Storage.StorageCore.Many | src/storage.ts:39-47 | the result maps the requested keys to what `get` returns, and the area is what the run of `get`s leaves |
| Storage.StorageCore.Set | src/storage.ts:49-72 | the area gets the envelope text of the value and its expiry stamp under the normalised key, and nothing else changes |
| Storage.StorageCore.SetMany | src/storage.ts:74-80 | each pair is written in order with the one stamp |
| Storage.StorageCore.Remove | src/storage.ts:82-88 | each key's physical entry is deleted in order |
| Storage.StorageCore.Clear | src/storage.ts:90-94 | the area is what the adapter's `clear` walk leaves |
| Storage.StorageCore.GetAll | src/storage.ts:96-117 | the result holds the live namespace entries under their logical keys, and the area loses what the removals of expired logical keys hit |
| Storage.StorageCore.Expire | src/storage.ts:119-146 | a readable entry is rewritten with its value and the new stamp; anything else is left alone |
| Storage.StorageCore.GetExpire | src/storage.ts:148-168 | returns the remaining time, and returns NotFound exactly when the key reads as absent |
| Storage.ParseEnvelope | src/storage.ts:57-69 | the written envelope parses back to the value and the stamp |
| Storage.ReadEnvelope | src/storage.ts:24-33 | a stored envelope reads as expired exactly when its stamp is positive and has passed; otherwise it reads as the value if truthy, else the whole envelope |
| Storage.SetThenGet | src/storage.ts:13-72 | `set(k, v, m)` then `get(k)` at a later time gives expired once m minutes have passed, else v, or the envelope when v is falsy |
| Storage.SetGetRoundTrip | src/storage.ts:13-72 | a truthy value set and read at the same time comes back as itself |
| Storage.PutOtherView | src/storage.ts:69 | writing one physical key leaves the reading of every other key unchanged |
| Storage.AfterGetEntries | src/storage.ts:28-31 | `get` deletes exactly the expired entry it reads and nothing else |
| Storage.AfterGetKeepsValues | src/storage.ts:28-33 | the deletion `get` makes never changes what any key reads as |
| Storage.SweepKeepsValues | src/storage.ts:42-44 | a run of `get`s never changes what any key reads as |
| Storage.SweepStep | src/storage.ts:42-44 | a run of `get`s one key longer is the shorter run followed by that `get` |
| Storage.ManyKeys | src/storage.ts:39-47 | `many(ks)` maps each listed key, and no other, to what `get` returns for it |
| Storage.PutAllGet | src/storage.ts:74-80 | after `setMany` with distinct physical keys, each pair's key holds its envelope |
| Storage.PutAllOther | src/storage.ts:74-80 | `setMany` leaves every physical key it does not write unchanged |
| Storage.RemoveKeysEntries | src/storage.ts:82-88 | after `remove(...ks)` a physical key is gone exactly when some listed key normalises to it, and is unchanged otherwise |
| Storage.RemoveKeysAppend | src/storage.ts:82-88 | removing one more key after a list is the same as removing the longer list |
| Storage.ExpireNothing | src/storage.ts:120-124 | `expire` on an absent key changes nothing |
| Storage.ExpireThenRemaining | src/storage.ts:119-168 | after `expire(k, m)` on a readable entry, `getExpire(k)` gives m minutes, or Infinity when m is not positive |
| Storage.ExpireKeepsValue | src/storage.ts:134-140 | `expire` keeps the value: a truthy value still reads back as itself, even if the entry had expired |
| Storage.RemainingAfterSet | src/storage.ts:148-168 | `getExpire` right after a write with m minutes gives m, or Infinity when m is not positive |
| Storage.ForeverIffNoExpiry | src/storage.ts:157-160 | `getExpire` gives Infinity exactly when the stored expire field is missing or falsy |
| Storage.ExpiredRemainingZero | src/storage.ts:163-164 | once a positive stamp has passed, `get` finds the entry expired and `getExpire` reports 0 |
| Storage.SetTextExample | src/storage.ts:54-69 | with no expiry anywhere, `set('key1','value1')` writes exactly `{"value":"value1","expire":0}` |
| Storage.EnvelopeTextShape | src/storage.ts:64-69 | the stored text is `{"value":` + the value's JSON + `,"expire":` + the stamp + `}` |
| Storage.DefaultExpiryUsed | src/storage.ts:54-61 | a positive default expiry gives a `set` that names no expiry a positive stamp m minutes ahead |
| Storage.ScanStep | src/storage.ts:100-114 | one more snapshot entry adds its logical key and value when live, and a removal when expired |
| Storage.LogicalKeyOwned | src/storage.ts:106-110 | for a namespace key the first-occurrence replace is the same as stripping the prefix |
| Storage.GetAllReports | src/storage.ts:96-117 | `getAll` reports logical key lk exactly when `prefix.lk` holds a parsable, unexpired entry, with its value |
| Storage.GetAllRemoves | src/storage.ts:104-108 | with no `prefix.prefix.` keys, `getAll` deletes exactly the expired namespace entries and leaves every other entry alone |
| Storage.DoomedCovers | src/storage.ts:104-107 | every expired namespace entry leads to a removal aimed at its own physical key |
| Storage.DoomedHit | src/storage.ts:106 | with no `prefix.prefix.` keys, each removal `getAll` makes hits an expired namespace entry |
| Storage.DroppedAlias | src/storage.ts:104-108 | for a lone expired entry stored under `prefix.prefix.lk`, nothing is reported, its logical key (and so the removal's target) is `prefix.lk`, and that removal leaves the area unchanged |
| Storage.GetAllAliasing | src/storage.ts:104-108 | with prefix "fs", an expired entry under "fs.fs.x" is not reported, the removal is aimed at "fs.x", and the entry stays |
| Storage.LiveAlias | src/storage.ts:104-110 | with a live `prefix.x` and an expired `prefix.prefix.x`, x is reported with the live value, the one removal is aimed at `prefix.x`, and afterwards only the expired entry is left |
| Storage.GetAllLiveAlias | src/storage.ts:104-110 | with prefix "fs", a live "fs.x" and an expired "fs.fs.x": "x" is reported with the live value, then the live entry is deleted and the expired one kept |
| Utils.Counter | src/utils.ts:9-13 | absent or falsy counts as 0, and the value is refused exactly when it is truthy and not a number |
| Utils.TimesPairs | src/utils.ts:194-196 | there are `count` pairs (none for count ≤ 0), the i-th being ("item_i", callback(i)) |
| Utils.AtLeastZero | src/utils.ts:243 | the result is the larger of 0 and n |
| Utils.Draw | src/utils.ts:147-156 | the picks are `want` distinct positions below n |
| Utils.StorageUtils.constructor | src/utils.ts:6 | the helpers work through the given core |
| Utils.StorageUtils.Increment | src/utils.ts:8-19 | returns the counter plus the amount, or the error for a non-numeric value; on success the new count is written with the default expiry, and on error only `get`'s deletion happens |
| Utils.StorageUtils.Decrement | src/utils.ts:21-23 | is `increment` by the negated amount |
| Utils.StorageUtils.Remember | src/utils.ts:25-36 | a present value is returned and nothing is written; otherwise the computed value is stored and returned |
| Utils.StorageUtils.Pull | src/utils.ts:38-43 | returns what `get` returns, and the physical key is gone afterwards |
| Utils.StorageUtils.Has | src/utils.ts:45-47 | true exactly when `get` finds a value |
| Utils.StorageUtils.Put | src/utils.ts:49-51 | is `set` |
| Utils.StorageUtils.Add | src/utils.ts:53-61 | returns true and writes exactly when the key has no value |
| Utils.StorageUtils.Forever | src/utils.ts:63-65 | writes the value with stamp 0 |
| Utils.StorageUtils.Forget | src/utils.ts:67-69 | is `remove` |
| Utils.StorageUtils.Flush | src/utils.ts:71-73 | is `clear` |
| Utils.StorageUtils.Exists | src/utils.ts:75-77 | is `has` |
| Utils.StorageUtils.Missing | src/utils.ts:79-81 | is the negation of `has` |
| Utils.StorageUtils.Except | src/utils.ts:83-89 | the `getAll` dictionary without the listed keys, with `getAll`'s deletions |
| Utils.DeleteKeys | src/utils.ts:84-88 | the loop leaves the dictionary without exactly the listed keys, keeping the order of the rest |
| Utils.StorageUtils.SomeHas | src/utils.ts:91-105 | true exactly when some key's presence equals `want`; the keys read are those up to and including the first such key |
| Utils.StorageUtils.HasAny | src/utils.ts:91-93 | true exactly when some key has a value; reads stop at the first one |
| Utils.StorageUtils.HasAll | src/utils.ts:95-97 | true exactly when every key has a value; reads stop at the first missing one |
| Utils.StorageUtils.MissingAny | src/utils.ts:99-101 | true exactly when some key has no value; reads stop at the first one |
| Utils.StorageUtils.MissingAll | src/utils.ts:103-105 | true exactly when no key has a value; reads stop at the first present one |
| Utils.StorageUtils.Only | src/utils.ts:107-116 | the dictionary of the listed keys that have a value, after a `get` of each |
| Utils.StorageUtils.First | src/utils.ts:118-126 | the value of the first listed key that has one, or null; the keys after it are not read |
| Utils.StorageUtils.Last | src/utils.ts:128-136 | the value of the last listed key that has one, or null; the keys before it are not read |
| Utils.StorageUtils.Random | src/utils.ts:138-159 | count 1 gives one `getAll` value, or null when there are none; otherwise min(count, n) values from distinct keys (none for count ≤ 0); `getAll`'s deletions happen |
| Utils.StorageUtils.IsEmpty | src/utils.ts:161-163 | `empty` of what `get` returns |
| Utils.StorageUtils.IsNotEmpty | src/utils.ts:165-167 | the negation of `isEmpty` |
| Utils.StorageUtils.Count | src/utils.ts:169-171 | the number of keys of a `getAll` snapshot |
| Utils.StorageUtils.Keys | src/utils.ts:173-175 | the keys of a `getAll` snapshot |
| Utils.StorageUtils.Values | src/utils.ts:177-179 | the values of a `getAll` snapshot |
| Utils.StorageUtils.KeyExists | src/utils.ts:181-183 | true exactly when the key is among the snapshot's keys |
| Utils.StorageUtils.Tap | src/utils.ts:185-192 | a present value is replaced by the callback's result under the default expiry; an absent one leaves only `get`'s deletion |
| Utils.StorageUtils.Times | src/utils.ts:194-199 | writes callback(i) under "item_i" for every i below count, in order |
| Utils.StorageUtils.Wrap | src/utils.ts:201-207 | stores and returns the callback's result on what `get` returned, even when that was null |
| Utils.StorageUtils.ExpireMany | src/utils.ts:209-214 | `expire` on each key in turn |
| Utils.StorageUtils.Extend | src/utils.ts:216-229 | a finite remaining time c becomes c + minutes; an absent or never-expiring key is left alone |
| Utils.StorageUtils.Reduce | src/utils.ts:231-245 | a finite remaining time c becomes max(0, c − minutes); a never-expiring key gets the minutes; an absent key is left alone |
| Utils.GetsAt | src/utils.ts:118-136 | reading the keys in turn gives each key exactly what a lone `get` would give |
| Utils.HitInMeaning | src/utils.ts:91-105 | the scan stops at the first key whose presence equals `want`, and finds one exactly when such a key exists |
| Utils.HitInPrefix | src/utils.ts:91-105 | the stopping point does not depend on the keys after it |
| Utils.FirstInHit | src/utils.ts:118-126 | `first` gives the value at the first present key, or null when there is none |
| Utils.FirstInPrefix | src/utils.ts:118-126 | once a front part of the list has a present value, `first` over the whole list returns that part's answer |
| Utils.LastHitInMeaning | src/utils.ts:128-136 | the backward scan stops at the last present key, and finds one exactly when a present key exists |
| Utils.LastInHit | src/utils.ts:128-136 | `last` gives the value at the last present key, or null when there is none |
| Utils.LastInSuffix | src/utils.ts:128-136 | once a tail of the list has a present value, the backward scan stops inside that tail and `last` returns the tail's answer |
| Utils.SweepDownKeepsValues | src/utils.ts:129-130 | a backward run of `get`s never changes what any key reads as |
| UtilsProps.IncrementAfterSet | src/utils.ts:8-19 | after `set(k, v)`, `increment(k, a)` gives v + a exactly when v is a non-zero number, and throws otherwise, a stored 0 included |
| UtilsProps.SetReadsBack | src/utils.ts:9 | the `get` inside `increment` after `set(k, v, m)` sees v when truthy, else the envelope |
| UtilsProps.IncrementThenGet | src/utils.ts:8-19 | an absent counter starts from 0, and a non-zero count written by `increment` reads back as itself |
| UtilsProps.IncrementAbsentExample | src/utils.ts:8-19 | `increment("c", 3)` on an absent key gives 3 and stores 3 |
| UtilsProps.IncrementStringExample | src/utils.ts:11-13 | `increment` on a key holding "x" throws |
| UtilsProps.PullEmpties | src/utils.ts:38-43 | after `pull(k)`, k reads as absent at any time |
| UtilsProps.AddKeepsFirst | src/utils.ts:53-61 | what `add` writes is present at once, so a second `add` returns false, changes nothing and keeps the first value |
| UtilsProps.ForeverLasts | src/utils.ts:63-65 | a value written by `forever` never expires, and `getExpire` reports Infinity |
| UtilsProps.IsEmptyAfterSet | src/utils.ts:161-163 | right after `set(k, v)`, `isEmpty(k)` is true exactly for v = [] or {} |
| UtilsProps.OnlyKeys | src/utils.ts:107-116 | `only(keys)` maps a key to a value exactly when it is listed and `get` finds a value for it |
| UtilsProps.ExceptKeys | src/utils.ts:83-89 | `except(keys)` reports every live namespace entry under its logical key except the listed keys |
| UtilsProps.ItemKeyInjective | src/utils.ts:196 | distinct indexes give distinct "item_i" keys |
| UtilsProps.ItemKeyStored | src/utils.ts:196 | "item_i" is stored under `prefix.item_i` |
| UtilsProps.TimesStores | src/utils.ts:194-199 | after `times`, `prefix.item_i` holds the envelope of callback(i) for every i below count |
| UtilsProps.ExpireAllStored | src/utils.ts:209-214 | `expireMany` keeps every readable entry readable and adds none |
| UtilsProps.ExpireManyRemaining | src/utils.ts:209-214 | after `expireMany(keys, m)`, every listed key that held a readable entry reports m minutes, or Infinity for m ≤ 0 |
| UtilsProps.ExtendRemaining | src/utils.ts:216-229 | `extend(k, x)` on c minutes left leaves c + x, or Infinity once that is not positive |
| UtilsProps.ReduceRemaining | src/utils.ts:231-245 | `reduce(k, x)` on c minutes left leaves c − x when c > x, and otherwise a key that never expires |
| UtilsProps.ReduceForever | src/utils.ts:238-241 | `reduce(k, x)` on a never-expiring key gives it x minutes, where `extend` leaves it alone |
| UtilsProps.ExtendReduceExample | src/utils.ts:216-245 | from 10 minutes, `extend(k, 5)` leaves 15 and `reduce(k, 15)` leaves a key that never expires |
| Init.LowerChar | src/index.ts:32 | lower-cases A–Z and the Kelvin sign, and leaves every other character alone |
| Init.Lower | src/index.ts:32 | lower-cases each character in place |
| Init.Init | src/index.ts:26-50 | builds a fresh core and helpers with the default expiry over a fresh adapter for the chosen area, named by `prefix \|\| 'fs'`; a custom adapter is used as given; the cookie adapter gives nothing |
| Init.LowerIdempotent | src/index.ts:32 | lower-casing twice is lower-casing once |
| Init.BackendIgnoresCase | src/index.ts:32 | a type name and its lower case pick the same adapter |
| Init.InitDefaults | src/index.ts:28-29 | no type, or an empty one, gives local storage; no prefix, or an empty one, gives "fs" |
| Init.PrefixKept | src/index.ts:28 | a non-empty prefix is used as given |
| Init.NameExamples | src/index.ts:31-44 | "SessionStorage", "COOKIE" (also with the Kelvin sign), "LocalStorage" and an unknown name pick session, cookie, local and local |

## Left out

- The cookie adapter (`src/adapters/cookie-storage.ts`) is not part of this model. `Init.Init` picks it but builds nothing for it.
- A core over a custom adapter of arbitrary behaviour is not modelled: the only adapter class is the Web Storage one.
- `index.js`, the bundled output, is not modelled, and neither is the `window.fluidStorage` export at the end of `src/index.ts`.
- Type-only files (`src/types.ts`, `types/index.d.ts`) are not modelled.
- JSON values are a subset.
  - Numbers are integers: fractions, exponents, NaN and Infinity as values are not modelled.
  - `undefined` values and functions, which `JSON.stringify` drops, are not modelled.
  - An object text with a repeated member name parses to an object that
    keeps every occurrence, where `JSON.parse` keeps one member, at the
    first position, with the last value. Property lookup takes the last
    occurrence, so every reading of a field agrees; only the shape of the
    objects that `get` and `getAll` return, and of the text `expire`
    rewrites, differs.
  - Strings are sequences of characters. Lone surrogates and `\u` surrogate pairs in the text are not parsed.
- Json.Coerce: approximates `ToNumber` on a foreign `expire` field. It is exact for null, booleans, numbers, "", [] and objects. Every other string or array is taken as NaN.
- Minutes are integers. Fractional minutes, and the `isFinite(Number(...))` test on a non-numeric expiry in `set`, are not modelled.
- The clock is the parameter `now`, fixed within one call. Lemmas about expiry assume `now >= 0`, as `Date.now()` is.
- BaseAdapter.Namespace.NormalizeKey: treats the prefix literally. The source builds a regular expression from it, so a prefix holding regex metacharacters matches differently.
- Result objects are plain dictionaries. In the source they are `{}`
  literals, where assigning the key `__proto__` sets the prototype instead of
  adding a key. So a key `__proto__` never shows up in the source's `many`,
  `getAll`, `only`, `except`, `keys`, `values`, `count` or `random`, while the
  model lists it.
- Key order follows insertion. JavaScript's ordering of integer-like keys first in plain objects is not modelled, in the `getAll` snapshot or in the dictionaries built from it.
- Utils.StorageUtils.Random: the choices of `Math.random` and of the shuffle are left open. The method proves what every choice must satisfy, and the chosen positions are ghost.
- Callbacks are pure functions, or values computed by the caller. A callback that throws or touches the storage is not modelled.
- Concurrency between tabs sharing an area is not modelled, since the code runs synchronously.
- Default arguments (`increment` by 1, `random(1)`) are explicit arguments.

/** The key namespacing every adapter shares. An adapter is built with a
    prefix; the physical key of a logical key is the prefix, a dot, and the
    logical key with one leading "prefix." taken off. The prefix is assumed
    to hold no regular-expression metacharacters, so the pattern
    `^prefix\.` matches exactly the keys that start with "prefix.". */
module BaseAdapter {

  datatype Namespace = Namespace(prefix: string) {

    function GetPrefix(): string {
      prefix
    }

    /** "prefix." — the start of every physical key of this namespace. */
    function Head(): string {
      prefix + "."
    }

    /** The test of the anchored pattern `^prefix\.` against a key. */
    predicate Owns(key: string) {
      |Head()| <= |key| && key[..|Head()|] == Head()
    }

    /** `key.replace(/^prefix\./, '')`: one leading "prefix." removed. */
    function Strip(key: string): (r: string)
      ensures |r| <= |key|
    {
      if Owns(key) then key[|Head()|..] else key
    }

    /** The physical key a logical key is stored under. */
    function NormalizeKey(key: string): (r: string)
      ensures Owns(r)
    {
      assert (Head() + Strip(key))[..|Head()|] == Head();
      Head() + Strip(key)
    }
  }

  // ---------------------------------------------------------------- lemmas

  lemma {:induction false} GetPrefixUnchanged(p: string)
    ensures Namespace(p).GetPrefix() == p
  {
  }

  /** Stripping the head of a key that was built from it gives back the tail. */
  lemma {:induction false} StripHead(ns: Namespace, k: string)
    ensures ns.Owns(ns.Head() + k)
    ensures ns.Strip(ns.Head() + k) == k
  {
    var h := ns.Head();
    assert (h + k)[..|h|] == h;
    assert (h + k)[|h|..] == k;
  }

  /** An owned key is its head followed by what Strip leaves. */
  lemma {:induction false} HeadStrip(ns: Namespace, pk: string)
    requires ns.Owns(pk)
    ensures ns.Head() + ns.Strip(pk) == pk
  {
    assert pk == pk[..|ns.Head()|] + pk[|ns.Head()|..];
  }

  /** A physical key is its own normal form: normalising twice is normalising once. */
  lemma {:induction false} NormalizeIdempotent(ns: Namespace, k: string)
    ensures ns.NormalizeKey(ns.NormalizeKey(k)) == ns.NormalizeKey(k)
  {
    var n := ns.NormalizeKey(k);
    StripHead(ns, ns.Strip(k));
    assert ns.Strip(n) == ns.Strip(k);
  }

  /** Normalising an already prefixed key leaves it alone, and it agrees with
      normalising the bare key exactly when the bare key does not itself
      start with "prefix." (only one leading prefix is ever removed). */
  lemma {:induction false} NormalizePrefixed(ns: Namespace, k: string)
    ensures ns.NormalizeKey(ns.Head() + k) == ns.Head() + k
    ensures ns.NormalizeKey(ns.Head() + k) == ns.NormalizeKey(k) <==> !ns.Owns(k)
  {
    StripHead(ns, k);
    var h := ns.Head();
    if ns.Owns(k) {
      assert |ns.Strip(k)| < |k|;
      assert |h + ns.Strip(k)| != |h + k|;
    }
  }

  /** Two logical keys share a physical key exactly when they strip to the
      same tail; "k" and "prefix.k" are the typical pair. */
  lemma {:induction false} NormalizeSame(ns: Namespace, a: string, b: string)
    ensures ns.NormalizeKey(a) == ns.NormalizeKey(b) <==> ns.Strip(a) == ns.Strip(b)
  {
    var h := ns.Head();
    if ns.NormalizeKey(a) == ns.NormalizeKey(b) {
      assert ns.Strip(a) == (h + ns.Strip(a))[|h|..];
      assert ns.Strip(b) == (h + ns.Strip(b))[|h|..];
    }
  }

  /** The adapter test: with prefix "test", "myKey" is stored as "test.myKey". */
  lemma {:induction false} NormalizeExample()
    ensures Namespace("test").NormalizeKey("myKey") == "test.myKey"
  {
    var ns := Namespace("test");
    assert ns.Head() == "test.";
    assert "myKey"[..5][0] == 'm';
    assert !ns.Owns("myKey");
  }
}

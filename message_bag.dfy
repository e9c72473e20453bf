/**
  Message bags: validation messages keyed by dot-joined paths. The key "" holds the messages of
  the bag's own value; "name" and "name.sub" hold those of nested fields. A nested field reads its
  part of the parent's bag with a slice and writes it back with a splice.
 */
module MessageBags {
  import opened Wrappers

  type MessageBag = map<string, seq<string>>

  /** `path === prefix || path.startsWith(prefix + '.')`: the entry belongs to the sub-bag for `prefix`. */
  predicate IsUnder(prefix: string, path: string) {
    path == prefix || prefix + "." <= path
  }

  /** The key an entry under `prefix` gets in the sub-bag: "" for `prefix` itself, else what follows `prefix.`. */
  function SubKey(prefix: string, path: string): (k: string)
    requires IsUnder(prefix, path)
    ensures |k| <= |path|
  {
    if path == prefix then "" else path[|prefix| + 1..]
  }

  /** Where the sub-bag key `k` goes in the parent bag: "" to `prefix` itself, any other `k` to `prefix.k`. */
  function Prefixed(prefix: string, k: string): (path: string)
    ensures IsUnder(prefix, path)
    ensures k != "" ==> |path| == |prefix| + 1 + |k|
  {
    if k == "" then prefix else prefix + "." + k
  }

  /** Moving a key under a prefix and reading it back gives the key. */
  lemma SubKeyPrefixed(prefix: string, k: string)
    ensures SubKey(prefix, Prefixed(prefix, k)) == k
  {
    if k != "" {
      var path := prefix + "." + k;
      assert path[|prefix| + 1..] == k;
    }
  }

  /** Every path under `prefix` except `prefix.` itself is the re-prefixed form of its sub-bag key. */
  lemma PrefixedSubKey(prefix: string, path: string)
    requires IsUnder(prefix, path) && path != prefix + "."
    ensures Prefixed(prefix, SubKey(prefix, path)) == path
  {
    if path != prefix {
      assert path == path[..|prefix| + 1] + path[|prefix| + 1..];
      assert path[..|prefix| + 1] == prefix + ".";
    }
  }

  /** `prefix.` is under `prefix`, and its sub-bag key "" is also the key of `prefix` itself. */
  lemma SubKeyOfDot(prefix: string)
    ensures IsUnder(prefix, prefix + ".") && SubKey(prefix, prefix + ".") == ""
    ensures Prefixed(prefix, "") != prefix + "."
  {
  }

  // ---------------------------------------------------------------------------
  // The operations as functions of their inputs.

  /** The keys of the sub-bag of `bag` under `prefix`. */
  function SubKeys(bag: MessageBag, prefix: string): (ks: set<string>)
    ensures forall k :: k in ks <==> Prefixed(prefix, k) in bag || (k == "" && prefix + "." in bag)
  {
    var ks := set path | path in bag && IsUnder(prefix, path) :: SubKey(prefix, path);
    forall k ensures k in ks <==> Prefixed(prefix, k) in bag || (k == "" && prefix + "." in bag) {
      if k in ks {
        var path :| path in bag && IsUnder(prefix, path) && SubKey(prefix, path) == k;
        if path != prefix + "." {
          PrefixedSubKey(prefix, path);
        }
      }
      if Prefixed(prefix, k) in bag {
        SubKeyPrefixed(prefix, k);
      }
      if k == "" && prefix + "." in bag {
        SubKeyOfDot(prefix);
      }
    }
    ks
  }

  /**
    The sub-bag under a non-empty `prefix`: the entry at `prefix` under "", the entry at `prefix.k`
    under `k`. When both `prefix` and `prefix.` are keys, both land on ""; this function keeps the
    entry at `prefix` (the loop of the source keeps whichever it visits last).
   */
  function Slice(bag: MessageBag, prefix: string): (r: MessageBag)
    ensures prefix == "" ==> r == bag
    ensures prefix != "" ==> forall k :: k in r <==> Prefixed(prefix, k) in bag || (k == "" && prefix + "." in bag)
    ensures prefix != "" ==> forall k | k in r && Prefixed(prefix, k) in bag :: r[k] == bag[Prefixed(prefix, k)]
    ensures prefix != "" ==> forall k | k in r && Prefixed(prefix, k) !in bag :: k == "" && r[k] == bag[prefix + "."]
  {
    if prefix == "" then bag
    else
      map k | k in SubKeys(bag, prefix) ::
        if Prefixed(prefix, k) in bag then bag[Prefixed(prefix, k)] else bag[prefix + "."]
  }

  /** The entries of `bag` that are not under `prefix`. */
  function Outside(bag: MessageBag, prefix: string): (r: MessageBag)
    ensures forall path :: path in r <==> path in bag && !IsUnder(prefix, path)
    ensures forall path | path in r :: r[path] == bag[path]
  {
    map path | path in bag && !IsUnder(prefix, path) :: bag[path]
  }

  /** The entries of `sub` moved under `prefix`. */
  function Reprefix(prefix: string, sub: MessageBag): (r: MessageBag)
    ensures forall path :: path in r <==>
      IsUnder(prefix, path) && SubKey(prefix, path) in sub && Prefixed(prefix, SubKey(prefix, path)) == path
    ensures forall path | path in r :: r[path] == sub[SubKey(prefix, path)]
  {
    forall j, k | j in sub && k in sub && Prefixed(prefix, j) == Prefixed(prefix, k) ensures j == k {
      SubKeyPrefixed(prefix, j);
      SubKeyPrefixed(prefix, k);
    }
    var r := map k | k in sub :: Prefixed(prefix, k) := sub[k];
    forall path ensures path in r <==>
      IsUnder(prefix, path) && SubKey(prefix, path) in sub && Prefixed(prefix, SubKey(prefix, path)) == path
    {
      if path in r {
        var k :| k in sub && Prefixed(prefix, k) == path;
        SubKeyPrefixed(prefix, k);
      }
    }
    forall path | path in r ensures r[path] == sub[SubKey(prefix, path)] {
      var k :| k in sub && Prefixed(prefix, k) == path;
      SubKeyPrefixed(prefix, k);
    }
    r
  }

  /** `bag` with its sub-bag under `prefix` replaced by `sub`; the empty prefix replaces the whole bag. */
  function Splice(bag: MessageBag, prefix: string, sub: MessageBag): (r: MessageBag)
    ensures prefix == "" ==> r == sub
    ensures prefix != "" ==> forall path | !IsUnder(prefix, path) :: path in r <==> path in bag
    ensures prefix != "" ==> forall path | path in r && !IsUnder(prefix, path) :: r[path] == bag[path]
    ensures prefix != "" ==> forall k :: Prefixed(prefix, k) in r <==> k in sub
    ensures prefix != "" ==> forall k | k in sub :: r[Prefixed(prefix, k)] == sub[k]
    ensures prefix != "" ==> forall path | path in r && IsUnder(prefix, path) ::
      SubKey(prefix, path) in sub && Prefixed(prefix, SubKey(prefix, path)) == path
  {
    if prefix == "" then sub
    else
      var r := Outside(bag, prefix) + Reprefix(prefix, sub);
      forall k ensures Prefixed(prefix, k) in r <==> k in sub {
        SubKeyPrefixed(prefix, k);
      }
      forall k | k in sub ensures r[Prefixed(prefix, k)] == sub[k] {
        SubKeyPrefixed(prefix, k);
      }
      r
  }

  // ---------------------------------------------------------------------------
  // Laws

  /** Reading back what was just written under a prefix gives exactly what was written. */
  lemma SliceSplice(bag: MessageBag, prefix: string, sub: MessageBag)
    ensures Slice(Splice(bag, prefix, sub), prefix) == sub
  {
    if prefix != "" {
      var m := Splice(bag, prefix, sub);
      SubKeyOfDot(prefix);
      assert prefix + "." !in m;
      var s := Slice(m, prefix);
      forall k ensures k in s <==> k in sub {
        assert k in s <==> Prefixed(prefix, k) in m;
      }
      forall k | k in s ensures s[k] == sub[k] {
        assert s[k] == m[Prefixed(prefix, k)];
      }
      SameEntries(s, sub);
    }
  }

  /** Bags with the same keys and the same entries are the same bag. */
  lemma SameEntries(a: MessageBag, b: MessageBag)
    requires forall k :: k in a <==> k in b
    requires forall k | k in a :: a[k] == b[k]
    ensures a == b
  {
    assert a.Keys == b.Keys;
  }

  /**
    Writing back what was just read under a prefix leaves the bag as it was, unless the bag has
    both a `prefix` and a `prefix.` key (two entries the slice puts under the same key "").
   */
  lemma SpliceSlice(bag: MessageBag, prefix: string)
    requires prefix == "" || prefix + "." !in bag
    ensures Splice(bag, prefix, Slice(bag, prefix)) == bag
  {
    if prefix != "" {
      var m := Splice(bag, prefix, Slice(bag, prefix));
      forall path ensures path in m <==> path in bag {
        SpliceSliceAt(bag, prefix, path);
      }
      forall path | path in m ensures m[path] == bag[path] {
        SpliceSliceAt(bag, prefix, path);
      }
      SameEntries(m, bag);
    }
  }

  /** One path of `SpliceSlice`. */
  lemma SpliceSliceAt(bag: MessageBag, prefix: string, path: string)
    requires prefix != "" && prefix + "." !in bag
    ensures var m := Splice(bag, prefix, Slice(bag, prefix));
      (path in m <==> path in bag) && (path in m ==> m[path] == bag[path])
  {
    var s := Slice(bag, prefix);
    var m := Splice(bag, prefix, s);
    if IsUnder(prefix, path) {
      if path in m {
        var k := SubKey(prefix, path);
        assert k in s && Prefixed(prefix, k) == path;
        assert m[path] == s[k];
      }
      if path in bag {
        PrefixedSubKey(prefix, path);
        assert Prefixed(prefix, SubKey(prefix, path)) in m;
      }
    }
  }

  /** Two bags with the same entries under `q` have the same sub-bag under `q`. */
  lemma SliceAgrees(a: MessageBag, b: MessageBag, q: string)
    requires q != ""
    requires forall path | IsUnder(q, path) :: path in a <==> path in b
    requires forall path | IsUnder(q, path) && path in a :: a[path] == b[path]
    ensures Slice(a, q) == Slice(b, q)
  {
    SubKeyOfDot(q);
    assert Slice(a, q).Keys == Slice(b, q).Keys;
  }

  /** How two prefixes of the same path relate: the shorter one, followed by a dot, starts the longer one. */
  lemma DotPrefixes(p: string, q: string, path: string)
    ensures p + "." <= path && q + "." <= path && |p| < |q| ==> '.' in q
    ensures p + "." <= path && q + "." <= path && |p| == |q| ==> p == q
    ensures p + "." <= path && path == q ==> '.' in q
  {
    if p + "." <= path && q + "." <= path && |p| < |q| {
      assert q[|p|] == path[|p|] == '.';
    }
    if p + "." <= path && q + "." <= path && |p| == |q| {
      assert p == path[..|p|] == q;
    }
    if p + "." <= path && path == q {
      assert q[|p|] == '.';
    }
  }

  /** No path lies under two different prefixes that contain no dot. */
  lemma UnderOne(p: string, q: string, path: string)
    requires p != q && '.' !in p && '.' !in q
    requires IsUnder(q, path)
    ensures !IsUnder(p, path)
  {
    DotPrefixes(p, q, path);
    DotPrefixes(q, p, path);
  }

  /**
    Writing the sub-bag under one dot-free prefix leaves the sub-bag under any other dot-free
    prefix as it was: the errors of one row or field are independent of those of its siblings.
   */
  lemma SliceSpliceOther(bag: MessageBag, p: string, q: string, sub: MessageBag)
    requires p != "" && q != "" && p != q && '.' !in p && '.' !in q
    ensures Slice(Splice(bag, p, sub), q) == Slice(bag, q)
  {
    var m := Splice(bag, p, sub);
    forall path | IsUnder(q, path) ensures path in m <==> path in bag {
      UnderOne(p, q, path);
    }
    forall path | IsUnder(q, path) && path in m ensures m[path] == bag[path] {
      UnderOne(p, q, path);
    }
    SliceAgrees(m, bag, q);
  }

  /**
    The entry at `prefix.` does not survive the slice/splice round trip: the slice files it under
    "", and the splice writes "" back to `prefix`.
   */
  lemma SpliceSliceLosesDot(bag: MessageBag, prefix: string)
    requires prefix != "" && prefix + "." in bag
    ensures prefix + "." !in Splice(bag, prefix, Slice(bag, prefix))
    ensures Splice(bag, prefix, Slice(bag, prefix)) != bag
  {
    SubKeyOfDot(prefix);
  }

  // ---------------------------------------------------------------------------
  // The operations as the source writes them: one loop over the keys of the input bag. The
  // iteration order of an object's keys is not modelled, so each loop takes the keys in
  // whatever order it likes.

  /** `copyMessageBag`: a new bag with the same keys and the same message lists. */
  method CopyMessageBag(bag: MessageBag) returns (r: MessageBag)
    ensures r == bag
  {
    r := map[];
    var todo := bag.Keys;
    while todo != {}
      invariant todo <= bag.Keys
      invariant forall path :: path in r <==> path in bag && path !in todo
      invariant forall path | path in r :: r[path] == bag[path]
      decreases todo
    {
      var path :| path in todo;
      r := r[path := bag[path]];
      todo := todo - {path};
    }
  }

  /**
    `sliceMessageBag`: the sub-bag under `prefix`. When the bag has both `prefix` and `prefix.`,
    the entry under "" is whichever of the two the loop visits last.
   */
  method SliceMessageBag(bag: MessageBag, prefix: string) returns (r: MessageBag)
    ensures r.Keys == Slice(bag, prefix).Keys
    ensures forall k | k in r ::
      r[k] == Slice(bag, prefix)[k] || (k == "" && prefix + "." in bag && r[k] == bag[prefix + "."])
    ensures prefix == "" || prefix + "." !in bag ==> r == Slice(bag, prefix)
  {
    if prefix == "" {
      r := CopyMessageBag(bag);
      return;
    }
    r := map[];
    var todo := bag.Keys;
    while todo != {}
      invariant todo <= bag.Keys
      invariant forall path | path in bag && path !in todo && IsUnder(prefix, path) :: SubKey(prefix, path) in r
      invariant forall k | k in r ::
        || (Prefixed(prefix, k) in bag && r[k] == bag[Prefixed(prefix, k)])
        || (k == "" && prefix + "." in bag && r[k] == bag[prefix + "."])
      decreases todo
    {
      var path :| path in todo;
      if path == prefix {
        r := r["" := bag[path]];
      } else if prefix + "." <= path {
        r := r[path[|prefix| + 1..] := bag[path]];
        if path != prefix + "." {
          PrefixedSubKey(prefix, path);
        }
      }
      todo := todo - {path};
    }
    forall k | k in Slice(bag, prefix) ensures k in r {
      if Prefixed(prefix, k) in bag {
        SubKeyPrefixed(prefix, k);
      } else {
        SubKeyOfDot(prefix);
      }
    }
  }

  /** The first loop of `spliceMessageBag`: copies the entries that are not under `prefix`. */
  method CopyOutside(bag: MessageBag, prefix: string) returns (r: MessageBag)
    ensures r == Outside(bag, prefix)
  {
    r := map[];
    var todo := bag.Keys;
    while todo != {}
      invariant todo <= bag.Keys
      invariant forall path :: path in r <==> path in bag && path !in todo && !IsUnder(prefix, path)
      invariant forall path | path in r :: r[path] == bag[path]
      decreases todo
    {
      var path :| path in todo;
      if !(path == prefix || prefix + "." <= path) {
        r := r[path := bag[path]];
      }
      todo := todo - {path};
    }
  }

  /** The second loop of `spliceMessageBag`: writes each entry of `sub` under `prefix` into `kept`. */
  method AddPrefixed(kept: MessageBag, prefix: string, sub: MessageBag) returns (r: MessageBag)
    requires forall path | path in kept :: !IsUnder(prefix, path)
    ensures r == kept + Reprefix(prefix, sub)
  {
    r := kept;
    var todo := sub.Keys;
    while todo != {}
      invariant todo <= sub.Keys
      invariant forall path | !IsUnder(prefix, path) :: path in r <==> path in kept
      invariant forall path | path in kept :: r[path] == kept[path]
      invariant forall k | k in sub && k !in todo :: Prefixed(prefix, k) in r && r[Prefixed(prefix, k)] == sub[k]
      invariant forall path | path in r && IsUnder(prefix, path) ::
        SubKey(prefix, path) in sub && SubKey(prefix, path) !in todo && Prefixed(prefix, SubKey(prefix, path)) == path
      decreases todo
    {
      var k :| k in todo;
      SubKeyPrefixed(prefix, k);
      r := r[(if k == "" then prefix else prefix + "." + k) := sub[k]];
      todo := todo - {k};
      forall j | j in sub && j !in todo && j != k ensures Prefixed(prefix, j) != Prefixed(prefix, k) {
        SubKeyPrefixed(prefix, j);
      }
    }
    PrefixedAll(kept, prefix, sub, r);
  }

  /** A bag that agrees with `kept` outside `prefix` and with `sub` under it is `kept + Reprefix(prefix, sub)`. */
  lemma PrefixedAll(kept: MessageBag, prefix: string, sub: MessageBag, r: MessageBag)
    requires forall path | path in kept :: !IsUnder(prefix, path)
    requires forall path | !IsUnder(prefix, path) :: path in r <==> path in kept
    requires forall path | path in kept :: r[path] == kept[path]
    requires forall k | k in sub :: Prefixed(prefix, k) in r && r[Prefixed(prefix, k)] == sub[k]
    requires forall path | path in r && IsUnder(prefix, path) ::
      SubKey(prefix, path) in sub && Prefixed(prefix, SubKey(prefix, path)) == path
    ensures r == kept + Reprefix(prefix, sub)
  {
    var s := kept + Reprefix(prefix, sub);
    assert r.Keys == s.Keys;
  }

  /** `spliceMessageBag`: the entries outside `prefix` are kept, those under it replaced by `sub`'s. */
  method SpliceMessageBag(bag: MessageBag, prefix: string, sub: MessageBag) returns (r: MessageBag)
    ensures r == Splice(bag, prefix, sub)
  {
    if prefix == "" {
      r := CopyMessageBag(sub);
      return;
    }
    r := CopyOutside(bag, prefix);
    r := AddPrefixed(r, prefix, sub);
  }
}

/**
  The coercion, copy, lookup and re-indexing helpers of the form library: how loosely typed input
  becomes array indices, booleans, key lists and form values, and how error paths follow rows
  that move.
 */
module Util {
  import opened Wrappers
  import opened Strings
  import opened Values
  import opened MessageBags

  // ---------------------------------------------------------------------------
  // Unique keys

  /** The `n`-th key handed out: "k" followed by `n` in base 36. */
  function UniqueKey(n: nat): string {
    "k" + ToRadix(n, 36)
  }

  lemma UniqueKeyInjective(m: nat, n: nat)
    requires UniqueKey(m) == UniqueKey(n)
    ensures m == n
  {
    assert ToRadix(m, 36) == UniqueKey(m)[1..];
    RadixInjective(m, n, 36);
  }

  /** The module-level counter behind `getUniqueKey`, which starts at 1. */
  class KeyCounter {
    var next: nat
    ghost var issued: set<string>

    ghost predicate Valid()
      reads this
    {
      next >= 1 && issued == set n | 1 <= n < next :: UniqueKey(n)
    }

    constructor()
      ensures Valid() && next == 1 && issued == {}
    {
      next := 1;
      issued := {};
    }

    /** `getUniqueKey`: a key never handed out before. */
    method GetUniqueKey() returns (key: string)
      requires Valid()
      modifies this
      ensures Valid()
      ensures key == UniqueKey(old(next)) && next == old(next) + 1
      ensures key !in old(issued) && issued == old(issued) + {key}
    {
      key := UniqueKey(next);
      forall n | 1 <= n < next ensures UniqueKey(n) != key {
        if UniqueKey(n) == key {
          UniqueKeyInjective(n, next);
        }
      }
      issued := issued + {key};
      next := next + 1;
    }
  }

  // ---------------------------------------------------------------------------
  // Scalars and form values

  predicate IsScalar(v: Value) {
    v.Undefined? || v.Null? || v.Bool? || v.Num? || v.Str?
  }

  /**
    `coerceToScalarFormValue`: scalars pass through, null stays null, arrays and objects become
    their `JSON.stringify` text (the `stringify` parameter) and anything else its `String()`.
   */
  function CoerceToScalarFormValue(v: Value, stringify: Value -> string): (r: Value)
    ensures IsScalar(r)
    ensures IsScalar(v) ==> r == v
    ensures !IsScalar(v) ==> r.Str?
  {
    match v
    case List(_) => Str(stringify(v))
    case Compound(_) => Str(stringify(v))
    case Opaque(text) => Str(text)
    case _ => v
  }

  lemma CoerceToScalarIdempotent(v: Value, stringify: Value -> string)
    ensures CoerceToScalarFormValue(CoerceToScalarFormValue(v, stringify), stringify)
      == CoerceToScalarFormValue(v, stringify)
  {
  }

  /**
    `coerceToFormValue`: keeps scalars, arrays and plain objects, coercing their contents, and turns
    anything else (a function or a symbol) into undefined.
   */
  function CoerceToFormValue(v: Value): (r: Value)
    ensures IsFormValue(r)
    ensures IsFormValue(v) ==> r == v
    ensures v.List? ==> r.List? && |r.items| == |v.items|
    ensures v.Compound? ==> r.Compound? && r.fields.Keys == v.fields.Keys
    ensures v.Opaque? ==> r.Undefined?
  {
    match v
    case List(items) => List(CoerceItems(items))
    case Compound(fields) => Compound(map k | k in fields :: CoerceToFormValue(fields[k]))
    case Opaque(_) => Undefined
    case _ => v
  }

  /** `val.map(coerceToFormValue)`. */
  function CoerceItems(items: seq<Value>): (r: seq<Value>)
    ensures |r| == |items|
    ensures forall i :: 0 <= i < |r| ==> IsFormValue(r[i])
    ensures forall i :: 0 <= i < |r| && IsFormValue(items[i]) ==> r[i] == items[i]
  {
    if items == [] then [] else [CoerceToFormValue(items[0])] + CoerceItems(items[1..])
  }

  lemma CoerceToFormValueIdempotent(v: Value)
    ensures CoerceToFormValue(CoerceToFormValue(v)) == CoerceToFormValue(v)
  {
  }

  /** `coerceToRepeaterFormValue`: an array's elements coerced, anything else the empty array. */
  function CoerceToRepeaterFormValue(v: Value): (r: seq<Value>)
    ensures forall i :: 0 <= i < |r| ==> IsFormValue(r[i])
    ensures !v.List? ==> r == []
    ensures v.List? ==> |r| == |v.items|
    ensures v.List? && IsFormValue(v) ==> r == v.items
  {
    if v.List? then CoerceItems(v.items) else []
  }

  /**
    `coerceToCompoundFormValue`: an object's entries coerced; an array's elements under the keys
    "0", "1", ... (what `Object.entries` lists for it); anything else the empty object.
   */
  function CoerceToCompoundFormValue(v: Value): (r: map<string, Value>)
    ensures forall k | k in r :: IsFormValue(r[k])
    ensures !v.List? && !v.Compound? ==> r == map[]
    ensures v.Compound? ==> r.Keys == v.fields.Keys
    ensures v.Compound? && IsFormValue(v) ==> r == v.fields
    ensures v.List? ==> forall k :: k in r <==> exists i | 0 <= i < |v.items| :: k == NatToString(i)
    ensures v.List? ==> forall i | 0 <= i < |v.items| :: r[NatToString(i)] == CoerceToFormValue(v.items[i])
  {
    match v
    case Compound(_) => CoerceToFormValue(v).fields
    case List(items) =>
      forall i, j | 0 <= i < |items| && 0 <= j < |items| && NatToString(i) == NatToString(j) ensures i == j {
        NatToStringInjective(i, j);
      }
      map i | 0 <= i < |items| :: NatToString(i) := CoerceToFormValue(items[i])
    case _ => map[]
  }

  // ---------------------------------------------------------------------------
  // Copies. Values are immutable in the model, so a copy is an equal value; the source's
  // guarantee that the copy shares no array or object with the original is not expressible.

  /** `copyFormValue`. */
  method CopyFormValue(v: Value) returns (r: Value)
    ensures r == v
    decreases v, 1
  {
    if IsNullish(v) {
      r := v;
    } else if v.List? {
      var items := CopyRepeaterFormValue(v, v.items);
      r := List(items);
    } else if v.Compound? {
      var fields := CopyCompoundFormValue(v, v.fields);
      r := Compound(fields);
    } else {
      r := v;
    }
  }

  /** `copyRepeaterFormValue`: each element copied. `whole` is the value the items belong to. */
  method CopyRepeaterFormValue(ghost whole: Value, items: seq<Value>) returns (r: seq<Value>)
    requires whole.List? && whole.items == items
    ensures r == items
    decreases whole, 0
  {
    r := [];
    for i := 0 to |items|
      invariant r == items[..i]
    {
      var item := CopyFormValue(items[i]);
      r := r + [item];
    }
  }

  /** `copyCompoundFormValue`: each entry copied, key by key. `whole` is the value the fields belong to. */
  method CopyCompoundFormValue(ghost whole: Value, fields: map<string, Value>) returns (r: map<string, Value>)
    requires whole.Compound? && whole.fields == fields
    ensures r == fields
    decreases whole, 0
  {
    r := map[];
    var todo := fields.Keys;
    while todo != {}
      invariant todo <= fields.Keys
      invariant forall k :: k in r <==> k in fields && k !in todo
      invariant forall k | k in r :: r[k] == fields[k]
      decreases todo
    {
      var k :| k in todo;
      var item := CopyFormValue(fields[k]);
      r := r[k := item];
      todo := todo - {k};
    }
  }

  // ---------------------------------------------------------------------------
  // Array keys

  /**
    `coerceToArrayKey`: a non-negative integer, or a string that is the canonical decimal spelling
    of one (so "07", "-1", "1.5" and " 1" are not keys); everything else is undefined.
   */
  function CoerceToArrayKey(key: Value): (r: Option<nat>)
    ensures key.Num? ==> r == (if key.n >= 0 then Some(key.n) else None)
    ensures key.Str? ==> (r.Some? <==> IsCanonicalDecimal(key.s))
    ensures key.Str? && r.Some? ==> NatToString(r.value) == key.s && ParseDecimal(key.s) == r.value
    ensures !key.Num? && !key.Str? ==> r.None?
  {
    match key
    case Num(n) => if n > -1 then Some(n) else None
    case Str(s) =>
      var num := ParseInt(s);
      ParseIntCanonical(s);
      if num.Some? && IntToString(num.value) == s && num.value > -1 then Some(num.value) else None
    case _ => None
  }

  /** `isArrayKey`: the same test as `coerceToArrayKey`, answering only whether it succeeds. */
  function IsArrayKey(key: Value): (b: bool)
    ensures b <==> CoerceToArrayKey(key).Some?
  {
    match key
    case Num(n) => n > -1
    case Str(s) =>
      var num := ParseInt(s);
      num.Some? && IntToString(num.value) == s && num.value > -1
    case _ => false
  }

  /** Every index spelled in decimal is an array key that reads back as itself. */
  lemma ArrayKeyOfIndex(i: nat)
    ensures CoerceToArrayKey(Str(NatToString(i))) == Some(i)
    ensures CoerceToArrayKey(Num(i)) == Some(i)
  {
    NatToStringCanonical(i);
  }

  // ---------------------------------------------------------------------------
  // Booleans

  const TrueWords: set<string> := {"true", "yes", "on", "t", "y", "1"}
  const FalseWords: set<string> := {"false", "no", "off", "f", "n", "0"}

  /**
    `coerceToBoolean`: booleans as they are; the words in `TrueWords`/`FalseWords` in any letter
    case; the numbers 1 and 0; undefined for everything else.
   */
  function CoerceToBoolean(v: Value): (r: Option<bool>)
    ensures v.Bool? ==> r == Some(v.b)
    ensures v.Str? ==> (r == Some(true) <==> ToLower(v.s) in TrueWords)
    ensures v.Str? ==> (r == Some(false) <==> ToLower(v.s) in FalseWords)
    ensures v.Num? ==> (r == Some(true) <==> v.n == 1) && (r == Some(false) <==> v.n == 0)
    ensures !v.Bool? && !v.Str? && !v.Num? ==> r.None?
  {
    match v
    case Bool(b) => Some(b)
    case Str(s) =>
      var lower := ToLower(s);
      if lower == "true" || lower == "yes" || lower == "on" || lower == "t" || lower == "y" || lower == "1" then Some(true)
      else if lower == "false" || lower == "no" || lower == "off" || lower == "f" || lower == "n" || lower == "0" then Some(false)
      else None
    case Num(n) => if n == 1 then Some(true) else if n == 0 then Some(false) else None
    case _ => None
  }

  /** Letter case does not matter. */
  lemma CoerceToBooleanCaseInsensitive(s: string, t: string)
    requires ToLower(s) == ToLower(t)
    ensures CoerceToBoolean(Str(s)) == CoerceToBoolean(Str(t))
  {
  }

  /** What `String(b)` gives for a boolean reads back as that boolean. */
  lemma CoerceToBooleanOfString(b: bool)
    ensures CoerceToBoolean(Str(ToJsString(Bool(b)))) == Some(b)
  {
    if b {
      assert ToLower("true") == "true";
    } else {
      assert ToLower("false") == "false";
    }
  }

  // ---------------------------------------------------------------------------
  // Looking up a value by path

  /** One step of `valueAtPath`: the element or property `part` of `v`, or undefined. */
  function Child(v: Value, part: Key): (r: Value)
    ensures !v.List? && !v.Compound? ==> r.Undefined?
  {
    match v
    case List(items) =>
      var index := CoerceToArrayKey(part);
      if index.None? || index.value >= |items| then Undefined else items[index.value]
    case Compound(fields) =>
      var name := KeyString(part);
      if name in fields then fields[name] else Undefined
    case _ => Undefined
  }

  /** The value found by following `path` from `v`. */
  function ValueAt(v: Value, path: Path): Value
    decreases |path|
  {
    if path == [] then v else ValueAt(Child(v, path[0]), path[1..])
  }

  /** Nothing is found below undefined or null. */
  lemma {:induction false} ValueAtNullish(v: Value, path: Path)
    requires IsNullish(v) && path != []
    ensures ValueAt(v, path) == Undefined
    decreases |path|
  {
    if |path| > 1 {
      ValueAtNullish(Child(v, path[0]), path[1..]);
    }
  }

  /** Following `p` and then `q` is following `p + q`. */
  lemma {:induction false} ValueAtConcat(v: Value, p: Path, q: Path)
    ensures ValueAt(v, p + q) == ValueAt(ValueAt(v, p), q)
    decreases |p|
  {
    if p == [] {
      assert p + q == q;
    } else {
      assert (p + q)[1..] == p[1..] + q;
      ValueAtConcat(Child(v, p[0]), p[1..], q);
    }
  }

  /**
    `valueAtPath`: walks `curr` down the path, giving undefined as soon as it meets undefined or
    null, a scalar, or an object without the property.
   */
  method ValueAtPath(value: Value, path: Path) returns (r: Value)
    ensures r == ValueAt(value, path)
    ensures path == [] ==> r == value
  {
    var curr := value;
    if |path| == 0 {
      return curr;
    }
    for i := 0 to |path|
      invariant ValueAt(curr, path[i..]) == ValueAt(value, path)
    {
      var part := path[i];
      if IsNullish(curr) {
        ValueAtNullish(curr, path[i..]);
        return Undefined;
      }
      if curr.List? {
        var index := CoerceToArrayKey(part);
        curr := if index.None? || index.value >= |curr.items| then Undefined else curr.items[index.value];
      } else if curr.Compound? && KeyString(part) in curr.fields {
        curr := curr.fields[KeyString(part)];
      } else {
        assert Child(curr, part) == Undefined;
        if i + 1 < |path| {
          ValueAtNullish(Undefined, path[i + 1..]);
        }
        return Undefined;
      }
    }
    r := curr;
  }

  // ---------------------------------------------------------------------------
  // Boolean maps and key lists

  predicate NoDuplicates<T(==)>(s: seq<T>) {
    forall i, j :: 0 <= i < j < |s| ==> s[i] != s[j]
  }

  /** A JavaScript `Map` from keys to booleans: its keys in insertion order, and the entries. */
  datatype BooleansMap = BooleansMap(keys: seq<Key>, on: map<Key, bool>) {
    ghost predicate Valid() {
      NoDuplicates(keys) && forall k :: k in on <==> k in keys
    }

    /** `Map.prototype.set`: a new key goes to the end of the order, an existing one keeps its place. */
    function Set(k: Key, b: bool): (m: BooleansMap)
      requires Valid()
      ensures m.Valid()
      ensures m.on == on[k := b]
      ensures k in on ==> m.keys == keys
      ensures k !in on ==> m.keys == keys + [k]
    {
      BooleansMap(if k in on then keys else keys + [k], on[k := b])
    }
  }

  /** The elements of `items` that are strings or numbers, in order. */
  function KeyItems(items: seq<Value>): (ks: seq<Key>)
    ensures forall k :: k in ks <==> k in items && (k.Str? || k.Num?)
  {
    if items == [] then []
    else
      var last := items[|items| - 1];
      KeyItems(items[..|items| - 1]) + (if last.Str? || last.Num? then [last] else [])
  }

  /** The first occurrence of every element of `s`, in the order of those occurrences. */
  function FirstOccurrences<T(==,!new)>(s: seq<T>): (d: seq<T>)
    ensures NoDuplicates(d)
    ensures forall x :: x in d <==> x in s
  {
    if s == [] then []
    else
      var d := FirstOccurrences(s[..|s| - 1]);
      if s[|s| - 1] in d then d else d + [s[|s| - 1]]
  }

  /** The position of the first occurrence of `x` in `s`. */
  function FirstIndex<T(==,!new)>(s: seq<T>, x: T): (i: nat)
    requires x in s
    ensures i < |s| && s[i] == x && x !in s[..i]
  {
    if s[0] == x then 0
    else
      var j := FirstIndex(s[1..], x);
      assert s[..j + 1] == [s[0]] + s[1..][..j];
      j + 1
  }

  /** An index holding `x` with no earlier `x` is the first index of `x`. */
  lemma FirstIndexUnique<T(!new)>(s: seq<T>, x: T, k: nat)
    requires k < |s| && s[k] == x && x !in s[..k]
    ensures FirstIndex(s, x) == k
  {
  }

  lemma FirstIndexAppend<T(!new)>(s: seq<T>, y: T, x: T)
    requires x in s
    ensures FirstIndex(s + [y], x) == FirstIndex(s, x)
  {
    var i := FirstIndex(s, x);
    assert (s + [y])[..i] == s[..i];
    FirstIndexUnique(s + [y], x, i);
  }

  /** The elements of `d`, all of which occur in `s`, are listed in the order of their first occurrences in `s`. */
  ghost predicate InFirstOccurrenceOrder<T(!new)>(s: seq<T>, d: seq<T>)
    requires forall x :: x in d ==> x in s
  {
    forall i, j | 0 <= i < j < |d| :: FirstIndex(s, d[i]) < FirstIndex(s, d[j])
  }

  /** `FirstOccurrences` lists the elements in the order in which they first occur. */
  lemma {:induction false} FirstOccurrencesOrdered<T(!new)>(s: seq<T>)
    ensures InFirstOccurrenceOrder(s, FirstOccurrences(s))
  {
    if s != [] {
      var t := s[..|s| - 1];
      var x := s[|s| - 1];
      assert s == t + [x];
      FirstOccurrencesOrdered(t);
      var e := FirstOccurrences(t);
      var d := FirstOccurrences(s);
      forall y | y in e ensures FirstIndex(s, y) == FirstIndex(t, y) {
        FirstIndexAppend(t, x, y);
      }
      if x !in e {
        assert x !in t && s[..|t|] == t;
        FirstIndexUnique(s, x, |t|);
        assert d == e + [x];
      } else {
        assert d == e;
      }
      forall i, j | 0 <= i < j < |d| ensures FirstIndex(s, d[i]) < FirstIndex(s, d[j]) {
        assert d[i] == e[i] && e[i] in e;
        assert FirstIndex(s, e[i]) == FirstIndex(t, e[i]);
        if j < |e| {
          assert d[j] == e[j] && e[j] in e;
          assert FirstIndex(s, e[j]) == FirstIndex(t, e[j]);
        } else {
          assert d[j] == x && x !in t && s[..|t|] == t;
          FirstIndexUnique(s, x, |t|);
        }
      }
    }
  }

  /**
    `coerceToBooleansNativeMap`: a lone string or number is on; in an array each string or number
    element is on, once, in the order of first occurrence; in an object each own property maps to
    whether its value is truthy; anything else gives the empty map.
   */
  method CoerceToBooleansNativeMap(value: Value) returns (out: BooleansMap)
    ensures out.Valid()
    ensures value.Str? || value.Num? ==> out.keys == [value] && out.on == map[value := true]
    ensures value.List? ==> out.keys == FirstOccurrences(KeyItems(value.items))
    ensures value.List? ==> forall k | k in out.on :: out.on[k]
    ensures value.Compound? ==> forall k :: k in out.on <==> k.Str? && k.s in value.fields
    ensures value.Compound? ==> forall k | k in out.on :: out.on[k] == Truthy(value.fields[k.s])
    ensures !value.Str? && !value.Num? && !value.List? && !value.Compound? ==> out.keys == []
  {
    out := BooleansMap([], map[]);
    match value {
      case Str(_) =>
        out := out.Set(value, true);
      case Num(_) =>
        out := out.Set(value, true);
      case List(items) =>
        out := SetArrayKeys(items);
      case Compound(fields) =>
        out := SetObjectKeys(fields);
      case _ =>
    }
  }

  lemma KeyItemsSnoc(items: seq<Value>, i: nat)
    requires i < |items|
    ensures items[i].Str? || items[i].Num? ==> KeyItems(items[..i + 1]) == KeyItems(items[..i]) + [items[i]]
    ensures !items[i].Str? && !items[i].Num? ==> KeyItems(items[..i + 1]) == KeyItems(items[..i])
  {
    assert items[..i + 1][..i] == items[..i];
  }

  lemma FirstOccurrencesSnoc<T(!new)>(s: seq<T>, x: T)
    ensures FirstOccurrences(s + [x]) ==
      if x in FirstOccurrences(s) then FirstOccurrences(s) else FirstOccurrences(s) + [x]
  {
    assert (s + [x])[..|s|] == s;
  }

  /** Setting a key on in a map of first occurrences gives the map of first occurrences with that key appended. */
  lemma SetOnFirstOccurrences(m: BooleansMap, ks: seq<Key>, k: Key)
    requires m.Valid() && m.keys == FirstOccurrences(ks)
    requires forall j | j in m.on :: m.on[j]
    ensures m.Set(k, true).Valid() && m.Set(k, true).keys == FirstOccurrences(ks + [k])
    ensures forall j | j in m.Set(k, true).on :: m.Set(k, true).on[j]
  {
    FirstOccurrencesSnoc(ks, k);
  }

  /** The array case of `coerceToBooleansNativeMap`: each string or number element is set on. */
  method SetArrayKeys(items: seq<Value>) returns (out: BooleansMap)
    ensures out.Valid()
    ensures out.keys == FirstOccurrences(KeyItems(items))
    ensures forall k | k in out.on :: out.on[k]
  {
    out := BooleansMap([], map[]);
    for i := 0 to |items|
      invariant out.Valid()
      invariant out.keys == FirstOccurrences(KeyItems(items[..i]))
      invariant forall k | k in out.on :: out.on[k]
    {
      var item := items[i];
      KeyItemsSnoc(items, i);
      if item.Str? || item.Num? {
        SetOnFirstOccurrences(out, KeyItems(items[..i]), item);
        out := out.Set(item, true);
      }
    }
    assert items[..|items|] == items;
  }

  /** The object case of `coerceToBooleansNativeMap`: each property is set to whether its value is truthy. */
  method SetObjectKeys(fields: map<string, Value>) returns (out: BooleansMap)
    ensures out.Valid()
    ensures forall k :: k in out.on <==> k.Str? && k.s in fields
    ensures forall k | k in out.on :: out.on[k] == Truthy(fields[k.s])
  {
    out := BooleansMap([], map[]);
    var todo := fields.Keys;
    while todo != {}
      invariant todo <= fields.Keys
      invariant out.Valid()
      invariant forall k :: k in out.on <==> k.Str? && k.s in fields && k.s !in todo
      invariant forall k | k in out.on :: out.on[k] == Truthy(fields[k.s])
      decreases todo
    {
      var name :| name in todo;
      out := out.Set(Str(name), Truthy(fields[name]));
      todo := todo - {name};
    }
  }

  /**
    `coerceToKeysList`: the keys that are on, in the map's order and without duplicates: the
    first occurrences of an array's string and number elements, the properties of an object whose
    values are truthy, a lone string or number on its own, and nothing for anything else.
   */
  method CoerceToKeysList(value: Value) returns (out: seq<Key>)
    ensures NoDuplicates(out)
    ensures value.List? ==> out == FirstOccurrences(KeyItems(value.items))
    ensures value.Compound? ==> forall k :: k in out <==> k.Str? && k.s in value.fields && Truthy(value.fields[k.s])
    ensures value.Str? || value.Num? ==> out == [value]
    ensures !value.Str? && !value.Num? && !value.List? && !value.Compound? ==> out == []
  {
    var partial := CoerceToBooleansNativeMap(value);
    out := OnKeys(partial);
  }

  /** The loop of `coerceToKeysList` over the map's entries: the keys that are on, in the map's order. */
  method OnKeys(partial: BooleansMap) returns (out: seq<Key>)
    requires partial.Valid()
    ensures NoDuplicates(out)
    ensures forall k :: k in out <==> k in partial.on && partial.on[k]
    ensures (forall k | k in partial.on :: partial.on[k]) ==> out == partial.keys
  {
    out := [];
    for i := 0 to |partial.keys|
      invariant NoDuplicates(out)
      invariant forall k :: k in out <==> k in partial.keys[..i] && partial.on[k]
      invariant (forall k | k in partial.on :: partial.on[k]) ==> out == partial.keys[..i]
    {
      var key := partial.keys[i];
      if partial.on[key] {
        assert key !in partial.keys[..i];
        out := out + [key];
      }
    }
    assert partial.keys[..|partial.keys|] == partial.keys;
  }

  // ---------------------------------------------------------------------------
  // Re-indexing errors

  /** The first segment of a dotted path. */
  function Head(path: string): (h: string)
    ensures h <= path && '.' !in h
    ensures |h| == |path| || path[|h|] == '.'
  {
    SplitHead(path, '.');
    Split(path, '.')[0]
  }

  /**
    Where `reindexErrors` files the entry at `path`: unchanged when its first segment is not an
    array key, nowhere (`None`) when the index map drops that index, and otherwise at the path with
    the new index in place of the first segment.
   */
  function ReindexPath(path: string, indexMap: nat -> Option<nat>): Option<string> {
    match CoerceToArrayKey(Str(Head(path)))
    case None => Some(path)
    case Some(oldIndex) =>
      match indexMap(oldIndex)
      case None => None
      case Some(newIndex) => Some(NatToString(newIndex) + path[|Head(path)|..])
  }

  /**
    The re-filed path differs from the original in the first segment only: it is the new index
    when the first segment is an array key that the index map keeps, and the entry is dropped when
    the map drops that index.
   */
  lemma ReindexPathSegments(path: string, indexMap: nat -> Option<nat>)
    ensures var index := CoerceToArrayKey(Str(Split(path, '.')[0]));
      var r := ReindexPath(path, indexMap);
      && (index.None? ==> r == Some(path))
      && (index.Some? ==> (r.Some? <==> indexMap(index.value).Some?))
      && (index.Some? && r.Some? ==>
            && Split(r.value, '.')[0] == NatToString(indexMap(index.value).value)
            && Split(r.value, '.')[1..] == Split(path, '.')[1..])
  {
    var parts := Split(path, '.');
    var index := CoerceToArrayKey(Str(parts[0]));
    if index.Some? && indexMap(index.value).Some? {
      var s := NatToString(indexMap(index.value).value);
      NatToStringCanonical(indexMap(index.value).value);
      ReplaceHead(path, '.', s);
      var moved := [s] + parts[1..];
      assert forall i | 0 <= i < |moved| :: '.' !in moved[i];
      SplitJoin(moved, '.');
    }
  }

  /** An index map that keeps every index where it is files every entry where it was. */
  lemma ReindexPathIdentity(path: string, indexMap: nat -> Option<nat>)
    requires forall i: nat :: indexMap(i) == Some(i)
    ensures ReindexPath(path, indexMap) == Some(path)
  {
    var h := Head(path);
    match CoerceToArrayKey(Str(h)) {
      case None =>
      case Some(n) =>
        PrefixAndRest(path, h);
    }
  }

  lemma PrefixAndRest(s: string, h: string)
    requires h <= s
    ensures h + s[|h|..] == s
  {
  }

  /** A re-filed path starts with the new index as its own first segment. */
  lemma HeadOfIndexed(n: nat, path: string)
    ensures Head(NatToString(n) + path[|Head(path)|..]) == NatToString(n)
  {
    var s := NatToString(n);
    var t := path[|Head(path)|..];
    NatToStringCanonical(n);
    if t == [] {
      assert s + t == s;
    } else {
      assert t == ['.'] + t[1..];
      SplitAfter(s, '.', t[1..]);
      assert s + t == s + ['.'] + t[1..];
    }
  }

  /**
    A re-filed path is the original path when the first segment is not an array key; otherwise
    its first segment is the array key of the new index and the rest is the original rest.
   */
  lemma ReindexedParts(p: string, indexMap: nat -> Option<nat>)
    requires ReindexPath(p, indexMap).Some?
    ensures var r := ReindexPath(p, indexMap).value;
      var index := CoerceToArrayKey(Str(Head(p)));
      && (index.None? ==> r == p)
      && (index.Some? ==> CoerceToArrayKey(Str(Head(r))) == indexMap(index.value))
      && (index.Some? ==> r[|Head(r)|..] == p[|Head(p)|..])
  {
    var index := CoerceToArrayKey(Str(Head(p)));
    if index.Some? {
      var n := indexMap(index.value).value;
      HeadOfIndexed(n, p);
      ArrayKeyOfIndex(n);
    }
  }

  /** An index map that never sends two indices to the same place never files two entries at the same path. */
  lemma ReindexPathInjective(p: string, q: string, indexMap: nat -> Option<nat>)
    requires forall i: nat, j: nat :: indexMap(i).Some? && indexMap(i) == indexMap(j) ==> i == j
    requires ReindexPath(p, indexMap).Some? && ReindexPath(p, indexMap) == ReindexPath(q, indexMap)
    ensures p == q
  {
    ReindexedParts(p, indexMap);
    ReindexedParts(q, indexMap);
    SameParts(p, q, ReindexPath(p, indexMap).value, indexMap);
  }

  lemma SameParts(p: string, q: string, r: string, indexMap: nat -> Option<nat>)
    requires forall i: nat, j: nat :: indexMap(i).Some? && indexMap(i) == indexMap(j) ==> i == j
    requires var ip := CoerceToArrayKey(Str(Head(p)));
      && (ip.None? ==> r == p)
      && (ip.Some? ==> indexMap(ip.value).Some? && CoerceToArrayKey(Str(Head(r))) == indexMap(ip.value))
      && (ip.Some? ==> r[|Head(r)|..] == p[|Head(p)|..])
    requires var iq := CoerceToArrayKey(Str(Head(q)));
      && (iq.None? ==> r == q)
      && (iq.Some? ==> indexMap(iq.value).Some? && CoerceToArrayKey(Str(Head(r))) == indexMap(iq.value))
      && (iq.Some? ==> r[|Head(r)|..] == q[|Head(q)|..])
    ensures p == q
  {
    var ip := CoerceToArrayKey(Str(Head(p)));
    var iq := CoerceToArrayKey(Str(Head(q)));
    if ip.Some? && iq.Some? {
      assert ip.value == iq.value;
      assert Head(p) == Head(q);
      assert p == Head(p) + p[|Head(p)|..];
      assert q == Head(q) + q[|Head(q)|..];
    }
  }

  /** Re-indexing through an injective index map never files two entries at the same path. */
  lemma InjectiveIndexMap(errors: MessageBag, indexMap: nat -> Option<nat>)
    requires forall i: nat, j: nat :: indexMap(i).Some? && indexMap(i) == indexMap(j) ==> i == j
    ensures InjectiveOn(errors, indexMap)
  {
    forall p, q | p in errors && q in errors && ReindexPath(p, indexMap).Some? && ReindexPath(p, indexMap) == ReindexPath(q, indexMap)
      ensures p == q
    {
      ReindexPathInjective(p, q, indexMap);
    }
  }

  predicate InjectiveOn(errors: MessageBag, indexMap: nat -> Option<nat>) {
    forall p, q | p in errors && q in errors && ReindexPath(p, indexMap).Some? && ReindexPath(p, indexMap) == ReindexPath(q, indexMap) :: p == q
  }

  /** The body of the loop of `reindexErrors` for one entry: where the entry at `pathString` goes. */
  method ReindexOne(pathString: string, indexMap: nat -> Option<nat>) returns (target: Option<string>)
    ensures target == ReindexPath(pathString, indexMap)
  {
    var path := Split(pathString, '.');
    var oldIndex := CoerceToArrayKey(Str(path[0]));
    if oldIndex.Some? {
      var newIndex := indexMap(oldIndex.value);
      if newIndex.None? {
        return None;
      }
      NatToStringCanonical(newIndex.value);
      ReplaceHead(pathString, '.', NatToString(newIndex.value));
      path := path[0 := NatToString(newIndex.value)];
      assert path == [NatToString(newIndex.value)] + Split(pathString, '.')[1..];
    } else {
      JoinSplit(pathString, '.');
    }
    target := Some(Join(path, '.'));
  }

  /**
    `reindexErrors`: each entry re-filed where `ReindexPath` puts it, with its message list. When
    two entries are filed at the same path, the one the loop visits last is kept.
   */
  method ReindexErrors(errors: MessageBag, indexMap: nat -> Option<nat>) returns (r: MessageBag)
    ensures forall path | path in errors && ReindexPath(path, indexMap).Some? :: ReindexPath(path, indexMap).value in r
    ensures forall k | k in r :: exists path | path in errors :: ReindexPath(path, indexMap) == Some(k) && r[k] == errors[path]
    ensures InjectiveOn(errors, indexMap) ==>
      forall path | path in errors && ReindexPath(path, indexMap).Some? :: r[ReindexPath(path, indexMap).value] == errors[path]
    ensures (forall i: nat :: indexMap(i) == Some(i)) ==> r == errors
  {
    var place := Placement(indexMap);
    r := FileEntries(errors, place);
    FiledAllPlaced(errors, indexMap, place, r);
    FiledAllSources(errors, indexMap, place, r);
    if InjectiveOn(errors, indexMap) {
      FiledAllApart(errors, indexMap, place, r);
    }
    if forall i: nat :: indexMap(i) == Some(i) {
      forall p ensures place(p) == Some(p) {
        ReindexPathIdentity(p, indexMap);
      }
      FiledInPlace(errors, place, r);
    }
  }

  /** `ReindexPath` for a given index map, as a rule saying where each entry goes. */
  function Placement(indexMap: nat -> Option<nat>): (place: string -> Option<string>)
    ensures forall p :: place(p) == ReindexPath(p, indexMap)
  {
    p => ReindexPath(p, indexMap)
  }

  /**
    The loop of `reindexErrors`, for any rule `place` saying where an entry goes (`ReindexOne`
    shows that the loop's own statements compute `ReindexPath`): every entry filed at its place.
   */
  method FileEntries(errors: MessageBag, place: string -> Option<string>) returns (r: MessageBag)
    ensures Filed(errors, place, errors.Keys, r)
  {
    r := map[];
    var todo := errors.Keys;
    ghost var done: set<string> := {};
    while todo != {}
      invariant todo <= errors.Keys && done + todo == errors.Keys && done !! todo
      invariant Filed(errors, place, done, r)
      decreases todo
    {
      var pathString :| pathString in todo;
      var target := place(pathString);
      FiledStep(errors, place, done, r, pathString);
      r := if target.Some? then r[target.value := errors[pathString]] else r;
      todo := todo - {pathString};
      done := done + {pathString};
    }
  }

  /** No two entries of the bag are filed at the same place. */
  ghost predicate PlacesApart(errors: MessageBag, place: string -> Option<string>) {
    forall p, q | p in errors && q in errors && place(p).Some? && place(p) == place(q) :: p == q
  }

  /**
    The state of the loop of `reindexErrors` once the entries in `done` are re-filed: each has
    been filed at its place, every path of `r` holds the messages of an entry filed there, and
    without collisions each entry's place holds its own messages.
   */
  ghost predicate Filed(errors: MessageBag, place: string -> Option<string>, done: set<string>, r: MessageBag) {
    && done <= errors.Keys
    && (forall path | path in done && place(path).Some? :: place(path).value in r)
    && (forall k | k in r :: exists path | path in done :: place(path) == Some(k) && r[k] == errors[path])
    && (PlacesApart(errors, place) ==>
          forall path | path in done && place(path).Some? :: r[place(path).value] == errors[path])
  }

  /** Filing one more entry keeps the loop's state. */
  lemma FiledStep(errors: MessageBag, place: string -> Option<string>, done: set<string>, r: MessageBag, p: string)
    requires Filed(errors, place, done, r)
    requires p in errors && p !in done
    ensures var target := place(p);
      Filed(errors, place, done + {p}, if target.Some? then r[target.value := errors[p]] else r)
  {
    var target := place(p);
    if target.Some? {
      var t := target.value;
      var r' := r[t := errors[p]];
      forall k | k in r' ensures exists path | path in done + {p} :: place(path) == Some(k) && r'[k] == errors[path] {
        if k != t {
          var path :| path in done && place(path) == Some(k) && r[k] == errors[path];
          assert path in done + {p};
        } else {
          assert p in done + {p};
        }
      }
      if PlacesApart(errors, place) {
        forall path | path in done + {p} && place(path).Some?
          ensures r'[place(path).value] == errors[path]
        {
          if path != p {
            assert place(path) != target;
          }
        }
      }
    }
  }

  /** Once every entry is filed where `ReindexPath` puts it, every entry the map keeps is in the bag. */
  lemma FiledAllPlaced(errors: MessageBag, indexMap: nat -> Option<nat>, place: string -> Option<string>, r: MessageBag)
    requires forall p :: place(p) == ReindexPath(p, indexMap)
    requires Filed(errors, place, errors.Keys, r)
    ensures forall path | path in errors && ReindexPath(path, indexMap).Some? :: ReindexPath(path, indexMap).value in r
  {
    forall path | path in errors && ReindexPath(path, indexMap).Some? ensures ReindexPath(path, indexMap).value in r {
      assert place(path) == ReindexPath(path, indexMap);
    }
  }

  /** Once every entry is filed where `ReindexPath` puts it, every path of the bag holds the messages of an entry filed there. */
  lemma FiledAllSources(errors: MessageBag, indexMap: nat -> Option<nat>, place: string -> Option<string>, r: MessageBag)
    requires forall p :: place(p) == ReindexPath(p, indexMap)
    requires Filed(errors, place, errors.Keys, r)
    ensures forall k | k in r :: exists path | path in errors :: ReindexPath(path, indexMap) == Some(k) && r[k] == errors[path]
  {
    forall k | k in r ensures exists path | path in errors :: ReindexPath(path, indexMap) == Some(k) && r[k] == errors[path] {
      var path :| path in errors && place(path) == Some(k) && r[k] == errors[path];
      assert place(path) == ReindexPath(path, indexMap);
    }
  }

  /** Once every entry is filed where `ReindexPath` puts it without collisions, each entry's new path holds its messages. */
  lemma FiledAllApart(errors: MessageBag, indexMap: nat -> Option<nat>, place: string -> Option<string>, r: MessageBag)
    requires forall p :: place(p) == ReindexPath(p, indexMap)
    requires Filed(errors, place, errors.Keys, r)
    requires InjectiveOn(errors, indexMap)
    ensures forall path | path in errors && ReindexPath(path, indexMap).Some? :: r[ReindexPath(path, indexMap).value] == errors[path]
  {
    forall p, q | p in errors && q in errors && place(p).Some? && place(p) == place(q) ensures p == q {
      assert place(p) == ReindexPath(p, indexMap) && place(q) == ReindexPath(q, indexMap);
    }
    assert PlacesApart(errors, place);
    forall path | path in errors && ReindexPath(path, indexMap).Some?
      ensures r[ReindexPath(path, indexMap).value] == errors[path]
    {
      assert place(path) == ReindexPath(path, indexMap);
    }
  }

  /** A bag whose every entry is filed where it was is the bag itself. */
  lemma FiledInPlace(errors: MessageBag, place: string -> Option<string>, r: MessageBag)
    requires forall p :: place(p) == Some(p)
    requires Filed(errors, place, errors.Keys, r)
    ensures r == errors
  {
    forall k | k in r ensures k in errors && r[k] == errors[k] {
      var path :| path in errors && place(path) == Some(k) && r[k] == errors[path];
    }
    forall k | k in errors ensures k in r {
      assert place(k).value == k;
    }
    assert r.Keys == errors.Keys;
  }

  // ---------------------------------------------------------------------------
  // Labels

  /** A character `\w` matches once underscores are gone: an ASCII letter or digit. */
  predicate IsWordChar(c: char) {
    ('a' <= c <= 'z') || ('A' <= c <= 'Z') || ('0' <= c <= '9') || c == '_'
  }

  /** `s.replace(/_/g, ' ')`. */
  function UnderscoresToSpaces(s: string): (r: string)
    ensures |r| == |s|
    ensures forall i :: 0 <= i < |s| ==> r[i] == if s[i] == '_' then ' ' else s[i]
  {
    if s == [] then [] else [if s[0] == '_' then ' ' else s[0]] + UnderscoresToSpaces(s[1..])
  }

  /** The character `s[i]` becomes when words are capitalised; `inWord` tells whether a word character precedes `s`. */
  function CapitalizedAt(s: string, inWord: bool, i: nat): char
    requires i < |s|
  {
    if !IsWordChar(s[i]) then s[i]
    else if (if i == 0 then inWord else IsWordChar(s[i - 1])) then ToLowerChar(s[i])
    else ToUpperChar(s[i])
  }

  /**
    `s.replace(/\b\w+/g, w => w.charAt(0).toUpperCase() + w.substr(1).toLowerCase())` on the rest of
    a string: each maximal run of word characters gets an upper-case first letter and lower-case
    other letters; `inWord` says whether the character before `s` is a word character.
   */
  function CapitalizeWords(s: string, inWord: bool): (r: string)
    ensures |r| == |s|
    ensures forall i :: 0 <= i < |s| ==> r[i] == CapitalizedAt(s, inWord, i)
  {
    if s == [] then []
    else
      var c := s[0];
      var c' := if !IsWordChar(c) then c else if inWord then ToLowerChar(c) else ToUpperChar(c);
      var rest := CapitalizeWords(s[1..], IsWordChar(c));
      CapitalizeCons(s, inWord, rest);
      [c'] + rest
  }

  lemma CapitalizeCons(s: string, inWord: bool, rest: string)
    requires s != [] && |rest| == |s| - 1
    requires forall i :: 0 <= i < |rest| ==> rest[i] == CapitalizedAt(s[1..], IsWordChar(s[0]), i)
    ensures forall i :: 0 < i < |s| ==> rest[i - 1] == CapitalizedAt(s, inWord, i)
  {
    forall i | 0 < i < |s| ensures rest[i - 1] == CapitalizedAt(s, inWord, i) {
      assert s[1..][i - 1] == s[i];
      if i > 1 {
        assert s[1..][i - 2] == s[i - 1];
      }
    }
  }

  /**
    `startCase` on the text `s` of its argument: trimmed, with underscores turned into spaces and
    every word capitalised (its first letter upper case, the others lower case).
   */
  function StartCaseText(s: string): (r: string)
    ensures var t := UnderscoresToSpaces(Trim(s));
      && |r| == |t|
      && '_' !in r
      && (forall i :: 0 <= i < |r| ==> IsWordChar(r[i]) == IsWordChar(t[i]))
      && (forall i :: 0 <= i < |r| && (i == 0 || !IsWordChar(t[i - 1])) ==> !('a' <= r[i] <= 'z'))
      && (forall i :: 0 < i < |r| && IsWordChar(t[i - 1]) ==> !('A' <= r[i] <= 'Z'))
      && (forall i :: 0 <= i < |r| ==> ToLowerChar(r[i]) == ToLowerChar(t[i]))
      && (forall i :: 0 <= i < |r| && !IsWordChar(t[i]) ==> r[i] == t[i])
      && (forall i :: 0 <= i < |r| ==> r[i] == CapitalizedAt(t, false, i))
  {
    var t := UnderscoresToSpaces(Trim(s));
    var r := CapitalizeWords(t, false);
    CapitalizedText(t, r);
    r
  }

  lemma CapitalizedText(t: string, r: string)
    requires forall i :: 0 <= i < |t| ==> t[i] != '_'
    requires |r| == |t| && forall i :: 0 <= i < |t| ==> r[i] == CapitalizedAt(t, false, i)
    ensures '_' !in r
    ensures forall i :: 0 <= i < |r| ==> IsWordChar(r[i]) == IsWordChar(t[i])
    ensures forall i :: 0 <= i < |r| && (i == 0 || !IsWordChar(t[i - 1])) ==> !('a' <= r[i] <= 'z')
    ensures forall i :: 0 < i < |r| && IsWordChar(t[i - 1]) ==> !('A' <= r[i] <= 'Z')
    ensures forall i :: 0 <= i < |r| ==> ToLowerChar(r[i]) == ToLowerChar(t[i])
    ensures forall i :: 0 <= i < |r| && !IsWordChar(t[i]) ==> r[i] == t[i]
  {
    forall i | 0 <= i < |t| ensures CapitalizedFacts(t, false, i) {
      CapitalizedAtFacts(t, false, i);
    }
  }

  /** `startCase(s)`: the label made from `String(s)`. */
  function StartCase(v: Value): string {
    StartCaseText(ToJsString(v))
  }

  /**
    What capitalising does to one character: word characters stay word characters, `_` is never
    produced, only the letter's case can change, and a character outside words is kept.
   */
  predicate CapitalizedFacts(s: string, inWord: bool, i: nat)
    requires i < |s|
  {
    var c := CapitalizedAt(s, inWord, i);
    && IsWordChar(c) == IsWordChar(s[i])
    && (c == '_' ==> s[i] == '_')
    && (!(if i == 0 then inWord else IsWordChar(s[i - 1])) ==> !('a' <= c <= 'z'))
    && ((if i == 0 then inWord else IsWordChar(s[i - 1])) ==> !('A' <= c <= 'Z'))
    && ToLowerChar(c) == ToLowerChar(s[i])
    && (!IsWordChar(s[i]) ==> c == s[i])
  }

  lemma CapitalizedAtFacts(s: string, inWord: bool, i: nat)
    requires i < |s|
    ensures CapitalizedFacts(s, inWord, i)
  {
  }
}

/**
  The binding rules of a form field: the path it extends, the lens its value and its errors go
  through, the edit mode and configuration it passes down, the lenses a compound field offers
  its children, the choices of a choice field and the toggling of a multiple-choice field, and
  the parsing and display of a text field.
 */
module Field {
  import opened Wrappers
  import opened Strings
  import opened Values
  import opened MessageBags
  import opened Util
  import Repeater
  import Config

  // ---------------------------------------------------------------------------
  // paths

  /** `nameOrIndex`: a name that is set, even to the empty string, wins over the index. */
  function NameOrIndex(name: Option<string>, index: Option<int>): (k: Option<Key>)
    ensures name.Some? ==> k == Some(Str(name.value))
    ensures name.None? && index.Some? ==> k == Some(Num(index.value))
    ensures k.None? <==> name.None? && index.None?
  {
    if name.Some? then Some(Str(name.value))
    else if index.Some? then Some(Num(index.value))
    else None
  }

  /**
    The `path` of `useExtendsPath`: the path the parent provides (the empty path when there is
    no parent), extended by the field's own segment when it has one.
   */
  function ExtendsPath(parentPath: Option<Path>, segment: Option<Key>): Path {
    var base := if parentPath.Some? then parentPath.value else [];
    if segment.Some? then base + [segment.value] else base
  }

  /** `pathString`: the segments, as `String()` spells them, joined with dots. */
  function PathString(path: Path): string {
    Join(SegmentStrings(path), '.')
  }

  function SegmentStrings(path: Path): (ss: seq<string>)
    ensures |ss| == |path| && forall i | 0 <= i < |path| :: ss[i] == KeyString(path[i])
  {
    seq(|path|, i requires 0 <= i < |path| => KeyString(path[i]))
  }

  /**
    The path of the innermost of nested fields, given the segments of the fields from the
    outermost inwards: the outermost has no parent, and each field extends its parent's path.
   */
  function ChainPath(segments: seq<Option<Key>>): Path {
    if segments == [] then []
    else
      var parent := if |segments| == 1 then None else Some(ChainPath(segments[..|segments| - 1]));
      ExtendsPath(parent, segments[|segments| - 1])
  }

  /** The segments that are set, in order. */
  function SetSegments(segments: seq<Option<Key>>): (p: Path)
    ensures |p| <= |segments|
    ensures forall k :: k in p <==> Some(k) in segments
  {
    if segments == [] then []
    else
      var init := segments[..|segments| - 1];
      var last := segments[|segments| - 1];
      assert segments == init + [last];
      SetSegments(init) + (if last.Some? then [last.value] else [])
  }

  /** A nested field's path lists the names and indices of the fields around it that have one, outermost first. */
  lemma {:induction false} ChainPathSegments(segments: seq<Option<Key>>)
    ensures ChainPath(segments) == SetSegments(segments)
  {
    if |segments| > 1 {
      ChainPathSegments(segments[..|segments| - 1]);
    }
  }

  /** Extending a path adds one dot-separated part to its string, or makes the first part. */
  lemma PathStringExtends(parentPath: Path, k: Key)
    ensures PathString(ExtendsPath(Some(parentPath), Some(k))) ==
      if parentPath == [] then KeyString(k) else PathString(parentPath) + "." + KeyString(k)
  {
    var p := parentPath + [k];
    var ss := SegmentStrings(p);
    if parentPath != [] {
      assert ss == SegmentStrings(parentPath) + [KeyString(k)];
      JoinSnoc(SegmentStrings(parentPath), KeyString(k), '.');
    } else {
      assert ss == [KeyString(k)];
    }
  }

  lemma {:induction false} JoinSnoc(parts: seq<string>, x: string, sep: char)
    requires |parts| >= 1
    ensures Join(parts + [x], sep) == Join(parts, sep) + [sep] + x
  {
    if |parts| == 1 {
      assert (parts + [x])[1..] == [x];
    } else {
      assert (parts + [x])[1..] == parts[1..] + [x];
      JoinSnoc(parts[1..], x, sep);
    }
  }

  /** The path string splits back into the segments when no segment's text contains a dot. */
  lemma PathStringSplits(path: Path)
    requires |path| >= 1
    requires forall i | 0 <= i < |path| :: '.' !in KeyString(path[i])
    ensures Split(PathString(path), '.') == SegmentStrings(path)
  {
    SplitJoin(SegmentStrings(path), '.');
  }

  // ---------------------------------------------------------------------------
  // lenses

  /** The kinds of lens a parent field can provide to its children. */
  datatype LensType = FixedLens | NamedLens | IndexedLens

  /** Where a field's value, or its errors, are read from and written to. */
  datatype Target = ThroughFixed | ThroughNamed(name: string) | ThroughIndexed(index: nat) | OwnBinding

  /**
    The precedence shared by `rawValue`, `setNewValue` and both sides of `errors`: a fixed lens;
    a named lens when the field has a non-empty name; an indexed lens when it has an index;
    otherwise the field's own prop and update event.
   */
  function BindingTarget(lens: Option<LensType>, name: Option<string>, index: Option<nat>): (t: Target)
    ensures t == ThroughFixed <==> lens == Some(FixedLens)
    ensures t.ThroughNamed? <==> lens == Some(NamedLens) && name.Some? && name.value != ""
    ensures t.ThroughNamed? ==> t.name == name.value
    ensures t.ThroughIndexed? <==> lens == Some(IndexedLens) && index.Some?
    ensures t.ThroughIndexed? ==> t.index == index.value
  {
    if lens == Some(FixedLens) then ThroughFixed
    else if name.Some? && name.value != "" && lens == Some(NamedLens) then ThroughNamed(name.value)
    else if index.Some? && lens == Some(IndexedLens) then ThroughIndexed(index.value)
    else OwnBinding
  }

  /** A field with no lens to use reads and writes its own binding, whatever its name and index. */
  lemma NoLensOwnBinding(lens: Option<LensType>, name: Option<string>, index: Option<nat>)
    ensures BindingTarget(lens, name, index) == OwnBinding <==>
      || lens.None?
      || (lens == Some(NamedLens) && (name.None? || name.value == ""))
      || (lens == Some(IndexedLens) && index.None?)
  {
    match lens
    case None =>
    case Some(l) =>
      if l == NamedLens {
        assert BindingTarget(lens, name, index) == OwnBinding <==> name.None? || name.value == "";
      }
  }

  /**
    What a field's value can be bound to: the value behind a fixed lens, the compound value of a
    parent offering a named lens, the rows of a parent repeater offering an indexed lens, and the
    field's own `modelValue` prop (which the parent's `v-model` updates on `update:modelValue`).
   */
  datatype ValueSources = ValueSources(fixed: Value, compound: map<string, Value>, rows: seq<Value>, modelValue: Value)

  /** The named value lens `get` of `useHasCompoundValue`: the property, undefined when absent. */
  function NamedLensGet(compound: map<string, Value>, name: string): Value {
    if name in compound then compound[name] else Undefined
  }

  /** The named value lens `set` of `useHasCompoundValue`: a copy of the compound value with only `name` replaced. */
  method NamedLensSet(compound: map<string, Value>, name: string, newVal: Value) returns (r: map<string, Value>)
    ensures NamedLensGet(r, name) == newVal
    ensures r.Keys == compound.Keys + {name}
    ensures forall k | k in compound && k != name :: r[k] == compound[k]
  {
    var copy := CopyCompoundFormValue(Compound(compound), compound);
    r := copy[name := newVal];
  }

  /** The value `rawValue` reads through a target. */
  function RawValue(src: ValueSources, t: Target): Value {
    match t
    case ThroughFixed => src.fixed
    case ThroughNamed(name) => NamedLensGet(src.compound, name)
    case ThroughIndexed(index) => Repeater.RowAt(src.rows, index)
    case OwnBinding => src.modelValue
  }

  /**
    The sources after `setNewValue` writes through a target. A repeater stores a row as a
    compound value, so what it stores is the coerced value.
   */
  function SetNewValue(src: ValueSources, t: Target, newVal: Value): ValueSources {
    match t
    case ThroughFixed => src.(fixed := newVal)
    case ThroughNamed(name) => src.(compound := src.compound[name := newVal])
    case ThroughIndexed(index) =>
      src.(rows := Repeater.Assigned(src.rows, index, Compound(CoerceToCompoundFormValue(newVal))))
    case OwnBinding => src.(modelValue := newVal)
  }

  /**
    Reading after writing through the same target gives back the value written (coerced to a
    compound value for a repeater row), and what any other target reads is unchanged.
   */
  lemma ValueReadBack(src: ValueSources, t: Target, newVal: Value)
    ensures RawValue(SetNewValue(src, t, newVal), t) ==
      if t.ThroughIndexed? then Compound(CoerceToCompoundFormValue(newVal)) else newVal
    ensures forall u: Target | u != t :: RawValue(SetNewValue(src, t, newVal), u) == RawValue(src, u)
  {
    if t.ThroughIndexed? {
      Repeater.AssignedLens(src.rows, t.index, Compound(CoerceToCompoundFormValue(newVal)));
    }
  }

  /**
    What a field's errors can be bound to: the bag behind a fixed lens, the errors of a compound
    parent, the errors of a parent repeater, and the field's own `errors` prop, if given.
   */
  datatype ErrorSources = ErrorSources(fixed: MessageBag, compound: MessageBag, rows: MessageBag, errors: Option<MessageBag>)

  /** The getter of `errors`: the lenses slice their parent's bag; without a lens, the prop or an empty bag. */
  function Errors(src: ErrorSources, t: Target): MessageBag {
    match t
    case ThroughFixed => src.fixed
    case ThroughNamed(name) => Slice(src.compound, name)
    case ThroughIndexed(index) => Slice(src.rows, NatToString(index))
    case OwnBinding => if src.errors.Some? then src.errors.value else map[]
  }

  /** The setter of `errors`: the lenses splice into their parent's bag; without a lens, `update:errors`. */
  function SetErrors(src: ErrorSources, t: Target, newErrors: MessageBag): ErrorSources {
    match t
    case ThroughFixed => src.(fixed := newErrors)
    case ThroughNamed(name) => src.(compound := Splice(src.compound, name, newErrors))
    case ThroughIndexed(index) => src.(rows := Splice(src.rows, NatToString(index), newErrors))
    case OwnBinding => src.(errors := Some(newErrors))
  }

  /** Two targets whose errors live apart: different, and for two named ones, non-empty names without dots. */
  predicate Apart(t: Target, u: Target) {
    t != u && (t.ThroughNamed? && u.ThroughNamed? ==> t.name != "" && u.name != "" && '.' !in t.name && '.' !in u.name)
  }

  /** Reading errors after writing them through the same target gives them back; targets apart are unaffected. */
  lemma ErrorsReadBack(src: ErrorSources, t: Target, newErrors: MessageBag)
    ensures Errors(SetErrors(src, t, newErrors), t) == newErrors
    ensures forall u: Target | Apart(t, u) :: Errors(SetErrors(src, t, newErrors), u) == Errors(src, u)
  {
    match t {
      case ThroughNamed(name) =>
        SliceSplice(src.compound, name, newErrors);
      case ThroughIndexed(index) =>
        Repeater.RowErrorsLens(src.rows, index, newErrors);
      case _ =>
    }
    forall u: Target | Apart(t, u) ensures Errors(SetErrors(src, t, newErrors), u) == Errors(src, u) {
      ErrorsApart(src, t, u, newErrors);
    }
  }

  lemma ErrorsApart(src: ErrorSources, t: Target, u: Target, newErrors: MessageBag)
    requires Apart(t, u)
    ensures Errors(SetErrors(src, t, newErrors), u) == Errors(src, u)
  {
    if t.ThroughNamed? && u.ThroughNamed? {
      SliceSpliceOther(src.compound, t.name, u.name, newErrors);
    } else if t.ThroughIndexed? && u.ThroughIndexed? {
      Repeater.RowErrorsLens(src.rows, t.index, newErrors);
    }
  }

  /** `myErrors`: the messages filed under the empty path, none when there is no such entry. */
  function MyErrors(errors: MessageBag): (m: seq<string>)
    ensures "" in errors ==> m == errors[""]
    ensures "" !in errors ==> m == []
  {
    if "" in errors then errors[""] else []
  }

  /** `hasError`. */
  predicate HasError(errors: MessageBag) {
    |MyErrors(errors)| > 0
  }

  /**
    A field bound by name in its parent's errors owns the messages filed under exactly its name
    (or, failing that, under its name followed by a dot), and it has an error exactly when they
    are not empty.
   */
  lemma NamedFieldOwnMessages(bag: MessageBag, name: string)
    requires name != ""
    ensures MyErrors(Slice(bag, name)) ==
      if name in bag then bag[name] else if name + "." in bag then bag[name + "."] else []
    ensures HasError(Slice(bag, name)) <==>
      (name in bag && bag[name] != []) || (name !in bag && name + "." in bag && bag[name + "."] != [])
  {
    assert Prefixed(name, "") == name;
  }

  // ---------------------------------------------------------------------------
  // edit mode and configuration

  datatype EditMode = Edit | View

  /** `useExtendsEditMode`: the own prop, else the mode the parent provides, else editing. */
  function ExtendsEditMode(prop: Option<EditMode>, injected: Option<EditMode>): EditMode {
    if prop.Some? then prop.value else if injected.Some? then injected.value else Edit
  }

  /** The edit mode of the innermost of nested fields, given their props from the outermost inwards. */
  function ChainEditMode(props: seq<Option<EditMode>>): EditMode {
    if props == [] then Edit
    else
      var injected := if |props| == 1 then None else Some(ChainEditMode(props[..|props| - 1]));
      ExtendsEditMode(props[|props| - 1], injected)
  }

  /** The innermost field that sets an edit mode decides it; with none set, fields are editable. */
  lemma {:induction false} ChainEditModeInnermost(props: seq<Option<EditMode>>)
    ensures (forall i | 0 <= i < |props| :: props[i].None?) ==> ChainEditMode(props) == Edit
    ensures forall i | 0 <= i < |props| && props[i].Some? && (forall j | i < j < |props| :: props[j].None?) ::
      ChainEditMode(props) == props[i].value
  {
    if |props| > 1 {
      var init := props[..|props| - 1];
      var last := props[|props| - 1];
      ChainEditModeInnermost(init);
      assert ChainEditMode(props) == ExtendsEditMode(last, Some(ChainEditMode(init)));
      if last.None? {
        forall i | 0 <= i < |props| && props[i].Some? && (forall j | i < j < |props| :: props[j].None?)
          ensures ChainEditMode(props) == props[i].value
        {
          assert i < |init| && init[i] == props[i];
          forall j | i < j < |init| ensures init[j].None? {
            assert init[j] == props[j];
          }
        }
        if forall i | 0 <= i < |props| :: props[i].None? {
          forall i | 0 <= i < |init| ensures init[i].None? {
            assert init[i] == props[i];
          }
        }
      }
    }
  }

  /** `useExtendsConfig`: the parent's entries, overridden by the local ones. */
  function ExtendsConfig(parent: Option<Config.PartialConfig>, overrides: Option<Config.PartialConfig>): (c: Config.PartialConfig)
    ensures forall k :: k in c <==> (parent.Some? && k in parent.value) || (overrides.Some? && k in overrides.value)
    ensures forall k | overrides.Some? && k in overrides.value :: c[k] == overrides.value[k]
    ensures forall k | k in c && (overrides.None? || k !in overrides.value) :: parent.Some? && c[k] == parent.value[k]
  {
    (if parent.Some? then parent.value else map[]) + (if overrides.Some? then overrides.value else map[])
  }

  /** The configuration of the innermost of nested fields, given their overrides from the outermost inwards. */
  function ChainConfig(overrides: seq<Option<Config.PartialConfig>>): Config.PartialConfig {
    if overrides == [] then map[]
    else
      var parent := if |overrides| == 1 then None else Some(ChainConfig(overrides[..|overrides| - 1]));
      ExtendsConfig(parent, overrides[|overrides| - 1])
  }

  predicate Overrides(o: Option<Config.PartialConfig>, key: Config.ConfigKey) {
    o.Some? && key in o.value
  }

  /** A setting's value is the one of the innermost override that has it, else its default. */
  lemma ChainConfigInnermost(overrides: seq<Option<Config.PartialConfig>>, key: Config.ConfigKey)
    ensures (forall i | 0 <= i < |overrides| :: !Overrides(overrides[i], key)) ==>
      Config.GetConfigValue(Some(ChainConfig(overrides)), key) == Config.DefaultConfig(key)
    ensures forall i | 0 <= i < |overrides| && Overrides(overrides[i], key) &&
        (forall j | i < j < |overrides| :: !Overrides(overrides[j], key)) ::
      Config.GetConfigValue(Some(ChainConfig(overrides)), key) == overrides[i].value[key]
  {
    if forall i | 0 <= i < |overrides| :: !Overrides(overrides[i], key) {
      ChainConfigDefault(overrides, key);
    }
    forall i | 0 <= i < |overrides| && Overrides(overrides[i], key) &&
        (forall j | i < j < |overrides| :: !Overrides(overrides[j], key))
      ensures Config.GetConfigValue(Some(ChainConfig(overrides)), key) == overrides[i].value[key]
    {
      ChainConfigFrom(overrides, key, i);
    }
  }

  lemma {:induction false} ChainConfigDefault(overrides: seq<Option<Config.PartialConfig>>, key: Config.ConfigKey)
    requires forall i | 0 <= i < |overrides| :: !Overrides(overrides[i], key)
    ensures Config.GetConfigValue(Some(ChainConfig(overrides)), key) == Config.DefaultConfig(key)
  {
    var n := |overrides|;
    if n > 1 {
      var init := overrides[..n - 1];
      forall i | 0 <= i < |init| ensures !Overrides(init[i], key) {
        assert init[i] == overrides[i];
      }
      ChainConfigDefault(init, key);
      ChainConfigStep(overrides, key);
    } else if n == 1 {
      ConfigStep(None, overrides[0], key);
    }
  }

  lemma {:induction false} ChainConfigFrom(overrides: seq<Option<Config.PartialConfig>>, key: Config.ConfigKey, i: nat)
    requires i < |overrides| && Overrides(overrides[i], key)
    requires forall j | i < j < |overrides| :: !Overrides(overrides[j], key)
    ensures Config.GetConfigValue(Some(ChainConfig(overrides)), key) == overrides[i].value[key]
  {
    var n := |overrides|;
    if n == 1 {
      ConfigStep(None, overrides[0], key);
    } else {
      ChainConfigStep(overrides, key);
      if i < n - 1 {
        var init := overrides[..n - 1];
        assert init[i] == overrides[i];
        forall j | i < j < |init| ensures !Overrides(init[j], key) {
          assert init[j] == overrides[j];
        }
        ChainConfigFrom(init, key, i);
      }
    }
  }

  lemma ChainConfigStep(overrides: seq<Option<Config.PartialConfig>>, key: Config.ConfigKey)
    requires |overrides| > 1
    ensures var last := overrides[|overrides| - 1];
      Config.GetConfigValue(Some(ChainConfig(overrides)), key) ==
        if Overrides(last, key) then last.value[key]
        else Config.GetConfigValue(Some(ChainConfig(overrides[..|overrides| - 1])), key)
  {
    ConfigStep(Some(ChainConfig(overrides[..|overrides| - 1])), overrides[|overrides| - 1], key);
  }

  /** One level of nesting: a local override of the setting wins, otherwise the parent's value stands. */
  lemma ConfigStep(parent: Option<Config.PartialConfig>, o: Option<Config.PartialConfig>, key: Config.ConfigKey)
    ensures Config.GetConfigValue(Some(ExtendsConfig(parent, o)), key) ==
      if Overrides(o, key) then o.value[key] else Config.GetConfigValue(parent, key)
  {
  }

  // ---------------------------------------------------------------------------
  // choices

  /** A normalised choice: its key, its label (`caption`, since `label` is a Dafny keyword), and whatever other properties the choice object carried. */
  datatype Choice = Choice(key: Key, caption: Value, others: map<string, Value>)

  /** The choice as an object: its other properties with `key` and `label` set. */
  function ChoiceObject(c: Choice): map<string, Value> {
    c.others["key" := c.key]["label" := c.caption]
  }

  /** `isPartialChoosable`: an object whose `key` property is a string or a number. */
  predicate IsPartialChoosable(v: Value) {
    v.Compound? && "key" in v.fields && (v.fields["key"].Str? || v.fields["key"].Num?)
  }

  /**
    One element of a choices array. A string is its own key, labelled in start case; a partial
    choosable keeps all its properties, and is given the start case of its key as a label only
    when it has no `label` property of its own; anything else is invalid.
   */
  function NormalizeChoice(v: Value): (c: Option<Choice>)
    ensures c.None? <==> !v.Str? && !IsPartialChoosable(v)
    ensures v.Str? ==> c == Some(Choice(v, Str(StartCase(v)), map[]))
    ensures IsPartialChoosable(v) && "label" in v.fields ==>
      c.Some? && c.value.key == v.fields["key"] && ChoiceObject(c.value) == v.fields
    ensures IsPartialChoosable(v) && "label" !in v.fields ==>
      c.Some? && c.value.key == v.fields["key"] && ChoiceObject(c.value) == v.fields["label" := Str(StartCase(v.fields["key"]))]
  {
    if v.Str? then Some(Choice(v, Str(StartCase(v)), map[]))
    else if IsPartialChoosable(v) then
      var key: Key := v.fields["key"];
      var caption := if "label" in v.fields then v.fields["label"] else Str(StartCase(key));
      var c := Choice(key, caption, v.fields - {"key", "label"});
      ChoiceObjectRestores(v.fields, caption);
      Some(c)
    else None
  }

  /** Removing `key` and `label` and setting them again gives the object back, with the new label. */
  lemma ChoiceObjectRestores(fields: map<string, Value>, caption: Value)
    requires "key" in fields && (fields["key"].Str? || fields["key"].Num?)
    requires "label" in fields ==> caption == fields["label"]
    ensures ChoiceObject(Choice(fields["key"], caption, fields - {"key", "label"})) == fields["label" := caption]
    ensures "label" in fields ==> fields["label" := caption] == fields
  {
  }

  const InvalidChoices := "Invalid choice specification"

  /** The array case of `choicesNormalized`: every element normalised, or the error for the first invalid one. */
  method NormalizeChoices(items: seq<Value>) returns (r: Result<seq<Choice>, string>)
    ensures r.Failure? <==> exists i | 0 <= i < |items| :: NormalizeChoice(items[i]).None?
    ensures r.Failure? ==> r.error == InvalidChoices
    ensures r.Success? ==> |r.value| == |items| && forall i | 0 <= i < |items| :: NormalizeChoice(items[i]) == Some(r.value[i])
  {
    var out := PushAllOrStop(items, NormalizeChoice);
    if out.None? {
      return Failure(InvalidChoices);
    }
    return Success(out.value);
  }

  /** A `for ... of` loop pushing `f` of each element, which stops (throws) at the first element `f` rejects. */
  method PushAllOrStop<A, B>(items: seq<A>, f: A -> Option<B>) returns (r: Option<seq<B>>)
    ensures r.None? <==> exists i | 0 <= i < |items| :: f(items[i]).None?
    ensures r.Some? ==> |r.value| == |items| && forall i | 0 <= i < |items| :: f(items[i]) == Some(r.value[i])
  {
    var out := [];
    for i := 0 to |items|
      invariant |out| == i
      invariant forall j | 0 <= j < i :: f(items[j]) == Some(out[j])
    {
      var c := f(items[i]);
      if c.None? {
        return None;
      }
      out := out + [c.value];
    }
    return Some(out);
  }

  /** A loop pushing `f` of each element. */
  method PushAll<A, B>(items: seq<A>, f: A -> B) returns (out: seq<B>)
    ensures |out| == |items|
    ensures forall i | 0 <= i < |items| :: out[i] == f(items[i])
  {
    out := [];
    for i := 0 to |items|
      invariant |out| == i
      invariant forall j | 0 <= j < i :: out[j] == f(items[j])
    {
      out := out + [f(items[i])];
    }
  }

  /** `Object.entries`: every property with its value, each property once, in some order. */
  method Entries<V>(m: map<string, V>) returns (entries: seq<(string, V)>)
    ensures |entries| == |m.Keys|
    ensures forall i | 0 <= i < |entries| :: entries[i].0 in m && entries[i].1 == m[entries[i].0]
    ensures forall i, j | 0 <= i < j < |entries| :: entries[i].0 != entries[j].0
    ensures forall k | k in m :: exists i | 0 <= i < |entries| :: entries[i].0 == k
  {
    entries := [];
    var todo := m.Keys;
    while todo != {}
      invariant todo <= m.Keys
      invariant |entries| + |todo| == |m.Keys|
      invariant forall i | 0 <= i < |entries| ::
        entries[i].0 in m && entries[i].0 !in todo && entries[i].1 == m[entries[i].0]
      invariant forall i, j | 0 <= i < j < |entries| :: entries[i].0 != entries[j].0
      invariant forall k | k in m && k !in todo :: exists i | 0 <= i < |entries| :: entries[i].0 == k
      decreases todo
    {
      var k :| k in todo;
      ghost var before := entries;
      entries := entries + [(k, m[k])];
      todo := todo - {k};
      forall k' | k' in m && k' !in todo ensures exists i | 0 <= i < |entries| :: entries[i].0 == k' {
        if k' == k {
          assert entries[|before|].0 == k';
        } else {
          var i :| 0 <= i < |before| && before[i].0 == k';
          assert entries[i].0 == k';
        }
      }
    }
  }

  /** An entry of a choices object: the property name is the key and the value's `String()` spelling the label. */
  function EntryChoice(entry: (string, Value)): Choice {
    Choice(Str(entry.0), Str(ToJsString(entry.1)), map[])
  }

  /** The object case of `choicesNormalized`: one choice per property, each property once, labelled with its value's spelling. */
  method EntryChoices(fields: map<string, Value>) returns (out: seq<Choice>)
    ensures |out| == |fields.Keys|
    ensures forall i | 0 <= i < |out| ::
      && out[i].key.Str? && out[i].key.s in fields
      && out[i].caption == Str(ToJsString(fields[out[i].key.s])) && out[i].others == map[]
    ensures forall i, j | 0 <= i < j < |out| :: out[i].key != out[j].key
    ensures forall k | k in fields :: exists i | 0 <= i < |out| :: out[i].key == Str(k)
  {
    var entries := Entries(fields);
    out := PushAll(entries, EntryChoice);
    forall k | k in fields ensures exists i | 0 <= i < |out| :: out[i].key == Str(k) {
      var i :| 0 <= i < |entries| && entries[i].0 == k;
      assert out[i].key == Str(k);
    }
  }

  /** A piece of a comma-separated choices string: trimmed for the key, in start case for the label. */
  function CommaChoice(piece: string): Choice {
    Choice(Str(Trim(piece)), Str(StartCaseText(piece)), map[])
  }

  /** The string case of `choicesNormalized`: one choice per comma-separated piece, in order. */
  method CommaChoices(s: string) returns (out: seq<Choice>)
    ensures |out| == |Split(s, ',')|
    ensures forall i | 0 <= i < |out| :: out[i] == CommaChoice(Split(s, ',')[i])
  {
    out := PushAll(Split(s, ','), CommaChoice);
  }

  /** Keys without commas and without surrounding blanks, joined with commas, come back as the choice keys. */
  lemma CommaChoicesKeys(keys: seq<string>)
    requires |keys| >= 1
    requires forall i | 0 <= i < |keys| :: ',' !in keys[i] && Trim(keys[i]) == keys[i]
    ensures |Split(Join(keys, ','), ',')| == |keys|
    ensures forall i | 0 <= i < |keys| :: CommaChoice(Split(Join(keys, ','), ',')[i]).key == Str(keys[i])
  {
    SplitJoin(keys, ',');
  }

  /**
    `choicesNormalized`: the provider's choices when a directory is set; otherwise the `choices`
    prop, normalised by its shape. Nothing, or a value of any other shape, gives no choices.
   */
  method ChoicesNormalized(directoryChoices: Option<seq<Choice>>, choices: Value) returns (r: Result<seq<Choice>, string>)
    ensures directoryChoices.Some? ==> r == Success(directoryChoices.value)
    ensures r.Failure? ==> directoryChoices.None? && choices.List? && r.error == InvalidChoices
    ensures directoryChoices.None? && choices.List? ==>
      (r.Failure? <==> exists i | 0 <= i < |choices.items| :: NormalizeChoice(choices.items[i]).None?)
    ensures directoryChoices.None? && choices.List? && r.Success? ==>
      |r.value| == |choices.items| &&
      forall i | 0 <= i < |choices.items| :: NormalizeChoice(choices.items[i]) == Some(r.value[i])
    ensures directoryChoices.None? && choices.Compound? ==>
      && r.Success?
      && |r.value| == |choices.fields.Keys|
      && (forall i | 0 <= i < |r.value| ::
            && r.value[i].key.Str? && r.value[i].key.s in choices.fields
            && r.value[i].caption == Str(ToJsString(choices.fields[r.value[i].key.s])) && r.value[i].others == map[])
      && (forall k | k in choices.fields :: exists i | 0 <= i < |r.value| :: r.value[i].key == Str(k))
    ensures directoryChoices.None? && choices.Str? ==>
      && r.Success?
      && |r.value| == |Split(choices.s, ',')|
      && forall i | 0 <= i < |r.value| :: r.value[i] == CommaChoice(Split(choices.s, ',')[i])
    ensures directoryChoices.None? && !choices.List? && !choices.Compound? && !choices.Str? ==> r == Success([])
  {
    if directoryChoices.Some? {
      return Success(directoryChoices.value);
    }
    match choices {
      case List(items) =>
        r := NormalizeChoices(items);
      case Compound(fields) =>
        var out := EntryChoices(fields);
        r := Success(out);
      case Str(s) =>
        var out := CommaChoices(s);
        r := Success(out);
      case _ =>
        r := Success([]);
    }
  }

  // ---------------------------------------------------------------------------
  // multiple choices

  /** How a multiple-choice field stores its value: a keys list (the default) or a booleans map. */
  datatype ValueIs = AsArray | AsObject

  /** The `String()` spellings of the choices' keys: the properties of a choices booleans map. */
  function ChoiceKeyStrings(choices: seq<Choice>): set<string> {
    set c | c in choices :: KeyString(c.key)
  }

  /** What `coerceToBooleansNativeMap(value)` holds, entry by entry. */
  ghost predicate NativeMapOf(value: Value, m: BooleansMap) {
    && m.Valid()
    && (value.Str? || value.Num? ==> m.on == map[value := true])
    && (value.List? ==> forall k :: k in m.on <==> k in value.items)
    && (value.List? ==> forall k | k in m.on :: m.on[k])
    && (value.Compound? ==> forall k :: k in m.on <==> k.Str? && k.s in value.fields)
    && (value.Compound? ==> forall k | k in m.on :: m.on[k] == Truthy(value.fields[k.s]))
    && (!value.Str? && !value.Num? && !value.List? && !value.Compound? ==> m.on == map[])
  }

  /** `coerceToBooleansNativeMap`, entry by entry. */
  method NativeMap(value: Value) returns (m: BooleansMap)
    ensures NativeMapOf(value, m)
  {
    m := CoerceToBooleansNativeMap(value);
    if value.List? {
      forall k ensures k in m.on <==> k in value.items {
        assert k in m.keys <==> k in KeyItems(value.items);
      }
    }
  }

  /**
    Whether `value` holds a key whose `String()` spelling is `ks`: the reading a booleans map
    keyed by strings should give, whether the key was stored as a string or as a number.
   */
  predicate HoldsKeyString(value: Value, ks: string) {
    match value
    case Str(_) => KeyString(value) == ks
    case Num(_) => KeyString(value) == ks
    case List(items) => exists i | 0 <= i < |items| :: (items[i].Str? || items[i].Num?) && KeyString(items[i]) == ks
    case Compound(fields) => ks in fields && Truthy(fields[ks])
    case _ => false
  }

  /**
    What `!!partial.get(String(choice.key))` reads as written: `partial` is a `Map` whose keys
    keep their type, so the string lookup misses every key that was stored as a number.
   */
  predicate HoldsAsWritten(value: Value, ks: string) {
    match value
    case Str(s) => s == ks
    case List(items) => Str(ks) in items
    case Compound(fields) => ks in fields && Truthy(fields[ks])
    case _ => false
  }

  lemma AsWrittenLookup(value: Value, m: BooleansMap, ks: string)
    requires NativeMapOf(value, m)
    ensures (Str(ks) in m.on && m.on[Str(ks)]) == HoldsAsWritten(value, ks)
  {
  }

  lemma StringLookup(value: Value, m: BooleansMap, ks: string)
    requires NativeMapOf(value, m)
    ensures (exists k | k in m.on :: KeyString(k) == ks && m.on[k]) == HoldsKeyString(value, ks)
  {
    match value {
      case List(items) =>
        if exists k | k in m.on :: KeyString(k) == ks && m.on[k] {
          var k :| k in m.on && KeyString(k) == ks && m.on[k];
          var i :| 0 <= i < |items| && items[i] == k;
          assert (items[i].Str? || items[i].Num?) && KeyString(items[i]) == ks;
        }
        if HoldsKeyString(value, ks) {
          var i :| 0 <= i < |items| && (items[i].Str? || items[i].Num?) && KeyString(items[i]) == ks;
          var k: Key := items[i];
          assert k in m.on && KeyString(k) == ks && m.on[k];
        }
      case Compound(fields) =>
        if HoldsKeyString(value, ks) {
          var k: Key := Str(ks);
          assert k in m.on && KeyString(k) == ks && m.on[k];
        }
      case Str(_) =>
        var k: Key := value;
        assert k in m.on;
      case Num(_) =>
        var k: Key := value;
        assert k in m.on;
      case _ =>
    }
  }

  /**
    `coerceToChoicesBooleansMap` as written: one property per choice key, on when the native map
    has that key as a string.
   */
  method ChoicesBooleansMapAsWritten(value: Value, choices: seq<Choice>) returns (out: map<string, bool>)
    ensures out.Keys == ChoiceKeyStrings(choices)
    ensures forall ks | ks in out :: out[ks] == HoldsAsWritten(value, ks)
  {
    var partial := NativeMap(value);
    out := map[];
    for i := 0 to |choices|
      invariant out.Keys == ChoiceKeyStrings(choices[..i])
      invariant forall ks | ks in out :: out[ks] == HoldsAsWritten(value, ks)
    {
      var ks := KeyString(choices[i].key);
      AsWrittenLookup(value, partial, ks);
      out := out[ks := Str(ks) in partial.on && partial.on[Str(ks)]];
      assert choices[..i + 1] == choices[..i] + [choices[i]];
    }
    assert choices[..|choices|] == choices;
  }

  /** Whether some key of the native map spells `ks` and is on: the map re-keyed by `String()`. */
  method OnByKeyString(m: BooleansMap) returns (byString: map<string, bool>)
    requires m.Valid()
    ensures forall ks :: (ks in byString && byString[ks]) <==> exists k | k in m.on :: KeyString(k) == ks && m.on[k]
  {
    byString := map[];
    for i := 0 to |m.keys|
      invariant forall ks :: (ks in byString && byString[ks]) <==>
        exists j | 0 <= j < i :: KeyString(m.keys[j]) == ks && m.on[m.keys[j]]
    {
      var k := m.keys[i];
      var ks := KeyString(k);
      byString := byString[ks := (ks in byString && byString[ks]) || m.on[k]];
    }
    forall ks ensures (ks in byString && byString[ks]) <==> exists k | k in m.on :: KeyString(k) == ks && m.on[k] {
      if exists k | k in m.on :: KeyString(k) == ks && m.on[k] {
        var k :| k in m.on && KeyString(k) == ks && m.on[k];
        var j :| 0 <= j < |m.keys| && m.keys[j] == k;
        assert KeyString(m.keys[j]) == ks && m.on[m.keys[j]];
      }
    }
  }

  /**
    `coerceToChoicesBooleansMap` as evidently intended: one property per choice key, on when the
    value holds that key, whether as a string or as a number.
   */
  method ChoicesBooleansMap(value: Value, choices: seq<Choice>) returns (out: map<string, bool>)
    ensures out.Keys == ChoiceKeyStrings(choices)
    ensures forall ks | ks in out :: out[ks] == HoldsKeyString(value, ks)
  {
    var partial := NativeMap(value);
    var byString := OnByKeyString(partial);
    out := map[];
    for i := 0 to |choices|
      invariant out.Keys == ChoiceKeyStrings(choices[..i])
      invariant forall ks | ks in out :: out[ks] == HoldsKeyString(value, ks)
    {
      var ks := KeyString(choices[i].key);
      StringLookup(value, partial, ks);
      out := out[ks := ks in byString && byString[ks]];
      assert choices[..i + 1] == choices[..i] + [choices[i]];
    }
    assert choices[..|choices|] == choices;
  }

  /**
    The discrepancy: a field whose value is the keys list `[1]`, with a choice keyed by the number
    1, is on in array mode, but the as-written booleans map has it off.
   */
  lemma NumericKeyLostAsWritten()
    ensures KeyString(Num(1)) == "1"
    ensures Num(1) in List([Num(1)]).items
    ensures !HoldsAsWritten(List([Num(1)]), "1")
    ensures HoldsKeyString(List([Num(1)]), "1")
  {
    assert NatToString(1) == "1";
    assert KeyString(List([Num(1)]).items[0]) == "1";
  }

  /** Whether `coerceToKeysList(value)` includes `key`. */
  predicate InKeysList(value: Value, key: Key) {
    match value
    case Str(_) => value == key
    case Num(_) => value == key
    case List(items) => key in items
    case Compound(fields) => key.Str? && key.s in fields && Truthy(fields[key.s])
    case _ => false
  }

  /** `coerceToKeysList`, read as membership. */
  method KeysList(value: Value) returns (list: seq<Key>)
    ensures NoDuplicates(list)
    ensures forall k :: k in list <==> InKeysList(value, k)
    ensures value.List? ==> list == FirstOccurrences(KeyItems(value.items))
  {
    list := CoerceToKeysList(value);
  }

  /**
    `isOn`: in array mode, whether the keys list includes the key; in object mode, whether the
    booleans map, which has only the choices' keys, has the key's spelling on.
   */
  predicate IsOnSpec(valueIs: ValueIs, choices: seq<Choice>, modelValue: Value, key: Key) {
    if valueIs == AsArray then InKeysList(modelValue, key)
    else KeyString(key) in ChoiceKeyStrings(choices) && HoldsKeyString(modelValue, KeyString(key))
  }

  /**
    An object value is read alike by the as-written and the intended booleans map: only values
    held as a list or as a number tell the two apart.
   */
  lemma ObjectReadingsAgree(value: Value, ks: string)
    requires value.Compound?
    ensures HoldsAsWritten(value, ks) == HoldsKeyString(value, ks)
  {
  }

  /**
    `isOn` on the field's `modelValue`, which the getter has already passed through `coerceFn`:
    in object mode that is an object, so the as-written booleans map reads it exactly as the
    intended one does.
   */
  method IsOn(valueIs: ValueIs, choices: seq<Choice>, modelValue: Value, key: Key) returns (on: bool)
    requires valueIs == AsObject ==> modelValue.Compound?
    ensures on == IsOnSpec(valueIs, choices, modelValue, key)
    ensures valueIs == AsObject ==>
      on == (KeyString(key) in ChoiceKeyStrings(choices) && HoldsAsWritten(modelValue, KeyString(key)))
  {
    if valueIs == AsArray {
      var list := KeysList(modelValue);
      on := key in list;
    } else {
      var m := ChoicesBooleansMap(modelValue, choices);
      var ks := KeyString(key);
      on := ks in m && m[ks];
    }
  }

  /** Removing the one occurrence of an element from a list without duplicates. */
  lemma RemoveAtMembership<T>(s: seq<T>, p: nat)
    requires NoDuplicates(s) && p < |s|
    ensures NoDuplicates(Repeater.RemoveAt(s, p))
    ensures forall y :: y in Repeater.RemoveAt(s, p) <==> y in s && y != s[p]
  {
    var r := Repeater.RemoveAt(s, p);
    forall y | y in s && y != s[p] ensures y in r {
      var i :| 0 <= i < |s| && s[i] == y;
      if i < p {
        assert r[i] == y;
      } else {
        assert r[i - 1] == y;
      }
    }
    forall i | 0 <= i < |r| ensures r[i] != s[p] {
      if i < p {
        assert r[i] == s[i];
      } else {
        assert r[i] == s[i + 1];
      }
    }
    forall i, j | 0 <= i < j < |r| ensures r[i] != r[j] {
      var i' := if i < p then i else i + 1;
      var j' := if j < p then j else j + 1;
      assert r[i] == s[i'] && r[j] == s[j'];
    }
  }

  /** The array case of `toggle`: a present key is spliced out with its row of errors, an absent one appended. */
  method ToggleInList(list: seq<Key>, errors: MessageBag, key: Key)
    returns (newList: seq<Key>, newErrors: MessageBag, ghost removedAt: Option<nat>)
    requires NoDuplicates(list)
    ensures NoDuplicates(newList)
    ensures key in newList <==> key !in list
    ensures forall k: Key | k != key :: k in newList <==> k in list
    ensures removedAt.Some? <==> key in list
    ensures removedAt.Some? ==> removedAt.value < |list| && list[removedAt.value] == key
    ensures removedAt.Some? ==> newList == Repeater.RemoveAt(list, removedAt.value)
    ensures removedAt.None? ==> newList == list + [key] && newErrors == errors
    ensures removedAt.Some? ==> Repeater.Refiled(errors, Repeater.DeleteShift(removedAt.value), newErrors)
    ensures removedAt.Some? ==> forall i: nat | i != removedAt.value ::
      Slice(newErrors, NatToString(Repeater.DeleteShift(removedAt.value)(i).value)) == Slice(errors, NatToString(i))
  {
    if key in list {
      var p := FirstIndex(list, key);
      RemoveAtMembership(list, p);
      newList := Repeater.RemoveAt(list, p);
      newErrors := Repeater.Refile(errors, Repeater.DeleteShift(p));
      removedAt := Some(p);
      forall i: nat | i != p
        ensures Slice(newErrors, NatToString(Repeater.DeleteShift(p)(i).value)) == Slice(errors, NatToString(i))
      {
        Repeater.RowErrorsFollow(errors, newErrors, Repeater.DeleteShift(p), i);
      }
    } else {
      newList := list + [key];
      newErrors := errors;
      removedAt := None;
    }
  }

  /** The object case of `toggle`: the booleans map with the key's spelling flipped. */
  method ToggleInMap(choices: seq<Choice>, modelValue: Value, key: Key) returns (newValue: Value)
    requires modelValue.Compound?
    ensures newValue.Compound? && newValue.fields.Keys == ChoiceKeyStrings(choices) + {KeyString(key)}
    ensures forall ks | ks in newValue.fields :: newValue.fields[ks].Bool?
    ensures KeyString(key) in ChoiceKeyStrings(choices) ==>
      (IsOnSpec(AsObject, choices, newValue, key) <==> !IsOnSpec(AsObject, choices, modelValue, key))
    ensures forall k: Key | KeyString(k) != KeyString(key) ::
      IsOnSpec(AsObject, choices, newValue, k) == IsOnSpec(AsObject, choices, modelValue, k)
    ensures forall ks | ks in newValue.fields ::
      HoldsAsWritten(newValue, ks) == if ks == KeyString(key)
        then !(ks in ChoiceKeyStrings(choices) && HoldsAsWritten(modelValue, ks))
        else HoldsAsWritten(modelValue, ks)
  {
    var m := ChoicesBooleansMap(modelValue, choices);
    var ks := KeyString(key);
    var flipped := m[ks := !(ks in m && m[ks])];
    newValue := BooleansObject(flipped);
  }

  /** A map of booleans as an object value: a property holds a key exactly when its entry is on. */
  function BooleansObject(m: map<string, bool>): (v: Value)
    ensures v.Compound? && v.fields.Keys == m.Keys
    ensures forall ks | ks in v.fields :: v.fields[ks] == Bool(m[ks])
    ensures forall ks :: HoldsKeyString(v, ks) == (ks in m && m[ks])
  {
    Compound(map s | s in m :: Bool(m[s]))
  }

  /**
    `toggle`: in array mode the key is removed from the keys list, together with the errors of
    its position, later positions' errors moving down by one, or appended when absent; in object
    mode the key's entry of the booleans map is flipped and the errors are left alone. Either
    way the key's `isOn` flips (in object mode, for a key among the choices) and no other key's
    does.
   */
  method Toggle(valueIs: ValueIs, choices: seq<Choice>, modelValue: Value, errors: MessageBag, key: Key)
    returns (newValue: Value, newErrors: MessageBag, ghost removedAt: Option<nat>)
    requires valueIs == AsObject ==> modelValue.Compound?
    ensures valueIs == AsArray || KeyString(key) in ChoiceKeyStrings(choices) ==>
      (IsOnSpec(valueIs, choices, newValue, key) <==> !IsOnSpec(valueIs, choices, modelValue, key))
    ensures valueIs == AsArray ==> forall k: Key | k != key ::
      IsOnSpec(valueIs, choices, newValue, k) == IsOnSpec(valueIs, choices, modelValue, k)
    ensures valueIs == AsObject ==> forall k: Key | KeyString(k) != KeyString(key) ::
      IsOnSpec(valueIs, choices, newValue, k) == IsOnSpec(valueIs, choices, modelValue, k)
    ensures valueIs == AsArray ==> newValue.List? && NoDuplicates(newValue.items)
    ensures valueIs == AsObject ==> newValue.Compound? && newValue.fields.Keys == ChoiceKeyStrings(choices) + {KeyString(key)}
    ensures valueIs == AsArray && modelValue.List? ==>
      var list := FirstOccurrences(KeyItems(modelValue.items));
      newValue.items == if removedAt.Some? then Repeater.RemoveAt(list, removedAt.value) else list + [key]
    ensures removedAt.Some? <==> valueIs == AsArray && InKeysList(modelValue, key)
    ensures removedAt.None? ==> newErrors == errors
    ensures removedAt.Some? ==> Repeater.Refiled(errors, Repeater.DeleteShift(removedAt.value), newErrors)
    ensures removedAt.Some? ==> forall i: nat | i != removedAt.value ::
      Slice(newErrors, NatToString(Repeater.DeleteShift(removedAt.value)(i).value)) == Slice(errors, NatToString(i))
  {
    if valueIs == AsArray {
      var list := KeysList(modelValue);
      var newList;
      newList, newErrors, removedAt := ToggleInList(list, errors, key);
      newValue := List(newList);
    } else {
      newValue := ToggleInMap(choices, modelValue, key);
      newErrors := errors;
      removedAt := None;
    }
  }

  // ---------------------------------------------------------------------------
  // text fields that parse their input

  /**
    The options of a text field over values of type `T`: the coercion of non-empty input text,
    the optional validity check, clamp and formatters, and `String()` on a value.
    `formatNullForReading` is the text the optional formatter for a missing value returns.
   */
  datatype TextFieldOptions<!T> = TextFieldOptions(
    coerceNotEmpty: string -> Option<T>,
    isValid: Option<T -> bool>,
    clamp: Option<T -> T>,
    formatForReading: Option<T -> string>,
    formatNullForReading: Option<string>,
    formatForEditing: Option<T -> string>,
    toText: T -> string)

  /** The value after the clamp, when there is one. */
  function Clamped<T>(opts: TextFieldOptions<T>, v: T): T {
    if opts.clamp.Some? then opts.clamp.value(v) else v
  }

  /** The value passes the validity check, or there is none. */
  predicate Accepts<T>(opts: TextFieldOptions<T>, v: T) {
    opts.isValid.None? || opts.isValid.value(v)
  }

  /**
    The value `change` stores for input text with its whitespace already removed: nothing for
    empty text, for text the coercion rejects and for a clamped value that is not valid;
    otherwise the clamped value, clamping coming before validation.
   */
  function ParsedInput<T>(opts: TextFieldOptions<T>, text: string): (r: Option<T>)
    ensures r.Some? <==>
      text != "" && opts.coerceNotEmpty(text).Some? && Accepts(opts, Clamped(opts, opts.coerceNotEmpty(text).value))
    ensures r.Some? ==> r.value == Clamped(opts, opts.coerceNotEmpty(text).value) && Accepts(opts, r.value)
  {
    if text == "" then None
    else
      var coerced := opts.coerceNotEmpty(text);
      if coerced.None? then None
      else
        var clamped := Clamped(opts, coerced.value);
        if !Accepts(opts, clamped) then None else Some(clamped)
  }

  /** The state `useParsesTextField` keeps for one text input. */
  class ParsesTextField<T> {
    const opts: TextFieldOptions<T>
    var modelValue: Option<T>
    var tempClear: bool
    var focused: bool

    constructor (opts: TextFieldOptions<T>, modelValue: Option<T>)
      ensures this.opts == opts && this.modelValue == modelValue
      ensures !tempClear && !focused
    {
      this.opts := opts;
      this.modelValue := modelValue;
      tempClear := false;
      focused := false;
    }

    method OnFocus()
      modifies this
      ensures focused && modelValue == old(modelValue) && tempClear == old(tempClear)
    {
      focused := true;
    }

    method OnBlur()
      modifies this
      ensures !focused && modelValue == old(modelValue) && tempClear == old(tempClear)
    {
      focused := false;
    }

    /** `updateAfterClearing`: the value is written while the display is held empty, and the hold is released. */
    method UpdateAfterClearing(value: Option<T>)
      modifies this
      ensures modelValue == value && !tempClear && focused == old(focused)
    {
      tempClear := true;
      modelValue := value;
      tempClear := false;
    }

    /**
      `change`: with no input element nothing happens; otherwise the input's text, with every
      whitespace character removed, is parsed into the value, which is cleared when the text
      does not give a valid value.
     */
    method Change(inputText: Option<string>)
      modifies this
      ensures inputText.None? ==> modelValue == old(modelValue) && tempClear == old(tempClear)
      ensures inputText.Some? ==> modelValue == ParsedInput(opts, RemoveSpaces(inputText.value)) && !tempClear
      ensures focused == old(focused)
    {
      if inputText.None? {
        return;
      }
      var text := RemoveSpaces(inputText.value);
      if text == "" {
        UpdateAfterClearing(None);
      } else {
        var coerced := opts.coerceNotEmpty(text);
        if coerced.None? {
          UpdateAfterClearing(None);
          return;
        }
        var clamped := if opts.clamp.Some? then opts.clamp.value(coerced.value) else coerced.value;
        if opts.isValid.Some? && !opts.isValid.value(clamped) {
          UpdateAfterClearing(None);
          return;
        }
        UpdateAfterClearing(Some(clamped));
      }
    }

    /**
      `displayValue`: nothing while a write is under way; for a missing value, the null
      formatter's text only when not focused; for a value, the editing format while focused,
      else the reading format, else `String()`.
     */
    function DisplayValue(): (text: string)
      reads this
      ensures tempClear ==> text == ""
      ensures !tempClear && modelValue.None? ==>
        text == if !focused && opts.formatNullForReading.Some? then opts.formatNullForReading.value else ""
      ensures !tempClear && modelValue.Some? && focused && opts.formatForEditing.Some? ==>
        text == opts.formatForEditing.value(modelValue.value)
      ensures !tempClear && modelValue.Some? && !(focused && opts.formatForEditing.Some?) ==>
        text == if opts.formatForReading.Some? then opts.formatForReading.value(modelValue.value) else opts.toText(modelValue.value)
    {
      if tempClear then ""
      else if modelValue.None? then
        if !focused && opts.formatNullForReading.Some? then opts.formatNullForReading.value else ""
      else if focused && opts.formatForEditing.Some? then opts.formatForEditing.value(modelValue.value)
      else if opts.formatForReading.Some? then opts.formatForReading.value(modelValue.value)
      else opts.toText(modelValue.value)
    }

    /**
      While the input is focused, entering the text it displays again leaves the value alone,
      provided the editing format parses back to the value and the value is already clamped and
      valid.
     */
    lemma ReenteringKeepsValue()
      requires focused && !tempClear && modelValue.Some? && opts.formatForEditing.Some?
      requires var text := RemoveSpaces(opts.formatForEditing.value(modelValue.value));
        text != "" && opts.coerceNotEmpty(text) == Some(modelValue.value)
      requires Clamped(opts, modelValue.value) == modelValue.value && Accepts(opts, modelValue.value)
      ensures ParsedInput(opts, RemoveSpaces(DisplayValue())) == modelValue
    {
    }

    /**
      While a missing value is being edited the input shows nothing, and entering that blank
      text through `Change` leaves the value missing: the counterpart of `ReenteringKeepsValue`
      for a missing value.
     */
    lemma BlankClears()
      requires focused && !tempClear && modelValue.None?
      ensures DisplayValue() == ""
      ensures ParsedInput(opts, RemoveSpaces(DisplayValue())) == modelValue
    {
    }
  }
}

# Form-field data layer, modelled in Dafny

This project models the data layer of a Vue form-field library. Each field's value and each set of
error messages is addressed by a path. Nested fields read and write their share of the parent's
value and errors through lenses. The logic under the rendering is modelled here:

- the message-bag algebra (`copyMessageBag`, `sliceMessageBag`, `spliceMessageBag`);
- the coercion and re-indexing helpers:
  - array keys, booleans, keys lists and boolean maps;
  - form-value coercion and copying;
  - `valueAtPath`, `reindexErrors`, `startCase` and `getUniqueKey`;
- the repeater row engine: padding to `min`, `canAddRow`, append, insert, delete and move, each with
  its error re-indexing, the row lenses, and the drag-move state;
- the message tree: bag to tree and back, the node creation helpers and the deep copies;
- the field binding rules:
  - path extension, lens precedence for values and errors, the edit-mode and configuration chains;
  - the compound-value lenses;
  - choice normalisation, multi-choice `toggle` and `isOn`;
  - the parse, clamp and validate pipeline of a text field;
- time parsing, splitting and formatting;
- the media icon table and the configuration lookup with defaults.

There is one module per source file: `MessageBags`, `Util`, `Repeater`, `Trees`, `Field`, `Time`,
`Media` and `Config`. Three helper modules support them:

- `Wrappers`: `Option` and `Result`;
- `Strings`: split and join, decimal and radix text, JavaScript whitespace and `parseInt`;
- `Values`: the JavaScript values a form can hold.

A JavaScript value is the datatype `Value`:

- `undefined`, `null`, booleans, integers and strings;
- arrays (`List`) and plain objects (`Compound`, a map from property names);
- `Opaque` for anything else, carried as its string form.

A message bag is a `map<string, seq<string>>`.

Functions written as loops in the source are Dafny methods with loop invariants. Each method is
proved against a specification function, and the laws of that function are lemmas. Examples are
slicing and splicing a bag, re-indexing errors, coercing to a keys list, padding with zeros and
turning a tree back into a bag. State that the source updates in place is a class with fields:

- the repeater's value, errors and moving index (`Repeater.RepeaterField`);
- the unique-key counter (`Util.KeyCounter`);
- the text field's `focused` and `tempClear` flags (`Field.ParsesTextField`).

Where the code and its informal description disagree, the model follows the code:

- `timeSplit` computes `-ceil(-a / b)` for a negative `a`. That equals the floored quotient, not a
  quotient truncated towards zero. `Time.CeilIsNegatedFloor` proves this, and `Time.TimeSplit`
  wraps negative inputs into the day.
- A choice's label is the field `caption` of `Field.Choice`, because `label` is a Dafny keyword.

## Model

| member | source | states |
|---|---|---|
| MessageBags.CopyMessageBag | src/lib/MessageBag.ts:3-9 | the copy has exactly the bag's keys and the same message lists |
| MessageBags.Slice | src/lib/MessageBag.ts:11-25 | the empty prefix gives the whole bag; otherwise key `k` is present exactly when `prefix.k` is in the bag, or `k` is `""` and the bag has `prefix` itself |
| MessageBags.SliceMessageBag | src/lib/MessageBag.ts:11-25 | the loop yields the keys of `Slice` and, for each, the entry of one of its sources; it equals `Slice` when no `prefix.` key makes two sources collide |
| MessageBags.Outside | src/lib/MessageBag.ts:33-39 | the kept entries are exactly those not at `prefix` and not under `prefix.`, unchanged |
| MessageBags.CopyOutside | src/lib/MessageBag.ts:33-39 | the copying loop yields exactly `Outside(bag, prefix)` |
| MessageBags.Reprefix | src/lib/MessageBag.ts:40-42 | every sub-bag key `k` moves to `prefix.k`, and `""` moves to `prefix`, with its messages |
| MessageBags.AddPrefixed | src/lib/MessageBag.ts:40-42 | the loop over the sub-bag adds exactly the re-prefixed sub-bag to what was kept |
| MessageBags.Splice | src/lib/MessageBag.ts:27-43 | the empty prefix gives the sub-bag; otherwise entries outside the prefix are kept and the old entries under it are replaced by the re-prefixed sub-bag |
| MessageBags.SpliceMessageBag | src/lib/MessageBag.ts:27-43 | the method computes `Splice` |
| MessageBags.SubKeyPrefixed | src/lib/MessageBag.ts:18-21 | stripping the prefix from a prefixed key gives the key back |
| MessageBags.PrefixedSubKey | src/lib/MessageBag.ts:18-21 | re-prefixing a path under the prefix gives the path back |
| MessageBags.SliceSplice | src/lib/MessageBag.ts:11-43 | slicing a splice at the same prefix gives the spliced sub-bag back |
| MessageBags.SpliceSlice | src/lib/MessageBag.ts:11-43 | splicing a bag's own slice back leaves the bag unchanged when no key is `prefix.` |
| MessageBags.SpliceSliceLosesDot | src/lib/MessageBag.ts:18-21 | a bag with a `prefix.` key is not restored: the splice drops that key |
| MessageBags.SliceSpliceOther | src/lib/MessageBag.ts:11-43 | splicing under one prefix leaves the slice at a disjoint prefix unchanged |
| Util.KeyCounter.GetUniqueKey | src/lib/util.ts:18-21 | returns `k` plus the counter in base 36 and increments the counter; the key was never issued before |
| Util.UniqueKeyInjective | src/lib/util.ts:18-21 | distinct counter values give distinct keys |
| Util.CoerceToScalarFormValue | src/lib/util.ts:23-38 | the result is a scalar; a scalar is returned unchanged and anything else becomes a string |
| Util.CoerceToScalarIdempotent | src/lib/util.ts:23-38 | coercing twice equals coercing once |
| Util.CoerceToFormValue | src/lib/util.ts:99-120 | the result is a form value; a form value is unchanged; arrays keep their length and objects their keys |
| Util.CoerceToFormValueIdempotent | src/lib/util.ts:99-120 | coercing twice equals coercing once |
| Util.CoerceToRepeaterFormValue | src/lib/util.ts:77-83 | a non-array gives `[]`; an array gives its elements coerced one by one |
| Util.CoerceToCompoundFormValue | src/lib/util.ts:85-97 | a non-object gives `{}`; an object keeps its keys with each value coerced |
| Util.CopyFormValue | src/lib/util.ts:134-144 | the copy is equal to the original |
| Util.CopyRepeaterFormValue | src/lib/util.ts:130-132 | the copied array is equal to the original |
| Util.CopyCompoundFormValue | src/lib/util.ts:122-128 | the copied object is equal to the original |
| Util.CoerceToArrayKey | src/lib/util.ts:178-187 | a non-negative number is its own index; a string is an index exactly when it is the canonical decimal spelling of one, integers being read exactly; anything else is undefined |
| Util.IsArrayKey | src/lib/util.ts:167-176 | holds exactly when `coerceToArrayKey` gives an index |
| Util.ArrayKeyOfIndex | src/lib/util.ts:178-187 | every index, as a number or as its decimal string, is read back as itself, integers being read exactly |
| Util.CoerceToBoolean | src/lib/util.ts:189-221 | booleans are themselves; the true and false words, in any case, give true and false; 1 and 0 give true and false; everything else is undefined |
| Util.CoerceToBooleanCaseInsensitive | src/lib/util.ts:194 | strings equal up to letter case coerce alike |
| Util.CoerceToBooleanOfString | src/lib/util.ts:189-221 | the string form of a boolean reads back as that boolean |
| Util.ValueAtPath | src/lib/util.ts:146-165 | the loop walks the path exactly as the recursive `ValueAt`; the empty path gives the value itself |
| Util.ValueAtNullish | src/lib/util.ts:152-154 | following a non-empty path from null or undefined gives undefined |
| Util.ValueAtConcat | src/lib/util.ts:151-163 | following `p + q` is following `p` and then `q` |
| Util.BooleansMap.Set | src/lib/util.ts:45-58 | `Map.set`: the entry is updated, and a new key is appended to the insertion order |
| Util.CoerceToBooleansNativeMap | src/lib/util.ts:40-64 | a string or number is one key set to true; an array sets its string and number elements in first-occurrence order; an object maps each key to its truthiness; anything else is empty |
| Util.FirstOccurrencesOrdered | src/lib/util.ts:51-55 | the keys of the array case are the distinct elements in the order of their first occurrence |
| Util.OnKeys | src/lib/util.ts:69-73 | the keys set to true, without duplicates, in map order; when every key is on it is the whole key order |
| Util.CoerceToKeysList | src/lib/util.ts:66-75 | no duplicates; for an array the string and number elements in first-occurrence order; for an object exactly the keys with truthy values |
| Util.ReindexPathSegments | src/lib/util.ts:228-238 | a path whose first segment is no index is kept; one whose index maps to nothing is dropped; otherwise only the first segment becomes the new index |
| Util.ReindexPathIdentity | src/lib/util.ts:228-238 | with the identity index map every path is kept as it is |
| Util.ReindexPathInjective | src/lib/util.ts:228-238 | with an injective index map, distinct kept paths stay distinct |
| Util.ReindexErrors | src/lib/util.ts:225-241 | every kept path lands at its re-indexed path; every result entry comes from one source path with its messages; when the map is injective each entry keeps its own messages, and the identity map gives the bag back |
| Util.FileEntries | src/lib/util.ts:227-239 | the loop over the bag files every entry as the placement rule says |
| Util.StartCaseText | src/lib/util.ts:243-248 | the text is trimmed and underscores become spaces. Each character is the input's, up to case. A word's first letter is upper case and its other letters lower case. Characters outside words are kept as they are |
| Util.CapitalizedText | src/lib/util.ts:247 | no underscore is left, word characters stay where they were, and only the first letter of each word is upper case |
| Repeater.PaddedRows | src/lib/repeater.ts:37-43 | the rows are kept as a prefix and `{}` rows are appended up to `min` |
| Repeater.AddEnoughRows | src/lib/repeater.ts:37-43 | the in-place loop produces `PaddedRows` |
| Repeater.ModelRows | src/lib/repeater.ts:29-33 | every row is a form value, there are at least `min` rows, and a coerced array's rows come first |
| Repeater.CoerceFn | src/lib/repeater.ts:29-33 | coercing then padding produces `ModelRows` |
| Repeater.InsertAt | src/lib/repeater.ts:58 | `splice(index, 0, x)`: one more element, `x` at the index (or at the end), the rest shifted up |
| Repeater.RemoveAt | src/lib/repeater.ts:77 | `splice(index, 1)`: the element at the index is gone and later ones shift down; an index past the end changes nothing |
| Repeater.Assigned | src/lib/repeater.ts:132 | writing at an index sets that row and leaves the others; a write past the end fills the gap with undefined |
| Repeater.AssignedLens | src/lib/repeater.ts:123-135 | after the row lens `set`, `get` at that index returns the new row and every other index reads as before |
| Repeater.MovedRows | src/lib/repeater.ts:102-105 | a move removes one row and inserts it again, so the count is unchanged |
| Repeater.MoveInCopy | src/lib/repeater.ts:102-105 | the method over the copied array produces `MovedRows` |
| Repeater.InsertShift | src/lib/repeater.ts:63-70 | the insert map keeps every index, never sends one to the new row, and is injective |
| Repeater.DeleteShift | src/lib/repeater.ts:84-94 | the delete map drops exactly the deleted index and is injective on the rest |
| Repeater.MoveShift | src/lib/repeater.ts:110-120 | the move map keeps every index, sends `from` to `to`, and is injective |
| Repeater.MoveShiftInverse | src/lib/repeater.ts:110-120 | the map of the move back undoes the map of the move, so no error entry is lost |
| Repeater.InsertKeepsRows | src/lib/repeater.ts:54-71 | rows before the index stay, later rows move up one, and the new row sits at the index |
| Repeater.DeleteKeepsRows | src/lib/repeater.ts:73-95 | rows before the index stay and later rows move down one |
| Repeater.DeletedFormValues | src/lib/repeater.ts:73-81 | after a delete, the padded rows are all form values and at least `min` |
| Repeater.MoveKeepsRows | src/lib/repeater.ts:97-107 | each row ends up where the move map sends its index |
| Repeater.MovePermutes | src/lib/repeater.ts:97-107 | a move is a permutation of the rows |
| Repeater.MoveRoundTrip | src/lib/repeater.ts:97-107 | moving from `f` to `t` and back restores the rows |
| Repeater.RowErrorsFollow | src/lib/repeater.ts:63-120 | after re-indexing with a shift map, the errors of row `shift(i)` are the old errors of row `i` |
| Repeater.NewRowHasNoErrors | src/lib/repeater.ts:63-70 | after an insert the new row has no errors |
| Repeater.RowErrorsLens | src/lib/repeater.ts:139-147 | after the errors lens `set` at an index, `get` there returns the new sub-bag and other rows are unchanged |
| Repeater.RepeaterField.constructor | src/lib/repeater.ts:23-35 | the field starts from the given value, errors and limits, with no move in progress |
| Repeater.RepeaterField.AppendRow | src/lib/repeater.ts:45-52 | one `{}` row is appended, errors are untouched, and the row count stays within `max` when `canAddRow` held |
| Repeater.RepeaterField.InsertRowAt | src/lib/repeater.ts:54-71 | `{}` is inserted at the index and the errors are re-indexed with the insert map |
| Repeater.RepeaterField.DeleteRowAt | src/lib/repeater.ts:73-95 | the row is removed, the rows are padded to `min`, and the errors are re-indexed with the delete map |
| Repeater.RepeaterField.Move | src/lib/repeater.ts:97-121 | a move onto itself changes nothing; otherwise the rows and the errors move together |
| Repeater.RepeaterField.SetRow | src/lib/repeater.ts:128-134 | the row lens `set` stores the coerced compound value at the index |
| Repeater.RepeaterField.SetRowErrors | src/lib/repeater.ts:144-146 | the errors lens `set` splices the sub-bag in at the row's index |
| Repeater.RepeaterField.StartMove | src/lib/repeater.ts:155-158 | records the moving index and leaves rows and errors |
| Repeater.RepeaterField.CancelMove | src/lib/repeater.ts:170-173 | clears the moving index and leaves rows and errors |
| Repeater.RepeaterField.CompleteMoveTo | src/lib/repeater.ts:164-169 | with no move in progress nothing changes; otherwise the row moves and the moving index is cleared |
| Trees.GetOrCreateChildNode | src/lib/tree.ts:12-19 | an existing child is returned as it is; a missing one is created empty; no other key changes |
| Trees.GetOrCreateNodeAtPath | src/lib/tree.ts:21-32 | an empty path fails with "Empty path"; otherwise the returned node is the one at the path in the new tree |
| Trees.GetOrCreateKeepsMessages | src/lib/tree.ts:21-32 | creating nodes changes no message list anywhere in the tree |
| Trees.GetOrCreateFinds | src/lib/tree.ts:21-32 | when the node exists, the tree is unchanged and that node is returned |
| Trees.AddMessageToTree | src/lib/tree.ts:37-43 | the message is appended to the list at the dot-split path, created if absent; every other node keeps its messages |
| Trees.MessageBagToTree | src/lib/tree.ts:45-53 | every bag entry's messages sit, in order, at the node of its dot-split path |
| Trees.AddMessagesFromNode | src/lib/tree.ts:55-63 | every node that holds messages is written at its dot-joined path, and every written key reads back from its node |
| Trees.MessageTreeToBag | src/lib/tree.ts:65-71 | there is one key per node holding messages, its dot-joined path from the root, with a copy of those messages |
| Trees.BagTreeRoundTrip | src/lib/tree.ts:45-71 | when every message list of a bag is non-empty, the bag read back from the bag's tree, as `MessageTreeToBag` promises it, is the bag itself |
| Trees.NodePathAsWritten | src/lib/tree.ts:12-32 | as written: a missing segment named like an inherited `Object.prototype` member finds that member. As the last segment the member is returned: the prototype itself for `__proto__`, an inherited function otherwise. Before more segments the walk throws. Every node it does reach is the one `GetOrCreateNodeAtPath` reaches |
| Trees.AddMessageAsWritten | src/lib/tree.ts:37-43 | as written: a node reached is stored in the tree. A push onto an inherited function leaves the tree unchanged. Reaching the prototype leaves the tree unchanged but sets `Object.prototype.value` to the list holding the message. A throw along the path is reported |
| Trees.AddMessageAsWrittenOwnNames | src/lib/tree.ts:12-43 | on a path with no inherited name, the as-written push appends the message at that path and changes nothing else |
| Trees.PrototypePollutedAsWritten | src/lib/tree.ts:12-43 | as written, the bag `{"__proto__": ["m"]}` stores nothing in the tree and sets `Object.prototype.value` to `["m"]`. The own-property reading creates a `__proto__` node |
| Trees.InheritedNameLostAsWritten | src/lib/tree.ts:12-43 | as written, the bag `{"constructor": ["m"]}` gives an empty tree, and `constructor.x` throws. The own-property reading creates the node |
| Trees.EmptyListLost | src/lib/tree.ts:37-43 | a path whose message list is empty leaves no value in the tree, so it is lost on the way back |
| Trees.CopyMessageTree | src/lib/tree.ts:73-79 | the copy is equal to the tree |
| Trees.CopyMessageNode | src/lib/tree.ts:81-89 | the copy is equal to the node |
| Field.NameOrIndex | src/lib/field.ts:125-133 | a name wins over an index; the key is missing only when both are |
| Field.ChainPathSegments | src/lib/field.ts:62-80 | the path of nested fields holds exactly the names or indexes set along the chain |
| Field.PathStringExtends | src/lib/field.ts:82-84 | the path string of an extended path is the parent's string, a dot and the segment |
| Field.PathStringSplits | src/lib/field.ts:82-84 | splitting the path string at dots gives back the string forms of the segments |
| Field.BindingTarget | src/lib/field.ts:145-156 | a fixed lens wins; then a named lens with a non-empty name; then an indexed lens with an index; else the field's own binding |
| Field.NoLensOwnBinding | src/lib/field.ts:145-168 | the field binds to its own prop and emits exactly when no lens applies |
| Field.ValueReadBack | src/lib/field.ts:145-168 | reading after `setNewValue` through the same target gives the new value; other targets are unchanged |
| Field.ErrorsReadBack | src/lib/field.ts:188-212 | reading errors after setting them through a target gives the new errors; disjoint targets are unchanged |
| Field.ErrorsApart | src/lib/field.ts:188-212 | setting errors through one target leaves a disjoint target's errors unchanged |
| Field.MyErrors | src/lib/field.ts:215-217 | the messages under `""`, or none |
| Field.NamedFieldOwnMessages | src/lib/field.ts:215-221 | a named child's own messages are the parent's messages at the name, and `hasError` holds exactly when there are some |
| Field.ChainEditModeInnermost | src/lib/field.ts:223-226 | the innermost mode that is set wins, and `edit` is the default when none is set |
| Field.ExtendsConfig | src/lib/field.ts:270-272 | the merged configuration has the keys of both; an override wins over the parent |
| Field.ChainConfigInnermost | src/lib/field.ts:266-277 | along nested configurations the innermost override of a key wins, and the default applies when none overrides it |
| Field.NamedLensSet | src/lib/field.ts:285-291 | the named lens `set` replaces only key `name` in the copy |
| Field.NormalizeChoice | src/lib/field.ts:347-360 | a string gets a start-cased label; an object with a string or number key keeps its fields and gets a default label only without one; anything else is invalid |
| Field.ChoiceObjectRestores | src/lib/field.ts:352-354 | a normalised object choice holds exactly its original fields plus the label |
| Field.NormalizeChoices | src/lib/field.ts:347-360 | it fails exactly when some element is invalid; otherwise each element is normalised in order |
| Field.EntryChoices | src/lib/field.ts:361-368 | one choice per object entry, keyed by the property name and labelled with the value as a string, with distinct keys |
| Field.CommaChoices | src/lib/field.ts:369-372 | one choice per comma-separated piece, in order |
| Field.CommaChoicesKeys | src/lib/field.ts:369-372 | joining trimmed keys with commas and normalising gives back those keys |
| Field.ChoicesNormalized | src/lib/field.ts:338-374 | directory choices win; an invalid array element is an error; otherwise the array, object or comma rule applies, and anything else gives no choices |
| Field.NativeMap | src/lib/field.ts:413 | the native map of a value, as `coerceToBooleansNativeMap` builds it |
| Field.ChoicesBooleansMapAsWritten | src/lib/field.ts:412-420 | as written: exactly the choice keys, each on only when the native map holds that key as a string |
| Field.ChoicesBooleansMap | src/lib/field.ts:412-420 | exactly the choice keys, each on when the value holds that key as a string or as a number |
| Field.NumericKeyLostAsWritten | src/lib/field.ts:412-420 | the value `[1]` holds the key `"1"` as the number 1, but the lookup as written does not see it |
| Field.KeysList | src/lib/field.ts:463-465 | the model value as a keys list: no duplicates, exactly the keys that are on |
| Field.ObjectReadingsAgree | src/lib/field.ts:412-420 | on an object value, the as-written and the intended booleans maps read every key alike |
| Field.IsOn | src/lib/field.ts:463-477 | in array mode the key is in the keys list. In object mode the model value is the getter's coerced object, and the booleans map holds the key as on, read the intended way or as written |
| Field.ToggleInList | src/lib/field.ts:433-455 | a present key is removed and errors at its position are dropped, later ones shifting down; a missing key is appended; other keys are unaffected |
| Field.ToggleInMap | src/lib/field.ts:456-460 | on the coerced object value, only that key's boolean flips, read the intended way or as written. The other choice keys keep their state |
| Field.BooleansObject | src/lib/field.ts:414-419 | the booleans map as an object whose property holds exactly for the keys that are on |
| Field.Toggle | src/lib/field.ts:432-461 | in either mode the key's state flips and every other key keeps its state |
| Field.ParsedInput | src/lib/field.ts:541-556 | empty text, a failed coercion or a clamped value that fails validation give undefined; otherwise the clamped value, which is valid |
| Field.ParsesTextField.constructor | src/lib/field.ts:520-523 | starts unfocused and not clearing, with the given model value |
| Field.ParsesTextField.OnFocus | src/lib/field.ts:524-526 | sets `focused` and nothing else |
| Field.ParsesTextField.OnBlur | src/lib/field.ts:527-529 | clears `focused` and nothing else |
| Field.ParsesTextField.UpdateAfterClearing | src/lib/field.ts:531-535 | the model value is replaced and `tempClear` is false again |
| Field.ParsesTextField.Change | src/lib/field.ts:537-558 | without an input element nothing changes; otherwise the model becomes the parsed input of the whitespace-free text |
| Field.ParsesTextField.DisplayValue | src/lib/field.ts:560-579 | empty while clearing; for no value, the null text when unfocused and empty otherwise; the editing format while focused; else the reading format or the plain string |
| Field.ParsesTextField.ReenteringKeepsValue | src/lib/field.ts:537-579 | when the formats round-trip through parsing, entering the shown text again keeps the value |
| Field.ParsesTextField.BlankClears | src/lib/field.ts:537-579 | while a missing value is edited (focused, not clearing), the display is blank. Parsing that blank text, as `Change` does, leaves the value missing |
| Time.PadZeros | src/lib/time.ts:2-8 | only zeros are prepended: the text ends with the input and its length is the larger of the two |
| Time.ColonSeparators | src/lib/time.ts:15 | dots and commas become colons and every other character stays |
| Time.TimeParse | src/lib/time.ts:10-32 | null, undefined and the empty text give undefined; otherwise the normalised text is read |
| Time.ParseNormalized | src/lib/time.ts:16-31 | the reading loop computes `TimeOfText`: four digits as `HHMM`, or two or three colon-separated digit groups |
| Time.NoColonOnlyFourDigits | src/lib/time.ts:16 | colon-free text other than four digits is rejected |
| Time.StrayCharacterRejected | src/lib/time.ts:16-17 | text with a character that is neither a digit nor a colon is rejected |
| Time.FourGroupsRejected | src/lib/time.ts:17 | four colon-separated groups are rejected |
| Time.NoRangeCheck | src/lib/time.ts:17-31 | `"25:70"` is accepted as 25 hours and 70 minutes |
| Time.QuotientAndRemainder | src/lib/time.ts:40-44 | the quotient is floored and the remainder lies in `[0, b)` |
| Time.CeilIsNegatedFloor | src/lib/time.ts:41 | the negated ceiling of `-a / b` is the floored quotient of `a` by `b` |
| Time.TimeSplit | src/lib/time.ts:34-48 | seconds and minutes lie in `[0, 60)` and hours in `[0, 24)`, and together they make the input modulo one day |
| Time.TimeFormatText | src/lib/time.ts:50-59 | hours and minutes are padded to two digits and joined with colons; seconds follow only when given |
| Time.FormatParseRoundTrip | src/lib/time.ts:10-59 | a formatted time is already normalised, splits into its parts and parses back to `3600*h + 60*m + s` |
| Time.SplitFormatParse | src/lib/time.ts:10-59 | formatting the split of a time and parsing it back gives the time modulo one day |
| Media.GetIconCssClass | src/lib/media.ts:19-45 | a missing item gets the warning icon; svg and resizable items get none; others get their extension's icon |
| Media.ExtensionIcon | src/lib/media.ts:27-43 | each document family has its icon and every other extension gets the generic file icon |
| Media.IconClassesDistinct | src/lib/media.ts:19-45 | the warning icon means a missing item, and the generic icon means an unknown extension |
| Config.GetConfigValue | src/lib/config.ts:13-19 | a present key wins, even when null; otherwise the default |
| Config.DefaultsTyped | src/lib/config.ts:6-11 | five rows, no currency code, no currency shown, no crop-centre support |
| Config.GetConfigRef | src/lib/config.ts:26-29 | a set prop that is not null wins over the configuration |
| Config.ConfigRefSources | src/lib/config.ts:21-31 | the value comes from the prop, the configuration entry or the default, and a null entry is kept |

## Left out

- Vue reactivity is not part of this model: `provide`/`inject`, `computed`/`ref`, `watchEffect`, the
  mount hooks and emits. Lenses are explicit targets, and refs are fields or parameters.
- The asynchronous default-value queue (src/lib/field.ts:91-115) is left out. It depends on `nextTick`
  and module-global state.
- The choice provider's promise (src/lib/field.ts:317-332) is left out. It is a foreign call, so
  directory choices are an input.
- The repeater's Escape-key listener (src/lib/repeater.ts:157-163, 172) is left out. It is DOM I/O,
  and only the `movingIndex` transitions are kept.
- src/lib/usePopperTooltip.ts, src/lib/text.ts and src/lib/search.ts are not part of this model. They
  are DOM, timers and type declarations.
- `subErrors`, `hasSubErrors`, `possibleValues` and `useHasChoicesSingle` in src/lib/field.ts are not
  part of this model. They are display helpers outside the binding rules.
- The multi-choice field's `coerceFn` (src/lib/field.ts:422-428) has no member of its own. Its two
  branches are `Field.KeysList` and `Field.ChoicesBooleansMapAsWritten`. The `modelValue` getter
  (src/lib/field.ts:170-177) passes every value through it, so `Field.IsOn`, `Field.ToggleInMap` and
  `Field.Toggle` require an object in object mode. On an object both booleans maps agree
  (`Field.ObjectReadingsAgree`), so these members use `Field.ChoicesBooleansMap`.
- Numbers are integers. Fractions, NaN and infinities are not modelled, so neither are
  `Number.isInteger` failing or `parseInt` reading a fraction.
- `JSON.stringify` in `coerceToScalarFormValue` is a foreign serialiser. It is a function parameter
  (`stringify`).
- Object property order is not modelled. Loops over object keys pick keys in an arbitrary order, and
  `Field.Entries` gives the entries in some order.
- `Field.ParsesTextField.DisplayValue` takes the formatters as functions. `formatNullForReading` is
  its result text.
- `Field.Toggle` and `Field.IsOn` take the model value as an argument, not through the field's lens.
- The "Invalid choice specification" exception becomes `Failure(InvalidChoices)`.
- The message tree is modelled on values (nodes with a map of children). Sharing between nodes and the
  consumption of the path array by `shift` are not captured. `Trees.CopyMessageTree` therefore states
  equality, not the absence of shared lists.
- Util.CoerceToArrayKey reads integers exactly. In the source `parseInt` gives a double. A decimal
  string of an integer above 2^53 that no double holds (`"9007199254740993"`) reads back as another
  number, and `String` writes integers of 1e21 or more in exponent form (`"1e+21"`). For such keys
  the source gives undefined where the model gives an index.
- Util.IsArrayKey has the same gap as `Util.CoerceToArrayKey` for integers above 2^53 or of 1e21
  or more.
- Util.ArrayKeyOfIndex holds only as far as the model's exact integers go. In the source an index
  of 1e21 or more, or above 2^53, does not read back as itself.
- Time.ParseNormalized reads digit groups as exact integers. The source's `parseInt` rounds groups
  above 2^53.
- Repeater.RepeaterField.DeleteRowAt takes a `nat` index. A negative index, which
  `splice` counts from the end, is not modelled. In the source `deleteRowAt(-1)` removes the last
  row, yet the re-index map moves every row's errors down one.
- Repeater.RepeaterField.Move takes `nat` indices. Negative `from` and `to`, which `splice`
  counts from the end, are not modelled, and neither is the re-index map's treatment of them.
- Repeater.InsertAt: the model clamps an index past the end, as `splice` does. Negative indices
  (counted from the end by `splice`) are not modelled because indices are `nat`.
- Repeater.MovedRows: a move from past the end inserts undefined, and a `to` past the end appends, as
  `splice` does. Repeater.MoveRoundTrip requires both indices to be in range, and
  Repeater.MovePermutes requires `from` to be in range.
- MessageBags.SliceMessageBag: when a bag has both `prefix` and `prefix.` the loop's result depends
  on key order. The contract states only that the value comes from one of the two.
- Util.ReindexErrors: with a non-injective index map, colliding entries depend on key order. The
  contract then states only that each entry comes from some source.
- Trees.GetOrCreateChildNode reads a tree as the map of its own properties. The source's `tree[key]`
  also finds members inherited from `Object.prototype` (`constructor`, `toString`, `__proto__`, …). That
  reading is modelled separately as `Trees.NodePathAsWritten` (see Findings).
- Trees.BagTreeRoundTrip holds for the own-property tree. As written, a bag key naming an inherited
  member loses its entry (`Trees.InheritedNameLostAsWritten`).
- Field.NamedLensGet reads an object as the map of its own properties: an inherited name reads as
  absent, while `modelValue.value[name]` finds the inherited member.
- Trees.AddMessageAsWritten starts from a prototype that holds no `value`, and it stops at the
  pollution. What follows is not modelled: every later node without a value inherits the shared
  list, later pushes go into that one list, and `for...in` walks the inherited `value` as a child.
- MessageBags.Splice and the other writes to bags and trees treat `__proto__` as an ordinary key. In the
  source, assigning to it replaces the object's prototype.
- Util.Child: its contract says only that a scalar has no children. It is a helper for `ValueAt`.

## Findings

| source | as written | input that shows it | evidently intended | confidence | as-written member | corrected member |
|---|---|---|---|---|---|---|
| src/lib/field.ts:412-420 | `coerceToChoicesBooleansMap` looks each choice up as `partial.get(String(choice.key))`, but the native map keeps number keys as numbers | model value `[1]` with a choice whose key is `1`: `isOn` in array mode says on, the booleans map says off | a key held as a number counts as on for the choice with that string key | not executed | Field.NumericKeyLostAsWritten | Field.ChoicesBooleansMap |
| src/lib/tree.ts:12-19 | `getOrCreateChildNode` tests `if (tree[key])`, which is also true for names inherited from `Object.prototype` | the bag `{"constructor": ["m"]}`: the lookup finds `Object`, the message goes onto `Object.value`, and the tree read back is `{}`; the path `constructor.x` throws a `TypeError` | a missing child is created whatever its name, so every non-empty bag entry survives the trip | not executed | Trees.InheritedNameLostAsWritten | Trees.GetOrCreateChildNode |
| src/lib/tree.ts:12-19 | for the key `__proto__`, `if (tree[key])` finds `Object.prototype`, and tree.ts:39-42 then creates `value` on the prototype shared by every object | the bag `{"__proto__": ["m"], "email": ["e"]}` (own keys, as `JSON.parse` builds them): the new `email` node inherits the polluted list, so `e` is pushed onto that shared list next to `m`. `for...in` over the tree also meets the inherited `value`, so the bag read back is not `{"email": ["e"]}` | a node named `__proto__` is created like any other, and the prototype is never written | not executed | Trees.PrototypePollutedAsWritten | Trees.GetOrCreateChildNode |

/**
  The repeater field: a list of rows, each a compound value, with buttons to append, insert,
  delete and move rows. Every change to the rows re-files the field's error messages so that
  each message stays attached to the row it was reported for.
 */
module Repeater {
  import opened Wrappers
  import opened Strings
  import opened Values
  import opened MessageBags
  import opened Util

  /** The row every append, insert and minimum-length padding adds: `{}`. */
  const EmptyRow: Value := Compound(map[])

  function Min(a: nat, b: nat): nat {
    if a < b then a else b
  }

  // ---------------------------------------------------------------------------
  // Array edits, as `Array.prototype.splice` performs them for non-negative positions

  /** `s.splice(index, 0, x)`: `x` inserted before position `index`, or at the end when `index` is past it. */
  function InsertAt<T>(s: seq<T>, index: nat, x: T): (r: seq<T>)
    ensures |r| == |s| + 1
    ensures r[Min(index, |s|)] == x
    ensures forall i | 0 <= i < Min(index, |s|) :: r[i] == s[i]
    ensures forall i | Min(index, |s|) <= i < |s| :: r[i + 1] == s[i]
    ensures forall y | y in r :: y == x || y in s
  {
    s[..Min(index, |s|)] + [x] + s[Min(index, |s|)..]
  }

  /** `s.splice(index, 1)`: the element at `index` removed; nothing happens when there is none. */
  function RemoveAt<T>(s: seq<T>, index: nat): (r: seq<T>)
    ensures index < |s| ==> |r| == |s| - 1
    ensures index < |s| ==> forall i | 0 <= i < index :: r[i] == s[i]
    ensures index < |s| ==> forall i | index < i < |s| :: r[i - 1] == s[i]
    ensures index >= |s| ==> r == s
    ensures forall y | y in r :: y in s
  {
    if index < |s| then s[..index] + s[index + 1..] else s
  }

  /**
    `copy[index] = x`: the element at `index` replaced, or, past the end, the array grown to
    `index + 1` elements with holes (read as undefined) before `x`.
   */
  function Assigned(rows: seq<Value>, index: nat, x: Value): (r: seq<Value>)
    ensures |r| == if index < |rows| then |rows| else index + 1
    ensures r[index] == x
    ensures forall j | 0 <= j < |r| && j != index :: r[j] == if j < |rows| then rows[j] else Undefined
  {
    if index < |rows| then rows[index := x] else rows + seq(index - |rows|, _ => Undefined) + [x]
  }

  /** `rows[index]`: undefined past the end. */
  function RowAt(rows: seq<Value>, index: nat): Value {
    if index < |rows| then rows[index] else Undefined
  }

  /** Assigning a row changes what that row reads as and nothing else. */
  lemma AssignedLens(rows: seq<Value>, index: nat, x: Value)
    ensures RowAt(Assigned(rows, index, x), index) == x
    ensures forall j: nat | j != index :: RowAt(Assigned(rows, index, x), j) == RowAt(rows, j)
  {
    var r := Assigned(rows, index, x);
    forall j: nat | j != index ensures RowAt(r, j) == RowAt(rows, j) {
      if j < |r| {
        assert r[j] == if j < |rows| then rows[j] else Undefined;
      }
    }
  }

  // ---------------------------------------------------------------------------
  // The model value: the bound value coerced to rows and padded to the minimum

  /** The rows `addEnoughRows` leaves: `rows` followed by empty rows up to the minimum, if there is one. */
  function PaddedRows(rows: seq<Value>, min: Option<int>): (r: seq<Value>)
    ensures |r| == if min.Some? && |rows| < min.value then min.value else |rows|
    ensures r[..|rows|] == rows
    ensures forall i | |rows| <= i < |r| :: r[i] == EmptyRow
  {
    if min.Some? && |rows| < min.value then rows + seq(min.value - |rows|, _ => EmptyRow) else rows
  }

  /** `addEnoughRows`: pushes empty rows while there are fewer than the minimum. */
  method AddEnoughRows(rows: seq<Value>, min: Option<int>) returns (r: seq<Value>)
    ensures r == PaddedRows(rows, min)
  {
    r := rows;
    if min.Some? {
      while |r| < min.value
        invariant r == rows + seq(|r| - |rows|, _ => EmptyRow)
        invariant |r| <= if |rows| < min.value then min.value else |rows|
        decreases min.value - |r|
      {
        r := r + [EmptyRow];
      }
    }
  }

  /**
    What the field's `modelValue` reads: the bound value coerced to an array of form values and
    padded to the minimum. A value that is already such an array, long enough, reads as itself.
   */
  function ModelRows(v: Value, min: Option<int>): (r: seq<Value>)
    ensures forall i | 0 <= i < |r| :: IsFormValue(r[i])
    ensures min.None? || |r| >= min.value
    ensures v.List? ==> |r| >= |v.items|
    ensures v.List? && IsFormValue(v) && (min.None? || |v.items| >= min.value) ==> r == v.items
  {
    PaddedRows(CoerceToRepeaterFormValue(v), min)
  }

  /** `coerceFn`: the value coerced to rows, then `addEnoughRows`. */
  method CoerceFn(v: Value, min: Option<int>) returns (r: seq<Value>)
    ensures r == ModelRows(v, min)
  {
    r := CoerceToRepeaterFormValue(v);
    r := AddEnoughRows(r, min);
  }

  // ---------------------------------------------------------------------------
  // Where each row goes, as the index maps handed to `reindexErrors` say

  /** An index map that never sends two indices to the same place. */
  ghost predicate Injective(f: nat -> Option<nat>) {
    forall i: nat, j: nat :: f(i).Some? && f(i) == f(j) ==> i == j
  }

  /** The index map of `insertRowAt`: rows at or after `index` move forward by one. No old row lands on `index`. */
  function InsertShift(index: nat): (f: nat -> Option<nat>)
    ensures forall i: nat :: f(i).Some? && f(i) != Some(index)
    ensures Injective(f)
  {
    (i: nat) => if i >= index then Some(i + 1) else Some(i)
  }

  /** The index map of `deleteRowAt`: the deleted row's entries are dropped, later rows move back by one. */
  function DeleteShift(index: nat): (f: nat -> Option<nat>)
    ensures f(index) == None
    ensures forall i: nat | i != index :: f(i).Some?
    ensures Injective(f)
  {
    (i: nat) => if i == index then None else if i > index then Some(i - 1) else Some(i)
  }

  /**
    The index map of `move`: the moved row goes to `to`, the rows it passes shift by one
    towards the gap it left, and the others stay.
   */
  function MoveShift(from: nat, to: nat): (f: nat -> Option<nat>)
    ensures forall i: nat :: f(i).Some?
    ensures f(from) == Some(to)
    ensures Injective(f)
  {
    (i: nat) =>
      if i == from then Some(to)
      else if from > to && i >= to && i < from then Some(i + 1)
      else if to > from && i > from && i <= to then Some(i - 1)
      else Some(i)
  }

  /** Moving back undoes a move, entry by entry. */
  lemma MoveShiftInverse(from: nat, to: nat)
    ensures forall i: nat :: MoveShift(to, from)(MoveShift(from, to)(i).value) == Some(i)
  {
    forall i: nat ensures MoveShift(to, from)(MoveShift(from, to)(i).value) == Some(i) {
      var j := MoveShift(from, to)(i).value;
      if i == from {
        assert j == to;
      } else if from > to && i >= to && i < from {
        assert j == i + 1;
      } else if to > from && i > from && i <= to {
        assert j == i - 1;
      } else {
        assert j == i;
      }
    }
  }

  /** The rows after `move(from, to)`: the row at `from` taken out and put back at `to` (undefined when there is no row at `from`). */
  function MovedRows(rows: seq<Value>, from: nat, to: nat): (r: seq<Value>)
    ensures |r| == if from < |rows| then |rows| else |rows| + 1
  {
    if from < |rows| then InsertAt(RemoveAt(rows, from), to, rows[from])
    else InsertAt(rows, to, Undefined)
  }

  /** The two splices of `move` on the copy of the rows: take the row out, put it back at `to`. */
  method MoveInCopy(rows: seq<Value>, from: nat, to: nat) returns (r: seq<Value>)
    ensures r == MovedRows(rows, from, to)
  {
    var item := if from < |rows| then rows[from] else Undefined;
    r := RemoveAt(rows, from);
    r := InsertAt(r, to, item);
  }

  /** A move of form values leaves form values. */
  lemma MovedFormValues(rows: seq<Value>, from: nat, to: nat)
    requires forall i | 0 <= i < |rows| :: IsFormValue(rows[i])
    ensures forall i | 0 <= i < |MovedRows(rows, from, to)| :: IsFormValue(MovedRows(rows, from, to)[i])
  {
    var r := MovedRows(rows, from, to);
    forall i | 0 <= i < |r| ensures IsFormValue(r[i]) {
      assert r[i] in r;
      if from < |rows| {
        assert r[i] in RemoveAt(rows, from) || r[i] == rows[from];
      }
    }
  }

  /** Removing a row and padding again leaves only form values, at least the minimum many. */
  lemma DeletedFormValues(rows: seq<Value>, index: nat, min: Option<int>)
    requires forall i | 0 <= i < |rows| :: IsFormValue(rows[i])
    ensures var r := PaddedRows(RemoveAt(rows, index), min);
      && (forall i | 0 <= i < |r| :: IsFormValue(r[i]))
      && (min.None? || |r| >= min.value)
  {
    var rest := RemoveAt(rows, index);
    var r := PaddedRows(rest, min);
    forall i | 0 <= i < |r| ensures IsFormValue(r[i]) {
      if i < |rest| {
        assert r[i] == rest[i] && rest[i] in rows;
      }
    }
  }

  /** After an insertion every old row is where the insertion's index map files its errors. */
  lemma InsertKeepsRows(rows: seq<Value>, index: nat, x: Value)
    ensures forall i | 0 <= i < |rows| ::
      InsertShift(index)(i).value < |rows| + 1 && InsertAt(rows, index, x)[InsertShift(index)(i).value] == rows[i]
    ensures index <= |rows| ==> InsertAt(rows, index, x)[index] == x
  {
    var r := InsertAt(rows, index, x);
    forall i | 0 <= i < |rows| ensures InsertShift(index)(i).value < |rows| + 1 && r[InsertShift(index)(i).value] == rows[i] {
      if i >= index {
        assert Min(index, |rows|) <= i;
      }
    }
  }

  /** After a deletion every other row is where the deletion's index map files its errors. */
  lemma DeleteKeepsRows(rows: seq<Value>, index: nat)
    ensures forall i | 0 <= i < |rows| && i != index ::
      DeleteShift(index)(i).value < |RemoveAt(rows, index)| && RemoveAt(rows, index)[DeleteShift(index)(i).value] == rows[i]
  {
    var r := RemoveAt(rows, index);
    forall i | 0 <= i < |rows| && i != index
      ensures DeleteShift(index)(i).value < |r| && r[DeleteShift(index)(i).value] == rows[i]
    {
      if i > index {
        assert DeleteShift(index)(i) == Some(i - 1);
      } else {
        assert DeleteShift(index)(i) == Some(i);
      }
    }
  }

  /** After a move of one row to another every row is where the move's index map files its errors. */
  lemma MoveKeepsRows(rows: seq<Value>, from: nat, to: nat)
    requires from < |rows| && to < |rows|
    ensures |MovedRows(rows, from, to)| == |rows|
    ensures forall i | 0 <= i < |rows| ::
      MoveShift(from, to)(i).value < |rows| && MovedRows(rows, from, to)[MoveShift(from, to)(i).value] == rows[i]
  {
    var rest := RemoveAt(rows, from);
    var r := MovedRows(rows, from, to);
    assert Min(to, |rest|) == to;
    forall i | 0 <= i < |rows| ensures MoveShift(from, to)(i).value < |rows| && r[MoveShift(from, to)(i).value] == rows[i] {
      if i < from && i < to {
        assert r[i] == rest[i];
      } else if i < from {
        assert r[i + 1] == rest[i];
      } else if from < i && i <= to {
        assert r[i - 1] == rest[i - 1];
      } else if from < i {
        assert r[i] == rest[i - 1];
      }
    }
  }

  /** Inserting an element adds it to the multiset of elements. */
  lemma InsertAtMultiset<T>(s: seq<T>, index: nat, x: T)
    ensures multiset(InsertAt(s, index, x)) == multiset(s) + multiset{x}
  {
    var p := Min(index, |s|);
    assert s == s[..p] + s[p..];
    assert InsertAt(s, index, x) == s[..p] + ([x] + s[p..]);
  }

  /** Removing an existing element takes it out of the multiset of elements. */
  lemma RemoveAtMultiset<T>(s: seq<T>, index: nat)
    requires index < |s|
    ensures multiset(RemoveAt(s, index)) + multiset{s[index]} == multiset(s)
  {
    assert s == s[..index] + ([s[index]] + s[index + 1..]);
  }

  /** A move only reorders the rows. */
  lemma MovePermutes(rows: seq<Value>, from: nat, to: nat)
    requires from < |rows|
    ensures multiset(MovedRows(rows, from, to)) == multiset(rows)
  {
    InsertAtMultiset(RemoveAt(rows, from), to, rows[from]);
    RemoveAtMultiset(rows, from);
  }

  /** Moving a row back to where it came from restores the rows. */
  lemma MoveRoundTrip(rows: seq<Value>, from: nat, to: nat)
    requires from < |rows| && to < |rows|
    ensures MovedRows(MovedRows(rows, from, to), to, from) == rows
  {
    var rest := RemoveAt(rows, from);
    var moved := InsertAt(rest, to, rows[from]);
    RemoveInserted(rest, to, rows[from]);
    InsertRemoved(rows, from);
  }

  /** Taking out what was just inserted gives back the sequence. */
  lemma RemoveInserted<T>(s: seq<T>, index: nat, x: T)
    requires index <= |s|
    ensures InsertAt(s, index, x)[index] == x
    ensures RemoveAt(InsertAt(s, index, x), index) == s
  {
    var r := InsertAt(s, index, x);
    assert r[..index] == s[..index] && r[index + 1..] == s[index..];
  }

  /** Putting back what was just removed, at the same place, gives back the sequence. */
  lemma InsertRemoved<T>(s: seq<T>, index: nat)
    requires index < |s|
    ensures InsertAt(RemoveAt(s, index), index, s[index]) == s
  {
    var rest := RemoveAt(s, index);
    assert rest[..index] == s[..index] && rest[index..] == s[index + 1..];
    assert s == s[..index] + [s[index]] + s[index + 1..];
  }

  // ---------------------------------------------------------------------------
  // Errors follow their rows

  /**
    `after` is `before` re-filed by an index map that never sends two indices to one place:
    each entry kept is at its new path with its own messages, and nothing else is there.
   */
  ghost predicate Refiled(before: MessageBag, shift: nat -> Option<nat>, after: MessageBag) {
    && (forall path | path in before && ReindexPath(path, shift).Some? ::
          ReindexPath(path, shift).value in after && after[ReindexPath(path, shift).value] == before[path])
    && (forall k | k in after :: exists path | path in before :: ReindexPath(path, shift) == Some(k))
  }

  /** `reindexErrors` with an injective index map, as the row operations call it. */
  method Refile(errors: MessageBag, shift: nat -> Option<nat>) returns (r: MessageBag)
    requires Injective(shift)
    ensures Refiled(errors, shift, r)
  {
    InjectiveIndexMap(errors, shift);
    r := ReindexErrors(errors, shift);
  }

  /** What follows a row's index in the paths of its entries: nothing, or a dot and the rest. */
  predicate IsSuffix(t: string) {
    t == "" || t[0] == '.'
  }

  /** A path that starts with a dot-free segment followed by a suffix has that segment as its head. */
  lemma HeadOfSegment(s: string, t: string)
    requires '.' !in s && IsSuffix(t)
    ensures Head(s + t) == s
  {
    if t == "" {
      assert s + t == s;
    } else {
      SplitAfter(s, '.', t[1..]);
      assert s + t == s + ['.'] + t[1..];
    }
  }

  /** Where the entries under one row's index go when the index map keeps that row. */
  lemma PathFollows(shift: nat -> Option<nat>, i: nat, t: string)
    requires shift(i).Some? && IsSuffix(t)
    ensures ReindexPath(NatToString(i) + t, shift) == Some(NatToString(shift(i).value) + t)
  {
    NatToStringCanonical(i);
    HeadOfSegment(NatToString(i), t);
    ArrayKeyOfIndex(i);
    assert (NatToString(i) + t)[|NatToString(i)|..] == t;
  }

  /** An entry re-filed under a row's index came from under an index the map sends to that row. */
  lemma PathSource(shift: nat -> Option<nat>, q: string, j: nat, t: string)
    requires IsSuffix(t) && ReindexPath(q, shift) == Some(NatToString(j) + t)
    ensures CoerceToArrayKey(Str(Head(q))).Some?
    ensures shift(CoerceToArrayKey(Str(Head(q))).value) == Some(j)
    ensures q == NatToString(CoerceToArrayKey(Str(Head(q))).value) + t
  {
    var sj := NatToString(j);
    NatToStringCanonical(j);
    HeadOfSegment(sj, t);
    ArrayKeyOfIndex(j);
    match CoerceToArrayKey(Str(Head(q))) {
      case None =>
        assert false;
      case Some(i) =>
        ReindexedParts(q, shift);
        DropPrefix(sj, t);
        PrefixAndRest(q, Head(q));
    }
  }

  /** Two bags that agree entry by entry under two prefixes have the same sub-bags there. */
  lemma SliceShifted(a: MessageBag, s: string, b: MessageBag, s': string)
    requires s != "" && s' != ""
    requires forall k :: Prefixed(s, k) in a <==> Prefixed(s', k) in b
    requires forall k | Prefixed(s, k) in a :: a[Prefixed(s, k)] == b[Prefixed(s', k)]
    requires s + "." in a <==> s' + "." in b
    requires s + "." in a ==> a[s + "."] == b[s' + "."]
    ensures Slice(a, s) == Slice(b, s')
  {
    assert Slice(a, s).Keys == Slice(b, s').Keys;
  }

  /** The path of sub-key `k` under `s`, as a suffix appended to `s`. */
  lemma PrefixedSuffix(s: string, k: string)
    ensures Prefixed(s, k) == s + (if k == "" then "" else "." + k)
  {
  }

  /**
    The entry at one suffix under row `i` before re-filing is the entry at the same suffix
    under the row the map sends `i` to after it.
   */
  lemma SuffixFollows(before: MessageBag, after: MessageBag, shift: nat -> Option<nat>, i: nat, t: string)
    requires Injective(shift) && Refiled(before, shift, after)
    requires shift(i).Some? && IsSuffix(t)
    ensures NatToString(shift(i).value) + t in after <==> NatToString(i) + t in before
    ensures NatToString(i) + t in before ==> after[NatToString(shift(i).value) + t] == before[NatToString(i) + t]
  {
    var sj := NatToString(shift(i).value);
    PathFollows(shift, i, t);
    if sj + t in after {
      var q :| q in before && ReindexPath(q, shift) == Some(sj + t);
      PathSource(shift, q, shift(i).value, t);
    }
  }

  /**
    Errors stay attached to their rows: once the bag is re-filed by an injective index map,
    the errors of the row the map sends row `i` to are the errors row `i` had.
   */
  lemma RowErrorsFollow(before: MessageBag, after: MessageBag, shift: nat -> Option<nat>, i: nat)
    requires Injective(shift) && Refiled(before, shift, after)
    requires shift(i).Some?
    ensures Slice(after, NatToString(shift(i).value)) == Slice(before, NatToString(i))
  {
    var si, sj := NatToString(i), NatToString(shift(i).value);
    NatToStringCanonical(i);
    NatToStringCanonical(shift(i).value);
    forall k
      ensures Prefixed(sj, k) in after <==> Prefixed(si, k) in before
      ensures Prefixed(si, k) in before ==> after[Prefixed(sj, k)] == before[Prefixed(si, k)]
    {
      PrefixedSuffix(sj, k);
      PrefixedSuffix(si, k);
      SuffixFollows(before, after, shift, i, if k == "" then "" else "." + k);
    }
    SuffixFollows(before, after, shift, i, ".");
    SliceShifted(after, sj, before, si);
  }

  /** Nothing is re-filed under a row that no old row is sent to. */
  lemma NoSource(before: MessageBag, after: MessageBag, shift: nat -> Option<nat>, j: nat, t: string)
    requires Refiled(before, shift, after)
    requires forall i: nat :: shift(i) != Some(j)
    requires IsSuffix(t)
    ensures NatToString(j) + t !in after
  {
    if NatToString(j) + t in after {
      var q :| q in before && ReindexPath(q, shift) == Some(NatToString(j) + t);
      PathSource(shift, q, j, t);
    }
  }

  /** A row that no old row is sent to starts without errors (the inserted row, for instance). */
  lemma NewRowHasNoErrors(before: MessageBag, after: MessageBag, shift: nat -> Option<nat>, j: nat)
    requires Refiled(before, shift, after)
    requires forall i: nat :: shift(i) != Some(j)
    ensures Slice(after, NatToString(j)) == map[]
  {
    var sj := NatToString(j);
    NatToStringCanonical(j);
    forall k ensures Prefixed(sj, k) !in after {
      PrefixedSuffix(sj, k);
      NoSource(before, after, shift, j, if k == "" then "" else "." + k);
    }
    NoSource(before, after, shift, j, ".");
  }

  /** Writing one row's sub-bag of errors changes what that row reads and no other row's. */
  lemma RowErrorsLens(bag: MessageBag, index: nat, sub: MessageBag)
    ensures Slice(Splice(bag, NatToString(index), sub), NatToString(index)) == sub
    ensures forall j: nat | j != index ::
      Slice(Splice(bag, NatToString(index), sub), NatToString(j)) == Slice(bag, NatToString(j))
  {
    SliceSplice(bag, NatToString(index), sub);
    NatToStringCanonical(index);
    forall j: nat | j != index
      ensures Slice(Splice(bag, NatToString(index), sub), NatToString(j)) == Slice(bag, NatToString(j))
    {
      NatToStringCanonical(j);
      if NatToString(j) == NatToString(index) {
        NatToStringInjective(j, index);
      }
      SliceSpliceOther(bag, NatToString(index), NatToString(j), sub);
    }
  }

  // ---------------------------------------------------------------------------
  // The field

  /**
    The state of `useRepeaterField`: the bound value as its owner holds it (what the field
    emits with `update:modelValue` comes back as this value), the bound errors, the minimum
    and maximum number of rows, and the row being moved, if any.
   */
  class RepeaterField {
    var value: Value
    var errors: MessageBag
    const min: Option<int>
    const max: Option<int>
    var movingIndex: Option<nat>

    constructor(value: Value, errors: MessageBag, min: Option<int>, max: Option<int>)
      ensures this.value == value && this.errors == errors
      ensures this.min == min && this.max == max
      ensures movingIndex == None
    {
      this.value := value;
      this.errors := errors;
      this.min := min;
      this.max := max;
      movingIndex := None;
    }

    /** `modelValue`. */
    function Rows(): seq<Value>
      reads this
    {
      ModelRows(value, min)
    }

    /** `canAddRow`: there is no maximum or fewer rows than the maximum. */
    function CanAddRow(): bool
      reads this
    {
      max.None? || |Rows()| < max.value
    }

    /** `isMoving`. */
    function IsMoving(): bool
      reads this
    {
      movingIndex.Some?
    }

    /** The value lens's `get`: the row at `index`. */
    function GetRow(index: nat): Value
      reads this
    {
      RowAt(Rows(), index)
    }

    /** The errors lens's `get`: the sub-bag of the row at `index`. */
    function RowErrors(index: nat): MessageBag
      reads this
    {
      Slice(errors, NatToString(index))
    }

    /** Rows written back through the bound value read back unchanged. */
    method Store(rows: seq<Value>)
      requires forall i | 0 <= i < |rows| :: IsFormValue(rows[i])
      requires min.None? || |rows| >= min.value
      modifies this
      ensures value == List(rows) && Rows() == rows
      ensures errors == old(errors) && movingIndex == old(movingIndex)
    {
      value := List(rows);
    }

    /** `errors.value = reindexErrors(errors.value, shift)`, with an index map that keeps rows apart. */
    method RefileRows(shift: nat -> Option<nat>)
      requires Injective(shift)
      modifies this
      ensures Refiled(old(errors), shift, errors)
      ensures forall i: nat | shift(i).Some? :: RowErrors(shift(i).value) == old(RowErrors(i))
      ensures value == old(value) && movingIndex == old(movingIndex)
    {
      errors := Refile(errors, shift);
      forall i: nat | shift(i).Some? ensures RowErrors(shift(i).value) == old(RowErrors(i)) {
        RowErrorsFollow(old(errors), errors, shift, i);
      }
    }

    /** `appendRow`: an empty row at the end; the errors stay. */
    method AppendRow()
      modifies this
      ensures Rows() == old(Rows()) + [EmptyRow]
      ensures value == List(Rows())
      ensures errors == old(errors) && movingIndex == old(movingIndex)
      ensures old(CanAddRow()) ==> max.None? || |Rows()| <= max.value
    {
      var rows := CoerceFn(value, min);
      var copy := CopyRepeaterFormValue(List(rows), rows);
      copy := copy + [EmptyRow];
      Store(copy);
    }

    /** `insertRowAt`: an empty row before `index`; the errors of later rows move forward with them. */
    method InsertRowAt(index: nat)
      modifies this
      ensures Rows() == InsertAt(old(Rows()), index, EmptyRow)
      ensures value == List(Rows())
      ensures Refiled(old(errors), InsertShift(index), errors)
      ensures forall i: nat :: RowErrors(InsertShift(index)(i).value) == old(RowErrors(i))
      ensures RowErrors(index) == map[]
      ensures movingIndex == old(movingIndex)
    {
      var rows := CoerceFn(value, min);
      var copy := CopyRepeaterFormValue(List(rows), rows);
      copy := InsertAt(copy, index, EmptyRow);
      Store(copy);
      RefileRows(InsertShift(index));
      NewRowHasNoErrors(old(errors), errors, InsertShift(index), index);
    }

    /**
      `deleteRowAt`: the row at `index` removed and empty rows added back up to the minimum; the
      deleted row's errors are dropped and those of later rows move back with them.
     */
    method DeleteRowAt(index: nat)
      modifies this
      ensures Rows() == PaddedRows(RemoveAt(old(Rows()), index), min)
      ensures value == List(Rows())
      ensures Refiled(old(errors), DeleteShift(index), errors)
      ensures forall i: nat | i != index :: RowErrors(DeleteShift(index)(i).value) == old(RowErrors(i))
      ensures movingIndex == old(movingIndex)
    {
      var rows := CoerceFn(value, min);
      var copy := CopyRepeaterFormValue(List(rows), rows);
      copy := RemoveAt(copy, index);
      copy := AddEnoughRows(copy, min);
      DeletedFormValues(rows, index, min);
      Store(copy);
      RefileRows(DeleteShift(index));
    }

    /** `move`: nothing when `from == to`; otherwise the row moved and the errors re-filed to follow it. */
    method Move(from: nat, to: nat)
      modifies this
      ensures from == to ==> value == old(value) && errors == old(errors)
      ensures from != to ==> Rows() == MovedRows(old(Rows()), from, to) && value == List(Rows())
      ensures from != to ==> Refiled(old(errors), MoveShift(from, to), errors)
      ensures from != to ==> forall i: nat :: RowErrors(MoveShift(from, to)(i).value) == old(RowErrors(i))
      ensures movingIndex == old(movingIndex)
    {
      if from == to {
        return;
      }
      var rows := CoerceFn(value, min);
      var copy := CopyRepeaterFormValue(List(rows), rows);
      copy := MoveInCopy(copy, from, to);
      MovedFormValues(rows, from, to);
      Store(copy);
      RefileRows(MoveShift(from, to));
    }

    /** The value lens's `set`: the row at `index` replaced by the value coerced to a compound value. */
    method SetRow(index: nat, newVal: Value)
      modifies this
      ensures Rows() == Assigned(old(Rows()), index, Compound(CoerceToCompoundFormValue(newVal)))
      ensures value == List(Rows())
      ensures GetRow(index) == Compound(CoerceToCompoundFormValue(newVal))
      ensures forall j: nat | j != index :: GetRow(j) == old(GetRow(j))
      ensures errors == old(errors) && movingIndex == old(movingIndex)
    {
      var rows := CoerceFn(value, min);
      var copy := CopyRepeaterFormValue(List(rows), rows);
      var row := Compound(CoerceToCompoundFormValue(newVal));
      assert IsFormValue(row);
      AssignedLens(copy, index, row);
      copy := Assigned(copy, index, row);
      Store(copy);
    }

    /** The errors lens's `set`: the sub-bag of the row at `index` replaced. */
    method SetRowErrors(index: nat, sub: MessageBag)
      modifies this
      ensures errors == Splice(old(errors), NatToString(index), sub)
      ensures RowErrors(index) == sub
      ensures forall j: nat | j != index :: RowErrors(j) == old(RowErrors(j))
      ensures value == old(value) && movingIndex == old(movingIndex)
    {
      RowErrorsLens(errors, index, sub);
      errors := SpliceMessageBag(errors, NatToString(index), sub);
    }

    /** `startMove`: remembers the row being moved. */
    method StartMove(index: nat)
      modifies this
      ensures movingIndex == Some(index)
      ensures value == old(value) && errors == old(errors)
    {
      movingIndex := Some(index);
    }

    /** `cancelMove`: forgets the row being moved. */
    method CancelMove()
      modifies this
      ensures movingIndex == None
      ensures value == old(value) && errors == old(errors)
    {
      movingIndex := None;
    }

    /** `completeMoveTo`: when a row is being moved, moves it to `to` and ends the move. */
    method CompleteMoveTo(to: nat)
      modifies this
      ensures old(movingIndex).None? ==> value == old(value) && errors == old(errors) && movingIndex == None
      ensures old(movingIndex).Some? && old(movingIndex).value != to ==>
        && Rows() == MovedRows(old(Rows()), old(movingIndex).value, to)
        && Refiled(old(errors), MoveShift(old(movingIndex).value, to), errors)
      ensures old(movingIndex).Some? && old(movingIndex).value == to ==> value == old(value) && errors == old(errors)
      ensures movingIndex == None
    {
      if movingIndex.Some? {
        Move(movingIndex.value, to);
        CancelMove();
      }
    }
  }
}

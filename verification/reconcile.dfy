/** The merge step of the hierarchical IR diff: two per-epoch procedure indexes become
    one list in which every procedure name appears once, classified as unchanged,
    modified, added or removed (the body of `loadMetadata` in
    frontend/src/hooks/useHierarchicalIrDiff.ts). */
module Reconcile {
  import opened Outcome

  /** One entry of a procedure index as the backend serves it. */
  datatype ProcedureMetadata = ProcedureMetadata(name: string, beforeHash: string, afterHash: string)

  datatype ProcedureStatus = Unchanged | Added | Removed | Modified

  /** One row of the merged list; `before` and `after` hold IR text once it was fetched. */
  datatype ProcedureDiffItem = ProcedureDiffItem(
    metadata: ProcedureMetadata,
    status: ProcedureStatus,
    before: Option<string>,
    after: Option<string>)

  ghost predicate NoDuplicates<T>(s: seq<T>) {
    forall i, j :: 0 <= i < j < |s| ==> s[i] != s[j]
  }

  /** The names an index mentions, as a set. */
  ghost function NameSet(index: seq<ProcedureMetadata>): set<string> {
    set p | p in index :: p.name
  }

  /** `index.map(p => p.name)` */
  function Names(index: seq<ProcedureMetadata>): (names: seq<string>)
    ensures |names| == |index|
    ensures forall i :: 0 <= i < |index| ==> names[i] == index[i].name
    ensures forall n :: n in names <==> n in NameSet(index)
  {
    var names := seq(|index|, i requires 0 <= i < |index| => index[i].name);
    assert forall n :: n in NameSet(index) ==> n in names by {
      forall n | n in NameSet(index) ensures n in names {
        var p :| p in index && p.name == n;
        var i :| 0 <= i < |index| && index[i] == p;
        assert names[i] == n;
      }
    }
    names
  }

  /** `p` is the record named `n` that comes last in `index`. */
  ghost predicate IsLastRecord(index: seq<ProcedureMetadata>, n: string, p: ProcedureMetadata) {
    exists i :: 0 <= i < |index| && index[i] == p && p.name == n &&
      forall j :: i < j < |index| ==> index[j].name != n
  }

  /** The lookup table `Object.fromEntries(index.map(p => [p.name, p]))`; a later
      record overwrites an earlier one with the same name. */
  function ByName(index: seq<ProcedureMetadata>): (table: map<string, ProcedureMetadata>)
    ensures table.Keys == NameSet(index)
    ensures forall n :: n in table ==> IsLastRecord(index, n, table[n])
  {
    if |index| == 0 then map[]
    else
      var prefix := index[..|index| - 1];
      var last := index[|index| - 1];
      assert index == prefix + [last];
      var table := ByName(prefix)[last.name := last];
      assert forall n :: n in table ==> IsLastRecord(index, n, table[n]) by {
        forall n | n in table ensures IsLastRecord(index, n, table[n]) {
          if n == last.name {
            assert index[|index| - 1] == table[n];
          } else {
            assert IsLastRecord(prefix, n, table[n]);
            var i :| 0 <= i < |prefix| && prefix[i] == table[n] && table[n].name == n &&
              forall j :: i < j < |prefix| ==> prefix[j].name != n;
            assert index[i] == table[n];
          }
        }
      }
      table
  }

  /** The iteration order of `new Set(names)`: every name once, at the place it first occurs. */
  function Distinct<T(==,!new)>(names: seq<T>): (r: seq<T>)
    ensures forall x :: x in r <==> x in names
  {
    if |names| == 0 then []
    else
      var prefix := names[..|names| - 1];
      var x := names[|names| - 1];
      assert names == prefix + [x];
      var r := Distinct(prefix);
      if x in r then r else r + [x]
  }

  /** The position where `x` first occurs in `names`. */
  function FirstIndex<T(==)>(names: seq<T>, x: T): (k: nat)
    requires x in names
    ensures k < |names| && names[k] == x && x !in names[..k]
  {
    if names[0] == x then 0
    else
      var k := 1 + FirstIndex(names[1..], x);
      assert names[..k] == [names[0]] + names[1..][..k - 1];
      k
  }

  /** The names of `b` that do not occur in `a`, in `b`'s order. */
  function Excluding<T(==,!new)>(b: seq<T>, a: seq<T>): (r: seq<T>)
    ensures forall x :: x in r <==> x in b && x !in a
  {
    if |b| == 0 then []
    else
      var prefix := b[..|b| - 1];
      var x := b[|b| - 1];
      assert b == prefix + [x];
      var r := Excluding(prefix, a);
      if x in a then r else r + [x]
  }

  /** Status of a name from its record in each epoch (`None`: not in that epoch). */
  function Classify(startRecord: Option<ProcedureMetadata>, endRecord: Option<ProcedureMetadata>): (status: ProcedureStatus)
    requires startRecord.Some? || endRecord.Some?
    ensures status == Added <==> startRecord.None?
    ensures status == Removed <==> endRecord.None?
    ensures status == Unchanged <==>
      startRecord.Some? && endRecord.Some? && startRecord.value.beforeHash == endRecord.value.afterHash
  {
    match (startRecord, endRecord)
    case (Some(s), Some(e)) => if s.beforeHash == e.afterHash then Unchanged else Modified
    case (Some(_), None) => Removed
    case (None, _) => Added
  }

  function Lookup(table: map<string, ProcedureMetadata>, name: string): Option<ProcedureMetadata> {
    if name in table then Some(table[name]) else None
  }

  /** The item pushed for `name`: the end record's metadata when there is one, no text yet. */
  function ItemFor(name: string, startTable: map<string, ProcedureMetadata>, endTable: map<string, ProcedureMetadata>): ProcedureDiffItem
    requires name in startTable || name in endTable
  {
    ProcedureDiffItem(
      if name in endTable then endTable[name] else startTable[name],
      Classify(Lookup(startTable, name), Lookup(endTable, name)),
      None, None)
  }

  /** The names the merged list enumerates, in order. */
  function MergedNames(startIndex: seq<ProcedureMetadata>, endIndex: seq<ProcedureMetadata>): seq<string> {
    Distinct(Names(startIndex) + Names(endIndex))
  }

  /** The merged, classified list built by `loadMetadata`. */
  function Merge(startIndex: seq<ProcedureMetadata>, endIndex: seq<ProcedureMetadata>): (merged: seq<ProcedureDiffItem>)
    ensures |merged| == |MergedNames(startIndex, endIndex)|
    ensures forall i :: 0 <= i < |merged| ==>
      merged[i].metadata.name == MergedNames(startIndex, endIndex)[i] &&
      merged[i].before.None? && merged[i].after.None?
  {
    var names := MergedNames(startIndex, endIndex);
    var startTable := ByName(startIndex);
    var endTable := ByName(endIndex);
    seq(|names|, i requires 0 <= i < |names| =>
      assert names[i] in Names(startIndex) + Names(endIndex);
      ItemFor(names[i], startTable, endTable))
  }

  /** The procedure names of a list of items, in list order. */
  function ItemNames(items: seq<ProcedureDiffItem>): (names: seq<string>)
    ensures |names| == |items|
    ensures forall i :: 0 <= i < |items| ==> names[i] == items[i].metadata.name
  {
    seq(|items|, i requires 0 <= i < |items| => items[i].metadata.name)
  }

  /** `item` has the status its name's presence and hashes call for. */
  ghost predicate ClassifiedBy(startIndex: seq<ProcedureMetadata>, endIndex: seq<ProcedureMetadata>, item: ProcedureDiffItem) {
    var n := item.metadata.name;
    var inStart := n in NameSet(startIndex);
    var inEnd := n in NameSet(endIndex);
    && (item.status == Removed <==> inStart && !inEnd)
    && (item.status == Added <==> !inStart && inEnd)
    && (item.status == Unchanged <==>
          inStart && inEnd && ByName(startIndex)[n].beforeHash == ByName(endIndex)[n].afterHash)
    && (item.status == Modified <==>
          inStart && inEnd && ByName(startIndex)[n].beforeHash != ByName(endIndex)[n].afterHash)
  }

  /** `item` carries the end epoch's record when it has one, the start epoch's otherwise,
      and no IR text. */
  ghost predicate FreshFrom(startIndex: seq<ProcedureMetadata>, endIndex: seq<ProcedureMetadata>, item: ProcedureDiffItem) {
    var n := item.metadata.name;
    && (n in NameSet(endIndex) ==> item.metadata == ByName(endIndex)[n])
    && (n !in NameSet(endIndex) ==> n in NameSet(startIndex) && item.metadata == ByName(startIndex)[n])
    && item.before.None? && item.after.None?
  }

  /** Each merged item is named after the name at its position. */
  lemma MergeItemNames(startIndex: seq<ProcedureMetadata>, endIndex: seq<ProcedureMetadata>)
    ensures ItemNames(Merge(startIndex, endIndex)) == MergedNames(startIndex, endIndex)
  {
  }

  /** Every merged item is classified by presence and hash equality, and carries
      the end record (else the start record) without any text. */
  lemma MergeClassifies(startIndex: seq<ProcedureMetadata>, endIndex: seq<ProcedureMetadata>)
    ensures forall item :: item in Merge(startIndex, endIndex) ==>
      ClassifiedBy(startIndex, endIndex, item) && FreshFrom(startIndex, endIndex, item)
  {
  }

  /** One more name joins the set's order only if it is new. */
  lemma DistinctSnoc<T(!new)>(s: seq<T>, x: T)
    ensures Distinct(s + [x]) == if x in Distinct(s) then Distinct(s) else Distinct(s) + [x]
  {
    assert (s + [x])[..|s + [x]| - 1] == s;
  }

  lemma ExcludingSnoc<T(!new)>(b: seq<T>, x: T, a: seq<T>)
    ensures Excluding(b + [x], a) == if x in a then Excluding(b, a) else Excluding(b, a) + [x]
  {
    assert (b + [x])[..|b + [x]| - 1] == b;
  }

  /** Set insertion order over a concatenation: the names of `a` first, then the
      names only `b` has, each at its first occurrence. */
  lemma {:induction false} DistinctAppend<T(!new)>(a: seq<T>, b: seq<T>)
    ensures Distinct(a + b) == Distinct(a) + Distinct(Excluding(b, a))
    decreases |b|
  {
    if |b| == 0 {
      assert a + b == a;
    } else {
      var prefix := b[..|b| - 1];
      var x := b[|b| - 1];
      assert b == prefix + [x];
      DistinctAppend(a, prefix);
      DistinctAppendStep(a, prefix, x);
    }
  }

  lemma DistinctAppendStep<T(!new)>(a: seq<T>, prefix: seq<T>, x: T)
    requires Distinct(a + prefix) == Distinct(a) + Distinct(Excluding(prefix, a))
    ensures Distinct(a + (prefix + [x])) == Distinct(a) + Distinct(Excluding(prefix + [x], a))
  {
    var ap := a + prefix;
    assert a + (prefix + [x]) == ap + [x];
    DistinctSnoc(ap, x);
    ExcludingSnoc(prefix, x, a);
    if x !in a {
      DistinctSnocAfter(ap, Distinct(a), Excluding(prefix, a), x);
    }
  }

  lemma DistinctSnocAfter<T(!new)>(ap: seq<T>, d: seq<T>, rest: seq<T>, x: T)
    requires Distinct(ap) == d + Distinct(rest)
    requires x !in d
    ensures Distinct(ap + [x]) == d + Distinct(rest + [x])
  {
    DistinctSnoc(ap, x);
    DistinctSnoc(rest, x);
    if x !in Distinct(rest) {
      assert (d + Distinct(rest)) + [x] == d + (Distinct(rest) + [x]);
    }
  }

  /** Looking up a name that occurs in `s` never reaches past `s`. */
  lemma FirstIndexInPrefix<T>(s: seq<T>, t: seq<T>, y: T)
    requires y in s
    ensures FirstIndex(s + t, y) == FirstIndex(s, y)
  {
    var k := FirstIndex(s + t, y);
    var k' := FirstIndex(s, y);
    assert forall j :: 0 <= j < k ==> (s + t)[j] != y by {
      forall j | 0 <= j < k ensures (s + t)[j] != y {
        assert (s + t)[..k][j] == (s + t)[j];
      }
    }
    assert forall j :: 0 <= j < k' ==> s[j] != y by {
      forall j | 0 <= j < k' ensures s[j] != y {
        assert s[..k'][j] == s[j];
      }
    }
    assert (s + t)[k'] == y;
  }

  /** A name missing from `s` first occurs where it is appended. */
  lemma FirstIndexOfNew<T>(s: seq<T>, x: T)
    requires x !in s
    ensures FirstIndex(s + [x], x) == |s|
  {
    var k := FirstIndex(s + [x], x);
    assert forall m :: 0 <= m < |s| ==> (s + [x])[m] != x by {
      forall m | 0 <= m < |s| ensures (s + [x])[m] != x {
        assert (s + [x])[m] == s[m];
      }
    }
  }

  /** `Distinct` lists names in the order of their first occurrence. */
  lemma {:induction false} DistinctKeepsFirstOccurrenceOrder<T(!new)>(names: seq<T>)
    ensures var r := Distinct(names);
      forall i, j :: 0 <= i < j < |r| ==> FirstIndex(names, r[i]) < FirstIndex(names, r[j])
  {
    if |names| > 0 {
      var prefix := names[..|names| - 1];
      var x := names[|names| - 1];
      assert names == prefix + [x];
      DistinctKeepsFirstOccurrenceOrder(prefix);
      DistinctSnoc(prefix, x);
      DistinctOrderStep(prefix, x);
    }
  }

  lemma DistinctOrderStep<T(!new)>(prefix: seq<T>, x: T)
    requires var p := Distinct(prefix);
      forall i, j :: 0 <= i < j < |p| ==> FirstIndex(prefix, p[i]) < FirstIndex(prefix, p[j])
    requires Distinct(prefix + [x]) == if x in Distinct(prefix) then Distinct(prefix) else Distinct(prefix) + [x]
    ensures var r := Distinct(prefix + [x]);
      forall i, j :: 0 <= i < j < |r| ==> FirstIndex(prefix + [x], r[i]) < FirstIndex(prefix + [x], r[j])
  {
    var p := Distinct(prefix);
    var r := Distinct(prefix + [x]);
    forall i, j | 0 <= i < j < |r|
      ensures FirstIndex(prefix + [x], r[i]) < FirstIndex(prefix + [x], r[j])
    {
      assert r[i] == p[i];
      FirstIndexInPrefix(prefix, [x], r[i]);
      if j < |p| {
        assert r[j] == p[j];
        FirstIndexInPrefix(prefix, [x], r[j]);
      } else {
        assert r[j] == x && x !in prefix;
        FirstIndexOfNew(prefix, x);
      }
    }
  }

  /** No name appears twice in the set's order. */
  lemma {:induction false} DistinctHasNoDuplicates<T(!new)>(names: seq<T>)
    ensures NoDuplicates(Distinct(names))
  {
    if |names| > 0 {
      var prefix := names[..|names| - 1];
      var x := names[|names| - 1];
      assert names == prefix + [x];
      DistinctHasNoDuplicates(prefix);
      DistinctSnoc(prefix, x);
    }
  }

  /** The merged list names the start epoch's procedures first, in first-occurrence
      order, then the procedures only the end epoch has, in end order. */
  lemma MergeOrder(startIndex: seq<ProcedureMetadata>, endIndex: seq<ProcedureMetadata>)
    ensures ItemNames(Merge(startIndex, endIndex)) ==
      Distinct(Names(startIndex)) + Distinct(Excluding(Names(endIndex), Names(startIndex)))
  {
    MergeItemNames(startIndex, endIndex);
    DistinctAppend(Names(startIndex), Names(endIndex));
  }

  /** The merged list has exactly one item per name of either epoch. */
  lemma MergeEnumeratesUnion(startIndex: seq<ProcedureMetadata>, endIndex: seq<ProcedureMetadata>)
    ensures forall n :: n in ItemNames(Merge(startIndex, endIndex)) <==>
      n in NameSet(startIndex) + NameSet(endIndex)
    ensures NoDuplicates(ItemNames(Merge(startIndex, endIndex)))
  {
    MergeItemNames(startIndex, endIndex);
    DistinctHasNoDuplicates(Names(startIndex) + Names(endIndex));
  }

  /** The names of the items of `items` whose status is in `statuses`. */
  ghost function NamesWithStatus(items: seq<ProcedureDiffItem>, statuses: set<ProcedureStatus>): set<string> {
    set item | item in items && item.status in statuses :: item.metadata.name
  }

  /** The names of each status partition the two epochs' names: added is end minus
      start, removed is start minus end, unchanged and modified together are both. */
  lemma MergePartition(startIndex: seq<ProcedureMetadata>, endIndex: seq<ProcedureMetadata>)
    ensures NamesWithStatus(Merge(startIndex, endIndex), {Added}) == NameSet(endIndex) - NameSet(startIndex)
    ensures NamesWithStatus(Merge(startIndex, endIndex), {Removed}) == NameSet(startIndex) - NameSet(endIndex)
    ensures NamesWithStatus(Merge(startIndex, endIndex), {Unchanged, Modified}) == NameSet(startIndex) * NameSet(endIndex)
  {
    var merged := Merge(startIndex, endIndex);
    MergeClassifies(startIndex, endIndex);
    MergeEnumeratesUnion(startIndex, endIndex);
    var names := ItemNames(merged);
    forall n | n in NameSet(startIndex) + NameSet(endIndex)
      ensures exists item :: item in merged && item.metadata.name == n
    {
      var i :| 0 <= i < |names| && names[i] == n;
      assert merged[i] in merged;
    }
    PartitionByPresence(merged, NameSet(startIndex), NameSet(endIndex));
  }

  /** Status agrees with presence in the start names `s` and end names `e`. */
  ghost predicate StatusMatchesPresence(item: ProcedureDiffItem, s: set<string>, e: set<string>) {
    var n := item.metadata.name;
    && (item.status == Removed <==> n in s && n !in e)
    && (item.status == Added <==> n !in s && n in e)
  }

  lemma PartitionByPresence(items: seq<ProcedureDiffItem>, s: set<string>, e: set<string>)
    requires forall item :: item in items ==> item.metadata.name in s + e
    requires forall item :: item in items ==> StatusMatchesPresence(item, s, e)
    requires forall n :: n in s + e ==> exists item :: item in items && item.metadata.name == n
    ensures NamesWithStatus(items, {Added}) == e - s
    ensures NamesWithStatus(items, {Removed}) == s - e
    ensures NamesWithStatus(items, {Unchanged, Modified}) == s * e
  {
    forall n | n in s + e
      ensures n in NamesWithStatus(items, {Added}) <==> n in e - s
      ensures n in NamesWithStatus(items, {Removed}) <==> n in s - e
      ensures n in NamesWithStatus(items, {Unchanged, Modified}) <==> n in s * e
    {
      var item :| item in items && item.metadata.name == n;
      assert StatusMatchesPresence(item, s, e);
      assert n in NamesWithStatus(items, {item.status});
    }
  }

  /** Start `{foo(1), bar(2)}`, end `{foo(1), baz(3)}`: foo unchanged, bar removed, baz added. */
  lemma MergeExample(foo: ProcedureMetadata, bar: ProcedureMetadata, baz: ProcedureMetadata)
    requires foo == ProcedureMetadata("foo", "1", "1")
    requires bar == ProcedureMetadata("bar", "2", "2")
    requires baz == ProcedureMetadata("baz", "3", "3")
    ensures Merge([foo, bar], [foo, baz]) == [
      ProcedureDiffItem(foo, Unchanged, None, None),
      ProcedureDiffItem(bar, Removed, None, None),
      ProcedureDiffItem(baz, Added, None, None)]
  {
    ExampleNames(foo, bar, baz);
    ExampleTable(foo, bar);
    ExampleTable(foo, baz);
  }

  lemma ExampleNames(foo: ProcedureMetadata, bar: ProcedureMetadata, baz: ProcedureMetadata)
    requires foo.name == "foo" && bar.name == "bar" && baz.name == "baz"
    ensures MergedNames([foo, bar], [foo, baz]) == ["foo", "bar", "baz"]
  {
    assert Names([foo, bar]) + Names([foo, baz]) == [foo.name, bar.name, foo.name, baz.name];
    DistinctRepeatedFirst(foo.name, bar.name, baz.name);
  }

  lemma DistinctRepeatedFirst<T(!new)>(a: T, b: T, c: T)
    requires a != b && a != c && b != c
    ensures Distinct([a, b, a, c]) == [a, b, c]
  {
    DistinctSnoc([], a);
    assert [] + [a] == [a];
    DistinctSnoc([a], b);
    assert [a] + [b] == [a, b];
    DistinctSnoc([a, b], a);
    assert [a, b] + [a] == [a, b, a];
    DistinctSnoc([a, b, a], c);
    assert [a, b, a] + [c] == [a, b, a, c];
  }

  lemma ExampleTable(p: ProcedureMetadata, q: ProcedureMetadata)
    requires p.name != q.name
    ensures ByName([p, q]) == map[p.name := p, q.name := q]
  {
    assert [p, q][..1] == [p];
    assert [p][..0] == [];
  }

  /* The lookups `beforeMap[name]` and `afterMap[name]` run on plain objects, which
     inherit the members of `Object.prototype`. A procedure whose name is one of
     those members reads as present in an epoch that does not list it. */

  /** Property names every plain JavaScript object inherits from `Object.prototype`. */
  const InheritedProperties: set<string> := {
    "constructor", "hasOwnProperty", "isPrototypeOf", "propertyIsEnumerable",
    "toLocaleString", "toString", "valueOf", "__proto__",
    "__defineGetter__", "__defineSetter__", "__lookupGetter__", "__lookupSetter__"}

  /** What `table[name]` evaluates to on the object `Object.fromEntries` built. */
  datatype PropertyValue = OwnRecord(record: ProcedureMetadata) | InheritedMember | Undefined {
    /** Every object and function is truthy in JavaScript. */
    predicate Truthy() {
      !Undefined?
    }
  }

  function PropertyGet(table: map<string, ProcedureMetadata>, name: string): (v: PropertyValue)
    ensures v.OwnRecord? <==> name in table
    ensures v.OwnRecord? ==> v.record == table[name]
    ensures v.InheritedMember? <==> name !in table && name in InheritedProperties
  {
    if name in table then OwnRecord(table[name])
    else if name in InheritedProperties then InheritedMember
    else Undefined
  }

  /** `value.beforeHash` / `value.afterHash`: an inherited member has no such field. */
  function HashField(v: PropertyValue, before: bool): Option<string> {
    match v
    case OwnRecord(r) => Some(if before then r.beforeHash else r.afterHash)
    case _ => None
  }

  /** An item as the source builds it: its metadata is whatever the lookup returned. */
  datatype RawItem = RawItem(metadata: PropertyValue, status: ProcedureStatus)

  /** The item `loadMetadata` pushes for `name`, with prototype-aware lookups. */
  function RawItemFor(name: string, startTable: map<string, ProcedureMetadata>, endTable: map<string, ProcedureMetadata>): (item: RawItem)
    ensures name in startTable || name in endTable ==> !item.metadata.Undefined?
  {
    var beforeProc := PropertyGet(startTable, name);
    var afterProc := PropertyGet(endTable, name);
    var status :=
      if beforeProc.Truthy() && afterProc.Truthy() then
        (if HashField(beforeProc, true) == HashField(afterProc, false) then Unchanged else Modified)
      else if beforeProc.Truthy() then Removed
      else Added;
    // `afterProc ?? beforeProc!` skips only undefined and null
    RawItem(if afterProc.Truthy() then afterProc else beforeProc, status)
  }

  /** The merge exactly as written, with plain-object lookups. */
  function MergeAsWritten(startIndex: seq<ProcedureMetadata>, endIndex: seq<ProcedureMetadata>): (merged: seq<RawItem>)
    ensures |merged| == |MergedNames(startIndex, endIndex)|
    // the `beforeProc!` assertion holds: every name has a truthy lookup on one side
    ensures forall i :: 0 <= i < |merged| ==> !merged[i].metadata.Undefined?
  {
    var names := MergedNames(startIndex, endIndex);
    var startTable := ByName(startIndex);
    var endTable := ByName(endIndex);
    assert forall i :: 0 <= i < |names| ==> names[i] in startTable || names[i] in endTable by {
      forall i | 0 <= i < |names| ensures names[i] in startTable || names[i] in endTable {
        assert names[i] in Names(startIndex) + Names(endIndex);
      }
    }
    seq(|names|, i requires 0 <= i < |names| => RawItemFor(names[i], startTable, endTable))
  }

  /** A procedure named `toString` that only the start epoch lists is reported as
      modified, with an inherited function as its metadata, where `Merge` reports it removed. */
  lemma InheritedNameMisclassified()
    ensures var p := ProcedureMetadata("toString", "h", "h");
      && MergeAsWritten([p], []) == [RawItem(InheritedMember, Modified)]
      && Merge([p], []) == [ProcedureDiffItem(p, Removed, None, None)]
  {
    var p := ProcedureMetadata("toString", "h", "h");
    assert [p][..0] == [];
    assert Names([p]) + Names([]) == ["toString"];
    assert MergedNames([p], []) == ["toString"] by {
      assert ["toString"][..0] == [];
    }
  }

  /** The whole class of inherited names is misclassified: a procedure named after an
      `Object.prototype` member that only one epoch lists meets a truthy inherited member
      on the other side, so the code reports it modified where `Merge` reports it removed
      (start only) or added (end only). */
  lemma InheritedNamesMisclassified(name: string, startTable: map<string, ProcedureMetadata>,
                                    endTable: map<string, ProcedureMetadata>)
    requires name in InheritedProperties
    requires (name in startTable) != (name in endTable)
    ensures RawItemFor(name, startTable, endTable).status == Modified
    ensures ItemFor(name, startTable, endTable).status == if name in startTable then Removed else Added
  {
  }

  /** Away from the inherited names, the merge as written agrees with `Merge`. */
  lemma MergeAsWrittenAgrees(startIndex: seq<ProcedureMetadata>, endIndex: seq<ProcedureMetadata>)
    requires forall p :: p in startIndex ==> p.name !in InheritedProperties
    requires forall p :: p in endIndex ==> p.name !in InheritedProperties
    ensures var raw := MergeAsWritten(startIndex, endIndex);
      var merged := Merge(startIndex, endIndex);
      forall i :: 0 <= i < |merged| ==>
        raw[i] == RawItem(OwnRecord(merged[i].metadata), merged[i].status)
  {
  }
}

/**
 * The custom-field sections the field editors manage: a section is a named,
 * collapsible list of fields, and every editor operation rewrites one list
 * of sections.
 */
module FieldSections {
  import opened Common

  /** A configurable form field; the other optional settings travel like `placeholder`. */
  datatype CustomField = CustomField(
    id: string, labelText: string, key: string, kind: string, required: bool,
    placeholder: string, isSystem: bool, order: int)

  /** What the field dialog hands back: the field without id, system flag and position. */
  datatype FieldData = FieldData(labelText: string, key: string, kind: string, required: bool, placeholder: string)

  datatype Section = Section(id: string, name: string, fields: seq<CustomField>, isOpen: bool)

  /** Whether the dialog adds a new field or edits an existing one. */
  datatype Mode = Add | Edit

  /** `findIndex(s => s.id === id)`. */
  function FindSection(ss: seq<Section>, id: string): (r: Option<nat>)
    ensures r.Some? ==> r.value < |ss| && ss[r.value].id == id
    ensures r.Some? ==> forall j | 0 <= j < r.value :: ss[j].id != id
    ensures r.None? ==> forall j | 0 <= j < |ss| :: ss[j].id != id
  {
    if ss == [] then None
    else if ss[0].id == id then Some(0)
    else
      var r := FindSection(ss[1..], id);
      if r.Some? then Some(r.value + 1) else None
  }

  // -----------------------------------------------------------------------
  // Moving a field

  /** Where the element at position k after the move was before it. */
  function Source(from: nat, to: nat, k: nat): nat {
    if k < to then (if k < from then k else k + 1)
    else if k == to then from
    else (if k - 1 < from then k - 1 else k)
  }

  /** `splice(from, 1)` then `splice(to, 0, dragged)`: the element at `from` ends up at `to`. */
  function Moved<T>(xs: seq<T>, from: nat, to: nat): (r: seq<T>)
    requires from < |xs| && to < |xs|
    ensures |r| == |xs|
    ensures forall k | 0 <= k < |xs| :: Source(from, to, k) < |xs| && r[k] == xs[Source(from, to, k)]
  {
    var rest := xs[..from] + xs[from + 1..];
    assert forall k | 0 <= k < |rest| :: rest[k] == if k < from then xs[k] else xs[k + 1];
    rest[..to] + [xs[from]] + rest[to..]
  }

  /** The move keeps every element, as many times as it was there. */
  lemma MovedMultiset<T>(xs: seq<T>, from: nat, to: nat)
    requires from < |xs| && to < |xs|
    ensures multiset(Moved(xs, from, to)) == multiset(xs)
  {
    var rest := xs[..from] + xs[from + 1..];
    assert xs == xs[..from] + [xs[from]] + xs[from + 1..];
    assert multiset(xs) == multiset(xs[..from]) + multiset([xs[from]]) + multiset(xs[from + 1..]);
    assert multiset(rest) == multiset(xs[..from]) + multiset(xs[from + 1..]);
    assert rest == rest[..to] + rest[to..];
    assert multiset(rest) == multiset(rest[..to]) + multiset(rest[to..]);
    assert Moved(xs, from, to) == rest[..to] + [xs[from]] + rest[to..];
    assert multiset(Moved(xs, from, to)) == multiset(rest[..to]) + multiset([xs[from]]) + multiset(rest[to..]);
    assert multiset(Moved(xs, from, to)) == multiset(rest) + multiset([xs[from]]);
  }

  /** `map((field, index) => ({ ...field, order: index }))`. */
  function Renumber(fs: seq<CustomField>): (r: seq<CustomField>)
    ensures |r| == |fs|
    ensures forall k | 0 <= k < |fs| :: r[k] == fs[k].(order := k)
  {
    if fs == [] then [] else Renumber(fs[..|fs| - 1]) + [fs[|fs| - 1].(order := |fs| - 1)]
  }

  /** A field with its position forgotten, to compare field lists whatever their numbering. */
  function Unordered(fs: seq<CustomField>): (r: seq<CustomField>)
    ensures |r| == |fs|
    ensures forall k | 0 <= k < |fs| :: r[k] == fs[k].(order := 0)
  {
    if fs == [] then [] else [fs[0].(order := 0)] + Unordered(fs[1..])
  }

  /** The fields after a move, renumbered. */
  function MoveFields(fs: seq<CustomField>, from: nat, to: nat): (r: seq<CustomField>)
    requires from < |fs| && to < |fs|
    ensures |r| == |fs|
    ensures forall k | 0 <= k < |r| :: r[k].order == k
    ensures r[to] == fs[from].(order := to)
    ensures forall k | 0 <= k < |r| :: r[k] == fs[Source(from, to, k)].(order := k)
  {
    Renumber(Moved(fs, from, to))
  }

  /** Forgetting positions commutes with the move. */
  lemma UnorderedMoved(fs: seq<CustomField>, from: nat, to: nat)
    requires from < |fs| && to < |fs|
    ensures Unordered(Moved(fs, from, to)) == Moved(Unordered(fs), from, to)
  {
  }

  /** Renumbering changes positions only. */
  lemma UnorderedRenumber(fs: seq<CustomField>)
    ensures Unordered(Renumber(fs)) == Unordered(fs)
  {
  }

  /** A move is a permutation of the same fields: only the positions change. */
  lemma MovePermutes(fs: seq<CustomField>, from: nat, to: nat)
    requires from < |fs| && to < |fs|
    ensures multiset(Unordered(MoveFields(fs, from, to))) == multiset(Unordered(fs))
  {
    UnorderedRenumber(Moved(fs, from, to));
    UnorderedMoved(fs, from, to);
    MovedMultiset(Unordered(fs), from, to);
  }

  // -----------------------------------------------------------------------
  // Section list operations

  /** `toggleSection`: flips `isOpen` of the sections with that id. */
  function ToggleOpen(ss: seq<Section>, id: string): (r: seq<Section>)
    ensures |r| == |ss|
    ensures forall k | 0 <= k < |ss| :: r[k] == if ss[k].id == id then ss[k].(isOpen := !ss[k].isOpen) else ss[k]
  {
    if ss == [] then []
    else [if ss[0].id == id then ss[0].(isOpen := !ss[0].isOpen) else ss[0]] + ToggleOpen(ss[1..], id)
  }

  lemma ToggleOpenTwice(ss: seq<Section>, id: string)
    ensures ToggleOpen(ToggleOpen(ss, id), id) == ss
  {
  }

  /** `fields.filter(f => f.id !== id)`. */
  function RemoveField(fs: seq<CustomField>, id: string): (r: seq<CustomField>)
    ensures |r| <= |fs|
    ensures forall f :: f in r <==> f in fs && f.id != id
  {
    if fs == [] then []
    else if fs[0].id == id then RemoveField(fs[1..], id)
    else [fs[0]] + RemoveField(fs[1..], id)
  }

  /** `handleDeleteField`: removes the field from the sections with that id, and touches nothing else. */
  function DeleteFieldIn(ss: seq<Section>, sectionId: string, fieldId: string): (r: seq<Section>)
    ensures |r| == |ss|
    ensures forall k | 0 <= k < |ss| ::
              r[k] == if ss[k].id == sectionId then ss[k].(fields := RemoveField(ss[k].fields, fieldId)) else ss[k]
  {
    if ss == [] then []
    else
      [if ss[0].id == sectionId then ss[0].(fields := RemoveField(ss[0].fields, fieldId)) else ss[0]]
      + DeleteFieldIn(ss[1..], sectionId, fieldId)
  }

  /** Indices a drag can report for the section: both inside its field list. */
  predicate MovableIn(ss: seq<Section>, sectionId: string, from: nat, to: nat) {
    var i := FindSection(ss, sectionId);
    i.Some? ==> from < |ss[i.value].fields| && to < |ss[i.value].fields|
  }

  /** `handleMoveField` on the first section with that id; an unknown id leaves the list as it was. */
  function MoveIn(ss: seq<Section>, sectionId: string, from: nat, to: nat): (r: seq<Section>)
    requires MovableIn(ss, sectionId, from, to)
    ensures |r| == |ss|
    ensures FindSection(ss, sectionId).None? ==> r == ss
    ensures forall k | 0 <= k < |ss| && Some(k) != FindSection(ss, sectionId) :: r[k] == ss[k]
    ensures FindSection(ss, sectionId).Some? ==>
              var i := FindSection(ss, sectionId).value;
              r[i].id == ss[i].id && r[i].name == ss[i].name && r[i].isOpen == ss[i].isOpen
              && multiset(Unordered(r[i].fields)) == multiset(Unordered(ss[i].fields))
              && forall k | 0 <= k < |r[i].fields| :: r[i].fields[k].order == k
  {
    var i := FindSection(ss, sectionId);
    if i.None? then ss
    else
      MovePermutes(ss[i.value].fields, from, to);
      ss[i.value := ss[i.value].(fields := MoveFields(ss[i.value].fields, from, to))]
  }

  /** The field `handleSaveField` builds in add mode: not a system field, placed last. */
  function NewField(data: FieldData, id: string, count: nat): CustomField {
    CustomField(id, data.labelText, data.key, data.kind, data.required, data.placeholder, false, count)
  }

  /** `{ ...f, ...fieldData }`: the dialog's values over the field, which keeps its id, flag and position. */
  function Merge(f: CustomField, data: FieldData): CustomField {
    f.(labelText := data.labelText, key := data.key, kind := data.kind, required := data.required, placeholder := data.placeholder)
  }

  /** Merges the data into the fields whose id is the edited one; none when nothing is being edited. */
  function MergeInto(fs: seq<CustomField>, editingId: Option<string>, data: FieldData): (r: seq<CustomField>)
    ensures |r| == |fs|
    ensures forall k | 0 <= k < |fs| :: r[k] == if Some(fs[k].id) == editingId then Merge(fs[k], data) else fs[k]
  {
    if fs == [] then []
    else [if Some(fs[0].id) == editingId then Merge(fs[0], data) else fs[0]] + MergeInto(fs[1..], editingId, data)
  }

  /** `handleSaveField` on the first section with the current id; an unknown id leaves the list as it was. */
  function SaveIn(ss: seq<Section>, sectionId: string, mode: Mode, editingId: Option<string>, data: FieldData, newId: string): (r: seq<Section>)
    ensures |r| == |ss|
    ensures FindSection(ss, sectionId).None? ==> r == ss
    ensures forall k | 0 <= k < |ss| && Some(k) != FindSection(ss, sectionId) :: r[k] == ss[k]
  {
    var i := FindSection(ss, sectionId);
    if i.None? then ss
    else
      var s := ss[i.value];
      var fields := if mode == Add then s.fields + [NewField(data, newId, |s.fields|)] else MergeInto(s.fields, editingId, data);
      ss[i.value := s.(fields := fields)]
  }

  /** Add mode appends exactly one field, last, numbered with the old field count. */
  lemma SaveAddsOne(ss: seq<Section>, sectionId: string, editingId: Option<string>, data: FieldData, newId: string)
    requires FindSection(ss, sectionId).Some?
    ensures var i := FindSection(ss, sectionId).value;
      var fs := SaveIn(ss, sectionId, Add, editingId, data, newId)[i].fields;
      |fs| == |ss[i].fields| + 1 && fs[..|ss[i].fields|] == ss[i].fields
      && fs[|ss[i].fields|] == CustomField(newId, data.labelText, data.key, data.kind, data.required, data.placeholder, false, |ss[i].fields|)
  {
  }

  /** Edit mode changes only the field with the edited id, and keeps its id, system flag and position. */
  lemma SaveEditsOne(ss: seq<Section>, sectionId: string, editingId: string, data: FieldData, newId: string, k: nat)
    requires FindSection(ss, sectionId).Some?
    requires k < |ss[FindSection(ss, sectionId).value].fields|
    ensures var i := FindSection(ss, sectionId).value;
      var before := ss[i].fields[k];
      var after := SaveIn(ss, sectionId, Edit, Some(editingId), data, newId)[i].fields[k];
      after.id == before.id && after.isSystem == before.isSystem && after.order == before.order
      && (before.id != editingId ==> after == before)
      && (before.id == editingId ==> after.labelText == data.labelText && after.key == data.key)
  {
  }
}

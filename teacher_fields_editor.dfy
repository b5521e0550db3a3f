/**
 * The teacher field editor. Its handlers map over every section of the
 * active tab, and its save builds one whole field from the dialog: an
 * edited field keeps only its id and comes back as a custom field at
 * position 0. The section a save goes to is `selectedSection`, which only
 * the add handler sets.
 */
module TeacherFieldsEditor {
  import opened Common
  import opened FieldSections

  /** Every section with that id has room for the drag's two indices. */
  predicate MovableAll(ss: seq<Section>, sectionId: string, from: nat, to: nat) {
    forall k | 0 <= k < |ss| && ss[k].id == sectionId :: from < |ss[k].fields| && to < |ss[k].fields|
  }

  /** `moveField`: every section with that id has its fields moved and renumbered. */
  function MoveAll(ss: seq<Section>, sectionId: string, from: nat, to: nat): (r: seq<Section>)
    requires MovableAll(ss, sectionId, from, to)
    ensures |r| == |ss|
    ensures forall k | 0 <= k < |ss| ::
              r[k] == if ss[k].id == sectionId then ss[k].(fields := MoveFields(ss[k].fields, from, to)) else ss[k]
  {
    if ss == [] then []
    else
      assert MovableAll(ss[1..], sectionId, from, to) by {
        forall k | 0 <= k < |ss| - 1 && ss[1..][k].id == sectionId
          ensures from < |ss[1..][k].fields| && to < |ss[1..][k].fields|
        {
          assert ss[1..][k] == ss[k + 1];
        }
      }
      [if ss[0].id == sectionId then ss[0].(fields := MoveFields(ss[0].fields, from, to)) else ss[0]]
      + MoveAll(ss[1..], sectionId, from, to)
  }

  /** The move leaves other sections alone and permutes the fields of each section it moves in. */
  lemma MoveAllPermutes(ss: seq<Section>, sectionId: string, from: nat, to: nat, k: nat)
    requires MovableAll(ss, sectionId, from, to) && k < |ss|
    ensures var r := MoveAll(ss, sectionId, from, to);
      (ss[k].id != sectionId ==> r[k] == ss[k])
      && (ss[k].id == sectionId ==>
            r[k].id == ss[k].id && r[k].name == ss[k].name && r[k].isOpen == ss[k].isOpen
            && multiset(Unordered(r[k].fields)) == multiset(Unordered(ss[k].fields))
            && forall j | 0 <= j < |r[k].fields| :: r[k].fields[j].order == j)
  {
    if ss[k].id == sectionId {
      MovePermutes(ss[k].fields, from, to);
    }
  }

  /** The dialog's values as a field: `editingField?.id || custom-…`, never a system field, position 0. */
  function FieldToSave(form: FieldData, editing: Option<CustomField>, newId: string): (f: CustomField)
    ensures editing.Some? && editing.value.id != "" ==> f.id == editing.value.id
    ensures editing.None? || editing.value.id == "" ==> f.id == newId
    ensures !f.isSystem && f.order == 0
    ensures f.labelText == form.labelText && f.key == form.key && f.kind == form.kind
    ensures f.required == form.required && f.placeholder == form.placeholder
  {
    var id := if editing.Some? && editing.value.id != "" then editing.value.id else newId;
    CustomField(id, form.labelText, form.key, form.kind, form.required, form.placeholder, false, 0)
  }

  /** `fields.map(f => f.id === id ? field : f)`. */
  function ReplaceById(fs: seq<CustomField>, id: string, field: CustomField): (r: seq<CustomField>)
    ensures |r| == |fs|
    ensures forall j | 0 <= j < |fs| :: r[j] == if fs[j].id == id then field else fs[j]
  {
    if fs == [] then [] else [if fs[0].id == id then field else fs[0]] + ReplaceById(fs[1..], id, field)
  }

  /** The new fields of one section the save maps over. */
  function SavedSection(s: Section, editing: Option<CustomField>, field: CustomField): Section {
    if editing.Some? then s.(fields := ReplaceById(s.fields, editing.value.id, field))
    else s.(fields := s.fields + [field.(order := |s.fields|)])
  }

  /** `saveField`: nothing without a label and a key; otherwise the sections whose id is the selected one. */
  function TeacherSaveIn(ss: seq<Section>, selected: Option<string>, editing: Option<CustomField>, form: FieldData, newId: string): (r: seq<Section>)
    ensures |r| == |ss|
    ensures form.labelText == [] || form.key == [] ==> r == ss
    ensures forall k | 0 <= k < |ss| && Some(ss[k].id) != selected :: r[k] == ss[k]
  {
    if form.labelText == [] || form.key == [] then ss
    else SaveAll(ss, selected, editing, FieldToSave(form, editing, newId))
  }

  function SaveAll(ss: seq<Section>, selected: Option<string>, editing: Option<CustomField>, field: CustomField): (r: seq<Section>)
    ensures |r| == |ss|
    ensures forall k | 0 <= k < |ss| :: r[k] == if Some(ss[k].id) == selected then SavedSection(ss[k], editing, field) else ss[k]
  {
    if ss == [] then []
    else [if Some(ss[0].id) == selected then SavedSection(ss[0], editing, field) else ss[0]] + SaveAll(ss[1..], selected, editing, field)
  }

  /** Editing replaces the whole field: the id stays, the rest comes from the dialog, and it becomes a custom field at 0. */
  lemma TeacherEditReplaces(ss: seq<Section>, sectionId: string, editing: CustomField, form: FieldData, newId: string, k: nat, j: nat)
    requires form.labelText != [] && form.key != []
    requires k < |ss| && ss[k].id == sectionId && j < |ss[k].fields|
    ensures var after := TeacherSaveIn(ss, Some(sectionId), Some(editing), form, newId)[k].fields;
      |after| == |ss[k].fields|
      && (ss[k].fields[j].id == editing.id ==> after[j] == FieldToSave(form, Some(editing), newId))
      && (ss[k].fields[j].id != editing.id ==> after[j] == ss[k].fields[j])
  {
  }

  /** Adding appends one custom field, numbered with the previous field count. */
  lemma TeacherAddAppends(ss: seq<Section>, sectionId: string, form: FieldData, newId: string, k: nat)
    requires form.labelText != [] && form.key != []
    requires k < |ss| && ss[k].id == sectionId
    ensures var after := TeacherSaveIn(ss, Some(sectionId), None, form, newId)[k].fields;
      |after| == |ss[k].fields| + 1 && after[..|ss[k].fields|] == ss[k].fields
      && after[|ss[k].fields|] == CustomField(newId, form.labelText, form.key, form.kind, form.required, form.placeholder, false, |ss[k].fields|)
  {
  }

  /**
   * An edit saved while the selection does not name a section holding the
   * edited field changes nothing at all, even with a label and a key.
   */
  lemma EditWithoutSelectionLost(ss: seq<Section>, selected: Option<string>, editing: CustomField, form: FieldData, newId: string)
    requires forall k | 0 <= k < |ss| && Some(ss[k].id) == selected :: forall j | 0 <= j < |ss[k].fields| :: ss[k].fields[j].id != editing.id
    ensures TeacherSaveIn(ss, selected, Some(editing), form, newId) == ss
  {
    var r := TeacherSaveIn(ss, selected, Some(editing), form, newId);
    forall k | 0 <= k < |ss|
      ensures r[k] == ss[k]
    {
      if Some(ss[k].id) == selected && form.labelText != [] && form.key != [] {
        assert r[k].fields == ss[k].fields;
      }
    }
  }

  /** The dialog's data for a field being edited: `setNewField(field)`. */
  function DataOf(f: CustomField): FieldData {
    FieldData(f.labelText, f.key, f.kind, f.required, f.placeholder)
  }

  /** The empty dialog `handleAddField` opens. */
  const BlankForm := FieldData("", "", "text", false, "")

  class TeacherFieldsEditor {
    var sections: map<string, seq<Section>>
    var activeTab: string
    var selectedSection: Option<string>
    var editingField: Option<CustomField>
    var newField: FieldData
    var showModal: bool

    predicate Valid()
      reads this
    {
      activeTab in sections
    }

    /** The initial state: nothing selected, nothing being edited. */
    constructor(initial: map<string, seq<Section>>, tab: string)
      requires tab in initial
      ensures Valid() && sections == initial && activeTab == tab
      ensures selectedSection == None && editingField == None && newField == BlankForm && !showModal
    {
      sections := initial;
      activeTab := tab;
      selectedSection := None;
      editingField := None;
      newField := BlankForm;
      showModal := false;
    }

    /** `toggleSection`. */
    method ToggleSection(sectionId: string)
      requires Valid()
      modifies this
      ensures Valid() && activeTab == old(activeTab)
      ensures sections == old(sections)[activeTab := ToggleOpen(old(sections)[activeTab], sectionId)]
      ensures selectedSection == old(selectedSection) && editingField == old(editingField)
      ensures newField == old(newField) && showModal == old(showModal)
    {
      sections := sections[activeTab := ToggleOpen(sections[activeTab], sectionId)];
    }

    /** `moveField`. */
    method MoveField(sectionId: string, fromIndex: nat, toIndex: nat)
      requires Valid() && MovableAll(sections[activeTab], sectionId, fromIndex, toIndex)
      modifies this
      ensures Valid() && activeTab == old(activeTab)
      ensures sections == old(sections)[activeTab := MoveAll(old(sections)[activeTab], sectionId, fromIndex, toIndex)]
      ensures selectedSection == old(selectedSection) && editingField == old(editingField)
      ensures newField == old(newField) && showModal == old(showModal)
    {
      sections := sections[activeTab := MoveAll(sections[activeTab], sectionId, fromIndex, toIndex)];
    }

    /** `handleAddField`: selects the section and opens an empty dialog. */
    method HandleAddField(sectionId: string)
      modifies this
      ensures sections == old(sections) && activeTab == old(activeTab)
      ensures selectedSection == Some(sectionId) && editingField == None && newField == BlankForm && showModal
    {
      selectedSection := Some(sectionId);
      editingField := None;
      newField := BlankForm;
      showModal := true;
    }

    /** `handleEditField` as written: the selected section stays whatever it was. */
    method HandleEditField(field: CustomField)
      modifies this
      ensures sections == old(sections) && activeTab == old(activeTab)
      ensures selectedSection == old(selectedSection)
      ensures editingField == Some(field) && newField == DataOf(field) && showModal
    {
      editingField := Some(field);
      newField := DataOf(field);
      showModal := true;
    }

    /** `handleEditField` as evidently intended: it also selects the section the field is in. */
    method HandleEditFieldIntended(field: CustomField, sectionId: string)
      modifies this
      ensures sections == old(sections) && activeTab == old(activeTab)
      ensures selectedSection == Some(sectionId)
      ensures editingField == Some(field) && newField == DataOf(field) && showModal
    {
      selectedSection := Some(sectionId);
      editingField := Some(field);
      newField := DataOf(field);
      showModal := true;
    }

    /** `handleDeleteField`: no confirmation in this editor. */
    method DeleteField(sectionId: string, fieldId: string)
      requires Valid()
      modifies this
      ensures Valid() && activeTab == old(activeTab)
      ensures sections == old(sections)[activeTab := DeleteFieldIn(old(sections)[activeTab], sectionId, fieldId)]
      ensures selectedSection == old(selectedSection) && editingField == old(editingField)
      ensures newField == old(newField) && showModal == old(showModal)
    {
      sections := sections[activeTab := DeleteFieldIn(sections[activeTab], sectionId, fieldId)];
    }

    /** `saveField`: a blank label or key leaves everything, the dialog included, as it was. */
    method SaveField(newId: string)
      requires Valid()
      modifies this
      ensures Valid() && activeTab == old(activeTab)
      ensures selectedSection == old(selectedSection) && newField == old(newField)
      ensures sections == old(sections)[activeTab := TeacherSaveIn(old(sections)[activeTab], selectedSection, old(editingField), newField, newId)]
      ensures if newField.labelText == [] || newField.key == [] then editingField == old(editingField) && showModal == old(showModal)
              else editingField == None && !showModal
    {
      if newField.labelText == [] || newField.key == [] {
        assert TeacherSaveIn(sections[activeTab], selectedSection, editingField, newField, newId) == sections[activeTab];
        return;
      }
      sections := sections[activeTab := TeacherSaveIn(sections[activeTab], selectedSection, editingField, newField, newId)];
      showModal := false;
      editingField := None;
    }
  }

  /**
   * With the intended edit handler the selection is the field's own section,
   * so saving a dialog with a label and a key replaces the field there.
   */
  lemma IntendedEditApplies(ss: seq<Section>, sectionId: string, field: CustomField, newId: string, k: nat, j: nat)
    requires field.labelText != [] && field.key != []
    requires k < |ss| && ss[k].id == sectionId && j < |ss[k].fields| && ss[k].fields[j] == field
    ensures TeacherSaveIn(ss, Some(sectionId), Some(field), DataOf(field), newId)[k].fields[j]
            == FieldToSave(DataOf(field), Some(field), newId)
  {
    TeacherEditReplaces(ss, sectionId, field, DataOf(field), newId, k, j);
  }
}

/**
 * The student field editors (the tabbed editor and its older copy, which
 * run the same handlers) and the settings editor, whose sections are keyed
 * by module and then by tab. Each handler rebuilds the list of sections of
 * the selected cell and touches nothing else.
 */
module FieldEditors {
  import opened Common
  import opened FieldKeys
  import opened FieldSections

  // -----------------------------------------------------------------------
  // The field dialog

  /** `handleLabelChange`: the key follows the label while adding, and stays put while editing. */
  function LabelChanged(mode: Mode, form: FieldData, text: string): (r: FieldData)
    ensures r.labelText == text
    ensures r.kind == form.kind && r.required == form.required && r.placeholder == form.placeholder
    ensures mode == Add ==> WellFormedKey(r.key)
    ensures mode == Edit ==> r.key == form.key
  {
    GenerateKeyWellFormed(text);
    form.(labelText := text, key := if mode == Add then GenerateKey(text) else form.key)
  }

  /** Typing the same label twice while adding gives the same key, and retyping a generated key keeps it. */
  lemma LabelChangedStable(form: FieldData, text: string)
    ensures LabelChanged(Add, LabelChanged(Add, form, text), text) == LabelChanged(Add, form, text)
    ensures var f := LabelChanged(Add, form, text); LabelChanged(Add, f, f.key).key == f.key
  {
    GenerateKeyIdempotent(text);
  }

  /** The tabbed editor's `handleSave`: the dialog hands its data on only with a label and a key. */
  function CheckedSave(form: FieldData): (r: Option<FieldData>)
    ensures r.Some? <==> form.labelText != [] && form.key != []
    ensures r.Some? ==> r.value == form
  {
    if form.labelText == [] || form.key == [] then None else Some(form)
  }

  /** The older editor's dialog has no such check: a blank field is added all the same. */
  lemma UncheckedSaveAddsBlank(ss: seq<Section>, sectionId: string, form: FieldData, newId: string)
    requires FindSection(ss, sectionId).Some?
    requires form.labelText == [] && form.key == []
    ensures var i := FindSection(ss, sectionId).value;
      var fs := SaveIn(ss, sectionId, Add, None, form, newId)[i].fields;
      |fs| == |ss[i].fields| + 1 && fs[|fs| - 1].labelText == [] && fs[|fs| - 1].key == []
  {
    SaveAddsOne(ss, sectionId, None, form, newId);
  }

  // -----------------------------------------------------------------------
  // The handlers' work on a copied section list

  /** `newFields.splice(dragIndex, 1)` then `newFields.splice(hoverIndex, 0, draggedField)`. */
  method Splice(fields: seq<CustomField>, dragIndex: nat, hoverIndex: nat) returns (newFields: seq<CustomField>)
    requires dragIndex < |fields| && hoverIndex < |fields|
    ensures newFields == Moved(fields, dragIndex, hoverIndex)
  {
    newFields := fields;
    var dragged := newFields[dragIndex];
    newFields := newFields[..dragIndex] + newFields[dragIndex + 1..];
    newFields := newFields[..hoverIndex] + [dragged] + newFields[hoverIndex..];
  }

  /** The body of `handleMoveField`: find the section, splice its fields, renumber, store the copy. */
  method MoveOnCopy(current: seq<Section>, sectionId: string, dragIndex: nat, hoverIndex: nat) returns (tabSections: seq<Section>)
    requires MovableIn(current, sectionId, dragIndex, hoverIndex)
    ensures tabSections == MoveIn(current, sectionId, dragIndex, hoverIndex)
  {
    tabSections := current;
    var sectionIndex := FindSection(tabSections, sectionId);
    if sectionIndex.None? {
      return;
    }
    var section := tabSections[sectionIndex.value];
    var newFields := Splice(section.fields, dragIndex, hoverIndex);
    section := section.(fields := Renumber(newFields));
    tabSections := tabSections[sectionIndex.value := section];
  }

  /** The body of `handleSaveField`: find the current section, append or merge, store the copy. */
  method SaveOnCopy(current: seq<Section>, sectionId: string, mode: Mode, editingId: Option<string>, data: FieldData, newId: string)
    returns (tabSections: seq<Section>)
    ensures tabSections == SaveIn(current, sectionId, mode, editingId, data, newId)
  {
    tabSections := current;
    var sectionIndex := FindSection(tabSections, sectionId);
    if sectionIndex.None? {
      return;
    }
    var section := tabSections[sectionIndex.value];
    if mode == Add {
      section := section.(fields := section.fields + [NewField(data, newId, |section.fields|)]);
    } else {
      section := section.(fields := MergeInto(section.fields, editingId, data));
    }
    tabSections := tabSections[sectionIndex.value := section];
  }

  // -----------------------------------------------------------------------
  // Sections keyed by tab

  /** The student field editor: one list of sections per tab, and the state of the field dialog. */
  class TabbedFieldsEditor {
    var sections: map<string, seq<Section>>
    var activeTab: string
    var modalMode: Mode
    var editingId: Option<string>
    var currentSectionId: string

    predicate Valid()
      reads this
    {
      activeTab in sections
    }

    constructor(initial: map<string, seq<Section>>, tab: string)
      requires tab in initial
      ensures Valid() && sections == initial && activeTab == tab
      ensures modalMode == Add && editingId == None && currentSectionId == ""
    {
      sections := initial;
      activeTab := tab;
      modalMode := Add;
      editingId := None;
      currentSectionId := "";
    }

    /** `toggleSection`. */
    method ToggleSection(sectionId: string)
      requires Valid()
      modifies this
      ensures Valid()
      ensures activeTab == old(activeTab) && modalMode == old(modalMode)
      ensures editingId == old(editingId) && currentSectionId == old(currentSectionId)
      ensures sections == old(sections)[activeTab := ToggleOpen(old(sections)[activeTab], sectionId)]
    {
      sections := sections[activeTab := ToggleOpen(sections[activeTab], sectionId)];
    }

    /** `handleMoveField`: splice the dragged field out and back in on copies, renumber, store. */
    method MoveField(dragIndex: nat, hoverIndex: nat, sectionId: string)
      requires Valid() && MovableIn(sections[activeTab], sectionId, dragIndex, hoverIndex)
      modifies this
      ensures Valid()
      ensures activeTab == old(activeTab) && modalMode == old(modalMode)
      ensures editingId == old(editingId) && currentSectionId == old(currentSectionId)
      ensures sections == old(sections)[activeTab := MoveIn(old(sections)[activeTab], sectionId, dragIndex, hoverIndex)]
    {
      var tabSections := MoveOnCopy(sections[activeTab], sectionId, dragIndex, hoverIndex);
      sections := sections[activeTab := tabSections];
    }

    /** `handleAddField`: opens the dialog to add to that section. */
    method AddField(sectionId: string)
      modifies this
      ensures sections == old(sections) && activeTab == old(activeTab)
      ensures currentSectionId == sectionId && editingId == None && modalMode == Add
    {
      currentSectionId := sectionId;
      editingId := None;
      modalMode := Add;
    }

    /** `handleEditField`: opens the dialog on that field of that section. */
    method EditField(field: CustomField, sectionId: string)
      modifies this
      ensures sections == old(sections) && activeTab == old(activeTab)
      ensures currentSectionId == sectionId && editingId == Some(field.id) && modalMode == Edit
    {
      currentSectionId := sectionId;
      editingId := Some(field.id);
      modalMode := Edit;
    }

    /** `handleDeleteField`, once the user has answered the confirmation. */
    method DeleteField(fieldId: string, sectionId: string, confirmed: bool)
      requires Valid()
      modifies this
      ensures Valid()
      ensures activeTab == old(activeTab) && modalMode == old(modalMode)
      ensures editingId == old(editingId) && currentSectionId == old(currentSectionId)
      ensures sections == if confirmed then old(sections)[activeTab := DeleteFieldIn(old(sections)[activeTab], sectionId, fieldId)]
                          else old(sections)
    {
      if confirmed {
        sections := sections[activeTab := DeleteFieldIn(sections[activeTab], sectionId, fieldId)];
      }
    }

    /** `handleSaveField`: append or merge in the current section, on a copy, then store. */
    method SaveField(data: FieldData, newId: string)
      requires Valid()
      modifies this
      ensures Valid()
      ensures activeTab == old(activeTab) && modalMode == old(modalMode)
      ensures editingId == old(editingId) && currentSectionId == old(currentSectionId)
      ensures sections == old(sections)[activeTab := SaveIn(old(sections)[activeTab], currentSectionId, modalMode, editingId, data, newId)]
    {
      var tabSections := SaveOnCopy(sections[activeTab], currentSectionId, modalMode, editingId, data, newId);
      sections := sections[activeTab := tabSections];
    }

    /** The tabbed editor's dialog `handleSave` followed by `handleSaveField`. */
    method SubmitDialog(form: FieldData, newId: string) returns (accepted: bool)
      requires Valid()
      modifies this
      ensures Valid()
      ensures activeTab == old(activeTab) && modalMode == old(modalMode)
      ensures editingId == old(editingId) && currentSectionId == old(currentSectionId)
      ensures accepted <==> form.labelText != [] && form.key != []
      ensures sections == if accepted then old(sections)[activeTab := SaveIn(old(sections)[activeTab], currentSectionId, modalMode, editingId, form, newId)]
                          else old(sections)
    {
      var checked := CheckedSave(form);
      accepted := checked.Some?;
      if accepted {
        SaveField(checked.value, newId);
      }
    }
  }

  // -----------------------------------------------------------------------
  // Sections keyed by module and tab

  /** The table with one cell replaced. */
  function WithCell(table: map<string, map<string, seq<Section>>>, m: string, t: string, cell: seq<Section>): (r: map<string, map<string, seq<Section>>>)
    requires m in table
    ensures r.Keys == table.Keys && r[m].Keys == table[m].Keys + {t}
    ensures r[m][t] == cell
  {
    table[m := table[m][t := cell]]
  }

  /** Replacing one cell leaves every other module and every other tab of the module as it was. */
  lemma WithCellOthers(table: map<string, map<string, seq<Section>>>, m: string, t: string, cell: seq<Section>, m': string, t': string)
    requires m in table && m' in table && t' in table[m']
    requires m' != m || t' != t
    ensures t' in WithCell(table, m, t, cell)[m'] && WithCell(table, m, t, cell)[m'][t'] == table[m'][t']
  {
  }

  /** The settings editor: sections per module and tab, and the state of the field dialog. */
  class ModuleFieldsEditor {
    var sections: map<string, map<string, seq<Section>>>
    var selectedModule: string
    var selectedTab: string
    var modalMode: Mode
    var editingId: Option<string>
    var currentSectionId: string

    predicate Valid()
      reads this
    {
      selectedModule in sections && selectedTab in sections[selectedModule]
    }

    function Current(): seq<Section>
      requires Valid()
      reads this
    {
      sections[selectedModule][selectedTab]
    }

    constructor(initial: map<string, map<string, seq<Section>>>, moduleName: string, tab: string)
      requires moduleName in initial && tab in initial[moduleName]
      ensures Valid() && sections == initial && selectedModule == moduleName && selectedTab == tab
      ensures modalMode == Add && editingId == None && currentSectionId == ""
    {
      sections := initial;
      selectedModule := moduleName;
      selectedTab := tab;
      modalMode := Add;
      editingId := None;
      currentSectionId := "";
    }

    /** `toggleSection`, in the selected cell. */
    method ToggleSection(sectionId: string)
      requires Valid()
      modifies this
      ensures Valid()
      ensures selectedModule == old(selectedModule) && selectedTab == old(selectedTab)
      ensures modalMode == old(modalMode) && editingId == old(editingId) && currentSectionId == old(currentSectionId)
      ensures sections == WithCell(old(sections), selectedModule, selectedTab, ToggleOpen(old(Current()), sectionId))
    {
      sections := WithCell(sections, selectedModule, selectedTab, ToggleOpen(Current(), sectionId));
    }

    /** `handleMoveField`, on a copy of the selected cell. */
    method MoveField(dragIndex: nat, hoverIndex: nat, sectionId: string)
      requires Valid() && MovableIn(Current(), sectionId, dragIndex, hoverIndex)
      modifies this
      ensures Valid()
      ensures selectedModule == old(selectedModule) && selectedTab == old(selectedTab)
      ensures modalMode == old(modalMode) && editingId == old(editingId) && currentSectionId == old(currentSectionId)
      ensures sections == WithCell(old(sections), selectedModule, selectedTab, MoveIn(old(Current()), sectionId, dragIndex, hoverIndex))
    {
      var moduleSections := MoveOnCopy(Current(), sectionId, dragIndex, hoverIndex);
      sections := WithCell(sections, selectedModule, selectedTab, moduleSections);
    }

    /** `handleAddField`. */
    method AddField(sectionId: string)
      modifies this
      ensures sections == old(sections) && selectedModule == old(selectedModule) && selectedTab == old(selectedTab)
      ensures currentSectionId == sectionId && editingId == None && modalMode == Add
    {
      currentSectionId := sectionId;
      editingId := None;
      modalMode := Add;
    }

    /** `handleEditField`. */
    method EditField(field: CustomField, sectionId: string)
      modifies this
      ensures sections == old(sections) && selectedModule == old(selectedModule) && selectedTab == old(selectedTab)
      ensures currentSectionId == sectionId && editingId == Some(field.id) && modalMode == Edit
    {
      currentSectionId := sectionId;
      editingId := Some(field.id);
      modalMode := Edit;
    }

    /** `handleDeleteField`, once the user has answered the confirmation. */
    method DeleteField(fieldId: string, sectionId: string, confirmed: bool)
      requires Valid()
      modifies this
      ensures Valid()
      ensures selectedModule == old(selectedModule) && selectedTab == old(selectedTab)
      ensures modalMode == old(modalMode) && editingId == old(editingId) && currentSectionId == old(currentSectionId)
      ensures sections == if confirmed then WithCell(old(sections), selectedModule, selectedTab, DeleteFieldIn(old(Current()), sectionId, fieldId))
                          else old(sections)
    {
      if confirmed {
        sections := WithCell(sections, selectedModule, selectedTab, DeleteFieldIn(Current(), sectionId, fieldId));
      }
    }

    /** `handleSaveField`, on a copy of the selected cell; the dialog checks nothing before it. */
    method SaveField(data: FieldData, newId: string)
      requires Valid()
      modifies this
      ensures Valid()
      ensures selectedModule == old(selectedModule) && selectedTab == old(selectedTab)
      ensures modalMode == old(modalMode) && editingId == old(editingId) && currentSectionId == old(currentSectionId)
      ensures sections == WithCell(old(sections), selectedModule, selectedTab, SaveIn(old(Current()), currentSectionId, modalMode, editingId, data, newId))
    {
      var moduleSections := SaveOnCopy(Current(), currentSectionId, modalMode, editingId, data, newId);
      sections := WithCell(sections, selectedModule, selectedTab, moduleSections);
    }
  }
}

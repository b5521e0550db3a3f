/**
 * The custom-field screens of the class and attendance settings: a fixed
 * list of system fields, a list of custom fields the user adds to and
 * deletes from, and the set of expanded section cards. Both screens run the
 * same handlers, and each handler computes the next state from the last.
 */
module CustomFields {
  import opened Common
  import opened FieldKeys

  datatype ConfigField = ConfigField(
    id: string, labelText: string, fieldKey: string, fieldType: string, required: bool,
    visibleToAdmin: bool, visibleToTeacher: bool, isSystemField: bool,
    dropdownOptions: Option<seq<string>>, section: string)

  /** The add dialog's values. */
  datatype AddForm = AddForm(
    labelText: string, fieldKey: string, fieldType: string, required: bool,
    visibleToAdmin: bool, visibleToTeacher: bool, dropdownOptions: seq<string>)

  /** What a screen keeps between renders. */
  datatype Screen = Screen(
    customFields: seq<ConfigField>, expanded: seq<string>, selectedSection: string,
    form: AddForm, dialogOpen: bool)

  /** The dialog as it opens, and as it is reset after an add. */
  const EmptyForm := AddForm("", "", "Text", false, true, false, [""])

  /** Typing a label: the key is derived from it every time. */
  function FormLabelChanged(form: AddForm, text: string): (r: AddForm)
    ensures r.labelText == text && KeyCharset(r.fieldKey)
    ensures r.(labelText := form.labelText, fieldKey := form.fieldKey) == form
  {
    form.(labelText := text, fieldKey := CustomFieldKey(text))
  }

  /** Typing the derived key back in as a label derives the same key. */
  lemma FormLabelChangedStable(form: AddForm, text: string)
    ensures var f := FormLabelChanged(form, text); FormLabelChanged(f, f.fieldKey).fieldKey == f.fieldKey
  {
    CustomFieldKeyIdempotent(text);
  }

  /** `options.filter(opt => opt.trim() !== '')`. */
  function NonBlankOptions(options: seq<string>): (r: seq<string>)
    ensures |r| <= |options|
    ensures forall o :: o in r <==> o in options && Trim(o) != []
  {
    if options == [] then []
    else if Trim(options[0]) != [] then [options[0]] + NonBlankOptions(options[1..])
    else NonBlankOptions(options[1..])
  }

  /** The field `handleAddField` builds: numbered after the list's length, never a system field. */
  function NewConfigField(form: AddForm, count: nat, section: string): (f: ConfigField)
    ensures f.id == "c" + NatToString(count + 1) && !f.isSystemField && f.section == section
    ensures f.labelText == form.labelText && f.fieldKey == form.fieldKey && f.fieldType == form.fieldType
    ensures f.dropdownOptions.Some? <==> form.fieldType == "Dropdown"
    ensures f.dropdownOptions.Some? ==> forall o :: o in f.dropdownOptions.value <==> o in form.dropdownOptions && Trim(o) != []
  {
    ConfigField("c" + NatToString(count + 1), form.labelText, form.fieldKey, form.fieldType, form.required,
                form.visibleToAdmin, form.visibleToTeacher, false,
                if form.fieldType == "Dropdown" then Some(NonBlankOptions(form.dropdownOptions)) else None,
                section)
  }

  /** `handleAddField`: appends the new field to the selected section, closes and resets the dialog. */
  function HandleAddField(s: Screen): (r: Screen)
    ensures |r.customFields| == |s.customFields| + 1 && r.customFields[..|s.customFields|] == s.customFields
    ensures r.customFields[|s.customFields|] == NewConfigField(s.form, |s.customFields|, s.selectedSection)
    ensures r.form == EmptyForm && !r.dialogOpen
    ensures r.expanded == s.expanded && r.selectedSection == s.selectedSection
  {
    s.(customFields := s.customFields + [NewConfigField(s.form, |s.customFields|, s.selectedSection)],
       form := EmptyForm, dialogOpen := false)
  }

  /** `customFields.filter(f => f.id !== id)`. */
  function WithoutId(fs: seq<ConfigField>, id: string): (r: seq<ConfigField>)
    ensures |r| <= |fs|
    ensures forall f :: f in r <==> f in fs && f.id != id
  {
    if fs == [] then []
    else if fs[0].id == id then WithoutId(fs[1..], id)
    else [fs[0]] + WithoutId(fs[1..], id)
  }

  /** `handleDeleteField`, once the user has answered the confirmation. */
  function HandleDeleteField(s: Screen, id: string, confirmed: bool): (r: Screen)
    ensures r.(customFields := s.customFields) == s
    ensures confirmed ==> forall f :: f in r.customFields <==> f in s.customFields && f.id != id
    ensures !confirmed ==> r == s
  {
    if confirmed then s.(customFields := WithoutId(s.customFields, id)) else s
  }

  /** Numbering by length reuses an identifier once a field has been deleted. */
  lemma AddAfterDeleteRepeatsId(s: Screen)
    requires |s.customFields| == 2 && s.customFields[0].id == "c1" && s.customFields[1].id == "c2"
    ensures var r := HandleAddField(HandleDeleteField(s, "c1", true));
      |r.customFields| == 2 && r.customFields[0].id == "c2" && r.customFields[1].id == "c2"
  {
    var d := HandleDeleteField(s, "c1", true);
    assert WithoutId(s.customFields[1..], "c1") == [s.customFields[1]];
    assert d.customFields == [s.customFields[1]];
    assert NatToString(2) == "2";
  }

  // -----------------------------------------------------------------------
  // Listing

  /** `fields.filter(f => f.section === tab)`, in the list's order. */
  function InSection(fs: seq<ConfigField>, tab: string): (r: seq<ConfigField>)
    ensures |r| <= |fs|
    ensures forall f :: f in r <==> f in fs && f.section == tab
  {
    if fs == [] then []
    else if fs[0].section == tab then [fs[0]] + InSection(fs[1..], tab)
    else InSection(fs[1..], tab)
  }

  /** Filtering keeps the order: filtering a concatenation concatenates the filtered parts. */
  lemma {:induction false} InSectionAppend(a: seq<ConfigField>, b: seq<ConfigField>, tab: string)
    ensures InSection(a + b, tab) == InSection(a, tab) + InSection(b, tab)
  {
    if a != [] {
      assert (a + b)[1..] == a[1..] + b;
      InSectionAppend(a[1..], b, tab);
    } else {
      assert a + b == b;
    }
  }

  /** `getFieldsBySection`: the tab's system fields, then its custom fields. */
  function FieldsBySection(system: seq<ConfigField>, custom: seq<ConfigField>, tab: string): (r: seq<ConfigField>)
    ensures forall f :: f in r <==> (f in system || f in custom) && f.section == tab
    ensures |r| == |InSection(system, tab)| + |InSection(custom, tab)|
  {
    InSection(system, tab) + InSection(custom, tab)
  }

  /** With system fields flagged and custom ones not, no custom field is listed before a system one. */
  lemma SystemFieldsFirst(system: seq<ConfigField>, custom: seq<ConfigField>, tab: string, i: nat, j: nat)
    requires forall f | f in system :: f.isSystemField
    requires forall f | f in custom :: !f.isSystemField
    requires i < j < |FieldsBySection(system, custom, tab)|
    requires FieldsBySection(system, custom, tab)[j].isSystemField
    ensures FieldsBySection(system, custom, tab)[i].isSystemField
  {
    var r := FieldsBySection(system, custom, tab);
    var n := |InSection(system, tab)|;
    if j < n {
      assert r[i] in InSection(system, tab);
    }
  }

  /** `renderFieldsList`: every card of a tab gets the same list, whatever the card's own name. */
  function RenderFieldsList(system: seq<ConfigField>, custom: seq<ConfigField>, tab: string, cards: seq<string>): (r: seq<seq<ConfigField>>)
    ensures |r| == |cards|
    ensures forall i | 0 <= i < |cards| :: r[i] == FieldsBySection(system, custom, tab)
  {
    if cards == [] then [] else [FieldsBySection(system, custom, tab)] + RenderFieldsList(system, custom, tab, cards[1..])
  }

  /** `toggleSection` on the screen: only the set of expanded cards changes. */
  function HandleToggle(s: Screen, card: string): (r: Screen)
    ensures r.(expanded := s.expanded) == s
    ensures card in r.expanded <==> card !in s.expanded
    ensures forall c | c != card :: c in r.expanded <==> c in s.expanded
  {
    s.(expanded := ToggleMember(s.expanded, card))
  }
}

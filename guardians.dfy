/**
 * The guardian step of the student form: the father and mother read by
 * relation, the other guardians listed below them, and the updates the
 * inputs make to the guardian list.
 */
module StudentFormGuardians {
  import opened Common

  datatype Guardian = Guardian(id: int, name: string, relation: string, phone: string, occupation: string)

  /** The guardian inputs that write through `updateGuardian`. */
  datatype GuardianField = Name | Phone | Occupation

  const Father := "Father"
  const Mother := "Mother"

  function SetField(g: Guardian, field: GuardianField, value: string): (r: Guardian)
    ensures r.id == g.id && r.relation == g.relation
  {
    match field
    case Name => g.(name := value)
    case Phone => g.(phone := value)
    case Occupation => g.(occupation := value)
  }

  function GetField(g: Guardian, field: GuardianField): string {
    match field
    case Name => g.name
    case Phone => g.phone
    case Occupation => g.occupation
  }

  /** `guardians.findIndex(g => g.relation === relation)`. */
  function FindRelation(gs: seq<Guardian>, relation: string): (r: Option<nat>)
    ensures r.Some? ==> r.value < |gs| && gs[r.value].relation == relation
    ensures r.Some? ==> forall k | 0 <= k < r.value :: gs[k].relation != relation
    ensures r.None? ==> forall k | 0 <= k < |gs| :: gs[k].relation != relation
  {
    if gs == [] then None
    else if gs[0].relation == relation then Some(0)
    else
      var r := FindRelation(gs[1..], relation);
      if r.Some? then Some(r.value + 1) else None
  }

  /** `guardians.find(g => g.relation === relation)`. */
  function FindGuardian(gs: seq<Guardian>, relation: string): (r: Option<Guardian>)
    ensures r.Some? <==> FindRelation(gs, relation).Some?
    ensures r.Some? ==> r.value == gs[FindRelation(gs, relation).value]
  {
    var i := FindRelation(gs, relation);
    if i.Some? then Some(gs[i.value]) else None
  }

  /** The guardian `updateGuardian` appends: the relation, empty values, and the one field set. */
  function NewGuardian(id: int, relation: string, field: GuardianField, value: string): Guardian {
    SetField(Guardian(id, "", relation, "", ""), field, value)
  }

  /** What `updateGuardian` makes of the list. */
  function Upserted(gs: seq<Guardian>, relation: string, field: GuardianField, value: string, newId: int): (r: seq<Guardian>)
    ensures FindRelation(gs, relation).Some? ==>
              var i := FindRelation(gs, relation).value;
              |r| == |gs| && r[i] == SetField(gs[i], field, value)
              && forall k | 0 <= k < |gs| && k != i :: r[k] == gs[k]
    ensures FindRelation(gs, relation).None? ==> r == gs + [NewGuardian(newId, relation, field, value)]
  {
    var i := FindRelation(gs, relation);
    if i.Some? then gs[i.value := SetField(gs[i.value], field, value)]
    else gs + [NewGuardian(newId, relation, field, value)]
  }

  /** `updateGuardian`: copies the list and assigns the first guardian of that relation, or appends one. */
  method UpdateGuardian(guardians: seq<Guardian>, relation: string, field: GuardianField, value: string, newId: int)
    returns (updated: seq<Guardian>)
    ensures updated == Upserted(guardians, relation, field, value, newId)
  {
    var guardianIndex := FindRelation(guardians, relation);
    if guardianIndex.Some? {
      var updatedGuardians := new Guardian[|guardians|](k requires 0 <= k < |guardians| => guardians[k]);
      updatedGuardians[guardianIndex.value] := SetField(updatedGuardians[guardianIndex.value], field, value);
      updated := updatedGuardians[..];
    } else {
      updated := guardians + [NewGuardian(newId, relation, field, value)];
    }
  }

  /** After an update, the guardian read by that relation shows the value typed. */
  lemma UpdateReadsBack(gs: seq<Guardian>, relation: string, field: GuardianField, value: string, newId: int)
    ensures var g := FindGuardian(Upserted(gs, relation, field, value, newId), relation);
      g.Some? && g.value.relation == relation && GetField(g.value, field) == value
  {
    var r := Upserted(gs, relation, field, value, newId);
    var i := FindRelation(gs, relation);
    if i.Some? {
      assert forall k | 0 <= k < i.value :: r[k].relation != relation;
      assert FindRelation(r, relation) == i by {
        FindRelationFirst(r, relation, i.value);
      }
    } else {
      assert forall k | 0 <= k < |gs| :: r[k].relation != relation;
      FindRelationFirst(r, relation, |gs|);
    }
  }

  /** The first index holding the relation is what the search finds. */
  lemma {:induction false} FindRelationFirst(gs: seq<Guardian>, relation: string, i: nat)
    requires i < |gs| && gs[i].relation == relation
    requires forall k | 0 <= k < i :: gs[k].relation != relation
    ensures FindRelation(gs, relation) == Some(i)
  {
    if i > 0 {
      FindRelationFirst(gs[1..], relation, i - 1);
    }
  }

  /** Neither father nor mother. */
  predicate IsOther(g: Guardian) {
    g.relation != Father && g.relation != Mother
  }

  /** `otherGuardians`, in list order. */
  function OtherGuardians(gs: seq<Guardian>): (r: seq<Guardian>)
    ensures forall g :: g in r <==> g in gs && IsOther(g)
  {
    if gs == [] then []
    else if IsOther(gs[0]) then [gs[0]] + OtherGuardians(gs[1..])
    else OtherGuardians(gs[1..])
  }

  /** Lists that differ only at father or mother entries list the same other guardians. */
  lemma {:induction false} OthersIgnoreParents(a: seq<Guardian>, b: seq<Guardian>)
    requires |a| == |b|
    requires forall k | 0 <= k < |a| :: a[k] == b[k] || (!IsOther(a[k]) && !IsOther(b[k]))
    ensures OtherGuardians(a) == OtherGuardians(b)
  {
    if a != [] {
      OthersIgnoreParents(a[1..], b[1..]);
    }
  }

  lemma {:induction false} OthersAppendParent(gs: seq<Guardian>, g: Guardian)
    requires !IsOther(g)
    ensures OtherGuardians(gs + [g]) == OtherGuardians(gs)
  {
    if gs == [] {
      assert [] + [g] == [g];
    } else {
      assert (gs + [g])[1..] == gs[1..] + [g];
      OthersAppendParent(gs[1..], g);
    }
  }

  /** Typing into the father's or the mother's inputs never changes the other guardians. */
  lemma ParentUpdateKeepsOthers(gs: seq<Guardian>, relation: string, field: GuardianField, value: string, newId: int)
    requires relation == Father || relation == Mother
    ensures OtherGuardians(Upserted(gs, relation, field, value, newId)) == OtherGuardians(gs)
  {
    var r := Upserted(gs, relation, field, value, newId);
    if FindRelation(gs, relation).Some? {
      OthersIgnoreParents(r, gs);
    } else {
      OthersAppendParent(gs, NewGuardian(newId, relation, field, value));
    }
  }

  /** "Add Guardian": one more guardian, of relation `Guardian`, with empty values. */
  function AddGuardian(gs: seq<Guardian>, newId: int): (r: seq<Guardian>)
    ensures r == gs + [Guardian(newId, "", "Guardian", "", "")]
    ensures OtherGuardians(r) == OtherGuardians(gs) + [Guardian(newId, "", "Guardian", "", "")]
  {
    OthersAppendOther(gs, Guardian(newId, "", "Guardian", "", ""));
    gs + [Guardian(newId, "", "Guardian", "", "")]
  }

  lemma {:induction false} OthersAppendOther(gs: seq<Guardian>, g: Guardian)
    requires IsOther(g)
    ensures OtherGuardians(gs + [g]) == OtherGuardians(gs) + [g]
  {
    if gs == [] {
      assert [] + [g] == [g];
    } else {
      assert (gs + [g])[1..] == gs[1..] + [g];
      OthersAppendOther(gs[1..], g);
    }
  }

  /** The delete button: `guardians.filter(g => g.id !== id)`. */
  function RemoveGuardian(gs: seq<Guardian>, id: int): (r: seq<Guardian>)
    ensures |r| <= |gs|
    ensures forall g :: g in r <==> g in gs && g.id != id
  {
    if gs == [] then []
    else if gs[0].id == id then RemoveGuardian(gs[1..], id)
    else [gs[0]] + RemoveGuardian(gs[1..], id)
  }
}

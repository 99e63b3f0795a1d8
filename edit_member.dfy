/** The edit dialog: a copy of the member's four fields, the same field checks as the create
    page (without the phone verification), a card lookup that skips the member itself, and the
    update whose returned row patches the list. */
module EditMember {
  import opened Records
  import opened Validators

  class EditMemberModal {
    const member: Member
    var form: MemberForm
    var errors: Errors

    constructor (member: Member)
      ensures this.member == member && form == FormOf(member) && errors == map[]
    {
      this.member := member;
      form := FormOf(member);
      errors := map[];
    }

    /** `validateForm`. */
    method ValidateForm() returns (isValid: bool)
      modifies this`errors
      ensures isValid <==> FormValid(form)
      ensures isValid <==> errors == map[]
      ensures forall f :: f in errors <==> FieldError(form, f).Some?
      ensures forall f :: f in errors ==> errors[f] == FieldError(form, f).value
    {
      errors, isValid := CheckFields(form);
    }

    /** `handleChange`. */
    method HandleChange(field: Field, value: string)
      modifies this`form, this`errors
      ensures form == SetField(old(form), field, value)
      ensures errors == old(errors) - {field}
    {
      form := SetField(form, field, value);
      errors := errors - {field};
    }

    /** A changed card number that another member holds blocks the update. */
    predicate CardTaken(members: seq<Member>): (r: bool)
      reads this
      ensures UniqueCards(members) ==>
        (r <==> form.card_number != member.card_number && HeldByOther(members, form.card_number, member.id))
    {
      if UniqueCards(members) then
        ReportedIffHeld(members, form.card_number, Some(member.id));
        form.card_number != member.card_number && Reported(members, form.card_number, Some(member.id))
      else
        form.card_number != member.card_number && Reported(members, form.card_number, Some(member.id))
    }

    /** `handleSubmit`: validate, check a changed card against the other members, update the
        row and hand back what the store returned with the original creation time. `fault` is
        the update's reply. */
    method HandleSubmit(db: Backend?, fault: bool) returns (saved: Option<Member>)
      modifies this`errors, db
      ensures saved.Some? <==>
        FormValid(form) && db != null && !CardTaken(old(db.members)) && !fault
        && IndexOfId(old(db.members), member.id).Some?
      ensures saved.Some? ==>
        FormOf(saved.value) == form && saved.value.id == member.id && saved.value.created_at == member.created_at
      ensures saved.Some? ==>
        IndexOfId(old(db.members), member.id).value < |db.members|
        && saved.value == db.members[IndexOfId(old(db.members), member.id).value].(created_at := member.created_at)
      ensures db != null ==> db.plays == old(db.plays)
      ensures db != null ==>
        db.members == if FormValid(form) && !CardTaken(old(db.members)) && !fault
                      then MembersUpdated(old(db.members), member.id, form) else old(db.members)
      ensures !FormValid(form) ==> errors != map[]
      ensures !FormValid(form) ==> forall f :: f in errors <==> FieldError(form, f).Some?
      ensures !FormValid(form) ==> forall f :: f in errors ==> errors[f] == FieldError(form, f).value
      ensures FormValid(form) ==>
        errors == if db != null && CardTaken(old(db.members)) then map[CardNumber := CardRegistered] else map[]
      ensures db != null && member in old(db.members) && UniqueCards(old(db.members)) && UniqueIds(old(db.members))
        ==> UniqueCards(db.members)
      ensures FormValid(form) && db != null && UniqueCards(old(db.members)) ==>
        (CardNumber in errors <==>
         form.card_number != member.card_number && HeldByOther(old(db.members), form.card_number, member.id))
    {
      saved := None;
      var ok := ValidateForm();
      if !ok {
        return;
      }
      if db == null {
        return;
      }
      if form.card_number != member.card_number {
        var existing := Reported(db.members, form.card_number, Some(member.id));
        if existing {
          errors := errors[CardNumber := CardRegistered];
          return;
        }
      }
      ghost var before := db.members;
      if member in before && UniqueCards(before) && UniqueIds(before) {
        UpdateSafe(before);
      }
      var row := db.UpdateMember(member.id, form, fault);
      if row.None? {
        return;
      }
      saved := Some(row.value.(created_at := member.created_at));
    }

    /** When the update goes ahead no other member holds the form's card. */
    lemma UpdateSafe(members: seq<Member>)
      requires member in members && UniqueCards(members) && UniqueIds(members)
      requires !CardTaken(members)
      ensures UniqueCards(MembersUpdated(members, member.id, form))
    {
      forall i | 0 <= i < |members| && members[i].id != member.id
        ensures members[i].card_number != form.card_number
      {
        if form.card_number == member.card_number {
          var k :| 0 <= k < |members| && members[k] == member;
          assert i != k;
        } else {
          ReportedIffHeld(members, form.card_number, Some(member.id));
          assert !Holds(members[i], form.card_number, Some(member.id));
        }
      }
      UpdateKeepsUnique(members, member.id, form);
    }
  }
}

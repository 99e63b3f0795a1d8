/** The member-list page: its list state, sorting and searching, and the delete, renew and
    edit actions that write to the store and patch or refetch the list. */
module MemberListPage {
  import opened Records
  import opened MemberList
  import opened WhatsApp

  class MemberListPage {
    var members: seq<Listed>
    var searchTerm: string
    var sortField: SortField
    var sortDirection: Direction
    /** The member awaiting the delete confirmation. */
    var deleting: Option<Member>
    /** The member awaiting the renewal confirmation. */
    var resetting: Option<Member>

    constructor ()
      ensures members == [] && searchTerm == "" && sortField == ByName && sortDirection == Asc
      ensures deleting == None && resetting == None
    {
      members := [];
      searchTerm := "";
      sortField := ByName;
      sortDirection := Asc;
      deleting := None;
      resetting := None;
    }

    /** The rows on screen. */
    function Shown(): (r: seq<Listed>)
      reads this
      ensures SortedBy(r, sortField, sortDirection)
      ensures multiset(r) == multiset(Filter(members, searchTerm))
      ensures forall l :: l in r <==> l in members && Matches(l, searchTerm)
    {
      Displayed(members, searchTerm, sortField, sortDirection)
    }

    /** The export covers the whole list, whatever the search box holds. */
    function Sheet(now: int): (r: ExportResult)
      reads this
      ensures r == NothingToExport <==> members == []
      ensures r.Sheet? ==> |r.rows| == |members|
      ensures r.Sheet? ==> forall i :: 0 <= i < |members| ==> r.rows[i].cardNumber == members[i].member.card_number
    {
      Export(members, now)
    }

    /** `fetchMembers`: both tables are read; a failing read leaves the list as it was. */
    method FetchMembers(db: Backend?, membersFault: bool, playsFault: bool)
      modifies this`members
      ensures db != null && !membersFault && !playsFault ==> members == Aggregate(db.members, db.plays)
      ensures db == null || membersFault || playsFault ==> members == old(members)
    {
      if db == null || membersFault || playsFault {
        return;
      }
      members := Aggregate(db.members, db.plays);
    }

    method HandleSort(clicked: SortField)
      modifies this`sortField, this`sortDirection
      ensures (sortField, sortDirection) == SortAfterClick(old(sortField), old(sortDirection), clicked)
    {
      if sortField == clicked {
        sortDirection := if sortDirection == Asc then Desc else Asc;
      } else {
        sortField := clicked;
        sortDirection := Asc;
      }
    }

    method HandleSearchChange(term: string)
      modifies this`searchTerm
      ensures searchTerm == term
      ensures forall now :: Sheet(now) == old(Sheet(now))
    {
      searchTerm := term;
    }

    /** The delete button opens the confirmation for that member. */
    method AskDelete(m: Member)
      modifies this`deleting
      ensures deleting == Some(m)
    {
      deleting := Some(m);
    }

    /** The renew button opens the confirmation for that member. */
    method AskReset(m: Member)
      modifies this`resetting
      ensures resetting == Some(m)
    {
      resetting := Some(m);
    }

    /** `handleDeleteMember`: the member's plays are deleted first and the member only if that
        succeeded; only a full success removes the row from the list. */
    method HandleDeleteMember(db: Backend?, playsFault: bool, memberFault: bool) returns (deleted: bool)
      modifies this`members, this`deleting, db
      ensures deleted <==> db != null && old(deleting).Some? && !playsFault && !memberFault
      ensures db == null || old(deleting).None? ==> deleting == old(deleting) && members == old(members)
      ensures db != null && old(deleting).None? ==> db.members == old(db.members) && db.plays == old(db.plays)
      ensures db != null && old(deleting).Some? ==> deleting == None
      ensures db != null && old(deleting).Some? ==>
        db.plays == (if playsFault then old(db.plays) else PlaysWithout(old(db.plays), old(deleting).value.id))
      ensures db != null && old(deleting).Some? ==>
        db.members == (if deleted then MembersWithout(old(db.members), old(deleting).value.id) else old(db.members))
      ensures members == if deleted then ListedWithout(old(members), old(deleting).value.id) else old(members)
      ensures db != null && Referenced(old(db.members), old(db.plays)) ==> Referenced(db.members, db.plays)
    {
      deleted := false;
      if db == null || deleting.None? {
        return;
      }
      var id := deleting.value.id;
      ghost var members0, plays0 := db.members, db.plays;
      if Referenced(members0, plays0) {
        DeleteKeepsReferenced(members0, plays0, id);
      }
      var playsOk := db.DeletePlaysOf(id, playsFault);
      if playsOk {
        var memberOk := db.DeleteMember(id, memberFault);
        if memberOk {
          members := ListedWithout(members, id);
          deleted := true;
        }
      }
      deleting := None;
    }

    /** `handleResetValidity`: the validity restarts at `now` and runs to `sixMonthsLater`; on
        success the renewal message goes to the member's WhatsApp number and the list is
        fetched again. */
    method HandleResetValidity(db: Backend?, now: int, sixMonthsLater: int, fault: bool,
                               membersFault: bool, playsFault: bool) returns (whatsApp: Option<string>)
      modifies this`members, this`resetting, db
      ensures whatsApp.Some? <==> db != null && old(resetting).Some? && !fault
      ensures whatsApp.Some? ==> whatsApp.value == WhatsAppNumber(old(resetting).value.phone)
      ensures db == null || old(resetting).None? ==> resetting == old(resetting) && members == old(members)
      ensures db != null ==> db.plays == old(db.plays)
      ensures db != null ==>
        db.members == if whatsApp.Some? then MembersRenewed(old(db.members), old(resetting).value.id, now, sixMonthsLater)
                      else old(db.members)
      ensures db != null && old(resetting).Some? ==> resetting == None
      ensures whatsApp.Some? && !membersFault && !playsFault ==> members == Aggregate(db.members, db.plays)
      ensures whatsApp.None? || membersFault || playsFault ==> members == old(members)
      ensures db != null && UniqueCards(old(db.members)) ==> UniqueCards(db.members)
      ensures db != null && UniqueIds(old(db.members)) ==> UniqueIds(db.members)
      ensures db != null && Referenced(old(db.members), old(db.plays)) ==> Referenced(db.members, db.plays)
    {
      whatsApp := None;
      if db == null || resetting.None? {
        return;
      }
      var m := resetting.value;
      RenewKeepsInvariants(db.members, db.plays, m.id, now, sixMonthsLater);
      var ok := db.RenewMember(m.id, now, sixMonthsLater, fault);
      if ok {
        whatsApp := Some(WhatsAppNumber(m.phone));
        FetchMembers(db, membersFault, playsFault);
      }
      resetting := None;
    }

    /** The edit dialog's `onSave`: patch the list with the saved row. */
    method OnEditSaved(updated: Member)
      modifies this`members
      ensures members == ApplyEdit(old(members), updated)
    {
      members := ApplyEdit(members, updated);
    }
  }
}

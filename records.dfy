/** The rows of the two tables (`members`, `play_history`) and an in-memory stand-in for
    the hosted record store that holds them. Timestamps are integer milliseconds. */
module Records {

  datatype Option<T> = None | Some(value: T)

  /** A row of `members`. */
  datatype Member = Member(
    id: string,
    created_at: int,
    full_name: string,
    card_number: string,
    phone: string,
    email: string,
    validity_start: int,
    validity_end: int)

  /** A row of `play_history`. */
  datatype PlayRecord = PlayRecord(
    id: string,
    created_at: int,
    member_id: string,
    play_date: int,
    is_free_play: bool)

  /** A member as the member list shows it (MemberWithPlayCount). */
  datatype Listed = Listed(member: Member, play_count: nat, last_played: Option<int>)

  /** The four fields the staff fill in when creating or editing a member. */
  datatype MemberForm = MemberForm(full_name: string, card_number: string, phone: string, email: string)

  function FormOf(m: Member): MemberForm {
    MemberForm(m.full_name, m.card_number, m.phone, m.email)
  }

  /** The columns the store fills in itself when a member row is inserted. */
  datatype Stamp = Stamp(id: string, created_at: int, validity_start: int, validity_end: int)

  /** The row stored for `insert([form])`. */
  function NewMember(form: MemberForm, stamp: Stamp): (m: Member)
    ensures FormOf(m) == form && m.id == stamp.id && m.created_at == stamp.created_at
    ensures m.validity_start == stamp.validity_start && m.validity_end == stamp.validity_end
  {
    Member(stamp.id, stamp.created_at, form.full_name, form.card_number, form.phone, form.email,
           stamp.validity_start, stamp.validity_end)
  }

  /** A value of `Math.random()`. */
  predicate Draw(u: real) {
    0.0 <= u < 1.0
  }

  predicate Draws(us: seq<real>) {
    forall i :: 0 <= i < |us| ==> Draw(us[i])
  }

  // ------------------------------------------------------ card lookups

  /** Row `m` matches `.eq('card_number', card)` and, when given, `.neq('id', except)`. */
  predicate Holds(m: Member, card: string, except: Option<string>) {
    m.card_number == card && (except.None? || m.id != except.value)
  }

  function CardHolders(members: seq<Member>, card: string, except: Option<string>): nat {
    if members == [] then 0
    else (if Holds(members[0], card, except) then 1 else 0) + CardHolders(members[1..], card, except)
  }

  /** A `maybeSingle()` card lookup whose error is ignored: it yields a row only when exactly
      one row matches (no row gives null, several rows give an error and null). */
  predicate Reported(members: seq<Member>, card: string, except: Option<string>) {
    CardHolders(members, card, except) == 1
  }

  /** No two rows of `members` share a card number. */
  predicate UniqueCards(members: seq<Member>) {
    forall i, j :: 0 <= i < j < |members| ==> members[i].card_number != members[j].card_number
  }

  lemma {:induction false} CardHoldersPositive(members: seq<Member>, card: string, except: Option<string>)
    ensures CardHolders(members, card, except) > 0 <==>
      exists i :: 0 <= i < |members| && Holds(members[i], card, except)
  {
    if members != [] {
      CardHoldersPositive(members[1..], card, except);
      if exists i :: 0 <= i < |members| && Holds(members[i], card, except) {
        var i :| 0 <= i < |members| && Holds(members[i], card, except);
        if i > 0 {
          assert Holds(members[1..][i - 1], card, except);
        }
      }
      if CardHolders(members[1..], card, except) > 0 {
        var i :| 0 <= i < |members| - 1 && Holds(members[1..][i], card, except);
        assert Holds(members[i + 1], card, except);
      }
    }
  }

  lemma {:induction false} CardHoldersAtMostOne(members: seq<Member>, card: string, except: Option<string>)
    requires UniqueCards(members)
    ensures CardHolders(members, card, except) <= 1
  {
    if members != [] {
      assert UniqueCards(members[1..]) by {
        forall i, j | 0 <= i < j < |members| - 1
          ensures members[1..][i].card_number != members[1..][j].card_number
        {
          assert members[1..][i] == members[i + 1] && members[1..][j] == members[j + 1];
        }
      }
      CardHoldersAtMostOne(members[1..], card, except);
      if Holds(members[0], card, except) {
        CardHoldersPositive(members[1..], card, except);
        forall i | 0 <= i < |members| - 1 ensures !Holds(members[1..][i], card, except) {
          assert members[1..][i] == members[i + 1];
        }
      }
    }
  }

  /** While card numbers are unique, a lookup reports a card exactly when some matching row holds it. */
  lemma ReportedIffHeld(members: seq<Member>, card: string, except: Option<string>)
    requires UniqueCards(members)
    ensures Reported(members, card, except) <==>
      exists i :: 0 <= i < |members| && Holds(members[i], card, except)
  {
    CardHoldersPositive(members, card, except);
    CardHoldersAtMostOne(members, card, except);
  }

  /** Some row other than the one with id `id` holds the card. */
  predicate HeldByOther(members: seq<Member>, card: string, id: string) {
    exists i :: 0 <= i < |members| && members[i].id != id && members[i].card_number == card
  }

  /** Some row holds the card. */
  predicate Held(members: seq<Member>, card: string) {
    exists i :: 0 <= i < |members| && members[i].card_number == card
  }

  /** Member ids are unique (the table's primary key). */
  predicate UniqueIds(members: seq<Member>) {
    forall i, j :: 0 <= i < j < |members| ==> members[i].id != members[j].id
  }

  /** Updating one member to a card no other member holds keeps card numbers unique. */
  lemma UpdateKeepsUnique(members: seq<Member>, id: string, form: MemberForm)
    requires UniqueCards(members) && UniqueIds(members)
    requires forall i :: 0 <= i < |members| && members[i].id != id ==> members[i].card_number != form.card_number
    ensures UniqueCards(MembersUpdated(members, id, form))
  {
    var r := MembersUpdated(members, id, form);
    forall i, j | 0 <= i < j < |r| ensures r[i].card_number != r[j].card_number {
      if members[i].id == id {
        assert members[j].id != id;
      }
    }
  }

  /** Appending a row whose card nobody holds keeps card numbers unique. */
  lemma AppendKeepsUnique(members: seq<Member>, row: Member)
    requires UniqueCards(members)
    requires forall i :: 0 <= i < |members| ==> members[i].card_number != row.card_number
    ensures UniqueCards(members + [row])
  {
  }

  // ------------------------------------------------------ row filters

  /** `play_history` after `.delete().eq('member_id', id)`. */
  function PlaysWithout(plays: seq<PlayRecord>, id: string): (r: seq<PlayRecord>)
    ensures |r| <= |plays|
    ensures forall p :: p in r <==> p in plays && p.member_id != id
  {
    if plays == [] then []
    else (if plays[0].member_id == id then [] else [plays[0]]) + PlaysWithout(plays[1..], id)
  }

  /** `plays.filter(play => play.member_id === id)`, in table order. */
  function PlaysOf(plays: seq<PlayRecord>, id: string): (r: seq<PlayRecord>)
    ensures |r| <= |plays|
    ensures forall p :: p in r <==> p in plays && p.member_id == id
  {
    if plays == [] then []
    else (if plays[0].member_id == id then [plays[0]] else []) + PlaysOf(plays[1..], id)
  }

  /** The member filter works row by row, so it distributes over concatenation. */
  lemma {:induction false} PlaysOfConcat(a: seq<PlayRecord>, b: seq<PlayRecord>, id: string)
    ensures PlaysOf(a + b, id) == PlaysOf(a, id) + PlaysOf(b, id)
  {
    if a == [] {
      assert a + b == b;
    } else {
      assert (a + b)[0] == a[0] && (a + b)[1..] == a[1..] + b;
      PlaysOfConcat(a[1..], b, id);
    }
  }

  /** A new row joins the end of its own member's plays and no one else's. */
  lemma PlaysOfAppend(plays: seq<PlayRecord>, p: PlayRecord, id: string)
    ensures PlaysOf(plays + [p], id) == PlaysOf(plays, id) + (if p.member_id == id then [p] else [])
  {
    PlaysOfConcat(plays, [p], id);
    assert PlaysOf([p], id) == (if p.member_id == id then [p] else []) + PlaysOf([], id);
  }

  /** `members` after `.delete().eq('id', id)`. */
  function MembersWithout(members: seq<Member>, id: string): (r: seq<Member>)
    ensures |r| <= |members|
    ensures forall m :: m in r <==> m in members && m.id != id
  {
    if members == [] then []
    else (if members[0].id == id then [] else [members[0]]) + MembersWithout(members[1..], id)
  }

  /** The delete of plays works row by row, so it keeps the table order of what remains. */
  lemma {:induction false} PlaysWithoutAppend(a: seq<PlayRecord>, b: seq<PlayRecord>, id: string)
    ensures PlaysWithout(a + b, id) == PlaysWithout(a, id) + PlaysWithout(b, id)
  {
    if a == [] {
      assert a + b == b;
    } else {
      assert (a + b)[0] == a[0] && (a + b)[1..] == a[1..] + b;
      PlaysWithoutAppend(a[1..], b, id);
    }
  }

  /** The delete of a member works row by row, so it keeps the table order of what remains. */
  lemma {:induction false} MembersWithoutAppend(a: seq<Member>, b: seq<Member>, id: string)
    ensures MembersWithout(a + b, id) == MembersWithout(a, id) + MembersWithout(b, id)
  {
    if a == [] {
      assert a + b == b;
    } else {
      assert (a + b)[0] == a[0] && (a + b)[1..] == a[1..] + b;
      MembersWithoutAppend(a[1..], b, id);
    }
  }

  /** `members` after `.update(form).eq('id', id)`: every row with that id takes the four fields. */
  function MembersUpdated(members: seq<Member>, id: string, form: MemberForm): (r: seq<Member>)
    ensures |r| == |members|
    ensures forall i :: 0 <= i < |r| ==>
      r[i] == if members[i].id == id
              then members[i].(full_name := form.full_name, card_number := form.card_number,
                               phone := form.phone, email := form.email)
              else members[i]
  {
    seq(|members|, i requires 0 <= i < |members| =>
      if members[i].id == id
      then members[i].(full_name := form.full_name, card_number := form.card_number,
                       phone := form.phone, email := form.email)
      else members[i])
  }

  /** `members` after `.update({validity_start, validity_end}).eq('id', id)`. */
  function MembersRenewed(members: seq<Member>, id: string, start: int, end: int): (r: seq<Member>)
    ensures |r| == |members|
    ensures forall i :: 0 <= i < |r| ==>
      r[i] == if members[i].id == id then members[i].(validity_start := start, validity_end := end)
              else members[i]
  {
    seq(|members|, i requires 0 <= i < |members| =>
      if members[i].id == id then members[i].(validity_start := start, validity_end := end)
      else members[i])
  }

  function IndexOfId(members: seq<Member>, id: string): (r: Option<nat>)
    ensures r.Some? ==> r.value < |members| && members[r.value].id == id
    ensures r.Some? ==> forall j :: 0 <= j < r.value ==> members[j].id != id
    ensures r.None? ==> forall j :: 0 <= j < |members| ==> members[j].id != id
  {
    if members == [] then None
    else if members[0].id == id then Some(0)
    else match IndexOfId(members[1..], id)
         case None => None
         case Some(k) => Some(k + 1)
  }

  // ------------------------------------------------------ the foreign key

  predicate HasId(members: seq<Member>, id: string) {
    exists m :: m in members && m.id == id
  }

  /** Every play belongs to a member that exists (`play_history.member_id` references
      `members.id`). */
  predicate Referenced(members: seq<Member>, plays: seq<PlayRecord>) {
    forall p :: p in plays ==> HasId(members, p.member_id)
  }

  /** Deleting a member's plays first, then the member, leaves no play without its member. */
  lemma DeleteKeepsReferenced(members: seq<Member>, plays: seq<PlayRecord>, id: string)
    requires Referenced(members, plays)
    ensures Referenced(members, PlaysWithout(plays, id))
    ensures Referenced(MembersWithout(members, id), PlaysWithout(plays, id))
  {
    forall p | p in PlaysWithout(plays, id) ensures HasId(MembersWithout(members, id), p.member_id) {
      var m :| m in members && m.id == p.member_id;
      assert m in MembersWithout(members, id);
    }
  }

  /** A play for an existing member keeps every play owned. */
  lemma AddPlayKeepsReferenced(members: seq<Member>, plays: seq<PlayRecord>, row: PlayRecord)
    requires Referenced(members, plays) && HasId(members, row.member_id)
    ensures Referenced(members, plays + [row])
  {
  }

  /** A renewal touches only the validity window, so card numbers, ids and the plays' owners
      stay as they were. */
  lemma RenewKeepsInvariants(members: seq<Member>, plays: seq<PlayRecord>, id: string, start: int, end: int)
    ensures UniqueCards(members) ==> UniqueCards(MembersRenewed(members, id, start, end))
    ensures UniqueIds(members) ==> UniqueIds(MembersRenewed(members, id, start, end))
    ensures Referenced(members, plays) ==> Referenced(MembersRenewed(members, id, start, end), plays)
  {
    var r := MembersRenewed(members, id, start, end);
    assert forall i :: 0 <= i < |r| ==> r[i].id == members[i].id && r[i].card_number == members[i].card_number;
    if Referenced(members, plays) {
      forall p | p in plays ensures HasId(r, p.member_id) {
        var m :| m in members && m.id == p.member_id;
        var k :| 0 <= k < |members| && members[k] == m;
        assert r[k] in r && r[k].id == p.member_id;
      }
    }
  }

  // ------------------------------------------------------ the store

  /** The hosted record store, reduced to its two tables. Every write takes a `fault` flag:
      the store's reply to that call, which is outside the application. A faulted call
      writes nothing. */
  class Backend {
    var members: seq<Member>
    var plays: seq<PlayRecord>

    constructor (members: seq<Member>, plays: seq<PlayRecord>)
      ensures this.members == members && this.plays == plays
    {
      this.members := members;
      this.plays := plays;
    }

    /** `from('members').insert([row])`. */
    method InsertMember(row: Member, fault: bool) returns (ok: bool)
      modifies this
      ensures ok == !fault
      ensures members == if ok then old(members) + [row] else old(members)
      ensures plays == old(plays)
    {
      ok := !fault;
      if ok {
        members := members + [row];
      }
    }

    /** `from('members').update(form).eq('id', id).select().single()`: the returned row,
        or none when the call faulted or no row has that id. */
    method UpdateMember(id: string, form: MemberForm, fault: bool) returns (row: Option<Member>)
      modifies this
      ensures members == if fault then old(members) else MembersUpdated(old(members), id, form)
      ensures plays == old(plays)
      ensures row.Some? <==> !fault && IndexOfId(old(members), id).Some?
      ensures row.Some? ==> row.value == members[IndexOfId(old(members), id).value]
    {
      row := None;
      if !fault {
        var k := IndexOfId(members, id);
        members := MembersUpdated(members, id, form);
        if k.Some? {
          row := Some(members[k.value]);
        }
      }
    }

    /** `from('members').update({validity_start, validity_end}).eq('id', id)`. */
    method RenewMember(id: string, start: int, end: int, fault: bool) returns (ok: bool)
      modifies this
      ensures ok == !fault
      ensures members == if ok then MembersRenewed(old(members), id, start, end) else old(members)
      ensures plays == old(plays)
    {
      ok := !fault;
      if ok {
        members := MembersRenewed(members, id, start, end);
      }
    }

    /** `from('members').delete().eq('id', id)`. */
    method DeleteMember(id: string, fault: bool) returns (ok: bool)
      modifies this
      ensures ok == !fault
      ensures members == if ok then MembersWithout(old(members), id) else old(members)
      ensures plays == old(plays)
    {
      ok := !fault;
      if ok {
        members := MembersWithout(members, id);
      }
    }

    /** `from('play_history').insert([row])`. */
    method InsertPlay(row: PlayRecord, fault: bool) returns (ok: bool)
      modifies this
      ensures ok == !fault
      ensures plays == if ok then old(plays) + [row] else old(plays)
      ensures members == old(members)
    {
      ok := !fault;
      if ok {
        plays := plays + [row];
      }
    }

    /** `from('play_history').delete().eq('member_id', id)`. */
    method DeletePlaysOf(id: string, fault: bool) returns (ok: bool)
      modifies this
      ensures ok == !fault
      ensures plays == if ok then PlaysWithout(old(plays), id) else old(plays)
      ensures members == old(members)
    {
      ok := !fault;
      if ok {
        plays := PlaysWithout(plays, id);
      }
    }
  }
}

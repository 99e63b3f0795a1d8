/** What the member list computes from the two tables: each member's play count and last play,
    the validity badge, the search filter, the column sort and the spreadsheet export. */
module MemberList {
  import opened Text
  import opened Records
  import opened FreePlay

  // ------------------------------------------------- play aggregation

  /** `Math.max(...plays.map(play_date))`, or nothing for no plays. */
  function LatestPlay(rs: seq<PlayRecord>): (r: Option<int>)
    ensures r.None? <==> rs == []
    ensures r.Some? ==> exists i :: 0 <= i < |rs| && rs[i].play_date == r.value
    ensures r.Some? ==> forall i :: 0 <= i < |rs| ==> rs[i].play_date <= r.value
  {
    if rs == [] then None
    else
      var rest := LatestPlay(rs[1..]);
      assert forall i :: 0 < i < |rs| ==> rs[i] == rs[1..][i - 1];
      match rest
      case None => Some(rs[0].play_date)
      case Some(t) => Some(if rs[0].play_date >= t then rs[0].play_date else t)
  }

  /** `membersWithPlayCount`: every member, in fetched order, with the number of its plays and
      the date of its latest one. */
  function Aggregate(members: seq<Member>, plays: seq<PlayRecord>): (r: seq<Listed>)
    ensures |r| == |members|
    ensures forall i :: 0 <= i < |r| ==> r[i].member == members[i]
    ensures forall i :: 0 <= i < |r| ==> r[i].play_count == |PlaysOf(plays, members[i].id)|
    ensures forall i :: 0 <= i < |r| ==> r[i].last_played == LatestPlay(PlaysOf(plays, members[i].id))
  {
    seq(|members|, i requires 0 <= i < |members| =>
      Listed(members[i], |PlaysOf(plays, members[i].id)|, LatestPlay(PlaysOf(plays, members[i].id))))
  }

  // ------------------------------------------------- validity badge

  /** Milliseconds in a day, `1000 * 60 * 60 * 24`. */
  const DayMs: int := 86400000

  /** `Math.ceil(a / b)` for a positive divisor. */
  function CeilDiv(a: int, b: int): (q: int)
    requires b > 0
    ensures b * (q - 1) < a <= b * q
  {
    var f := (-a) / b;
    assert b * f <= -a < b * f + b;
    -f
  }

  datatype Status = Expired | Expiring(days: nat) | Active(days: nat)

  /** `getValidityStatus`: the whole days left, rounded up, decide the badge. */
  function ValidityStatus(validityEnd: int, now: int): (s: Status)
    ensures s == Expired <==> validityEnd - now <= -DayMs
    ensures s.Expiring? <==> -DayMs < validityEnd - now <= 30 * DayMs
    ensures s.Active? <==> 30 * DayMs < validityEnd - now
    ensures !s.Expired? ==> DayMs * (s.days - 1) < validityEnd - now <= DayMs * s.days
  {
    var daysLeft := CeilDiv(validityEnd - now, DayMs);
    if daysLeft < 0 then Expired
    else if daysLeft <= 30 then Expiring(daysLeft)
    else Active(daysLeft)
  }

  function Rank(s: Status): nat {
    match s
    case Expired => 0
    case Expiring(_) => 1
    case Active(_) => 2
  }

  /** As time passes a badge only gets worse, and the days left never grow. */
  lemma ValidityStatusMonotone(validityEnd: int, now: int, later: int)
    requires now <= later
    ensures Rank(ValidityStatus(validityEnd, later)) <= Rank(ValidityStatus(validityEnd, now))
    ensures !ValidityStatus(validityEnd, later).Expired? ==>
      ValidityStatus(validityEnd, later).days <= ValidityStatus(validityEnd, now).days
  {
    var s, t := ValidityStatus(validityEnd, now), ValidityStatus(validityEnd, later);
    if !t.Expired? {
      assert DayMs * (t.days - 1) < validityEnd - later <= validityEnd - now <= DayMs * s.days;
    }
  }

  /** The badge at its boundaries. A membership that ended under a day ago still shows
      "0 days left" as expiring, because the rounding goes up to zero and only negative counts
      are expired. */
  lemma ValidityBoundaries(now: int)
    ensures ValidityStatus(now - 1000, now) == Expiring(0)
    ensures ValidityStatus(now - DayMs, now) == Expired
    ensures ValidityStatus(now + 30 * DayMs, now) == Expiring(30)
    ensures ValidityStatus(now + 31 * DayMs, now) == Active(31)
  {
  }

  /** The badge's text. */
  function StatusText(s: Status): (t: string)
    ensures s.Expired? <==> t == "Expired"
    ensures !s.Expired? ==> t == Decimal(s.days) + " days left"
  {
    match s
    case Expired => "Expired"
    case Expiring(d) => Decimal(d) + " days left"
    case Active(d) => Decimal(d) + " days left"
  }

  // ------------------------------------------------- spreadsheet export

  /** The ten columns of the exported sheet, in order. */
  const ExportHeader: seq<string> := ["Card Number", "Full Name", "Phone", "Email", "Validity Start",
    "Validity End", "Status", "Total Plays", "Free Plays Available", "Member Since"]

  /** The header has one distinct name per field of ExportRow, in the same order. */
  lemma ExportHeaderColumns()
    ensures |ExportHeader| == 10
    ensures forall i, j :: 0 <= i < j < |ExportHeader| ==> ExportHeader[i] != ExportHeader[j]
    ensures ExportHeader[0] == "Card Number" && ExportHeader[6] == "Status" && ExportHeader[9] == "Member Since"
  {
  }

  datatype ExportRow = ExportRow(
    cardNumber: string, fullName: string, phone: string, email: string,
    validityStart: int, validityEnd: int, status: string,
    totalPlays: nat, freePlays: nat, memberSince: int)

  datatype ExportResult = NothingToExport | Sheet(rows: seq<ExportRow>)

  function ExportRowOf(l: Listed, now: int): ExportRow {
    ExportRow(l.member.card_number, l.member.full_name, l.member.phone, l.member.email,
      l.member.validity_start, l.member.validity_end,
      StatusText(ValidityStatus(l.member.validity_end, now)),
      l.play_count, FreePlaysAvailable(l.play_count), l.member.created_at)
  }

  /** `exportToExcel`: refused for an empty list, otherwise one row per listed member. */
  function Export(listed: seq<Listed>, now: int): (r: ExportResult)
    ensures r == NothingToExport <==> listed == []
    ensures r.Sheet? ==> |r.rows| == |listed|
    ensures r.Sheet? ==> forall i :: 0 <= i < |listed| ==>
      r.rows[i].cardNumber == listed[i].member.card_number && r.rows[i].totalPlays == listed[i].play_count
      && 6 * r.rows[i].freePlays <= r.rows[i].totalPlays < 6 * r.rows[i].freePlays + 6
      && (r.rows[i].status == "Expired" <==> listed[i].member.validity_end - now <= -DayMs)
    ensures r.Sheet? ==> forall i :: 0 <= i < |listed| ==>
      r.rows[i].fullName == listed[i].member.full_name && r.rows[i].phone == listed[i].member.phone
      && r.rows[i].email == listed[i].member.email
      && r.rows[i].validityStart == listed[i].member.validity_start
      && r.rows[i].validityEnd == listed[i].member.validity_end
      && r.rows[i].memberSince == listed[i].member.created_at
      && r.rows[i].status == StatusText(ValidityStatus(listed[i].member.validity_end, now))
      && r.rows[i].freePlays == FreePlaysAvailable(listed[i].play_count)
  {
    if listed == [] then NothingToExport
    else Sheet(seq(|listed|, i requires 0 <= i < |listed| => ExportRowOf(listed[i], now)))
  }

  /** For plays recorded through the add-play dialog, the free plays the sheet reports are the
      plays stored as free. */
  lemma ExportFreePlaysAreFlagged(members: seq<Member>, plays: seq<PlayRecord>, now: int, i: nat)
    requires i < |members|
    requires FlagsFollowCount(PlaysOf(plays, members[i].id))
    ensures Export(Aggregate(members, plays), now).Sheet?
    ensures Export(Aggregate(members, plays), now).rows[i].freePlays == FreeCount(PlaysOf(plays, members[i].id))
  {
    FreeCountIsAvailable(PlaysOf(plays, members[i].id));
  }

  // ------------------------------------------------- search

  /** A member is shown when the term occurs in its name or e-mail (ignoring case) or in its
      card number or phone (as typed). */
  predicate Matches(l: Listed, term: string) {
    Includes(Lower(l.member.full_name), Lower(term))
    || Includes(l.member.card_number, term)
    || Includes(l.member.phone, term)
    || Includes(Lower(l.member.email), Lower(term))
  }

  function Filter(listed: seq<Listed>, term: string): (r: seq<Listed>)
    ensures |r| <= |listed|
    ensures forall l :: l in r <==> l in listed && Matches(l, term)
  {
    if listed == [] then []
    else (if Matches(listed[0], term) then [listed[0]] else []) + Filter(listed[1..], term)
  }

  /** An empty search box shows everyone. */
  lemma {:induction false} FilterEmptyTerm(listed: seq<Listed>)
    ensures Filter(listed, "") == listed
  {
    if listed != [] {
      assert Lower("") == "";
      IncludesEmpty(Lower(listed[0].member.full_name));
      FilterEmptyTerm(listed[1..]);
    }
  }

  /** Searching again for the same term changes nothing. */
  lemma {:induction false} FilterIdempotent(listed: seq<Listed>, term: string)
    ensures Filter(Filter(listed, term), term) == Filter(listed, term)
  {
    if listed != [] {
      FilterIdempotent(listed[1..], term);
      var head := if Matches(listed[0], term) then [listed[0]] else [];
      FilterAppend(head, Filter(listed[1..], term), term);
    }
  }

  lemma {:induction false} FilterAppend(s: seq<Listed>, t: seq<Listed>, term: string)
    ensures Filter(s + t, term) == Filter(s, term) + Filter(t, term)
  {
    if s == [] {
      assert s + t == t;
    } else {
      assert (s + t)[0] == s[0] && (s + t)[1..] == s[1..] + t;
      FilterAppend(s[1..], t, term);
    }
  }

  // ------------------------------------------------- column sort

  /** The two sortable columns. */
  datatype SortField = ByName | ByCard

  datatype Direction = Asc | Desc

  function Key(l: Listed, f: SortField): string {
    match f
    case ByName => l.member.full_name
    case ByCard => l.member.card_number
  }

  /** The comparator `a.localeCompare(b)` (ascending) or `b.localeCompare(a)` (descending)
      puts `a` no later than `b`. */
  predicate InOrder(a: Listed, b: Listed, f: SortField, d: Direction) {
    match d
    case Asc => LexLe(Key(a, f), Key(b, f))
    case Desc => LexLe(Key(b, f), Key(a, f))
  }

  predicate SortedBy(s: seq<Listed>, f: SortField, d: Direction) {
    forall i, j :: 0 <= i < j < |s| ==> InOrder(s[i], s[j], f, d)
  }

  lemma InOrderTotal(a: Listed, b: Listed, f: SortField, d: Direction)
    ensures InOrder(a, b, f, d) || InOrder(b, a, f, d)
  {
    LexLeTotal(Key(a, f), Key(b, f));
  }

  lemma InOrderTrans(a: Listed, b: Listed, c: Listed, f: SortField, d: Direction)
    requires InOrder(a, b, f, d) && InOrder(b, c, f, d)
    ensures InOrder(a, c, f, d)
  {
    match d
    case Asc => LexLeTrans(Key(a, f), Key(b, f), Key(c, f));
    case Desc => LexLeTrans(Key(c, f), Key(b, f), Key(a, f));
  }

  /** `a` may come before every element of `s`. */
  predicate Precedes(a: Listed, s: seq<Listed>, f: SortField, d: Direction) {
    forall j :: 0 <= j < |s| ==> InOrder(a, s[j], f, d)
  }

  lemma SortedCons(a: Listed, s: seq<Listed>, f: SortField, d: Direction)
    requires Precedes(a, s, f, d) && SortedBy(s, f, d)
    ensures SortedBy([a] + s, f, d)
  {
    var t := [a] + s;
    forall i, j | 0 <= i < j < |t| ensures InOrder(t[i], t[j], f, d) {
      assert t[j] == s[j - 1];
      if i > 0 { assert t[i] == s[i - 1]; }
    }
  }

  lemma SortedTail(s: seq<Listed>, f: SortField, d: Direction)
    requires s != [] && SortedBy(s, f, d)
    ensures SortedBy(s[1..], f, d) && Precedes(s[0], s[1..], f, d)
  {
    forall i, j | 0 <= i < j < |s| - 1 ensures InOrder(s[1..][i], s[1..][j], f, d) {
      assert s[1..][i] == s[i + 1] && s[1..][j] == s[j + 1];
    }
    forall j | 0 <= j < |s| - 1 ensures InOrder(s[0], s[1..][j], f, d) {
      assert s[1..][j] == s[j + 1];
    }
  }

  lemma PrecedesByMultiset(a: Listed, x: Listed, xs: seq<Listed>, ys: seq<Listed>, f: SortField, d: Direction)
    requires Precedes(a, ys, f, d) && InOrder(a, x, f, d)
    requires multiset(xs) == multiset(ys) + multiset{x}
    ensures Precedes(a, xs, f, d)
  {
    forall j | 0 <= j < |xs| ensures InOrder(a, xs[j], f, d) {
      assert xs[j] in multiset(xs);
      if xs[j] != x {
        assert xs[j] in multiset(ys);
        var k :| 0 <= k < |ys| && ys[k] == xs[j];
      }
    }
  }

  lemma PrecedesBySorted(x: Listed, s: seq<Listed>, f: SortField, d: Direction)
    requires s != [] && SortedBy(s, f, d) && InOrder(x, s[0], f, d)
    ensures Precedes(x, s, f, d)
  {
    forall j | 0 <= j < |s| ensures InOrder(x, s[j], f, d) {
      if j > 0 { InOrderTrans(x, s[0], s[j], f, d); }
    }
  }

  /** Insert `x` before the first element it may precede. */
  function Insert(x: Listed, s: seq<Listed>, f: SortField, d: Direction): (r: seq<Listed>)
    requires SortedBy(s, f, d)
    ensures SortedBy(r, f, d)
    ensures multiset(r) == multiset(s) + multiset{x}
  {
    if s == [] then [x]
    else if InOrder(x, s[0], f, d) then
      PrecedesBySorted(x, s, f, d);
      SortedCons(x, s, f, d);
      [x] + s
    else
      SortedTail(s, f, d);
      var rest := Insert(x, s[1..], f, d);
      InOrderTotal(x, s[0], f, d);
      PrecedesByMultiset(s[0], x, rest, s[1..], f, d);
      SortedCons(s[0], rest, f, d);
      assert s == [s[0]] + s[1..];
      [s[0]] + rest
  }

  /** The list's `.sort(...)`: a sorted rearrangement of its input. */
  function SortList(s: seq<Listed>, f: SortField, d: Direction): (r: seq<Listed>)
    ensures SortedBy(r, f, d)
    ensures multiset(r) == multiset(s)
  {
    if s == [] then []
    else
      assert s == [s[0]] + s[1..];
      Insert(s[0], SortList(s[1..], f, d), f, d)
  }

  /** `filteredMembers`: the matching members, each as often as listed, in column order. */
  function Displayed(listed: seq<Listed>, term: string, f: SortField, d: Direction): (r: seq<Listed>)
    ensures SortedBy(r, f, d)
    ensures forall l :: l in r <==> l in listed && Matches(l, term)
    ensures multiset(r) == multiset(Filter(listed, term))
    ensures |r| <= |listed|
  {
    var shown := Filter(listed, term);
    var r := SortList(shown, f, d);
    assert forall l :: l in r <==> l in multiset(shown);
    assert |r| == |multiset(r)| == |multiset(shown)| == |shown|;
    r
  }

  // ------------------------------------------------- pressing a column heading

  /** `handleSort`: the same heading flips the direction, another one sorts it ascending. */
  function SortAfterClick(field: SortField, dir: Direction, clicked: SortField): (r: (SortField, Direction))
    ensures r.0 == clicked
    ensures clicked == field ==> r.1 != dir
    ensures clicked != field ==> r.1 == Asc
  {
    if clicked == field then (field, if dir == Asc then Desc else Asc)
    else (clicked, Asc)
  }

  /** Pressing the same heading twice restores the order. */
  lemma SortClickTwice(field: SortField, dir: Direction)
    ensures var (f1, d1) := SortAfterClick(field, dir, field); SortAfterClick(f1, d1, field) == (field, dir)
  {
  }

  // ------------------------------------------------- local patches

  /** The `onSave` patch after an edit: the row with that id takes the saved fields and keeps
      its play count and last play. */
  function ApplyEdit(listed: seq<Listed>, updated: Member): (r: seq<Listed>)
    ensures |r| == |listed|
    ensures forall i :: 0 <= i < |r| ==> r[i].play_count == listed[i].play_count && r[i].last_played == listed[i].last_played
    ensures forall i :: 0 <= i < |r| ==> r[i].member == if listed[i].member.id == updated.id then updated else listed[i].member
  {
    seq(|listed|, i requires 0 <= i < |listed| =>
      if listed[i].member.id == updated.id then listed[i].(member := updated) else listed[i])
  }

  /** Patching the list with the row the store returned gives what fetching again would. */
  lemma EditPatchIsRefetch(members: seq<Member>, plays: seq<PlayRecord>, k: nat, form: MemberForm)
    requires UniqueIds(members) && k < |members|
    ensures ApplyEdit(Aggregate(members, plays), MembersUpdated(members, members[k].id, form)[k])
      == Aggregate(MembersUpdated(members, members[k].id, form), plays)
  {
    var updated := MembersUpdated(members, members[k].id, form);
    assert forall i :: 0 <= i < |members| && i != k ==> members[i].id != members[k].id;
    assert forall i :: 0 <= i < |members| ==> updated[i].id == members[i].id;
  }

  /** The list after a delete: `members.filter(m => m.id !== id)`. */
  function ListedWithout(listed: seq<Listed>, id: string): (r: seq<Listed>)
    ensures |r| <= |listed|
    ensures forall l :: l in r <==> l in listed && l.member.id != id
  {
    if listed == [] then []
    else (if listed[0].member.id == id then [] else [listed[0]]) + ListedWithout(listed[1..], id)
  }

  /** The delete patch works entry by entry, so it keeps the order of the remaining entries. */
  lemma {:induction false} ListedWithoutAppend(a: seq<Listed>, b: seq<Listed>, id: string)
    ensures ListedWithout(a + b, id) == ListedWithout(a, id) + ListedWithout(b, id)
  {
    if a == [] {
      assert a + b == b;
    } else {
      assert (a + b)[0] == a[0] && (a + b)[1..] == a[1..] + b;
      ListedWithoutAppend(a[1..], b, id);
    }
  }
}

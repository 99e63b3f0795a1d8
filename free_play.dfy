/** The loyalty rule: every sixth play of a member is free. The add-play dialog flags the play
    it records, the member list shows how far the next free play is, and the spreadsheet
    export reports how many free plays a member has earned. */
module FreePlay {
  import opened Records

  /** With `count` plays on record, the next one (number count + 1) is free:
      `nextPlayCount > 0 && nextPlayCount % 6 === 0`. */
  predicate NextIsFree(count: nat) {
    count + 1 > 0 && (count + 1) % 6 == 0
  }

  lemma NextIsFreeIff(count: nat)
    ensures NextIsFree(count) <==> count % 6 == 5
  {
  }

  /** `6 - ((count + 1) % 6)`: how many plays from the one about to be recorded to the next
      free one. */
  function UntilFree(count: nat): (k: nat)
    ensures 1 <= k <= 6
    ensures k == 6 <==> NextIsFree(count)
  {
    6 - (count + 1) % 6
  }

  /** UntilFree is the distance to the next free play, and it is never shown as 6. */
  lemma UntilFreeIsDistance(count: nat)
    requires !NextIsFree(count)
    ensures UntilFree(count) <= 5
    ensures NextIsFree(count + UntilFree(count))
    ensures forall n :: count <= n < count + UntilFree(count) ==> !NextIsFree(n)
  {
  }

  /** Exactly one play in any six consecutive ones is free. */
  lemma {:induction false} OneFreeInSix(count: nat)
    ensures exists n :: count <= n < count + 6 && NextIsFree(n)
    ensures forall m, n :: count <= m < n < count + 6 && NextIsFree(m) ==> !NextIsFree(n)
  {
    assert NextIsFree(count + (5 - count % 6));
  }

  /** `Math.floor(play_count / 6)`, the export's "Free Plays Available" column. */
  function FreePlaysAvailable(playCount: nat): (n: nat)
    ensures 6 * n <= playCount < 6 * n + 6
  {
    playCount / 6
  }

  // ------------------------------------------------- recorded flags

  /** The i-th play of a member (counting from 0) carries the flag the dialog computes from
      the i plays before it. */
  predicate FlagsFollowCount(rs: seq<PlayRecord>) {
    forall i :: 0 <= i < |rs| ==> rs[i].is_free_play == NextIsFree(i)
  }

  /** Recording a play with the flag computed from the plays before it keeps the flags in step. */
  lemma FlagsFollowAppend(rs: seq<PlayRecord>, row: PlayRecord)
    requires FlagsFollowCount(rs) && row.is_free_play == NextIsFree(|rs|)
    ensures FlagsFollowCount(rs + [row])
  {
    forall i | 0 <= i < |rs| + 1 ensures (rs + [row])[i].is_free_play == NextIsFree(i) {
      if i < |rs| {
        assert (rs + [row])[i] == rs[i];
      }
    }
  }

  /** The number of plays flagged free. */
  function FreeCount(rs: seq<PlayRecord>): (n: nat)
    ensures n <= |rs|
  {
    if rs == [] then 0
    else FreeCount(rs[..|rs| - 1]) + (if rs[|rs| - 1].is_free_play then 1 else 0)
  }

  /** Plays recorded through the dialog, one at a time, carry exactly as many free flags as
      the export reports. */
  lemma {:induction false} FreeCountIsAvailable(rs: seq<PlayRecord>)
    requires FlagsFollowCount(rs)
    ensures FreeCount(rs) == FreePlaysAvailable(|rs|)
  {
    if rs != [] {
      var init := rs[..|rs| - 1];
      assert FlagsFollowCount(init) by {
        forall i | 0 <= i < |init| ensures init[i].is_free_play == NextIsFree(i) {
          assert init[i] == rs[i];
        }
      }
      FreeCountIsAvailable(init);
      assert rs[|rs| - 1].is_free_play == NextIsFree(|rs| - 1);
    }
  }

  // ------------------------------------------------- what is shown

  datatype Hint = FreeNow | Until(plays: nat) | NoHint

  /** The play-count cell of the member list: "Free Play!" or "N until free", under the number
      of the next play. */
  function ListHint(playCount: nat): (h: Hint)
    ensures h == FreeNow <==> NextIsFree(playCount)
    ensures h.Until? ==> 1 <= h.plays <= 5 && NextIsFree(playCount + h.plays)
    ensures h == NoHint <==> playCount == 0
  {
    if (playCount + 1) % 6 == 0 && playCount > 0 then FreeNow
    else if playCount > 0 then Until(6 - (playCount + 1) % 6)
    else NoHint
  }

  /** The add-play dialog's line under the count: its free-play banner, or the plays left. */
  function DialogHint(playCount: nat, isFreePlay: bool): (h: Hint)
    ensures isFreePlay <==> h == FreeNow
    ensures !isFreePlay && playCount > 0 ==> h == Until(UntilFree(playCount))
    ensures !isFreePlay && playCount == 0 ==> h == NoHint
  {
    if isFreePlay then FreeNow
    else if playCount > 0 then Until(6 - (playCount + 1) % 6)
    else NoHint
  }

  /** Once the dialog has fetched the count, it tells the staff the same as the list does. */
  lemma DialogAgreesWithList(playCount: nat)
    ensures DialogHint(playCount, NextIsFree(playCount)) == ListHint(playCount)
  {
  }

  // ------------------------------------------------- the dialog

  class AddPlayModal {
    const member: Member
    var playCount: nat
    var isFreePlay: bool

    constructor (member: Member)
      ensures this.member == member && playCount == 0 && !isFreePlay
    {
      this.member := member;
      playCount := 0;
      isFreePlay := false;
    }

    /** `fetchPlayCount`: the number of the member's rows, and the free flag raised when the
        next play is a sixth one (it is never lowered again). `fault` is the store's reply. */
    method FetchPlayCount(db: Backend?, fault: bool)
      modifies this`playCount, this`isFreePlay
      ensures db == null || fault ==> playCount == old(playCount) && isFreePlay == old(isFreePlay)
      ensures db != null && !fault ==> playCount == |PlaysOf(db.plays, member.id)|
      ensures db != null && !fault ==> isFreePlay == (old(isFreePlay) || NextIsFree(playCount))
    {
      if db == null || fault {
        return;
      }
      var count := |PlaysOf(db.plays, member.id)|;
      playCount := count;
      if count + 1 > 0 && (count + 1) % 6 == 0 {
        isFreePlay := true;
      }
    }

    /** `handleSubmit`: insert one play for this member with the dialog's flag. */
    method HandleSubmit(db: Backend?, id: string, createdAt: int, playDate: int, fault: bool) returns (saved: bool)
      modifies db
      ensures saved <==> db != null && !fault
      ensures db != null ==> db.members == old(db.members)
      ensures db != null ==>
        db.plays == if saved then old(db.plays) + [PlayRecord(id, createdAt, member.id, playDate, isFreePlay)]
                    else old(db.plays)
      ensures db != null ==> forall other :: other != member.id ==> PlaysOf(db.plays, other) == PlaysOf(old(db.plays), other)
      ensures db != null && FlagsFollowCount(PlaysOf(old(db.plays), member.id))
        && playCount == |PlaysOf(old(db.plays), member.id)| && isFreePlay == NextIsFree(playCount)
        ==> FlagsFollowCount(PlaysOf(db.plays, member.id))
      ensures db != null && Referenced(old(db.members), old(db.plays)) && HasId(old(db.members), member.id)
        ==> Referenced(db.members, db.plays)
    {
      saved := false;
      if db == null {
        return;
      }
      var row := PlayRecord(id, createdAt, member.id, playDate, isFreePlay);
      var before := db.plays;
      saved := db.InsertPlay(row, fault);
      if saved {
        if Referenced(db.members, before) && HasId(db.members, member.id) {
          AddPlayKeepsReferenced(db.members, before, row);
        }
        forall other | true
          ensures PlaysOf(before + [row], other) == PlaysOf(before, other) + (if row.member_id == other then [row] else [])
        {
          PlaysOfAppend(before, row, other);
        }
        var mine := PlaysOf(before, member.id);
        if FlagsFollowCount(mine) && playCount == |mine| && isFreePlay == NextIsFree(playCount) {
          FlagsFollowAppend(mine, row);
        }
      }
    }
  }
}

/** The room view's member list, kept up to date in place by the handlers
    that the room's change notifications drive. The live room state is a
    collaborator: its members arrive as a sequence and its name resolution
    (`member_name`) as the function `resolve`, valid at the time of the call. */
module RoomViews {
  import opened Members
  import opened NameKey
  import opened MemberIndex

  class RoomView {
    /** Case folding used by the key (a library call). */
    const fold: string -> string
    /** The member list, indexed by comparison key. */
    var memberList: MemberList

    ghost predicate Valid()
      reads this
    {
      WellKeyed(fold, memberList)
    }

    /** Fills the member list from the live state's members. */
    constructor (fold: string -> string, members: seq<Member>, resolve: Member -> string)
      ensures Valid()
      ensures this.fold == fold
      ensures memberList == Build(fold, resolve, members)
    {
      this.fold := fold;
      memberList := map[];
      new;
      var i := 0;
      while i < |members|
        invariant 0 <= i <= |members|
        invariant memberList == Build(fold, resolve, members[..i])
      {
        var m := members[i];
        InsertMember(resolve(m), m);
        assert members[..i + 1][..i] == members[..i];
        i := i + 1;
      }
      assert members[..i] == members;
      BuildWellKeyed(fold, resolve, members);
    }

    /** Inserts `member` under `name` unless an equivalent name is listed. */
    method InsertMember(name: string, member: Member)
      modifies this
      ensures old(Valid()) ==> Valid()
      ensures memberList == Insert(fold, old(memberList), name, member)
    {
      if Valid() {
        InsertWellKeyed(fold, memberList, name, member);
      }
      var k := ComputeKey(fold, name);
      if k !in memberList {
        memberList := memberList[k := Entry(name, member)];
      }
    }

    /** Erases the entry whose name is equivalent to `name`; returns how many were erased. */
    method EraseName(name: string) returns (erased: nat)
      modifies this
      ensures erased == if Key(fold, name) in old(memberList) then 1 else 0
      ensures old(Valid()) ==> Valid()
      ensures memberList == Erase(fold, old(memberList), name)
    {
      if Valid() {
        EraseWellKeyed(fold, memberList, name);
      }
      var k := ComputeKey(fold, name);
      erased := if k in memberList then 1 else 0;
      memberList := memberList - {k};
    }

    /** Handles a rename of `member` away from `oldName`. */
    method MemberNameChanged(member: Member, oldName: string, resolve: Member -> string) returns (outcome: Outcome)
      requires Valid()
      modifies this
      ensures Valid()
      ensures (outcome, memberList) == RenameStep(fold, old(memberList), member, oldName, resolve(member))
      ensures outcome.LogicError? <==> Key(fold, oldName) !in old(memberList)
      ensures outcome.LogicError? ==> memberList == old(memberList)
    {
      ghost var before := memberList;
      RenameWellKeyed(fold, before, member, oldName, resolve(member));
      var erased := EraseName(oldName);
      if erased == 0 {
        assert memberList == before - {Key(fold, oldName)} == before;
        outcome := LogicError(UnknownNameMessage(oldName, resolve(member)));
        return;
      }
      InsertMember(resolve(member), member);
      outcome := Done;
    }

    /** Handles a change of `member`'s membership away from `previous`. */
    method MembershipChanged(member: Member, previous: Membership, resolve: Member -> string)
      requires Valid()
      modifies this
      ensures Valid()
      ensures memberList == MembershipStep(fold, old(memberList), member, previous, resolve(member))
    {
      MembershipWellKeyed(fold, memberList, member, previous, resolve(member));
      match member.membership
      case Invite | Join =>
        InsertMember(resolve(member), member);
      case Leave | Ban =>
        var _ := EraseName(resolve(member));
    }
  }
}

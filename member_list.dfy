/** The member list of a room view, as a value: a table from comparison key
    to the entry stored under it. `RoomView` keeps an ordered map whose
    comparator compares names through `Key`, so two names are the same key
    exactly when their keys are equal; the table is indexed by that key and
    each entry remembers the name it was inserted under. */
module MemberIndex {
  import opened Members
  import opened NameKey

  /** One row of the list: the resolved name it was inserted under and the member. */
  datatype Entry = Entry(name: string, member: Member)

  type MemberList = map<string, Entry>

  /** What a failing rename notification produces. */
  datatype Outcome = Done | LogicError(message: string)

  /** Every entry sits under the key of its own name. */
  ghost predicate WellKeyed(fold: string -> string, list: MemberList)
  {
    forall k | k in list :: Key(fold, list[k].name) == k
  }

  /** Map insertion: adds (name, member) unless an equivalent name is
      already present, in which case the existing entry is kept. */
  function Insert(fold: string -> string, list: MemberList, name: string, member: Member): (r: MemberList)
    ensures r.Keys == list.Keys + {Key(fold, name)}
    ensures forall k | k in list :: r[k] == list[k]
    ensures Key(fold, name) !in list ==> r[Key(fold, name)] == Entry(name, member)
  {
    var k := Key(fold, name);
    if k in list then list else list[k := Entry(name, member)]
  }

  /** Map erasure by name: drops the entry whose name is equivalent to `name`, if any. */
  function Erase(fold: string -> string, list: MemberList, name: string): (r: MemberList)
    ensures r.Keys == list.Keys - {Key(fold, name)}
    ensures forall k | k in r :: r[k] == list[k]
  {
    list - {Key(fold, name)}
  }

  /** The text of the logic error raised for a rename from an unknown name. */
  function UnknownNameMessage(oldName: string, current: string): string
  {
    "member name changed from unknown name " + oldName + " to " + current
  }

  /** The rename handler: erase the entry under the old name; if none was
      there, fail without touching the list; otherwise insert the member
      under its current resolved name. */
  function RenameStep(fold: string -> string, list: MemberList, member: Member, oldName: string, current: string)
    : (Outcome, MemberList)
  {
    if Key(fold, oldName) !in list then (LogicError(UnknownNameMessage(oldName, current)), list)
    else (Done, Insert(fold, Erase(fold, list, oldName), current, member))
  }

  /** The membership handler: list an invited or joined member under its
      resolved name, unlist a member who left or was banned. The previous
      membership plays no part. */
  function MembershipStep(fold: string -> string, list: MemberList, member: Member, previous: Membership, current: string)
    : MemberList
  {
    match member.membership
    case Invite | Join => Insert(fold, list, current, member)
    case Leave | Ban => Erase(fold, list, current)
  }

  /** The initial list: every member of the live state inserted, in the
      order given, under its resolved name. */
  function Build(fold: string -> string, resolve: Member -> string, members: seq<Member>): MemberList
  {
    if members == [] then map[]
    else
      var last := members[|members| - 1];
      Insert(fold, Build(fold, resolve, members[..|members| - 1]), resolve(last), last)
  }

  // ---- Keeping entries under their own key ----

  lemma InsertWellKeyed(fold: string -> string, list: MemberList, name: string, member: Member)
    requires WellKeyed(fold, list)
    ensures WellKeyed(fold, Insert(fold, list, name, member))
  {
  }

  lemma EraseWellKeyed(fold: string -> string, list: MemberList, name: string)
    requires WellKeyed(fold, list)
    ensures WellKeyed(fold, Erase(fold, list, name))
  {
  }

  // ---- Rename ----

  /** The rename fails exactly when no entry is known under the old name;
      a failure leaves the list as it was and names both names. */
  lemma RenameFailsOnUnknownName(fold: string -> string, list: MemberList, member: Member, oldName: string, current: string)
    ensures var (outcome, after) := RenameStep(fold, list, member, oldName, current);
      && (outcome.LogicError? <==> Key(fold, oldName) !in list)
      && (outcome.LogicError? ==> after == list && outcome.message == UnknownNameMessage(oldName, current))
  {
  }

  /** A successful rename removes the old name's entry and leaves the member
      findable under its current name. The entry there is the member itself
      unless another entry already held an equivalent name. */
  lemma RenameMovesEntry(fold: string -> string, list: MemberList, member: Member, oldName: string, current: string)
    requires Key(fold, oldName) in list
    ensures var (outcome, after) := RenameStep(fold, list, member, oldName, current);
      && outcome == Done
      && Key(fold, current) in after
      && (Key(fold, oldName) in after <==> Key(fold, oldName) == Key(fold, current))
      && after[Key(fold, current)] ==
           (if Key(fold, current) in list && Key(fold, current) != Key(fold, oldName)
            then list[Key(fold, current)] else Entry(current, member))
  {
  }

  /** A rename touches only the old and the current name's keys. */
  lemma RenameIsLocal(fold: string -> string, list: MemberList, member: Member, oldName: string, current: string, k: string)
    requires k != Key(fold, oldName) && k != Key(fold, current)
    ensures var after := RenameStep(fold, list, member, oldName, current).1;
      (k in after <==> k in list) && (k in list ==> after[k] == list[k])
  {
  }

  lemma RenameWellKeyed(fold: string -> string, list: MemberList, member: Member, oldName: string, current: string)
    requires WellKeyed(fold, list)
    ensures WellKeyed(fold, RenameStep(fold, list, member, oldName, current).1)
  {
    InsertWellKeyed(fold, Erase(fold, list, oldName), current, member);
  }

  // ---- Membership ----

  /** After the handler, an invited or joined member's name is a key of the
      list (a new entry for it unless an equivalent name was there), and a
      member who left or was banned has no entry under its name. */
  lemma MembershipListsPresentMembers(fold: string -> string, list: MemberList, member: Member, previous: Membership, current: string)
    ensures var after := MembershipStep(fold, list, member, previous, current);
      && (Listed(member.membership) <==> Key(fold, current) in after)
      && (Listed(member.membership) && Key(fold, current) !in list ==> after[Key(fold, current)] == Entry(current, member))
      && (Listed(member.membership) && Key(fold, current) in list ==> after == list)
  {
  }

  /** The handler touches only the current name's key. */
  lemma MembershipIsLocal(fold: string -> string, list: MemberList, member: Member, previous: Membership, current: string, k: string)
    requires k != Key(fold, current)
    ensures var after := MembershipStep(fold, list, member, previous, current);
      (k in after <==> k in list) && (k in list ==> after[k] == list[k])
  {
  }

  /** The previous membership has no effect on the list. */
  lemma MembershipIgnoresPrevious(fold: string -> string, list: MemberList, member: Member, p: Membership, q: Membership, current: string)
    ensures MembershipStep(fold, list, member, p, current) == MembershipStep(fold, list, member, q, current)
  {
  }

  /** Delivering the same membership notification twice has the effect of delivering it once. */
  lemma MembershipIdempotent(fold: string -> string, list: MemberList, member: Member, previous: Membership, current: string)
    ensures var once := MembershipStep(fold, list, member, previous, current);
      MembershipStep(fold, once, member, previous, current) == once
  {
  }

  lemma MembershipWellKeyed(fold: string -> string, list: MemberList, member: Member, previous: Membership, current: string)
    requires WellKeyed(fold, list)
    ensures WellKeyed(fold, MembershipStep(fold, list, member, previous, current))
  {
    match member.membership
    case Invite | Join => InsertWellKeyed(fold, list, current, member);
    case Leave | Ban => EraseWellKeyed(fold, list, current);
  }

  // ---- Initial build ----

  /** Every member of the live state can be found under its resolved name. */
  lemma {:induction false} BuildIndexesEveryMember(fold: string -> string, resolve: Member -> string, members: seq<Member>)
    ensures forall i :: 0 <= i < |members| ==> Key(fold, resolve(members[i])) in Build(fold, resolve, members)
  {
    if members != [] {
      var front := members[..|members| - 1];
      BuildIndexesEveryMember(fold, resolve, front);
      forall i | 0 <= i < |members|
        ensures Key(fold, resolve(members[i])) in Build(fold, resolve, members)
      {
        if i < |members| - 1 {
          assert members[i] == front[i];
        }
      }
    }
  }

  /** Every entry of the initial list is the first member (in the order
      given) whose resolved name has that key, stored under that name;
      later members with an equivalent name are not listed. */
  lemma {:induction false} BuildKeepsFirst(fold: string -> string, resolve: Member -> string, members: seq<Member>, k: string)
    requires k in Build(fold, resolve, members)
    ensures exists i :: (0 <= i < |members| && FirstWithKey(fold, resolve, members, i, k)
                         && Build(fold, resolve, members)[k] == Entry(resolve(members[i]), members[i]))
  {
    var n := |members| - 1;
    var front := members[..n];
    var last := members[n];
    var before := Build(fold, resolve, front);
    if k in before {
      BuildKeepsFirst(fold, resolve, front, k);
      var i :| 0 <= i < |front| && FirstWithKey(fold, resolve, front, i, k)
        && before[k] == Entry(resolve(front[i]), front[i]);
      assert members[i] == front[i];
      assert FirstWithKey(fold, resolve, members, i, k) by {
        forall j | 0 <= j < i ensures Key(fold, resolve(members[j])) != k {
          assert members[j] == front[j];
        }
      }
    } else {
      assert k == Key(fold, resolve(last));
      BuildIndexesEveryMember(fold, resolve, front);
      assert FirstWithKey(fold, resolve, members, n, k) by {
        forall j | 0 <= j < n ensures Key(fold, resolve(members[j])) != k {
          assert members[j] == front[j];
        }
      }
    }
  }

  /** Member `i` is the first of `members` whose resolved name has key `k`. */
  ghost predicate FirstWithKey(fold: string -> string, resolve: Member -> string, members: seq<Member>, i: int, k: string)
    requires 0 <= i < |members|
  {
    Key(fold, resolve(members[i])) == k && forall j :: 0 <= j < i ==> Key(fold, resolve(members[j])) != k
  }

  lemma {:induction false} BuildWellKeyed(fold: string -> string, resolve: Member -> string, members: seq<Member>)
    ensures WellKeyed(fold, Build(fold, resolve, members))
  {
    if members != [] {
      var front := members[..|members| - 1];
      BuildWellKeyed(fold, resolve, front);
      InsertWellKeyed(fold, Build(fold, resolve, front), resolve(members[|members| - 1]), members[|members| - 1]);
    }
  }
}

# nachat room view member list — a Dafny model

This project models two pieces of the nachat desktop chat client (a Matrix
client written in C++/Qt):

- the `Member` value and the `Membership` enumeration (`src/matrix/Member.hpp`):
  a participant's fixed id, its optional display name and avatar, and its
  membership, which is one of INVITE, JOIN, LEAVE or BAN and starts as LEAVE;
- the member list that `RoomView` keeps (`src/roomview.cpp`). This is a map
  from a member's resolved display name to the member. Names are compared
  through `Compare::key`, which drops the leading run of `'@'` and case-folds
  the rest. The list is filled from the room's live state when the view is
  built. Two change handlers then keep it current: `member_name_changed` and
  `membership_changed`.

Files:

- `member.dfy` (module `Members`): `Membership`, `Member`, the construction
  default `NewMember`, and the absent/present reading of the optional fields.
- `name_key.dfy` (module `NameKey`): the comparison key as a specification
  (`LeadingAts`, `Key`), the scan that computes it (`ComputeKey`), its
  properties, and nachat's `Compare::key` scan as written (`GuardReads`, see Findings).
- `member_list.dfy` (module `MemberIndex`): the member list as a value.
  `Insert` and `Erase` give the map's semantics. `RenameStep`,
  `MembershipStep` and `Build` give the effect of each handler and of the
  initial fill. The lemmas state what each handler guarantees.
- `room_view.dfy` (module `RoomViews`): class `RoomView`. Its `memberList`
  field is updated in place by the constructor and by the two handlers.
  Each method is proved to produce exactly the list that the matching
  specification function gives, and to keep the list well keyed.

Assumptions and modelling choices:

- The member list's type and comparator are declared in `roomview.h`, which
  is not part of this model. The model assumes that the comparator orders
  names by `Compare::key`, so two names are the same map key exactly when
  their keys are equal. The list is therefore a Dafny `map` indexed by the
  key. Each entry keeps the name it was inserted under, because that is what
  the list shows.
- `WellKeyed` (the class invariant `RoomView.Valid`) says that every entry
  sits under the key of its own name. It is what makes the key-indexed Dafny
  map correspond to the name-keyed `std::map`: looking a name up by key finds
  the entry whose stored name is equivalent to it. Every operation keeps it.
- Map insertion never overwrites: inserting a name whose key is already
  present keeps the existing entry, as `std::map::insert` does.
- Case folding (`QString::toCaseFolded`) is the uninterpreted function
  `fold`, a constant of each `RoomView`.
- The live room state is a collaborator. `RoomState::members()` becomes a
  sequence of members given to the constructor. `RoomState::member_name` is
  the function `resolve`, given to each handler as it stands at the time of
  the call.
- `member_name_changed` throws `std::logic_error` for an unknown old name.
  The model returns the `Outcome` value `LogicError(message)` instead.

## Model

| member | source | states |
|---|---|---|
| `Members.NewMember` | src/matrix/Member.hpp:25-38 | a newly constructed member carries the given id, has membership LEAVE, and has no display name and no avatar (empty means absent) |
| `NameKey.LeadingAts` | src/roomview.cpp:17-20 | the scan stops within 0..\|n\|, every character before it is `'@'`, and the character at it (if any) is not, i.e. it is the longest leading `'@'` run |
| `NameKey.ComputeKey` | src/roomview.cpp:16-23 | the loop with the bound test first returns exactly `Key`: the fold of the name without its leading `'@'` run, or of the whole name when it is all `'@'` |
| `NameKey.KeyIgnoresAtPrefix` | src/roomview.cpp:16-22 | any run of `'@'` in front of a name that starts with another character does not change its key, which is the fold of the bare name |
| `NameKey.KeyOfAtsOnly` | src/roomview.cpp:21 | a name made only of `'@'` (the empty name included) is keyed by the fold of the whole name, not of the empty string |
| `NameKey.KeyExample` | src/roomview.cpp:16-22 | "@alice", "@@alice" and "alice" have the same key, fold("alice") |
| `NameKey.KeyOfSplit` | src/roomview.cpp:16-22 | for every split of a name into an all-`'@'` prefix and a rest that is empty or starts with another character, the key is the fold of the rest, or of the whole name when the rest is empty |
| `NameKey.GuardReadsRange` | src/roomview.cpp:18 | the guard as written reads the name only at indices from the start index up to \|n\| inclusive |
| `NameKey.GuardReadsPastEnd` | src/roomview.cpp:18 | the guard as written reads index \|n\|, one past the end, exactly when the name (from the start index on) is made only of `'@'` |
| `NameKey.GuardReadsPastEndExamples` | src/roomview.cpp:18 | keying "" reads index 0, and keying "@" reads indices 0 and 1, each one past the end of its name |
| `MemberIndex.Insert` | src/roomview.cpp:48 | insertion adds exactly the name's key, keeps every existing entry unchanged, and stores (name, member) only when the key was new |
| `MemberIndex.Erase` | src/roomview.cpp:77 | erasure removes exactly the name's key and leaves every other entry unchanged |
| `MemberIndex.InsertWellKeyed` | src/roomview.cpp:48 | insertion keeps every entry under the key of its own name |
| `MemberIndex.EraseWellKeyed` | src/roomview.cpp:77 | erasure keeps every entry under the key of its own name |
| `MemberIndex.RenameFailsOnUnknownName` | src/roomview.cpp:77-81 | a rename fails with a logic error exactly when the old name is not a key of the list; the failure leaves the list unchanged and its message names the old and the current name |
| `MemberIndex.RenameMovesEntry` | src/roomview.cpp:77-82 | a successful rename removes the old name's entry (unless old and current names share a key), and the member's current name is then a key, holding the member unless an equivalent name was already listed |
| `MemberIndex.RenameIsLocal` | src/roomview.cpp:77-82 | a rename leaves every key other than the old and the current name's keys, and its entry, as it was |
| `MemberIndex.RenameWellKeyed` | src/roomview.cpp:77-82 | a rename keeps every entry under the key of its own name |
| `MemberIndex.MembershipListsPresentMembers` | src/roomview.cpp:89-98 | after the handler the member's current name is a key iff its membership is INVITE or JOIN; a new key holds the member, an existing key is left alone; LEAVE or BAN removes the key |
| `MemberIndex.MembershipIsLocal` | src/roomview.cpp:86-98 | the membership handler leaves every key other than the member's current name's key, and its entry, as it was |
| `MemberIndex.MembershipIgnoresPrevious` | src/roomview.cpp:86-87 | the previous membership has no effect on the resulting list |
| `MemberIndex.MembershipIdempotent` | src/roomview.cpp:89-98 | handling the same membership notification twice leaves the list as handling it once does |
| `MemberIndex.MembershipWellKeyed` | src/roomview.cpp:89-98 | the membership handler keeps every entry under the key of its own name |
| `MemberIndex.BuildIndexesEveryMember` | src/roomview.cpp:46-49 | after the initial fill, every member of the live state can be found under the key of its resolved name |
| `MemberIndex.BuildKeepsFirst` | src/roomview.cpp:46-49 | every entry of the initial list holds the first member, in the order given, whose resolved name has that key, stored under that resolved name |
| `MemberIndex.BuildWellKeyed` | src/roomview.cpp:46-49 | the initial list has every entry under the key of its own name |
| `RoomViews.RoomView.constructor` | src/roomview.cpp:46-49 | the constructor's loop leaves the list equal to inserting every live member, in order, under its resolved name, and the list is well keyed |
| `RoomViews.RoomView.InsertMember` | src/roomview.cpp:48 | the in-place insertion leaves the list equal to `Insert` of the old list and keeps it well keyed |
| `RoomViews.RoomView.EraseName` | src/roomview.cpp:77 | the in-place erasure returns 1 if the name's key was present and 0 otherwise, and leaves the list equal to `Erase` of the old list, still well keyed |
| `RoomViews.RoomView.MemberNameChanged` | src/roomview.cpp:76-84 | the handler reports a logic error iff the old name is unknown, leaves the list unchanged in that case, otherwise leaves it equal to `RenameStep` of the old list; the list stays well keyed |
| `RoomViews.RoomView.MembershipChanged` | src/roomview.cpp:86-101 | the handler leaves the list equal to `MembershipStep` of the old list, whatever the previous membership, and the list stays well keyed |

## Left out

- Widget setup, signal and slot connections, the room menu and key-press handling (src/roomview.cpp:25-45, 130-150) are presentation code.
- `update_members` (src/roomview.cpp:103-119) is left out, along with its calls at the end of each handler. It renders list items and tooltips, hides the list when it has two entries, and computes the list's width. Because of this the model never iterates the list, and the map's iteration order is not modelled.
- The history replay loop in the constructor (src/roomview.cpp:53-60), `message`, `append_message` and `topic_changed` (src/roomview.cpp:70-74, 121-128) are left out. They depend on `RoomState::apply`, `Room::buffer` and `TimelineView`, and those are not part of this model.
- `send_message` (src/roomview.cpp:138) is a transport call.
- `Member::dispatch` (src/matrix/Member.hpp:32) is only declared, so its body is not part of this model. Members are immutable values in the model, so their id never changes.
- `parse_membership` (src/matrix/Member.hpp:21) is only declared, so its body is not part of this model. Its optional result (failure is an empty optional) is not modelled either, because nothing in the modelled code calls it.
- `RoomState::member_name` and `RoomState::members` are not part of this model. They are represented by the parameters `resolve` and `members`, so the display-name collision rule is not modelled.
- `QString::toCaseFolded` is the uninterpreted parameter `fold`. Unicode case folding is not modelled.
- List entries hold `Member` values, not pointers into the room state. A later change to a listed member is therefore not seen through the list (aliasing is not modelled).
- The comparator of the map is declared in `roomview.h`, which is not part of this model. The model assumes it compares names by `Compare::key`.

## Findings

| source | as written | input that shows it | evidently intended | confidence | as-written member | corrected member |
|---|---|---|---|---|---|---|
| src/roomview.cpp:18 | the loop guard reads `n[i]` before it tests `i < n.size()`, so for a name made only of `'@'` the last test reads index `n.size()`, outside the string | `""` (reads index 0) or `"@"` (reads index 1) | test the bound first, so that no read is out of range; the result is unchanged, because the loop stops at that index either way | medium: Qt's `operator[]` asserts an in-range index; not executed | `NameKey.GuardReadsPastEnd` | `NameKey.ComputeKey` |

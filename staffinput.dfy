// The staff input screen: an editable list of staff records that must never become empty,
// validated and mapped to database rows on save.
module StaffInput {
  import opened Staff
  import opened Wrappers

  /** The editable fields of a record (the id is never edited). */
  datatype Field = Department | Name | Contact | Position

  function Get(s: StaffMember, f: Field): string {
    match f
    case Department => s.department
    case Name => s.name
    case Contact => s.contact
    case Position => s.position
  }

  /** `{ ...staff, [field]: value }` */
  function SetField(s: StaffMember, f: Field, v: string): (r: StaffMember)
    ensures r.id == s.id && Get(r, f) == v
    ensures forall g :: g != f ==> Get(r, g) == Get(s, g)
  {
    match f
    case Department => s.(department := v)
    case Name => s.(name := v)
    case Contact => s.(contact := v)
    case Position => s.(position := v)
  }

  /** A fresh, empty entry: no department, name or contact, rank member. */
  function Blank(id: string): (r: StaffMember)
    ensures r.id == id && Get(r, Position) == MEMBER
    ensures forall f :: f != Position ==> Get(r, f) == ""
  {
    StaffMember(id, "", "", "", MEMBER)
  }

  /** The list the screen starts with: one entry, which must be filled in before a save. */
  function InitialList(freshId: string): (r: seq<StaffMember>)
    ensures |r| == 1 && r[0].id == freshId && UniqueIds(r)
    ensures HasEmptyField(r)
  {
    [Blank(freshId)]
  }

  lemma InitialListShape(freshId: string)
    ensures var l := InitialList(freshId);
      |l| == 1 && UniqueIds(l) && l[0].id == freshId && l[0].position == MEMBER
      && Get(l[0], Department) == "" && Get(l[0], Name) == "" && Get(l[0], Contact) == ""
  {
  }

  // ---------------------------------------------------------------------------
  // The list transforms
  // ---------------------------------------------------------------------------

  /** `[...staffList, blank]`: one blank entry with the supplied fresh id, at the end. */
  function AddStaff(list: seq<StaffMember>, freshId: string): (r: seq<StaffMember>)
    ensures |r| == |list| + 1 && r[..|list|] == list
    ensures r[|list|].id == freshId && r[|list|].position == MEMBER
    ensures forall f :: f != Position ==> Get(r[|list|], f) == ""
  {
    list + [Blank(freshId)]
  }

  /** `filter(staff => staff.id !== id)`: every entry with another id, in order. */
  function WithoutId(list: seq<StaffMember>, id: string): (r: seq<StaffMember>)
    ensures |r| <= |list|
  {
    if list == [] then []
    else WithoutId(list[..|list| - 1], id)
         + (if list[|list| - 1].id != id then [list[|list| - 1]] else [])
  }

  /** The filter keeps exactly the entries with another id. */
  lemma {:induction false} WithoutIdMembers(list: seq<StaffMember>, id: string)
    ensures forall x :: x in WithoutId(list, id) <==> x in list && x.id != id
  {
    if list != [] {
      var t, last := list[..|list| - 1], list[|list| - 1];
      WithoutIdMembers(t, id);
      assert list == t + [last];
    }
  }

  datatype RemoveError = LastEntry

  /** Removal is refused on a one-entry list; otherwise the entries with that id are dropped. */
  function RemoveStaff(list: seq<StaffMember>, id: string): (r: Result<seq<StaffMember>, RemoveError>)
    ensures r.Failure? <==> |list| == 1
    ensures r.Success? ==> forall x :: x in r.value <==> x in list && x.id != id
  {
    if |list| == 1 then Failure(LastEntry)
    else
      WithoutIdMembers(list, id);
      Success(WithoutId(list, id))
  }

  /** `map(staff => staff.id === id ? { ...staff, [field]: value } : staff)` */
  function UpdateStaff(list: seq<StaffMember>, id: string, f: Field, v: string): (r: seq<StaffMember>)
    ensures |r| == |list|
    ensures forall k :: 0 <= k < |list| ==> r[k].id == list[k].id
    ensures forall k, g :: 0 <= k < |list| ==>
      Get(r[k], g) == if list[k].id == id && g == f then v else Get(list[k], g)
  {
    seq(|list|, k requires 0 <= k < |list| => if list[k].id == id then SetField(list[k], f, v) else list[k])
  }

  // ---------------------------------------------------------------------------
  // Save: validation and row mapping
  // ---------------------------------------------------------------------------

  /** `staffList.some(s => !s.department || !s.name || !s.contact || !s.position)` */
  function HasEmptyField(list: seq<StaffMember>): (r: bool)
    ensures r <==> exists k, f :: 0 <= k < |list| && Get(list[k], f) == ""
  {
    if list == [] then false
    else
      var s := list[0];
      if s.department == "" || s.name == "" || s.contact == "" || s.position == "" then
        assert Get(list[0], Department) == s.department && Get(list[0], Name) == s.name;
        assert Get(list[0], Contact) == s.contact && Get(list[0], Position) == s.position;
        true
      else
        var rest := HasEmptyField(list[1..]);
        assert forall f :: Get(list[0], f) != "";
        assert forall k, f :: 1 <= k < |list| ==> Get(list[k], f) == Get(list[1..][k - 1], f);
        assert rest ==> exists k, f :: 0 <= k < |list| && Get(list[k], f) == "" by {
          if rest {
            var k, f :| 0 <= k < |list[1..]| && Get(list[1..][k], f) == "";
            assert Get(list[k + 1], f) == "";
          }
        }
        rest
  }

  /** One row of the staff table: the owner's user id and the four copied fields. */
  datatype StaffRow = StaffRow(userId: string, department: string, name: string, contact: string, position: string)

  /** The rows to insert: one per entry, in order, with the entry's id dropped. */
  function ToRows(list: seq<StaffMember>, userId: string): (r: seq<StaffRow>)
    ensures |r| == |list|
    ensures forall k :: 0 <= k < |list| ==>
      && r[k].userId == userId
      && r[k].department == Get(list[k], Department) && r[k].name == Get(list[k], Name)
      && r[k].contact == Get(list[k], Contact) && r[k].position == Get(list[k], Position)
  {
    seq(|list|, k requires 0 <= k < |list| =>
      StaffRow(userId, list[k].department, list[k].name, list[k].contact, list[k].position))
  }

  datatype SaveError = EmptyFields | NoUser

  /** What save sends: nothing while a field is empty (checked first) or before the user is
      known; otherwise the rows of the whole list. */
  function PrepareSave(list: seq<StaffMember>, user: Option<string>): (r: Result<seq<StaffRow>, SaveError>)
    ensures r == Failure(EmptyFields) <==> exists k, f :: 0 <= k < |list| && Get(list[k], f) == ""
    ensures r == Failure(NoUser) <==> !HasEmptyField(list) && user.None?
    ensures r.Success? ==> (
      && user.Some? && |r.value| == |list|
      && forall k :: 0 <= k < |list| ==>
           && r.value[k].userId == user.value
           && r.value[k].department == Get(list[k], Department) && r.value[k].name == Get(list[k], Name)
           && r.value[k].contact == Get(list[k], Contact) && r.value[k].position == Get(list[k], Position))
  {
    if HasEmptyField(list) then Failure(EmptyFields)
    else if user.None? then Failure(NoUser)
    else Success(ToRows(list, user.value))
  }

  // ---------------------------------------------------------------------------
  // Properties of the transforms
  // ---------------------------------------------------------------------------

  /** Adding an entry with an id not yet in the list keeps the ids unique. */
  lemma AddKeepsIdsUnique(list: seq<StaffMember>, freshId: string)
    requires UniqueIds(list) && !HasId(list, freshId)
    ensures UniqueIds(AddStaff(list, freshId))
  {
    var r := AddStaff(list, freshId);
    forall i, j | 0 <= i < j < |r| ensures r[i].id != r[j].id {
      if j < |list| {
        assert r[i] == list[i] && r[j] == list[j];
      } else {
        assert r[i] == list[i];
      }
    }
  }

  lemma {:induction false} WithoutAbsent(list: seq<StaffMember>, id: string)
    requires !HasId(list, id)
    ensures WithoutId(list, id) == list
  {
    if list != [] {
      var t := list[..|list| - 1];
      var last := list[|list| - 1];
      assert last.id != id;
      assert !HasId(t, id) by {
        forall p | 0 <= p < |t| ensures t[p].id != id {
          assert t[p] == list[p];
        }
      }
      WithoutAbsent(t, id);
      assert WithoutId(list, id) == WithoutId(t, id) + [last];
      assert list == t + [last];
    }
  }

  /** With unique ids, removing the id of entry k removes exactly that entry and keeps the
      others in order. */
  lemma {:induction false} WithoutPresent(list: seq<StaffMember>, id: string, k: int)
    requires UniqueIds(list) && 0 <= k < |list| && list[k].id == id
    ensures WithoutId(list, id) == list[..k] + list[k + 1..]
  {
    var t := list[..|list| - 1];
    assert UniqueIds(t);
    if k == |list| - 1 {
      WithoutLast(list, id);
    } else {
      WithoutPresent(t, id, k);
      assert list[|list| - 1].id != id;
      WithoutBefore(list, id, k);
    }
  }

  lemma WithoutLast(list: seq<StaffMember>, id: string)
    requires UniqueIds(list) && |list| > 0 && list[|list| - 1].id == id
    ensures WithoutId(list, id) == list[..|list| - 1]
  {
    var t := list[..|list| - 1];
    assert !HasId(t, id) by {
      forall p | 0 <= p < |t| ensures t[p].id != id {
        assert t[p] == list[p];
      }
    }
    WithoutAbsent(t, id);
  }

  lemma WithoutBefore(list: seq<StaffMember>, id: string, k: int)
    requires 0 <= k < |list| - 1 && list[|list| - 1].id != id
    requires var t := list[..|list| - 1]; WithoutId(t, id) == t[..k] + t[k + 1..]
    ensures WithoutId(list, id) == list[..k] + list[k + 1..]
  {
    var t := list[..|list| - 1];
    var last := list[|list| - 1];
    assert WithoutId(list, id) == WithoutId(t, id) + [last];
    assert t[..k] == list[..k];
    assert list[k + 1..] == t[k + 1..] + [last];
    assert (t[..k] + t[k + 1..]) + [last] == list[..k] + (t[k + 1..] + [last]);
  }

  /** Removing keeps the remaining ids unique. */
  lemma WithoutKeepsIdsUnique(list: seq<StaffMember>, id: string)
    requires UniqueIds(list)
    ensures UniqueIds(WithoutId(list, id))
  {
    if HasId(list, id) {
      var k :| 0 <= k < |list| && list[k].id == id;
      WithoutPresent(list, id, k);
      SpliceKeepsIdsUnique(list, k);
    } else {
      WithoutAbsent(list, id);
    }
  }

  lemma SpliceKeepsIdsUnique(list: seq<StaffMember>, k: int)
    requires UniqueIds(list) && 0 <= k < |list|
    ensures UniqueIds(list[..k] + list[k + 1..])
  {
    var r := list[..k] + list[k + 1..];
    forall i, j | 0 <= i < j < |r| ensures r[i].id != r[j].id {
      var i', j' := if i < k then i else i + 1, if j < k then j else j + 1;
      assert r[i] == list[i'] && r[j] == list[j'];
    }
  }

  /** With unique ids, a removal that is not refused drops at most one entry. */
  lemma RemoveDropsAtMostOne(list: seq<StaffMember>, id: string)
    requires UniqueIds(list) && |list| != 1
    ensures RemoveStaff(list, id).Success?
    ensures |RemoveStaff(list, id).value| == if HasId(list, id) then |list| - 1 else |list|
  {
    if HasId(list, id) {
      var k :| 0 <= k < |list| && list[k].id == id;
      WithoutPresent(list, id, k);
    } else {
      WithoutAbsent(list, id);
    }
  }

  /** Starting from a nonempty list with unique ids, add (with a fresh id), update and remove
      (refused on one entry) all leave a nonempty list with unique ids. */
  lemma EditsKeepListNonEmpty(list: seq<StaffMember>, id: string, freshId: string, f: Field, v: string)
    requires |list| > 0 && UniqueIds(list) && !HasId(list, freshId)
    ensures |AddStaff(list, freshId)| > 0 && UniqueIds(AddStaff(list, freshId))
    ensures |UpdateStaff(list, id, f, v)| > 0 && UniqueIds(UpdateStaff(list, id, f, v))
    ensures var r := RemoveStaff(list, id);
      if r.Success? then |r.value| > 0 && UniqueIds(r.value) else |list| == 1
  {
    AddKeepsIdsUnique(list, freshId);
    if |list| != 1 {
      RemoveDropsAtMostOne(list, id);
      WithoutKeepsIdsUnique(list, id);
    }
    var u := UpdateStaff(list, id, f, v);
    assert forall i, j :: 0 <= i < j < |u| ==> u[i].id == list[i].id && u[j].id == list[j].id;
  }

  /** Without unique ids the one-entry guard is not enough: two entries sharing an id are
      both removed, leaving the list empty. Fresh UUIDs and database keys rule this out. */
  lemma DuplicateIdsCanEmpty(x: StaffMember)
    ensures RemoveStaff([x, x], x.id) == Success([])
  {
    assert [x, x][..1] == [x];
    assert [x][..0] == [];
    assert WithoutId([x], x.id) == [];
    assert WithoutId([x, x], x.id) == WithoutId([x], x.id);
  }

  /** The rows keep the four fields of every entry in order and forget the ids: two lists give
      the same rows exactly when they agree, entry by entry, on the four fields. */
  lemma RowsForgetIds(a: seq<StaffMember>, b: seq<StaffMember>, userId: string)
    ensures ToRows(a, userId) == ToRows(b, userId)
            <==> |a| == |b| && forall k, f :: 0 <= k < |a| ==> Get(a[k], f) == Get(b[k], f)
  {
    if |a| == |b| && forall k, f :: 0 <= k < |a| ==> Get(a[k], f) == Get(b[k], f) {
      forall k | 0 <= k < |a| ensures ToRows(a, userId)[k] == ToRows(b, userId)[k] {
        assert Get(a[k], Department) == Get(b[k], Department) && Get(a[k], Name) == Get(b[k], Name);
        assert Get(a[k], Contact) == Get(b[k], Contact) && Get(a[k], Position) == Get(b[k], Position);
      }
    }
    if ToRows(a, userId) == ToRows(b, userId) {
      forall k, f | 0 <= k < |a| ensures Get(a[k], f) == Get(b[k], f) {
        assert ToRows(a, userId)[k] == ToRows(b, userId)[k];
      }
    }
  }

  // ---------------------------------------------------------------------------
  // The screen's state
  // ---------------------------------------------------------------------------

  class StaffEditor {
    var staffList: seq<StaffMember>
    var isLoading: bool
    /** The rows of the insert request while it is outstanding. */
    var pending: Option<seq<StaffRow>>

    ghost predicate Valid()
      reads this
    {
      |staffList| > 0 && UniqueIds(staffList) && (isLoading <==> pending.Some?)
    }

    /** The screen opens on one blank entry whose id is a fresh UUID. */
    constructor (freshId: string)
      ensures Valid() && staffList == InitialList(freshId) && !isLoading
    {
      staffList := InitialList(freshId);
      isLoading := false;
      pending := None;
    }

    /** Entries already stored for this user replace the list; none stored keeps it. */
    method LoadExisting(existing: seq<StaffMember>)
      requires Valid() && UniqueIds(existing)
      modifies this
      ensures Valid()
      ensures staffList == if |existing| > 0 then existing else old(staffList)
      ensures isLoading == old(isLoading) && pending == old(pending)
    {
      if |existing| > 0 {
        staffList := existing;
      }
    }

    method Add(freshId: string)
      requires Valid() && !HasId(staffList, freshId)
      modifies this
      ensures Valid()
      ensures staffList == AddStaff(old(staffList), freshId)
      ensures isLoading == old(isLoading) && pending == old(pending)
    {
      AddKeepsIdsUnique(staffList, freshId);
      staffList := AddStaff(staffList, freshId);
    }

    /** Returns the error the screen reports; the list is then unchanged. */
    method Remove(id: string) returns (err: Option<RemoveError>)
      requires Valid()
      modifies this
      ensures Valid()
      ensures err.Some? <==> |old(staffList)| == 1
      ensures staffList == if err.Some? then old(staffList) else WithoutId(old(staffList), id)
      ensures isLoading == old(isLoading) && pending == old(pending)
    {
      if |staffList| != 1 {
        RemoveDropsAtMostOne(staffList, id);
        WithoutKeepsIdsUnique(staffList, id);
      }
      match RemoveStaff(staffList, id)
      case Failure(e) =>
        err := Some(e);
      case Success(rest) =>
        err := None;
        staffList := rest;
    }

    method Update(id: string, f: Field, v: string)
      requires Valid()
      modifies this
      ensures Valid()
      ensures staffList == UpdateStaff(old(staffList), id, f, v)
      ensures isLoading == old(isLoading) && pending == old(pending)
    {
      var u := UpdateStaff(staffList, id, f, v);
      assert forall i, j :: 0 <= i < j < |u| ==> u[i].id == staffList[i].id && u[j].id == staffList[j].id;
      staffList := u;
    }

    /** Pressing save (the button is disabled while loading). On invalid input nothing is sent
        and loading stays off; with no signed-in user the request fails at once, so loading
        ends off too; otherwise the rows are sent and loading is on until the reply. */
    method BeginSave(user: Option<string>) returns (r: Result<seq<StaffRow>, SaveError>)
      requires Valid() && !isLoading
      modifies this
      ensures Valid()
      ensures r == PrepareSave(old(staffList), user)
      ensures staffList == old(staffList)
      ensures isLoading == r.Success?
      ensures pending == if r.Success? then Some(r.value) else None
    {
      r := PrepareSave(staffList, user);
      if r.Success? {
        isLoading := true;
        pending := Some(r.value);
      }
    }

    /** The reply to the insert, success or failure: loading ends either way. Returns whether
        the screen moves on to the org chart. */
    method FinishSave(stored: bool) returns (toChart: bool)
      requires Valid() && isLoading
      modifies this
      ensures Valid()
      ensures !isLoading && pending == None
      ensures toChart == stored
      ensures staffList == old(staffList)
    {
      isLoading := false;
      pending := None;
      toChart := stored;
    }
  }
}

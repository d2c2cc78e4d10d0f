// The staff record shared by the staff input screen and the org chart screen.
// Both screens declare the same record shape; it is defined once here.
module Staff {

  /** The four ranks a staff member can hold, exactly as the application stores them. */
  const PRINCIPAL: string := "교장"
  const VICE_PRINCIPAL: string := "교감"
  const DEPARTMENT_HEAD: string := "부서장"
  const MEMBER: string := "부원"

  /** One staff record. `position` is kept as the stored string: records loaded from the
      database are cast to the record type without checking that it is one of the ranks. */
  datatype StaffMember = StaffMember(
    id: string,
    department: string,
    name: string,
    contact: string,
    position: string)

  /** The four ranks are four different strings. */
  lemma RanksDistinct()
    ensures PRINCIPAL != VICE_PRINCIPAL && PRINCIPAL != DEPARTMENT_HEAD && PRINCIPAL != MEMBER
    ensures VICE_PRINCIPAL != DEPARTMENT_HEAD && VICE_PRINCIPAL != MEMBER
    ensures DEPARTMENT_HEAD != MEMBER
  {
    assert PRINCIPAL[1] != VICE_PRINCIPAL[1];
    assert PRINCIPAL[0] != MEMBER[0] && VICE_PRINCIPAL[0] != MEMBER[0];
    assert |DEPARTMENT_HEAD| == 3 && |PRINCIPAL| == 2 && |VICE_PRINCIPAL| == 2 && |MEMBER| == 2;
  }

  /** The position is one of the four ranks the record type declares. */
  predicate IsRank(p: string) {
    p == PRINCIPAL || p == VICE_PRINCIPAL || p == DEPARTMENT_HEAD || p == MEMBER
  }

  /** No two records share an id (ids are database keys or freshly generated UUIDs). */
  predicate UniqueIds(s: seq<StaffMember>) {
    forall i, j :: 0 <= i < j < |s| ==> s[i].id != s[j].id
  }

  /** Some record carries the id `id`. */
  predicate HasId(s: seq<StaffMember>, id: string) {
    exists k :: 0 <= k < |s| && s[k].id == id
  }
}

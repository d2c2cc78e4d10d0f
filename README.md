# School emergency-contact network: verified model of its core logic

This Dafny project models three parts of a small web application. Schools use the application
to register staff contact details and view them as an organisational chart.

- **Org-chart layout generator** (`orgchart.dfy`, module `OrgChart`). It takes a flat list of
  staff records, each with a rank: 교장 principal, 교감 vice-principal, 부서장 department head
  or 부원 member. It places each ranked record as one node on the row of its rank. Every
  principal goes at x = 400. The vice-principal and head rows are centred about x = 400.
  Each department's members are centred under its first head, or under head index -1 when
  the department has no head. Then it adds manager-to-report edges. `GenerateOrgChart` keeps the
  source's form: one loop per rank appends to the node and edge lists while `yOffset`
  advances. It is proved equal to the row-by-row specification `ChartNodes`/`ChartEdges`, and
  the lemmas state what the layout promises.
- **Staff list editor** (`staffinput.dfy`, module `StaffInput`). The add, remove and update
  transforms of the list are pure functions. The save-time validation and row mapping are
  pure too. The class `StaffEditor` holds the screen's `staffList` and `isLoading` state. Its
  invariant is that the list is never empty and its ids are unique.
- **Authentication screen** (`auth.dfy`, module `Auth`). Signup runs two ordered checks
  before any request. The class `AuthScreen` keeps `isLoading` true exactly while a sign-in
  or sign-up request is outstanding. After a successful signup the login form is filled in.

`staff.dfy` holds the staff record shared by both screens. `wrappers.dfy` holds
`Option`/`Result`.

Modelling choices:

- **Remote calls and fresh ids.** Each hosted-service call is split in two. A `Submit…` or
  `Begin…` method issues the request. A `Finish…` method receives the reply, success or
  failure, as a parameter. Fresh UUIDs are passed in as parameters.
- **`position` is a string.** Rows loaded from the database are cast to the record type
  without any check. A record whose position is none of the four ranks matches no rank
  filter, so it gets no node.
- **Vice-principal choice.** The source picks vice-principal `Math.floor(i / (m / v))` for head
  `i`. The model uses the integer `i*v/m`. `VpIndexIsJsFloor` proves the two agree when the
  JavaScript expression is read in exact real arithmetic. In that reading `|| 1` never takes
  effect, because the loop only runs with m ≥ 1 and the edge is only added with v ≥ 1.
- **`indexOf` is by object identity.** `departmentMembers.indexOf(member)` compares objects,
  so the model uses the number of earlier members of the same department (`DeptRank`).
  `managers.indexOf(manager)` gives the index of the first head of that department, or -1
  when there is none (`HeadIndex`).
- **Coordinates are exact integers.** `((n-1)*250)/2` and `((k-1)*100)/2` divide an even
  number, so JavaScript's division and Dafny's give the same result, including n = 0. For
  n = 0, `managerX` is 525.

- **Members sit under their parent head.** A member's base column and the source of its edge
  are the same head: the first head of its department. A member whose department has no
  head gets no edge. It is still placed, centred under the missing column at head index -1,
  that is at x = managerX - 250.
- **Emails are used as entered.** Login and signup send the email typed into the form
  (src/pages/Auth.tsx:40-43, 72-73). No identifier is derived from the school or admin name.

## Model

| member | source | states |
|---|---|---|
| `OrgChart.GenerateOrgChart` | src/pages/OrgChart.tsx:89-223 | the rank-by-rank push loops produce exactly the specified node list `ChartNodes` and edge list `ChartEdges` |
| `OrgChart.PushPrincipals` | src/pages/OrgChart.tsx:96-114 | the loop appends one node per principal, in order, at x = 400 on the current row |
| `OrgChart.PushVicePrincipals` | src/pages/OrgChart.tsx:118-146 | the loop appends the centred vice-principal row and, only when a principal exists, one edge per vice-principal from the first principal |
| `OrgChart.PushHeads` | src/pages/OrgChart.tsx:150-178 | the loop appends the centred head row and, only when a vice-principal exists, one edge per head from vice-principal i*v/m |
| `OrgChart.PushMembers` | src/pages/OrgChart.tsx:182-219 | the loop appends each member centred under its department's first head (index -1 if none) and an edge from that head only when it exists |
| `OrgChart.PushMember` | src/pages/OrgChart.tsx:184-218 | one pass of the member loop appends exactly that member's specified node and, when its department has a head, the edge from the first such head |
| `OrgChart.OfRank` | src/pages/OrgChart.tsx:97 | the rank filter keeps exactly the records of that position, never more records than the input |
| `OrgChart.OfDept` | src/pages/OrgChart.tsx:190 | the department filter keeps exactly the records of that department |
| `OrgChart.Ranked` | src/pages/OrgChart.tsx:97-183 | keeps exactly the records whose position is one of the four ranks |
| `OrgChart.FindHead` | src/pages/OrgChart.tsx:186-187 | `find` then `indexOf`: the index of a head of the department with no earlier one, and none exactly when no head has that department |
| `OrgChart.VpIndex` | src/pages/OrgChart.tsx:172-173 | the vice-principal chosen for head i of m always lies in [0, v) |
| `OrgChart.VpIndexIsJsFloor` | src/pages/OrgChart.tsx:172-173 | for every reachable i, m, v the exact-real value of `Math.floor(i / (m / v \|\| 1))` equals i*v/m |
| `OrgChart.ChartNodes` | src/pages/OrgChart.tsx:97-210 | the reference node list: one node per principal, vice-principal, head and member, row by row; its count is the sum of the four rank counts (see `NodesFollowRanks`, `RowsByRank`, `MemberPlacement`) |
| `OrgChart.ChartEdges` | src/pages/OrgChart.tsx:138-218 | the reference edge list: vice-principal edges, then head edges, then member edges; never more edges than non-principal records (see `VicePrincipalIncoming`, `HeadIncoming`, `MemberIncoming`, `EdgeLabels`) |
| `OrgChart.RowX` | src/pages/OrgChart.tsx:120-125 | entry i of a centred row of n lies (2i - (n-1)) half-steps of 250 from x = 400 |
| `OrgChart.HeadIndex` | src/pages/OrgChart.tsx:186-187 | `indexOf(find(...))`: -1 exactly when no head has the department, otherwise the index of the first head that has it |
| `OrgChart.DeptRank` | src/pages/OrgChart.tsx:190-191 | `departmentMembers.indexOf(member)`: never beyond the member's own index (see `DeptRankLocates` for where it points) |
| `OrgChart.MemberX` | src/pages/OrgChart.tsx:186-197 | a member lies (2r - (k-1)) half-steps of 100 from its head's column, r its rank and k the size of its department |
| `OrgChart.EdgeId` | src/pages/OrgChart.tsx:140 | the edge id is "e-", then the source id, "-", and the target id, with both ids recoverable by position |
| `OrgChart.VpEdges` | src/pages/OrgChart.tsx:138-145 | one animated edge per vice-principal, in order, from the first principal; none without a principal |
| `OrgChart.HeadEdges` | src/pages/OrgChart.tsx:170-177 | one animated edge per head, in order, each from some vice-principal; none without a vice-principal |
| `OrgChart.MemberEdge` | src/pages/OrgChart.tsx:212-218 | at most one edge, present exactly when some head shares the member's department, unanimated, from such a head to the member |
| `OrgChart.MemberEdges` | src/pages/OrgChart.tsx:184-218 | at most one edge per member, none animated |
| `OrgChart.JsVpIndex` | src/pages/OrgChart.tsx:172-173 | the floor of i / (m / v \|\| 1) in exact real arithmetic: the largest integer not above the quotient (partner `VpIndexIsJsFloor`) |
| `OrgChart.VpIndexMonotone` | src/pages/OrgChart.tsx:172-173 | later heads never go to an earlier vice-principal |
| `OrgChart.VpIndexCovers` | src/pages/OrgChart.tsx:172-173 | with at least as many heads as vice-principals, every vice-principal feeds some head |
| `OrgChart.NodesFollowRanks` | src/pages/OrgChart.tsx:97-193 | nodes show the principals, vice-principals, heads and members in that order, input order within each rank, each node with its record's id |
| `OrgChart.GroupedIsRanked` | src/pages/OrgChart.tsx:97-183 | the four rank filters together hold exactly the ranked records, as a multiset |
| `OrgChart.NodesCoverRankedRecords` | src/pages/OrgChart.tsx:97-210 | every ranked record yields as many nodes as it occurs in the input; a record of any other position yields none |
| `OrgChart.OneNodePerRecord` | src/pages/OrgChart.tsx:97-210 | when every record has a rank, there is exactly one node per record (equal multisets, equal counts) |
| `OrgChart.RowsByRank` | src/pages/OrgChart.tsx:92-198 | every node lies on its rank's row: y = 0, 150, 300, 450; every principal has x = 400 |
| `OrgChart.RowCentred` | src/pages/OrgChart.tsx:120-125 | entry i of a row of n is at 400 - (n-1)*125 + i*250, steps by 250, and mirrors entry n-1-i about 400 |
| `OrgChart.VicePrincipalPlacement` | src/pages/OrgChart.tsx:120-125 | vice-principal i of n is node \|principals\| + i at (400 - (n-1)*125 + i*250, 150) |
| `OrgChart.HeadPlacement` | src/pages/OrgChart.tsx:152-157 | head i of m is the node after the principals and vice-principals at (400 - (m-1)*125 + i*250, 300) |
| `OrgChart.DeptRankLocates` | src/pages/OrgChart.tsx:190-191 | member j is entry DeptRank(j) of its department's members, and that rank is below the department size |
| `OrgChart.DeptRankIncreasing` | src/pages/OrgChart.tsx:190-197 | later members of a department get strictly larger ranks, so no two get the same x |
| `OrgChart.MemberPlacement` | src/pages/OrgChart.tsx:186-198 | member j sits at (baseX - (k-1)*50 + r*100, 450), with baseX the column of the first matching head, or head index -1 exactly when no head matches |
| `OrgChart.MembersCentred` | src/pages/OrgChart.tsx:189-197 | members r and k-1-r of a department lie symmetrically about the base column |
| `OrgChart.Incoming` | src/pages/OrgChart.tsx:139-217 | specification helper, not an operation of the screen: the edges into a node, exactly the edges whose target it is; used to state the incoming-edge lemmas |
| `OrgChart.PrincipalIncoming` | src/pages/OrgChart.tsx:138-218 | no edge goes into a principal |
| `OrgChart.VicePrincipalIncoming` | src/pages/OrgChart.tsx:138-145 | each vice-principal has exactly one incoming edge, animated, from the first principal, if one exists; none otherwise |
| `OrgChart.HeadIncoming` | src/pages/OrgChart.tsx:170-177 | head i of m has exactly one incoming edge, animated, from vice-principal i*v/m, if v ≥ 1; none when v = 0 |
| `OrgChart.MemberIncoming` | src/pages/OrgChart.tsx:186-218 | a member has an incoming edge exactly when a head shares its department, and then exactly one, unanimated, from the first such head |
| `OrgChart.ExtraPrincipalsSilent` | src/pages/OrgChart.tsx:138-145 | no edge leaves any principal but the first |
| `OrgChart.EdgeLabels` | src/pages/OrgChart.tsx:139-217 | every edge id is "e-" + source + "-" + target, and exactly the vice-principal and head edges, which come first, are animated |
| `OrgChart.MemberEdgesShape` | src/pages/OrgChart.tsx:212-218 | every member edge goes from a head to a member, is not animated and has the standard id |
| `OrgChart.MemberEdgesInto` | src/pages/OrgChart.tsx:212-218 | among the member edges, those into a member are exactly that member's own edge, if any |
| `StaffInput.SetField` | src/pages/StaffInput.tsx:89 | `{ ...staff, [field]: value }` sets the named field to the value and changes no other field and not the id |
| `StaffInput.Blank` | src/pages/StaffInput.tsx:75 | the blank entry: the given id, position 부원, every other field empty |
| `StaffInput.InitialList` | src/pages/StaffInput.tsx:24-26 | one entry with the fresh id, ids unique, and it cannot be saved until its empty fields are filled in |
| `StaffInput.InitialListShape` | src/pages/StaffInput.tsx:24-26 | the screen starts with exactly one record: the fresh id, empty department, name and contact, position 부원 |
| `StaffInput.StaffEditor.constructor` | src/pages/StaffInput.tsx:24-27 | the editor starts valid, with the initial list and loading off |
| `StaffInput.StaffEditor.LoadExisting` | src/pages/StaffInput.tsx:56-63 | stored records replace the list when there are any; otherwise the list is kept; the list stays nonempty |
| `StaffInput.AddStaff` | src/pages/StaffInput.tsx:72-77 | exactly one entry is appended, with the fresh id, position 부원 and empty other fields; the existing entries are unchanged and in order |
| `StaffInput.AddKeepsIdsUnique` | src/pages/StaffInput.tsx:72-77 | adding with an id not in the list keeps the ids unique |
| `StaffInput.StaffEditor.Add` | src/pages/StaffInput.tsx:72-77 | the state's list becomes the old list plus one blank entry; the invariant is kept |
| `StaffInput.WithoutId` | src/pages/StaffInput.tsx:84 | the filter keeps exactly the entries with a different id, never more than there were |
| `StaffInput.RemoveStaff` | src/pages/StaffInput.tsx:79-85 | refused exactly on a one-entry list; otherwise the result holds exactly the entries with another id |
| `StaffInput.WithoutAbsent` | src/pages/StaffInput.tsx:84 | removing an id no entry has changes nothing |
| `StaffInput.WithoutPresent` | src/pages/StaffInput.tsx:84 | with unique ids, removing entry k's id removes exactly entry k and keeps the rest in order |
| `StaffInput.WithoutKeepsIdsUnique` | src/pages/StaffInput.tsx:84 | removal keeps the ids unique |
| `StaffInput.RemoveDropsAtMostOne` | src/pages/StaffInput.tsx:79-85 | with unique ids, an allowed removal shortens the list by one if the id is present and by nothing otherwise |
| `StaffInput.DuplicateIdsCanEmpty` | src/pages/StaffInput.tsx:79-85 | the one-entry guard alone does not keep the list nonempty: two entries sharing an id both go |
| `StaffInput.StaffEditor.Remove` | src/pages/StaffInput.tsx:79-85 | reports an error and keeps the list exactly when it has one entry; otherwise drops that id; the list stays nonempty |
| `StaffInput.UpdateStaff` | src/pages/StaffInput.tsx:87-91 | same length and ids; only the named field of entries with that id takes the value; every other field of every entry is unchanged |
| `StaffInput.StaffEditor.Update` | src/pages/StaffInput.tsx:87-91 | the state's list becomes the updated list; the invariant is kept |
| `StaffInput.EditsKeepListNonEmpty` | src/pages/StaffInput.tsx:72-91 | from a nonempty list with unique ids, add, update and remove (refused on one entry) all give a nonempty list with unique ids |
| `StaffInput.HasEmptyField` | src/pages/StaffInput.tsx:95 | true exactly when some entry has an empty department, name, contact or position |
| `StaffInput.PrepareSave` | src/pages/StaffInput.tsx:95-117 | rejected as empty fields exactly when some field is empty; otherwise rejected if no user; otherwise rows of the same length and order, each with the user id and the four copied fields |
| `StaffInput.ToRows` | src/pages/StaffInput.tsx:111-117 | one row per entry, in order, each with the user id and the entry's department, name, contact and position |
| `StaffInput.RowsForgetIds` | src/pages/StaffInput.tsx:111-117 | two lists give the same rows exactly when they agree entry by entry on the four fields: the record id is dropped and nothing else is |
| `StaffInput.StaffEditor.BeginSave` | src/pages/StaffInput.tsx:93-121 | on invalid input nothing is sent and loading stays off; otherwise the rows are sent and loading is on while they are outstanding |
| `StaffInput.StaffEditor.FinishSave` | src/pages/StaffInput.tsx:119-131 | loading is off after the reply, on success or failure; the screen moves on exactly on success |
| `Auth.CheckSignup` | src/pages/Auth.tsx:59-67 | mismatch exactly when password and confirmation differ; too short exactly when they match and the password is shorter than 6; passes exactly otherwise |
| `Auth.MismatchFirst` | src/pages/Auth.tsx:59-67 | a mismatching short password is reported as a mismatch, not as too short |
| `Auth.AuthScreen.constructor` | src/pages/Auth.tsx:16-30 | loading off, both forms empty |
| `Auth.AuthScreen.EditLogin` | src/pages/Auth.tsx:134-144 | typing replaces the login form and nothing else |
| `Auth.AuthScreen.EditSignup` | src/pages/Auth.tsx:163-205 | typing replaces the signup form and nothing else |
| `Auth.AuthScreen.SubmitLogin` | src/pages/Auth.tsx:34-45 | login does no local check: the sign-in request carries the form as it is, and loading is on while it is outstanding |
| `Auth.AuthScreen.FinishLogin` | src/pages/Auth.tsx:45-53 | after the reply, success or failure, loading is off; the screen goes to the dashboard exactly on success |
| `Auth.AuthScreen.SubmitSignup` | src/pages/Auth.tsx:56-83 | a failed check is reported with its error, no request is made and loading stays off; otherwise the sign-up request carries the form's email, password, school and admin name, and loading is on |
| `Auth.AuthScreen.FinishSignup` | src/pages/Auth.tsx:85-100 | loading is off after the reply; on success the login form holds the signup email and an empty password, on failure it is unchanged |
| `Auth.SignupRound` | src/pages/Auth.tsx:56-101 | a whole signup from an idle screen: a request is made exactly when the checks pass, loading ends off, and the login form is prefilled exactly after a successful request |

## Left out

- Hosted backend calls are left out: `getUser`, the profile, staff and layout selects, the
  staff delete-then-insert, the layout `upsert`, and sign-in, sign-up and sign-out. They run
  on a service outside this code. Their results enter the model in three ways:
  - the success or failure of a request is a parameter of the `Finish…` methods;
  - the staff select's records are the `existing` parameter of `StaffEditor.LoadExisting`
    (src/pages/StaffInput.tsx:51-63);
  - the `getUser` result is the `user` parameter of `StaffEditor.BeginSave`
    (src/pages/StaffInput.tsx:34-39, 108).
  The rows to insert and the sign-in and sign-up requests are values the model returns.
- The delete that precedes the insert on save ignores its own error. A failed insert after a
  successful delete would lose the stored list. That depends on the backend, so it is not
  modelled.
- The org chart screen's choice between a saved layout and a freshly generated one
  (src/pages/OrgChart.tsx:80-86) is left out, as are its redirect when no staff is stored and
  the sign-in checks. This is I/O glue around the generator.
- Dragging nodes and `addEdge` in `onConnect` are interactions inside a foreign diagram
  library.
- JSX labels, node `type: "default"`, CSS classes and toast texts are presentation. Nodes
  keep the record their label shows. Errors keep only their identity: mismatch, too short,
  last entry, empty fields, no user.
- Navigation, image export, print and sharing through browser APIs are left out. Only the
  boolean "moves on" results stand for navigation.
- `crypto.randomUUID()` is nondeterministic. Fresh ids are parameters, and `StaffEditor.Add`
  requires the id to be new to the list, which is what a UUID provides.
- `OrgChart.VpIndex`: uses exact arithmetic, the evident intent of `Math.floor(i / (m / v))`.
  In IEEE-754 doubles the rounding can change the choice: with v = 14, m = 18, i = 9 the
  ratio 18/14 rounds to 1.2857142857142858 and 9 divided by it gives 6.999999999999999, so
  the screen picks vice-principal 6 where the model picks 7. Floating point is not modelled.
- Password length is the length of a character sequence. The source counts UTF-16 code
  units, so the two differ for characters outside the Basic Multilingual Plane.
- `updateStaffMember` accepts every key of the record, including `id`. The screen only ever
  passes department, name, contact or position, so `Field` has just those four.
- `Auth.AuthScreen.SubmitLogin`, `Auth.AuthScreen.SubmitSignup` and `Auth.SignupRound`: the
  browser's form constraint validation is not modelled. The inputs carry `required`
  (src/pages/Auth.tsx:135, 145, 164, 174, 185, 196, 206) and the email inputs
  `type="email"` (src/pages/Auth.tsx:131, 181), so the browser does not submit a form with an
  empty field or a malformed email, and no request is sent then. The model covers only the
  submit handlers, which would send such a request.
- The signup request's `emailRedirectTo` comes from `window.location`, so it is left out.
- The tab switch after signup (`loginTab.click()`) is DOM manipulation and is left out.
- src/pages/Index.tsx is a dashboard that only fetches and displays a count, so it is not
  part of this model.
- React's asynchronous state batching and stale closures are not modelled. Each handler
  reads the state current when it starts.
- `OrgChart.PrincipalIncoming`: assumes unique record ids (database keys), because with
  repeated ids edges cannot be told apart by target.
- `OrgChart.VicePrincipalIncoming`: assumes unique record ids, for the same reason.
- `OrgChart.HeadIncoming`: assumes unique record ids, for the same reason.
- `OrgChart.MemberIncoming`: assumes unique record ids, for the same reason.
- `OrgChart.ExtraPrincipalsSilent`: assumes unique record ids, because a repeated id could
  make an extra principal look like the first.
- `StaffInput.StaffEditor.LoadExisting`: requires the stored records to have unique ids, as
  database keys do.
- `StaffInput.StaffEditor.BeginSave`: requires loading to be off, because the save button is
  disabled while loading (src/pages/StaffInput.tsx:229).
- `Auth.AuthScreen.SubmitLogin`: requires loading to be off, because the submit button is
  disabled while loading (src/pages/Auth.tsx:148).
- `Auth.AuthScreen.SubmitSignup`: requires loading to be off, because the submit button is
  disabled while loading (src/pages/Auth.tsx:209).

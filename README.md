# NIES Power BI portal — access and navigation rules in Dafny

The NIES portal is a FastAPI back end (`NiesBack`) with a React front end (`nies-front`).
Together they publish Power BI reports that are organised in a forest of report groups.
This project models the rules underneath the request plumbing:

* **Report access rule.** An administrator sees every active report. A logged-in user sees the active reports that are public or granted to one of their user groups. An anonymous visitor sees the active public reports.
  - Where it applies: the home page, the single-report page, the group page, `/api/powerbi/reports` and the visible-children query.
  - Ordering shared by all of them: reports with a `sort_order` come first, ascending, then ties are broken by name.
* **Group forest.**
  - the parent→children tree (`_build_tree`);
  - the descendant closure (`_descendants_ids`);
  - the "direct children whose active subtree holds a visible report" query (`get_visible_children_groups`);
  - the breadcrumb walk up parent pointers;
  - the two-level menu (`build_menu`);
  - the front end's `containsId` and the default-open state of the sidebar tree.
* **Group creation.** Slug normalisation (`normalize_words`) and the uniqueness checks of `create_report_group` and `create_report_subgroup`.
* **Users and permissions.**
  - registration and login;
  - administrator approval;
  - idempotent membership and grant insertion;
  - the pending→approved validity window;
  - bearer-token resolution.
* **Password resets.**
  - the reset-link record (create, validate, mark used);
  - the six-digit reset-code flow.
* **Request validators and the e-mail verification link.**

## How the model is built

* **Database state.** The database is a `Store.Snapshot` value. Each table is a `seq` of rows in storage order, which is the order of a query without `ORDER BY`.
* **Queries.**
  - `.first()` is `Query.First`, the first matching row.
  - A `WHERE` clause is `Query.Filter`.
  - `ORDER BY` is `Query.SortBy`, a stable insertion sort under a total preorder.
* **Writes.** Endpoints that write are methods on `Store.Database`, a class whose fields are the tables. Each method states its new state in terms of a pure decision function, and the lemmas are proved about that function.
* **Loops.** Loops in the source are methods with loops, proved against a specification function:
  - the `setdefault(...).append(...)` index;
  - the depth-first walk of `_descendants_ids`;
  - the menu partition;
  - the breadcrumb walk.
* **Foreign pieces are parameters.** These are password hashing and verification, JWT encoding and decoding, the uuid and `secrets` values, the clock, and NFKD folding.

The files follow the source: one module per source file of the core, plus
`Wrappers`, `Text` (lower-casing, `strip`, string order), `Query` (table
queries), `Store` (tables and the database), `Access` (the shared report
rule and its order) and `Forest` (child links and descendant closure).

## Model

| member | source | states |
|---|---|---|
| Store.GroupById | NiesBack/models/models.py:7-12 | the group with the given primary key, if any; None exactly when no row has that id |
| Store.UserById | NiesBack/models/models_rbac.py:24-38 | `query(User).get(id)`: a row with that id, None exactly when there is none |
| Store.UserByEmail | NiesBack/models/models_rbac.py:30 | the user whose e-mail matches, None exactly when no user has it |
| Store.UserGroupById | NiesBack/models/models_rbac.py:51-56 | `query(UserGroup).get(id)`: a user group with that id, None exactly when absent |
| Store.SetStatus | NiesBack/models/models_rbac.py:35 | updating a user's status changes that field of the rows with that id and nothing else |
| Store.SetStatusKeepsKeys | NiesBack/models/models_rbac.py:27-30 | a status update keeps the id, e-mail and CPF uniqueness constraints |
| Store.SetStatusIdempotent | NiesBack/models/models_rbac.py:35 | setting the same status twice is the same as setting it once |
| Store.Database.constructor | NiesBack/models/models_rbac.py:24-142 | the empty database satisfies every uniqueness constraint |
| Store.Database.ReplaceResetCodes | NiesBack/services/reset_password.py:26-41 | the reset-code table becomes the given rows; constraints kept |
| Store.Database.AddGroup | NiesBack/routers/reportRegistrationGroup.py:69-70 | adding a group whose id is not in use appends exactly that row; constraints kept |
| Store.Database.InsertMember | NiesBack/routers/admin.py:44 | an absent membership pair is appended and nothing else changes; pairs stay unique |
| Store.Database.InsertGrant | NiesBack/routers/admin.py:53 | an absent report grant is appended and nothing else changes; grants stay unique |
| Store.Database.SetUserStatus | NiesBack/routers/admin.py:26-27 | the users table becomes the status update of that id; constraints kept |
| Store.Database.AddUser | NiesBack/routers/auth.py:28 | the row with the next id is appended and the id sequence advances by one; constraints kept |
| Store.Database.AddUserGroup | NiesBack/routers/admin.py:32-33 | the user group with the next id is appended and the id sequence advances by one; constraints kept |
| Store.AppendFreshUserGroup | NiesBack/models/models_rbac.py:54-55 | appending a user group with a fresh id and name keeps the primary key and the UNIQUE name |
| Text.Lower | NiesBack/core/menu.py:15 | `str.lower()` on ASCII letters: same length, only upper-case letters change |
| Text.LowerIdempotent | NiesBack/core/menu.py:15 | lower-casing twice is lower-casing once |
| Text.Strip | NiesBack/routers/reportRegistrationGroup.py:20 | `str.strip()`: the result is a slice of the input, only white space was removed around it, and it neither starts nor ends with white space |
| Text.LexLeTotal | NiesBack/core/visibility.py:102 | the string order used for `ORDER BY name` is total |
| Text.LexLeTransitive | NiesBack/core/visibility.py:102 | the string order is transitive |
| Text.LexLeAntisymmetric | NiesBack/core/visibility.py:102 | two strings ordered both ways are equal |
| Query.First | NiesBack/routers/reports.py:25-32 | `.first()`: the first row that satisfies the condition, None exactly when no row does |
| Query.Filter | NiesBack/routers/index.py:23 | a `WHERE`: exactly the rows satisfying the condition, none repeated more often than in the table |
| Query.SortBy | NiesBack/routers/index.py:27-29 | `ORDER BY`: a sorted permutation of the rows |
| Access.GrantedReportIds | NiesBack/routers/index.py:31-35 | the `allowed_subq` join: a report id is granted exactly when some user group the user belongs to has a grant for it |
| Access.AdmittedReports | NiesBack/routers/index.py:22-46 | exactly the table's reports the role rule admits |
| Access.AdmitsGrowsWithRole | NiesBack/routers/index.py:26-46 | what an anonymous visitor may see a logged-in user may see, and what a user may see an administrator may see |
| Access.ReportLeIsTotalPreorder | NiesBack/routers/index.py:27-29 | the report order is total and transitive, so sorting by it is well defined |
| Access.ReportOrderSpelledOut | NiesBack/routers/index.py:27-29 | in a sorted list, reports with a `sort_order` precede those without, `sort_order` ascends, and equal `sort_order` is ordered by name |
| Access.SortReports | NiesBack/routers/index.py:37-39 | the result is sorted by the report order and is a permutation of the input |
| Access.SortGroupsByName | NiesBack/core/visibility.py:102 | sorted by name, a permutation of the input, with no duplicate introduced |
| Access.ListReportsFor | NiesBack/routers/powerbi.py:105-123 | the three role branches: a sorted permutation of the rows the role rule admits |
| Access.ListedIffAdmitted | NiesBack/routers/powerbi.py:105-123 | over active rows, a report is listed exactly when it is among the rows and the role rule admits it |
| Index.Home | NiesBack/routers/index.py:16-46 | the home page lists exactly the admitted reports (all active for an admin, public or granted for a user, public for anonymous), in the report order |
| Index.HomeNestsByRole | NiesBack/routers/index.py:26-46 | anonymous list ⊆ user list ⊆ administrator list |
| Reports.ReportView | NiesBack/routers/reports.py:17-54 | the page succeeds exactly when some report with the id is admitted; the returned report has that id; failure is 404 for an administrator and 403 otherwise, including for a missing report |
| Reports.ReportViewIsTheReport | NiesBack/routers/reports.py:25-28 | with unique report ids, a successful page shows the one report with the requested id |
| UserRegistrationGroup.UserRegistrationGroup | NiesBack/routers/userRegistrationGroup.py:30-60 | 403 exactly for a non-administrator; otherwise every user group sorted by name, and exactly the active non-public reports (false or NULL) in the report order |
| UserRegistrationGroup.PrivateIsNotPublic | NiesBack/routers/userRegistrationGroup.py:44-46 | `is_public == False or NULL` is exactly "active and not public" |
| UserRegistrationGroup.PrivateAndPublicPartitionActive | NiesBack/routers/userRegistrationGroup.py:42-47 | every active report is in exactly one of the private list and the anonymous home list |
| UserRegistrationGroup.UserGroupNameLeIsTotalPreorder | NiesBack/routers/userRegistrationGroup.py:38 | the user-group name order is a total preorder |
| UserRegistrationGroup.SortUserGroupsByName | NiesBack/routers/userRegistrationGroup.py:36-40 | user groups sorted by name, a permutation of the table |
| Visibility.AllowedReportIds | NiesBack/core/visibility.py:23-44 | for anonymous, exactly the active public reports; for a logged-in user, exactly the active reports that are public or granted through a membership |
| Visibility.GroupsWithAllowedReports | NiesBack/core/visibility.py:46-55 | exactly the groups that own an active allowed report |
| Visibility.RootChildIds | NiesBack/core/visibility.py:57-93 | exactly the active direct children whose active-descendant closure meets the holder groups |
| Visibility.VisibleChildrenGroups | NiesBack/core/visibility.py:9-104 | sorted by name; for an admin exactly the active direct children; otherwise exactly those whose subtree qualifies, and the empty list when none does |
| Visibility.VisibleIffSubtreeHoldsAdmitted | NiesBack/core/visibility.py:47-93 | for a non-admin, a group is returned iff it is an active direct child and some admitted report belongs to a group in its active-descendant closure |
| Visibility.VisibleHasAdmitted | NiesBack/core/visibility.py:47-93 | for a non-admin, every returned group is an active direct child whose active subtree holds an admitted report |
| Visibility.AdmittedIsVisible | NiesBack/core/visibility.py:47-93 | for a non-admin, every active direct child whose active subtree holds an admitted report is returned |
| Visibility.GroupsNamedBy | NiesBack/core/visibility.py:95-104 | `[]` for an empty id set; otherwise exactly the groups whose id is in the set, sorted by name |
| Visibility.VisibleAreActiveChildren | NiesBack/core/visibility.py:65 | every returned group is an active direct child of the parent, and none is returned twice |
| Visibility.SameIdSameGroup | NiesBack/models/models.py:9 | with the primary key, two group rows with one id are the same row |
| Visibility.SameIdSameReport | NiesBack/models/models.py:21 | with the primary key, two report rows with one id are the same row |
| Forest.ChildrenOf | NiesBack/routers/powerbi.py:33-35 | exactly the rows whose `parent_id` is the key, in row order |
| Forest.ChildrenOfNoDup | NiesBack/routers/powerbi.py:33-35 | children lists of distinct rows have no duplicates |
| Forest.ActiveGroups | NiesBack/routers/powerbi.py:66 | exactly the active groups, in table order |
| Forest.ActiveChildren | NiesBack/routers/powerbi.py:76-82 | exactly the active groups whose parent is the given id |
| Forest.IndexStep | NiesBack/routers/powerbi.py:35 | one `setdefault(...).append(g)` step keeps the index equal to "children of each key" |
| Forest.IndexByParent | NiesBack/routers/powerbi.py:33-35 | the built dictionary maps every parent key to its children in row order, missing keys to `[]` |
| Forest.ActiveLinks | NiesBack/routers/powerbi.py:47-50 | a link (p, c) exists exactly when an active group c has parent p |
| Forest.Descendants | NiesBack/core/visibility.py:59-79 | the active subtree: contains the root, only active ids besides it, and exactly the ids reachable along active links |
| Forest.DescendantsClosed | NiesBack/routers/powerbi.py:53-58 | the descendant set holds every active child of each member |
| Forest.DescendantsLeast | NiesBack/core/visibility.py:71-79 | every closed set holding the root contains the descendant set |
| Forest.PathStaysIn | NiesBack/core/visibility.py:71-79 | an active path from the root never leaves a closed set holding the root |
| Forest.DescendantsUnique | NiesBack/routers/powerbi.py:51-59 | a closed set of reachable ids holding the root is the descendant set |
| Forest.InactiveNotDescendant | NiesBack/core/visibility.py:78 | an inactive group other than the root is never in the subtree, so the walk never passes through it |
| PowerBi.Attach | NiesBack/routers/powerbi.py:36-39 | `attach`: the node is the group, with one subtree per child of the index |
| PowerBi.AttachNode | NiesBack/routers/powerbi.py:36-39 | the recursive loop builds exactly the tree `attach` specifies |
| PowerBi.AttachFaithful | NiesBack/routers/powerbi.py:36-39 | every attached node's children are exactly its children in the input, in input order, to the depth of the fuel |
| PowerBi.InTreeHasRowParent | NiesBack/routers/powerbi.py:36-42 | every node of an attached tree is an input row, and each node below the root has a parent among the rows |
| PowerBi.BelowHasRowParent | NiesBack/routers/powerbi.py:36-39 | every node strictly below the root of a faithful tree is a row whose parent is a row |
| PowerBi.BuildTree | NiesBack/routers/powerbi.py:32-43 | the roots are exactly the parentless input groups in input order, each attached faithfully |
| PowerBi.AttachRoots | NiesBack/routers/powerbi.py:40-42 | one attached tree per parentless group of the index, in index order |
| PowerBi.RootsFaithful | NiesBack/routers/powerbi.py:40-42 | attaching each root through a correct index gives faithful trees |
| PowerBi.OrphanAppearsNowhere | NiesBack/routers/powerbi.py:34-42 | a group whose parent is absent from the input appears in no tree |
| PowerBi.DescendantsIds | NiesBack/routers/powerbi.py:45-59 | the result is exactly the active subtree of the root, and no id is pushed twice |
| PowerBi.Walk | NiesBack/routers/powerbi.py:51-59 | the stack walk ends with a set holding the root, inside the subtree and closed under active links, every id pushed once |
| PowerBi.Visit | NiesBack/routers/powerbi.py:53-58 | one pass of the `while stack` loop keeps the walk invariant and lowers the termination measure |
| PowerBi.PushUnseenChildren | NiesBack/routers/powerbi.py:55-58 | the inner loop adds each unseen child to the set and pushes it once; seen children are skipped |
| PowerBi.ListGroups | NiesBack/routers/powerbi.py:61-74 | without `tree`, exactly the active parentless groups in table order; with `tree`, the faithful forest of active groups |
| PowerBi.TopLevel | NiesBack/routers/powerbi.py:68-71 | the flat listing loop keeps exactly the parentless rows, in row order |
| PowerBi.ListChildren | NiesBack/routers/powerbi.py:76-82 | exactly the active groups whose parent is the given id |
| PowerBi.ActiveGroupNamed | NiesBack/routers/powerbi.py:91 | an active group with that exact name, None exactly when there is none |
| PowerBi.ReportsUnder | NiesBack/routers/powerbi.py:98-123 | exactly the admitted reports owned by a group of the set, in the report order |
| PowerBi.ListReportsByGroup | NiesBack/routers/powerbi.py:84-136 | as written: `[]` when no active group has the name or no report is selected; a server error as soon as one admitted report of the subtree is selected |
| PowerBi.SelectedRows | NiesBack/routers/powerbi.py:91-123 | a row is selected iff it is an admitted report of a group in the named group's active subtree |
| PowerBi.ListReportsByGroupFixed | NiesBack/routers/powerbi.py:84-136 | as intended: `[]` when no active group has the name; otherwise one output record per selected row, in report order |
| PowerBi.OwnReportBreaksListing | NiesBack/routers/powerbi.py:126-135 | an admitted report of the named group is selected, so the endpoint as written fails while the intended listing holds its record |
| PowerBi.ToReportOuts | NiesBack/routers/powerbi.py:126-135 | one record per row, same order, each with the row's fields and its group |
| PowerBi.BuildReportOuts | NiesBack/routers/powerbi.py:126-136 | the intended output loop builds exactly `ToReportOuts` of the rows |
| Menu.Partition | NiesBack/core/menu.py:10-13 | the parents list is the items of the parentless rows, each bucket the items of that parent's children, in row order |
| Menu.RootStep | NiesBack/core/menu.py:11-13 | a parentless row extends `parents` by its item and leaves every bucket as it was |
| Menu.KidStep | NiesBack/core/menu.py:11-13 | a row with a parent extends that parent's bucket by its item and nothing else |
| Menu.SortItems | NiesBack/core/menu.py:15-17 | sorted by lower-cased name, a permutation |
| Menu.ItemLeIsTotalPreorder | NiesBack/core/menu.py:15 | comparing lower-cased names is a total preorder |
| Menu.SortBuckets | NiesBack/core/menu.py:16-17 | every bucket is sorted by lower-cased name and keeps its items |
| Menu.BuildMenu | NiesBack/core/menu.py:4-20 | one entry per active root, sorted by lower-cased name; each entry's children are exactly its active children's id and name, sorted |
| Menu.ItemsMembership | NiesBack/core/menu.py:12 | an item is listed exactly when some row has that id and name |
| Menu.RootItemIff | NiesBack/core/menu.py:7-13 | an item is a root entry iff it comes from an active parentless group, so inactive groups never appear |
| Menu.ChildItemIff | NiesBack/core/menu.py:13-19 | an item is a child of entry id iff it comes from an active group with that parent |
| GrupoView.GroupMap | NiesBack/routers/grupoView.py:17 | every group id, active or not, maps to a row with that id |
| GrupoView.BuildBreadcrumb | NiesBack/routers/grupoView.py:15-28 | the loop climbs parent pointers from the current group and reverses the trail |
| GrupoView.ClimbFresh | NiesBack/routers/grupoView.py:19-25 | each climbed id is in the map and unseen, none repeats, and the climb is no longer than the unseen ids |
| GrupoView.ClimbUnseen | NiesBack/routers/grupoView.py:22-26 | every climbed group is in the map and its id was not seen before the climb |
| GrupoView.ClimbLength | NiesBack/routers/grupoView.py:22-26 | the climb is no longer than the unseen ids of the map, so the walk ends |
| GrupoView.ClimbLinks | NiesBack/routers/grupoView.py:22-26 | each climbed group's parent is the next group climbed |
| GrupoView.ClimbStops | NiesBack/routers/grupoView.py:22 | the climb is empty iff the guard fails, and it stops at a missing, unmapped or repeated parent |
| GrupoView.BreadcrumbEndsAtCurrent | NiesBack/routers/grupoView.py:20-27 | the trail is non-empty iff the current id is a non-empty key of the map, and then it ends at the current group |
| GrupoView.BreadcrumbLinks | NiesBack/routers/grupoView.py:22-27 | each element after the first is a child of the one before it |
| GrupoView.BreadcrumbNoRepeat | NiesBack/routers/grupoView.py:19-25 | no id appears twice, even with cyclic parents, and the trail is no longer than the table |
| GrupoView.BreadcrumbStops | NiesBack/routers/grupoView.py:17-22 | the first element's parent is absent, unmapped or already in the trail; inactivity does not stop it |
| GrupoView.GroupReports | NiesBack/routers/grupoView.py:51 | exactly the active reports of this exact group |
| GrupoView.ActiveGroupById | NiesBack/routers/grupoView.py:38 | an active group with the id, None exactly when there is none |
| GrupoView.GroupView | NiesBack/routers/grupoView.py:30-83 | 404 exactly when no active group has the id; otherwise all active direct children by name, the admitted reports of this group in the report order, and the breadcrumb |
| ReportRegistrationGroup.CollapseShape | NiesBack/routers/reportRegistrationGroup.py:16-21 | after replacing runs of non-`[a-z0-9]` by '-', only `[a-z0-9-]` remains and no two '-' are adjacent |
| ReportRegistrationGroup.NormalizeWordsIsSlug | NiesBack/routers/reportRegistrationGroup.py:16-22 | from the ASCII stage on, the result has only `[a-z0-9-]`, single dashes, and none at either end |
| ReportRegistrationGroup.SlugFixed | NiesBack/routers/reportRegistrationGroup.py:17-22 | a slug is left unchanged |
| ReportRegistrationGroup.NormalizeWordsIdempotent | NiesBack/routers/reportRegistrationGroup.py:17-22 | normalising twice is normalising once |
| ReportRegistrationGroup.ReportGroupDecision | NiesBack/routers/reportRegistrationGroup.py:40-72 | 403 for a non-admin, then 409 when the slug is in use, then 409 when any group's name matches ignoring case; otherwise a new active root group with the slug id and stripped name |
| ReportRegistrationGroup.ReportSubgroupDecision | NiesBack/routers/reportRegistrationGroup.py:74-113 | 403, then 404 when the parent id is absent (active or not), then 409 on the slug, then 409 on a sibling name clash ignoring case; otherwise a new active group under the parent |
| ReportRegistrationGroup.CreateReportGroup | NiesBack/routers/reportRegistrationGroup.py:40-72 | on success exactly that group is appended; on any error nothing changes |
| ReportRegistrationGroup.CreateReportSubgroup | NiesBack/routers/reportRegistrationGroup.py:74-113 | on success exactly that subgroup is appended; on any error nothing changes |
| ReportRegistrationGroup.CreatedGroupIsFreshSlug | NiesBack/routers/reportRegistrationGroup.py:46-72 | a created group has a slug id no existing group has, is active and is a root |
| Admin.RequireAdmin | NiesBack/routers/admin.py:16-19 | succeeds, with the current user, exactly for an administrator; otherwise 403 |
| Admin.ApproveUser | NiesBack/routers/admin.py:21-28 | 403 for a non-admin, 404 for an unknown id; otherwise that user becomes approved and nothing else changes |
| Admin.CreateGroup | NiesBack/routers/admin.py:30-34 | a new user group with the next id, or a failed commit when the unique name is taken |
| Admin.InsertIfAbsent | NiesBack/routers/admin.py:42-45 | the pair is present afterwards; if it was there nothing changes, otherwise exactly it is appended |
| Admin.InsertIfAbsentNoDup | NiesBack/routers/admin.py:42-44 | insertion keeps the pairs unique |
| Admin.InsertIfAbsentIdempotent | NiesBack/routers/admin.py:42-45 | inserting twice is inserting once |
| Admin.AddMemberDecision | NiesBack/routers/admin.py:36-45 | 403, then 404 for an unknown user group, then 404 for an unknown user; otherwise the (user, group) pair |
| Admin.AddMember | NiesBack/routers/admin.py:36-45 | on success the pair is inserted if absent; on error nothing changes; membership pairs stay unique |
| Admin.GrantReportDecision | NiesBack/routers/admin.py:47-54 | 403, then 404 for an unknown user group; an existing pair is accepted; a new pair naming no report breaks the `report_id` foreign key (500); otherwise the pair |
| Admin.GrantReport | NiesBack/routers/admin.py:47-54 | on success the grant is inserted if absent; on any error, the foreign-key 500 included, nothing changes; grant pairs stay unique |
| Auth.NewUser | NiesBack/routers/auth.py:17-27 | the new row is pending, not an admin, holds the hash of the password and copies the other fields |
| Auth.RegisterDecision | NiesBack/routers/auth.py:11-29 | 400 for a known e-mail, checked before the CPF; 400 for a known CPF; otherwise the new pending user |
| Auth.Register | NiesBack/routers/auth.py:11-29 | on success exactly one user is appended; on error nothing changes; constraints kept |
| Store.AppendFreshUser | NiesBack/routers/auth.py:13-16 | appending a user with a fresh id, e-mail and CPF keeps the uniqueness constraints |
| Auth.LoginFound | NiesBack/routers/auth.py:33-38 | once the e-mail is found and the password verifies, the status alone decides between 403 and a token |
| Auth.Login | NiesBack/routers/auth.py:31-38 | 401 for an unknown e-mail or a wrong password, 403 for valid credentials of a non-approved user, otherwise a token of the user's id and admin flag |
| Auth.RegisterThenApproveThenLogin | NiesBack/routers/auth.py:11-38 | a freshly registered user cannot log in (403) until approved, then can |
| Security.AccessTokenPayload | NiesBack/services/security.py:15-31 | the payload holds `sub`, `adm` and an expiry 480 minutes after now |
| Security.CreateAccessToken | NiesBack/services/security.py:28-31 | the token is the encoding of that payload |
| Security.FirstSpace | NiesBack/services/security.py:40 | the index of the first space, or the length when there is none |
| Security.AfterFirstSpace | NiesBack/services/security.py:40 | `split(" ", 1)[1]`: the text after the first space |
| Security.BearerToken | NiesBack/services/security.py:38-40 | for a "bearer " `authorization` value the token is everything after the seven-character prefix |
| Security.FirstSpaceAt | NiesBack/services/security.py:40 | the index `split(" ", 1)` splits at is k whenever position k holds a space and no earlier position does |
| Security.GetCurrentUserOptional | NiesBack/services/security.py:33-51 | no user for a missing or non-bearer `authorization` value; 401 for a decode failure or a payload without `sub`; 403 for a missing or non-approved user; otherwise that approved user |
| UserStatusWindow.WindowStatus | NiesBack/services/user_status.py:5-17 | approved iff already approved or pending inside the inclusive window; blocked stays blocked; pending outside stays pending |
| UserStatusWindow.EnforceValidityWindow | NiesBack/services/user_status.py:5-20 | the user gets that status, and the table changes only by promoting that user |
| UserStatusWindow.PromotionOnly | NiesBack/services/user_status.py:16 | the status is unchanged or goes from pending to approved; no one is demoted |
| UserStatusWindow.WindowIdempotent | NiesBack/services/user_status.py:9-20 | applying the window twice on the same day is applying it once |
| PasswordResets.NewReset | NiesBack/services/password_reset.py:25-30 | unused, expiring `PASSWORD_RESET_EXPIRES_SECONDS` after now, storing the hash of the token |
| PasswordResets.CreatePasswordReset | NiesBack/services/password_reset.py:21-34 | exactly that record is appended; the reset id and the raw token are returned |
| PasswordResets.ResetById | NiesBack/services/password_reset.py:37-39 | the record with that reset id, None exactly when there is none |
| PasswordResets.GetValidPasswordReset | NiesBack/services/password_reset.py:36-48 | the record iff it exists, is unused, `now <= expires_at` (equality still valid) and the token verifies; otherwise None |
| PasswordResets.MarkUsedIn | NiesBack/services/password_reset.py:50-53 | the records with that reset id get `used_at = now`; the others are unchanged |
| PasswordResets.MarkUsed | NiesBack/services/password_reset.py:50-53 | the table becomes that update |
| PasswordResets.UsedResetNeverValid | NiesBack/services/password_reset.py:42-53 | after `mark_used` the reset is never valid again, at any later time and for any token |
| PasswordResets.FreshResetValid | NiesBack/services/password_reset.py:21-48 | a just-created reset is valid for its own token until it expires |
| ResetPassword.NormalizeEmail | NiesBack/services/reset_password.py:17 | `(email or "").strip().lower()`, and the result is already lower-case |
| ResetPassword.PadDecimal | NiesBack/services/reset_password.py:31 | `:0Nd` formatting gives exactly N decimal digits |
| ResetPassword.PadDecimalRoundTrip | NiesBack/services/reset_password.py:31 | reading the padded digits back gives the value when it fits |
| ResetPassword.ResetCodeText | NiesBack/services/reset_password.py:31 | the code of a value below 1000000 is six digits and reads back as the value |
| ResetPassword.ResetCodeTextInjective | NiesBack/services/reset_password.py:31 | distinct values give distinct codes |
| ResetPassword.CloseOpenCodes | NiesBack/services/reset_password.py:26-29 | the user's unused codes become used; every other row is unchanged |
| ResetPassword.NewCode | NiesBack/services/reset_password.py:14-39 | an unused six-digit code for the user, expiring 15 minutes after now |
| ResetPassword.CodesAfterSend | NiesBack/services/reset_password.py:16-41 | an unknown e-mail leaves the table alone; otherwise the user's open codes are closed and one new code is appended |
| ResetPassword.SendResetCode | NiesBack/services/reset_password.py:16-49 | the same generic message whether or not the e-mail exists, and the table becomes that update |
| ResetPassword.SendLeavesOneOpenCode | NiesBack/services/reset_password.py:26-41 | after a send, the user's only open code is the new one; other users' and used rows are untouched |
| ResetPassword.CloseThenAdd | NiesBack/services/reset_password.py:30-40 | closing a user's open codes and appending one keeps every old row in place, closes each of that user's and touches no other |
| ResetPassword.SecondSendClosesFirst | NiesBack/services/reset_password.py:26-41 | a second send closes the code of the first and appends a new open one |
| Schemas.ParseForgotVerifyIn | NiesBack/schemas/auth_reset.py:4-8 | accepted iff both fields are given, the e-mail validator accepts the address and the code is six Unicode decimal digits; the body keeps the normalised address and the code |
| Schemas.ParseResetPasswordIn | NiesBack/schemas/auth_reset.py:10-14 | accepted iff all four fields are given, the e-mail validates, the code is six Unicode decimal digits and the new password has at least 6 characters; the body keeps the normalised address and the other fields |
| ResetPassword.NewCodeParses | NiesBack/schemas/auth_reset.py:4 | every code the service writes passes the code check of both reset bodies, under any digit table holding the ASCII digits |
| Schemas.ParseUserCreate | NiesBack/schemas/schemas_rbac.py:6-13 | accepted iff name, CPF, a valid e-mail and a password of at least 6 characters are given; name, CPF and password are copied, the e-mail is the normalised address, phone and the window bounds default to None |
| Auth.ValidSignUpRegisters | NiesBack/routers/auth.py:11-29 | a sign-up body that validates, with an address and CPF not yet taken, registers a pending non-admin row under the normalised address with the password's hash |
| Schemas.TokenOutRoundTrip | NiesBack/schemas/schemas_rbac.py:30-33 | a token response holding all three fields parses back to itself |
| Auth.LoginResponseRejected | NiesBack/routers/auth.py:38 | every token `login` answers fails `TokenOut` validation, for want of `refresh_token` |
| Schemas.AcceptedGroupFitsColumns | NiesBack/schemas/schemas_rbac.py:51-54 | every accepted `UserGroupCreate` fits the `user_groups` columns: a name of 2 to 100 characters (within `String(120)`) and a description of at most 300 |
| Schemas.UserGroupOutFromRow | NiesBack/schemas/schemas_rbac.py:44-49 | a stored user group read through `from_attributes` validates, with its name and description and no report ids |
| Urls.Utf8 | NiesBack/core/urls.py:7 | the UTF-8 octets of a code point: one octet below 0x80, else a lead octet and continuation octets |
| Urls.QuoteByte | NiesBack/core/urls.py:7 | unreserved ASCII octets are kept, space becomes '+', and everything else becomes `%XX` |
| Urls.QuotePlus | NiesBack/core/urls.py:7 | the encoded value holds only unreserved characters, '+' and '%', so never '&' or '=' |
| Urls.HexRoundTrip | NiesBack/core/urls.py:7 | reading a written hexadecimal digit gives its value |
| Urls.DecodeQuoteByte | NiesBack/core/urls.py:7 | decoding an escaped octet followed by text gives the octet and then the text's decoding |
| Urls.QuoteBytesRoundTrip | NiesBack/core/urls.py:7 | percent-decoding the encoding of any octets gives them back |
| Urls.QuotePlusKeepsUnreserved | NiesBack/core/urls.py:7 | a value of unreserved characters is left unchanged |
| Urls.QuotePlusSpace | NiesBack/core/urls.py:7 | a space becomes '+', with the text on each side encoded on its own |
| Urls.Utf8StringAppend | NiesBack/core/urls.py:7 | UTF-8 encoding distributes over concatenation |
| Urls.QuoteBytesAppend | NiesBack/core/urls.py:7 | escaping distributes over concatenation |
| Urls.BuildVerifyLink | NiesBack/core/urls.py:4-8 | the link is the base URL with every trailing '/' removed, then "/auth/verify?", then one `token=` parameter whose value decodes to the token's UTF-8 octets |
| SidebarTree.ContainsIdFalsy | nies-front/src/components/SidebarTree.jsx:5 | `containsId` is false for every falsy id |
| SidebarTree.NumberMatchesString | nies-front/src/components/SidebarTree.jsx:6 | ids compare as strings: a node numbered n is found by n's decimal spelling, and the reverse for every n but the falsy 0 |
| SidebarTree.ContainsIdIffInSubtree | nies-front/src/components/SidebarTree.jsx:4-8 | for a truthy id, `containsId` holds iff some node of the subtree has that id; absent children count as none |
| SidebarTree.SomeContainsIffSome | nies-front/src/components/SidebarTree.jsx:7 | `.some(...)` holds iff some child contains the id |
| SidebarTree.ContainsIdUpward | nies-front/src/components/SidebarTree.jsx:7 | if a child contains the id, so does its parent |
| SidebarTree.AncestorsOpenByDefault | nies-front/src/components/SidebarTree.jsx:12-16 | every node on the path down to the active node starts open |
| SidebarTree.RenderedChildren | nies-front/src/components/SidebarTree.jsx:18-44 | children are rendered iff the node has some and is open, and then they are the node's children |
| SidebarTree.ActiveNodeShown | nies-front/src/components/SidebarTree.jsx:12-44 | when the tree holds the active id, the active node is on screen with every node in its default state |

## Left out

- `get_app_token` and `embed_info` (`NiesBack/routers/powerbi.py`) are HTTP calls to Azure AD and the Power BI REST API. They are not modelled.
- E-mail delivery (`send_email`, the SMTP service) is I/O. `SendResetCode` does not model the `send_email` call.
- Cryptography is not modelled. Password hashing and verification, JWT encode and decode, and the itsdangerous serialiser are parameters. Where a lemma needs it, the only property assumed is `verify(p, hash(p))`, taken as a hypothesis.
- Randomness and clocks are parameters: `secrets.randbelow`, `token_urlsafe`, the uuid default, `datetime.now()` and `date.today()`. Times are integers (seconds or days).
- ReportRegistrationGroup.NormalizeWords: NFKD decomposition and the dropping of non-ASCII characters are a parameter (`asciiFold`). The slug properties are proved from the ASCII stage on.
- Text.Lower and the SQL `lower()`: only ASCII letters are lower-cased.
- SQL `ORDER BY name` collation: modelled as code-point order (`Text.LexLe`). Rows that compare equal keep table order, through a stable sort. The database may order ties differently.
- Forest.Descendants: the recursive CTE is modelled as reachability along active links. The set semantics of `UNION ALL`/`DISTINCT` are used, not its row multiplicities. On an active cycle the model still gives the finite set, where the query does not end (see RootChildIds).
- PowerBi.Attach: `attach` has no cycle guard in the source. The model bounds its depth by the number of groups (fuel), so on cyclic parent pointers the model cuts the tree where the source would recurse forever.
- SidebarTree: floating-point ids other than NaN are not modelled. The user's chevron toggle (`setOpen`) and the React rendering itself are left out. Only the default open state and the render condition are modelled.
- The page handlers only render templates. Their responses are the datatypes the model returns. These are: `report_registration_group` (the admin page listing groups), the template context, `with_menu`, and `build_menu_for_user`. `media_uploads`, `editPanel`, `panelDetail`, `detalhePainel` and `userRegister` are not part of this model.
- Database plumbing is not modelled: sessions, commits, `refresh`, and cascade deletes.
- Store.Report.isPublic is an `Option<bool>`. The column is declared non-null, but `userRegistrationGroup.py` also tests for NULL, so the model keeps that case.
- The reset-code table: `services/reset_password.py` writes `PasswordReset` rows with `code` and `used` fields. It imports that class from `models/password_reset.py`, which is entirely commented out, and the `PasswordReset` class in `models_rbac.py` has no such fields. The model gives that flow its own table (`ResetCode`). The field shape follows the code that writes it.
- Admin.CreateGroup: a duplicate user-group name violates the UNIQUE constraint at commit. The source has no handler for it, so the model reports it as a 500 error.
- Auth.Register: the response filter through `UserOut` is not modelled. The method returns the whole row.
- Auth.Login: `TokenOut` declares `refresh_token` as required, but `login` builds it without one. The model returns the access token and does not model that validation failure at response time.
- ListReportsByGroup: the output loop of `list_reports_by_group` cannot build a record (see Findings). `ListReportsByGroupFixed` gives the intended output: the report's fields and its `group_id`, the other `ReportOut` fields at their defaults.
- RootChildIds: the recursive CTE of `get_visible_children_groups` is a `UNION ALL` with no cycle guard, so on an active `parent_id` cycle below the parent the query never ends. The model returns the finite closure there. (`_descendants_ids` does end on cycles, through its `result` check.)
- VisibleChildrenGroups: returns a list where the source query runs forever on an active cycle below the parent, for the reason given under RootChildIds.
- GrantReportDecision: the 500 for a new grant naming no report assumes the database enforces the foreign key on `report_id`. On SQLite without `PRAGMA foreign_keys=ON` the row would be inserted.
- ParseForgotVerifyIn, ParseResetPasswordIn and ParseUserCreate: `EmailStr` is the parameter `emailStr`, which returns the normalised address or None. The Unicode Nd table behind `\d` is the parameter `isDecimal`. Neither is spelled out.
- LoginIn: the `EmailStr` normalisation of the login body is not modelled. `Auth.Login` compares the address it is given.
- Names the source imports or reads but does not define. The model follows the evident intent of each:
  - `require_admin` is imported from `services/security.py` by `reportRegistrationGroup.py` and `userRegistrationGroup.py`, but it is defined only in `routers/admin.py`. The model uses that gate (403 "Admin only").
  - `ReportGroupCreate` and `ReportSubgroupCreate` are not in `schemas/schemas_rbac.py`. The model takes the payload as a name and a `parent_id`.
  - `GroupOutRBAC`, `GroupMemberIn` and `GroupReportPermissionIn` are not in `schemas/schemas_rbac.py` either. The model takes the fields the handlers read.
  - `Settings` (`core/settings.py`, `extra="ignore"`) declares neither `SECRET_KEY` nor `PASSWORD_RESET_EXPIRES_SECONDS`. The model treats the signing key as part of the encode/decode parameters and the expiry as the `seconds` argument.
- Security.GetCurrentUserOptional: the `authorization` parameter has no `Header()` marker, so FastAPI reads it from the query string, not from the `Authorization` header. The model takes the string whatever its origin.

## Findings

| source | as written | input that shows it | evidently intended | confidence | as-written member | corrected member |
|---|---|---|---|---|---|---|
| NiesBack/routers/powerbi.py:126-135 | each record is built with `thumbnail_url=r.thumbnail_url`, an attribute `Report` does not have, and without `group_id`, which `ReportOut` requires, so the first selected report raises and the request ends in a 500 | an active group named `g` holding one active public report, requested with `groupId=g` by anyone (`PowerBi.OwnReportBreaksListing`) | one `ReportOut` per selected report, carrying its `group_id` | not executed; high | PowerBi.ListReportsByGroup | PowerBi.ListReportsByGroupFixed |

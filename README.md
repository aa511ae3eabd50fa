# RBAC admin panel: the permission model in Dafny

This project models the permission core of a role-based admin panel. Employees belong to groups.
A group holds grant rows `(group_id, menu_id, module_id, can_add, can_view, can_edit, can_delete)`.
The dashboard builds its navigation from the grant rows of the signed-in employee's group.

The model covers:

- **The server's grant store** (`server/server.js`). `ServerGrants.GrantStore` is a class over the
  `groups` and `group_permissions` tables. Creating a group and replacing a group's grants are
  transactions: the method works on a copy of the table, writes it back at COMMIT, and returns
  leaving the state untouched at ROLLBACK. The per-group listing is sorted by menu id and then
  module id.
- **The server's employee update.** `ServerEmployees.EmployeeStore` keeps the stored password hash
  when the request gives no password.
- **Token extraction** in `authenticateToken` (`ServerAuth`).
- **The grant editor** shared by the Module Access tab and dialog (`GrantEditor`):
  - `getPermission`;
  - the upsert `updatePermission`;
  - the bulk "apply to all" switch;
  - the save filter that drops all-false rows.
- **Navigation** on the dashboard (`Dashboard`).
- **Group creation and editing forms** (`GroupManagement`, `CreateGroupModal`), over the
  check-box maps in `Selection`.
- **The employee list filter** (`UserDetails`).
- **The two employee forms**, over the shared payload rules in `EmployeePayload`.
- **Cross-component lemmas** (`SaveRoundTrip`): what a save from an editor, or a create from
  the dialog, leaves in `group_permissions`.

Facts about the code that a reader might expect otherwise:

- Navigation checks only that a grant row exists for a menu or module. It never reads `can_view`.
- The bulk "apply to all" switch covers every module of every catalog menu, not only the menus
  of the chosen group.
- The server stores all-false rows if it is sent them. Only the clients filter them out.
- The server has no handlers for a group's menus, for renaming a group, or for deleting one.

Modelling conventions:

- JavaScript values become Dafny values. A missing key or an `undefined` field is `None`.
- `x || false` is true only for a present `true`.
- `Object.keys` of an object keyed by ids lists the ids in ascending numeric order.
- `toLowerCase` is the ASCII mapping.
- `trim` removes the ECMAScript white-space and line-terminator characters.
- The database's own constraints are parameters that may refuse any insert with an error code:
  `accept` for a grant row, `acceptGroup` for a group. The foreign key from a grant row to its
  group, and the unique group name, are modelled explicitly.
- A bcrypt hash, a JWT verification and the clock are parameters.

## Model

| member | source | states |
|---|---|---|
| `ServerAuth.BearerToken` | server/server.js:19-22 | a token exactly when the header is present, splits on spaces into at least two pieces and the second piece is non-empty; the token is that second piece, so it is non-empty, has no space, and the header has one |
| `ServerAuth.SchemeThenToken` | server/server.js:20 | a header `<scheme> <token>` yields exactly the token, whatever the scheme word is (the word "Bearer" is not checked) |
| `ServerAuth.NoSpaceNoToken` | server/server.js:20-22 | a header without a space carries no token and is answered with Access denied, whatever `verify` would say |
| `ServerAuth.ExtraWordsIgnored` | server/server.js:20 | in `<scheme> <token> <more words>` the token is still the second word; the rest is ignored |
| `ServerAuth.DoubleSpaceNoToken` | server/server.js:20-22 | two spaces after the scheme make the second piece empty, so the answer is Access denied |
| `ServerAuth.Authenticate` | server/server.js:18-29 | Access denied exactly when there is no token; Invalid token exactly when there is one and `verify` rejects it; otherwise the payload `verify` gives for the token |
| `ServerAuth.AuthenticateOutcomes` | server/server.js:18-29 | no header gives 401 Access denied; a token that verification rejects gives 403 Invalid token; an accepted token passes with its payload |
| `ServerGrants.ToRow` | server/server.js:211-215 | each stored flag is true exactly when the request carried `true` for it; the row belongs to the group and keeps the submitted menu and module |
| `ServerGrants.OtherRows` | server/server.js:206 | the delete keeps exactly the rows of the other groups, in table order |
| `ServerGrants.Replaced` | server/server.js:205-217 | the table after a successful replace holds exactly the other groups' rows and the rows made from the submitted list, one per submitted permission |
| `ServerGrants.RowsOf` | server/server.js:185 | the rows selected for a group are exactly the table's rows with that group id |
| `ServerGrants.InsertAll` | server/server.js:209-217 | when every insert is accepted, the table is the old table followed by the new rows, and every new row names an existing group |
| `ServerGrants.InsertAllStep` | server/server.js:209-217 | one turn of the insert loop: a refused row ends it with that row's error, an accepted row leaves the rest of the loop to run on the grown table |
| `ServerGrants.GroupInsertError` | server/server.js:143-147 | a taken name refuses the group insert with a unique violation; for a free name the insert answers as the schema's other constraints do |
| `ServerGrants.SubmissionRoundTrip` | server/server.js:211-215 | a grant sent with all four flags is stored unchanged |
| `ServerGrants.ReplaceYieldsExactly` | server/server.js:205-217 | after a replace, the group's rows are exactly the submitted list in submitted order: old rows are gone, not merged |
| `ServerGrants.OtherRowsKeepGroup` | server/server.js:206 | deleting one group's rows leaves every other group's rows as they were |
| `ServerGrants.ReplaceKeepsOtherGroups` | server/server.js:206-217 | a replace for group g leaves the rows of every other group unchanged |
| `ServerGrants.LastReplaceWins` | server/server.js:205-217 | replacing with a and then with b equals replacing with b alone |
| `ServerGrants.ReplaceIdempotent` | server/server.js:205-217 | replacing twice with the same list equals replacing once |
| `ServerGrants.EmptyReplaceClears` | server/server.js:206-209 | an absent or empty permissions list leaves the group with no rows |
| `ServerGrants.ReplaceCoercesFlags` | server/server.js:214 | the i-th stored row of the group has each flag true exactly when the i-th submitted permission held `true` for it |
| `ServerGrants.ListPermissions` | server/server.js:181-187 | the listing holds exactly the group's rows whose menu and module exist, as a permutation of them, sorted by menu id and then module id |
| `ServerGrants.GrantStore.ReplacePermissions` | server/server.js:197-228 | it succeeds exactly when every insert is accepted, and then the table is the replaced table; on any refusal it answers Server error and leaves the table unchanged; the store stays valid |
| `ServerGrants.GrantStore.CreateGroup` | server/server.js:136-174 | it succeeds exactly when the group insert (GroupInsertError) and every insert of the submitted rows are accepted; a taken name answers Group name already exists, and any refused insert, the group's own included, answers the error CreateError gives its code; any failure leaves groups, rows and the id counter unchanged; success appends the new group and one row per submitted permission |
| `ServerGrants.CreateError` | server/server.js:163-170 | a refusal with code 23505 (unique violation) answers 400 Group name already exists, and every other refusal 500 Server error |
| `ServerGrants.NewGroupHasExactlySubmitted` | server/server.js:143-159 | a newly created group has exactly the submitted rows, because no existing row can carry its id |
| `ServerEmployees.UpdateNotFound` | server/server.js:320-324 | Employee not found is answered exactly when no employee has the id |
| `ServerEmployees.UpdatedEmployees` | server/server.js:305-328 | a conflict is answered only when an employee with the id clashes; on success the table keeps its length, every employee with another id is unchanged, and an employee with the id holds the revised row |
| `ServerEmployees.UpdateEffect` | server/server.js:305-328 | the update fails with a conflict exactly when another employee holds the requested employee id or email; otherwise only that employee's row changes, it takes every requested field and the new update time, and its password hash is replaced only when a non-empty password is given |
| `ServerEmployees.UpdateKeepsUnique` | server/server.js:329-333 | a successful update keeps ids, employee ids and emails unique |
| `ServerEmployees.EmployeeStore.UpdateEmployee` | server/server.js:298-337 | on failure the table is unchanged and the error is returned; on success the table is the updated one and the response is the employee without its password |
| `GrantEditor.GetPermission` | client/src/components/setup/ModuleAccess.jsx:98-109 | the caps of the first row with the key, or all false when no row has it (the same code is in ModuleAccessModal.jsx:69-73) |
| `GrantEditor.Upserted` | client/src/components/setup/ModuleAccess.jsx:111-137 | the upsert keeps the length or appends exactly the new row with only f set; every row without the key is left as it was |
| `GrantEditor.Upsert` | client/src/components/setup/ModuleAccess.jsx:111-137 | the loop builds the upsert: rows with the key revised, or one row appended when none had it |
| `GrantEditor.UpsertExistingChangesOnlyField` | client/src/components/setup/ModuleAccess.jsx:117-122 | for an existing key, the length is kept, and the only change is to field f of the matching rows |
| `GrantEditor.UpsertMissingAppendsOne` | client/src/components/setup/ModuleAccess.jsx:123-134 | for a missing key, exactly one row is appended, with f set to the value and the other three flags false |
| `GrantEditor.GetAfterUpsert` | client/src/components/setup/ModuleAccess.jsx:111-137 | after the upsert, the key reads with f equal to the value and its other flags as before; every other key reads as before |
| `GrantEditor.UpsertKeepsKeysUnique` | client/src/components/setup/ModuleAccess.jsx:111-137 | if keys were unique before the upsert, they stay unique |
| `GrantEditor.ApplyToKeysEffect` | client/src/components/setup/ModuleAccess.jsx:90-95 | after a series of upserts, each listed key reads with flag f set and every other key reads as before |
| `GrantEditor.ApplyToKeysKeepsUnlisted` | client/src/components/setup/ModuleAccess.jsx:90-95 | a series of upserts only appends rows, and leaves in place every row whose key is not in the series |
| `GrantEditor.ActivePermissions` | client/src/components/setup/ModuleAccess.jsx:154-156 | the sent rows are exactly the rows with a flag set, as an order-preserving subsequence |
| `Entities.ModulesOf` | client/src/components/setup/ModuleAccess.jsx:82-84 | exactly the catalog modules of the menu, in catalog order |
| `ModuleAccess.AutoKeysCoverCatalog` | client/src/components/setup/ModuleAccess.jsx:90-95 | the nested loops visit a key exactly when its menu is a catalog menu and a catalog module of that menu has the id |
| `ModuleAccess.MenuKeys` | client/src/components/setup/ModuleAccess.jsx:91-93 | one key per module of the menu, in module order, each pairing the menu with that module |
| `ModuleAccess.AutoPermissionEffect` | client/src/components/setup/ModuleAccess.jsx:86-96 | after the switch, every catalog module reads with flag t equal to the switch's value, its other flags untouched; other keys read as before |
| `ModuleAccess.ModuleAccessScreen.constructor` | client/src/components/setup/ModuleAccess.jsx:12-19 | no rows, and all four switches off |
| `ModuleAccess.ModuleAccessScreen.LoadPermissions` | client/src/components/setup/ModuleAccess.jsx:69-79 | the rows become the listing fetched for the group; the switches are unchanged |
| `ModuleAccess.ModuleAccessScreen.UpdatePermission` | client/src/components/setup/ModuleAccess.jsx:111-137 | the rows become the upsert of the old rows; the switches are unchanged |
| `ModuleAccess.ModuleAccessScreen.HandleAutoPermission` | client/src/components/setup/ModuleAccess.jsx:86-96 | switch t flips, and the rows become the old rows with flag t set to the new value for every catalog module, one upsert at a time |
| `ModuleAccess.ModuleAccessScreen.ApplyToMenuModules` | client/src/components/setup/ModuleAccess.jsx:91-93 | the inner loop extends the series of upserts by the menu's modules, in order |
| `ModuleAccess.ModuleAccessScreen.HandleSave` | client/src/components/setup/ModuleAccess.jsx:150-161 | the rows sent are the active rows, each with a flag set |
| `ModuleAccessModal.SubmitPermissions` | client/src/components/ModuleAccessModal.jsx:103-127 | it fails exactly when no group is chosen, with Please select a group; otherwise it sends to that group exactly the rows with a flag set, in order |
| `ModuleAccessModal.ShownModules` | client/src/components/ModuleAccessModal.jsx:185-190 | exactly the menu's catalog modules whose permission has a flag set, in catalog order |
| `ModuleAccessModal.NoModulesMessageIffNoneShown` | client/src/components/ModuleAccessModal.jsx:243-246 | the "No modules assigned" message shows exactly when no module is shown |
| `ModuleAccessModal.UnassignedNotShown` | client/src/components/ModuleAccessModal.jsx:186-190 | a module with no grant row is never shown |
| `ModuleAccessModal.ModuleAccessDialog.constructor` | client/src/components/ModuleAccessModal.jsx:10-13 | no rows and no error |
| `ModuleAccessModal.ModuleAccessDialog.LoadPermissions` | client/src/components/ModuleAccessModal.jsx:57-67 | the rows become the listing fetched for the group |
| `ModuleAccessModal.ModuleAccessDialog.UpdatePermission` | client/src/components/ModuleAccessModal.jsx:75-101 | the rows become the upsert of the old rows |
| `ModuleAccessModal.ModuleAccessDialog.HandleSubmit` | client/src/components/ModuleAccessModal.jsx:103-127 | without a group: that error and no request; otherwise the error is cleared and the active rows are sent |
| `ModuleAccessModal.ModuleAccessDialog.ReportFailure` | client/src/components/ModuleAccessModal.jsx:131-132 | the error becomes the server's message, or Failed to update permissions when it sent none or an empty one |
| `SaveRoundTrip.SubmissionsRoundTrip` | server/server.js:211-215 | the rows a client sends are stored exactly as the client held them |
| `SaveRoundTrip.SavedRowsAreActive` | client/src/components/setup/ModuleAccess.jsx:150-161 | after a save, the group's stored rows are the editor's active rows in order, none all-false |
| `SaveRoundTrip.CreatedGroupHasSelectedModules` | client/src/components/CreateGroupModal.jsx:58-81 | a group created from the dialog stores exactly the dialog's grants, every one with all four capabilities |
| `Dashboard.CurrentUser` | client/src/components/Dashboard.jsx:43 | the first employee in the list with the stored email; absent exactly when there is no email or no employee has it |
| `Dashboard.UserGroup` | client/src/components/Dashboard.jsx:43-44 | a group exactly when the current user exists and has a present, non-zero group id, and then it is that group id |
| `Dashboard.LoadPermissions` | client/src/components/Dashboard.jsx:44-51 | without a current user with a group, the rows stay empty; otherwise they are that group's listing |
| `Dashboard.AccessibleMenus` | client/src/components/Dashboard.jsx:93-103 | the admin gets every menu; anyone else gets exactly the catalog menus that some grant row names, in catalog order |
| `Dashboard.ModulesForMenu` | client/src/components/Dashboard.jsx:105-118 | the admin gets every module of the menu; anyone else gets exactly the modules of that menu with a grant row for that menu and module |
| `Dashboard.ModulesImplyMenu` | client/src/components/Dashboard.jsx:100-117 | a catalog menu that shows a module is itself shown |
| `Dashboard.FlagsNotConsulted` | client/src/components/Dashboard.jsx:100-117 | rows that differ only in their flags give the same menus and modules, so an all-false row still grants navigation |
| `Dashboard.NoGroupNoMenus` | client/src/components/Dashboard.jsx:44-51 | a non-admin without a group sees no menu and no module |
| `Dashboard.GroupMemberSeesGroupMenus` | client/src/components/Dashboard.jsx:43-51 | a non-admin whose current user has group g != 0 gets the rows of g, and sees the menus and modules those rows give |
| `Dashboard.AdminSeesEverything` | client/src/components/Dashboard.jsx:34-36 | the administrator is recognised by the stored email alone and sees every menu and every module of each menu, whatever group the employee table gives |
| `Selection.Toggle` | client/src/components/setup/GroupManagement.jsx:50-55 | the toggled id flips, and every other entry is unchanged |
| `Selection.ToggleFlipsMembership` | client/src/components/CreateGroupModal.jsx:37-42 | toggling removes a checked id from the checked set, or adds an unchecked one |
| `Selection.ToggleTwiceRestores` | client/src/components/CreateGroupModal.jsx:37-42 | toggling one id twice restores the checked set |
| `Selection.AscendingKeys` | client/src/components/CreateGroupModal.jsx:58 | the ids of the object, each once, strictly ascending |
| `Selection.SelectedIds` | client/src/components/setup/GroupManagement.jsx:64 | exactly the checked ids, strictly ascending |
| `GroupManagement.ValidateGroup` | client/src/components/setup/GroupManagement.jsx:57-68 | a blank name fails first, with Group name is required; then no checked menu gives Please select at least one menu; otherwise the ids are exactly the checked menus, in strictly ascending order |
| `GroupManagement.NothingSentWithoutMenus` | client/src/components/setup/GroupManagement.jsx:64-68 | with no menu checked, nothing is sent whatever the name |
| `GroupManagement.GroupForm.constructor` | client/src/components/setup/GroupManagement.jsx:10-17 | empty name, no menus, no error, not editing |
| `GroupManagement.GroupForm.HandleMenuToggle` | client/src/components/setup/GroupManagement.jsx:50-55 | the create selection is toggled at that id; nothing else changes |
| `GroupManagement.GroupForm.HandleSubmit` | client/src/components/setup/GroupManagement.jsx:57-87 | on a failed check, that error and no request; otherwise the error is cleared and the untrimmed name is sent with no permissions and the checked menu ids |
| `GroupManagement.GroupForm.HandleCreated` | client/src/components/setup/GroupManagement.jsx:91-92 | the create form is emptied |
| `GroupManagement.GroupForm.ReportFailure` | client/src/components/setup/GroupManagement.jsx:191-192 | the error becomes the server's message, or the handler's fallback (Failed to create group, Failed to update group) when it sent none or an empty one |
| `GroupManagement.GroupForm.HandleClear` | client/src/components/setup/GroupManagement.jsx:103-107 | name, selection and error are cleared |
| `GroupManagement.GroupForm.HandleEditGroup` | client/src/components/setup/GroupManagement.jsx:124-154 | the edit map's keys are the catalog menus and the fetched menus; an id is checked exactly when the server returned it for the group |
| `GroupManagement.GroupForm.HandleEditMenuChange` | client/src/components/setup/GroupManagement.jsx:343-348 | the menu takes the box's state, which adds it to or removes it from the checked set |
| `GroupManagement.GroupForm.HandleSaveEdit` | client/src/components/setup/GroupManagement.jsx:156-185 | the same checks on the edit form; when they pass, the name and checked menu ids are sent |
| `GroupManagement.GroupForm.HandleCancelEdit` | client/src/components/setup/GroupManagement.jsx:198-202 | edit mode ends and the error is cleared; the edit check-boxes are left as they were |
| `CreateGroupModal.GrantFor` | client/src/components/CreateGroupModal.jsx:60-70 | no grant exactly when the catalog lacks the module; otherwise a grant for the id with all four capabilities and a catalog menu of that module |
| `CreateGroupModal.GrantsFor` | client/src/components/CreateGroupModal.jsx:58-70 | fails exactly when some id is missing from the catalog; otherwise one grant per id, in order, each with all capabilities and the module's catalog menu |
| `CreateGroupModal.PermissionsMatchSelection` | client/src/components/CreateGroupModal.jsx:58-70 | a grant exists for a module exactly when the module is checked, one per module, in ascending module order |
| `CreateGroupModal.PermissionsCarryCatalogMenu` | client/src/components/CreateGroupModal.jsx:61-69 | every grant has all four capabilities, and the menu the catalog gives its module |
| `CreateGroupModal.MissingModuleFails` | client/src/components/CreateGroupModal.jsx:61-64 | a checked id missing from the catalog makes the submission fail |
| `CreateGroupModal.Submit` | client/src/components/CreateGroupModal.jsx:44-81 | a blank name gives Group name is required; a failed grant list gives Failed to create group; otherwise the untrimmed name is sent with the grants |
| `CreateGroupModal.EmptySelectionStillSubmits` | client/src/components/CreateGroupModal.jsx:58-81 | with nothing checked, the group is still sent, with no permissions |
| `CreateGroupModal.CreateGroupDialog.constructor` | client/src/components/CreateGroupModal.jsx:7-12 | empty name, nothing checked, no error |
| `CreateGroupModal.CreateGroupDialog.ToggleModule` | client/src/components/CreateGroupModal.jsx:37-42 | the selection is toggled at that id; the name and error are unchanged |
| `CreateGroupModal.CreateGroupDialog.HandleSubmit` | client/src/components/CreateGroupModal.jsx:44-81 | on failure, the error and no request; otherwise the error is cleared and the request is returned |
| `CreateGroupModal.CreateGroupDialog.ReportFailure` | client/src/components/CreateGroupModal.jsx:84-85 | the error becomes the server's message, or Failed to create group when it sent none or an empty one |
| `UserDetails.FilteredEmployees` | client/src/components/setup/UserDetails.jsx:49-54 | exactly the employees whose lower-cased name, email and employee id each include the lower-cased box, as an order-preserving subsequence |
| `UserDetails.EmptySearchKeepsAll` | client/src/components/setup/UserDetails.jsx:145-149 | with the three boxes cleared, every employee is listed |
| `UserDetails.SearchIgnoresCase` | client/src/components/setup/UserDetails.jsx:49-54 | searches that agree after lower-casing list the same employees |
| `UserDetails.UpperCaseSearchSameAsLower` | client/src/components/setup/UserDetails.jsx:49-54 | a search finds what its lower-cased form finds |
| `UserDetails.AfterDelete` | client/src/components/setup/UserDetails.jsx:69 | exactly the employees without the deleted id remain, in order |
| `UserDetails.DeleteUnknownKeepsList` | client/src/components/setup/UserDetails.jsx:69 | deleting an id the list lacks leaves it unchanged |
| `UserDetails.DeleteCount` | client/src/components/setup/UserDetails.jsx:69 | the list shrinks by exactly the number of employees with that id |
| `UserDetails.GroupLabel` | client/src/components/setup/UserDetails.jsx:180-181 | No Group when no group has the id; any other label is the name of a group with that id |
| `UserDetails.GroupLabelShowsName` | client/src/components/setup/UserDetails.jsx:180-181 | with unique group ids, a group with a non-empty name is shown by name |
| `Text.ToLower` | client/src/components/setup/UserDetails.jsx:50-52 | same length; every upper-case ASCII letter moves down by 32 to its lower-case letter, every other character is unchanged, so no upper-case letter is left |
| `Text.ToLowerIdempotent` | client/src/components/setup/UserDetails.jsx:50-52 | lower-casing twice is lower-casing once |
| `Text.ContainsEmpty` | client/src/components/setup/UserDetails.jsx:50-52 | every string includes the empty string |
| `Text.Trim` | client/src/components/setup/GroupManagement.jsx:59 | the result is a slice of the string, neither starting nor ending with white space, and everything cut off on either side is white space |
| `Text.BlankIffAllWhitespace` | client/src/components/setup/GroupManagement.jsx:59 | a name is blank after `trim` exactly when all its characters are white space |
| `Text.Split` | server/server.js:20 | the pieces contain no separator and joined with it give back the string, which fixes them; a string without the separator is one piece |
| `Text.SplitAfterWord` | server/server.js:20 | a separator-free word followed by the separator is split off as the first piece, and the rest is split as it would be alone |
| `Text.FailureMessage` | client/src/components/setup/GroupManagement.jsx:192 | `err.response?.data?.error || fallback`: the server's message when it is present and non-empty, otherwise the fallback; every dialog's ReportFailure uses it |
| `Seqs.Filter` | client/src/components/setup/UserDetails.jsx:49 | the kept elements satisfy the test, are exactly the elements that do, and form an order-preserving subsequence |
| `Seqs.FilterCounts` | client/src/components/setup/UserDetails.jsx:49 | every element that passes the test is kept as many times as it occurs, every other is dropped |
| `Seqs.Find` | client/src/components/Dashboard.jsx:43 | absent exactly when no element matches; otherwise the first matching element |
| `EmployeePayload.Blank` | client/src/components/setup/EmployeeForm.jsx:41-50 | every field present and empty, so no password |
| `EmployeePayload.Load` | client/src/components/setup/EmployeeForm.jsx:19-31 | every field present, the password empty, the name, email and employee id copied; a missing phone number or language becomes the empty string; the group is the id when present and non-zero, and the empty string otherwise |
| `EmployeePayload.SubmitEmployee` | client/src/components/setup/EmployeeForm.jsx:54-80 | an edit always sends, and carries a password key exactly when the form has a non-empty password, with every other field as in the form; a create fails exactly when the password is empty, with Password is required for new employees, and otherwise sends the form |
| `EmployeePayload.EditPasswordReachesServer` | client/src/components/setup/EmployeeForm.jsx:61-66 | after an edit is stored, the hash is the new one exactly when a password was typed, and the old one otherwise |
| `EmployeePayload.LoadThenSaveSendsNoPassword` | client/src/components/setup/EmployeeForm.jsx:19-66 | saving a just-loaded employee sends no password |
| `EmployeeForm.EmployeeFormPanel.constructor` | client/src/components/setup/EmployeeForm.jsx:7-31 | an empty form, or the loaded employee when one is edited |
| `EmployeeForm.EmployeeFormPanel.HandleChange` | client/src/components/setup/EmployeeForm.jsx:33-39 | only the named field changes |
| `EmployeeForm.EmployeeFormPanel.HandleClear` | client/src/components/setup/EmployeeForm.jsx:41-52 | every field is empty and the error is cleared |
| `EmployeeForm.EmployeeFormPanel.HandleSubmit` | client/src/components/setup/EmployeeForm.jsx:54-80 | the copy with the password key deleted in place gives the request and error of the submit rules; the form itself is unchanged |
| `EmployeeForm.EmployeeFormPanel.ReportFailure` | client/src/components/setup/EmployeeForm.jsx:82-83 | the error becomes the server's message, or Failed to save employee when it sent none or an empty one |
| `AddEmployeeModal.AddEmployeeDialog.constructor` | client/src/components/AddEmployeeModal.jsx:7-33 | an empty form, or the loaded employee when one is edited |
| `AddEmployeeModal.AddEmployeeDialog.HandleChange` | client/src/components/AddEmployeeModal.jsx:47-52 | only the named field changes |
| `AddEmployeeModal.AddEmployeeDialog.HandleSubmit` | client/src/components/AddEmployeeModal.jsx:54-83 | `updateData` without its empty password gives the request and error of the submit rules; the form is unchanged |
| `AddEmployeeModal.AddEmployeeDialog.ReportFailure` | client/src/components/AddEmployeeModal.jsx:85-86 | the error becomes the server's message, or Failed to save employee when it sent none or an empty one |

## Left out

- HTTP transport, Express routing, axios requests, `localStorage`, and `Promise.all` fetch ordering. Fetched lists are parameters. A request is the value a method returns.
- JWT signing and verification, and bcrypt hashing and comparison. `verify` and `hashed` are parameters; the login route is not modelled.
- The PostgreSQL engine:
  - a refused insert is an abstract `accept` function with an error code;
  - `CURRENT_TIMESTAMP` is the parameter `now`;
  - the id sequence is a counter that a rolled-back create does not advance, whereas a real sequence leaves a gap;
  - the `employees.group_id` foreign key, and how the database reads `''` for the integer `group_id` the forms send for "No Group", are not modelled.
- `ServerEmployees.EmployeeStore.UpdateEmployee`: the response drops `created_at` and `updated_at`, and the update does not model the JOINed `group_name`.
- `ServerGrants.ListPermissions`: it returns the rows without the JOINed `menu_name` and `module_name`.
- The `group_menus` table:
  - the server shown never writes it and has no handlers for it, nor for renaming or deleting a group;
  - `menuIds` sent by the group form is carried in the request value and goes nowhere;
  - the requests of `handleSaveEdit` and `fetchGroupMenus` therefore fail at run time (the model's `fetched = None`).
- `handleSelectAll` in `setup/ModuleAccess.jsx`: it refers to names that are never defined.
- Rendering, alerts, confirm dialogs, the loading flags, and the open/expanded/view toggles.
- Setup.jsx tab switching, the dashboard statistics, and `server/generateAdminPassword.js`.
- `Text.ToLower`: it is ASCII-only, and does not model Unicode case mapping.
- `Selection.AscendingKeys`: ascending enumeration holds for non-negative integer keys; the ids are database serials.
- `ServerGrants.OrFalse`: only a present `true` counts as true. A non-boolean truthy flag value (such as `1` or `"yes"`) is not modelled.
- `EmployeePayload.Truthy`: form values are strings, or the number a loaded `group_id` keeps. Other JavaScript types are not modelled.
- React state aliasing in `fetchGroupMenusForEdit`, which mutates the map already handed to `setEditSelectedMenus`. The model builds the map and then stores it once.

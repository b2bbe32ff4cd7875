# Trello-style project board: column ordering, workspace and member services

This project models three pieces of a Spring Boot task-board backend: boards hold columns, workspaces hold boards and members, and members join a workspace through an invite code.

- **Column ordering.** Every column of a board has a `position`. Adding a column gives it the board's column count as position. Deleting a column shifts the later ones down. Moving a column shifts the columns between its old and new position by one and then writes its new position. Two generations of the service are modelled:
  - the current `ColumnsServiceImpl`, with business error codes;
  - the legacy `ColumnsService`, which throws `IllegalArgumentException` and deletes without compacting.

  The repository and its three bulk `UPDATE` queries are modelled over a table of rows.
- **Workspace service.** The status guards: a workspace must exist, must be ACTIVE to be read, updated, deleted or listed, and must not be ACTIVE to be reopened.
- **Member service.** This covers:
  - the 8-character invite code drawn from a 62-letter alphabet;
  - the invite URL;
  - the single-result lookups (user, workspace, membership, pending invitation);
  - invite, join, leave, remove, update the admin role, and the admin query.

## Layout

The modules are:

- `errors.dfy` (`Errors`): business error codes. The three failures a caller observes are a `BusinessException`, the legacy `IllegalArgumentException`, and the `IncorrectResultSizeDataAccessException` that a single-result Spring Data query throws when more than one row matches. The module also defines `Result` and `Option`.
- `queries.dfy` (`Queries`): `FindOne`, the three outcomes of a single-result repository query.
- `column_table.dfy` (`ColumnTable`): the Columns table as a sequence of rows, covering:
  - the bulk updates and their semantics (`Execute`);
  - `save` of a new position (`WithPosition`) and `deleteById` (`RemoveId`);
  - the ordering invariant `Dense(t, b)`: the positions of board `b` are distinct and lie in `[0, count)`. `DenseIsPermutation` proves this is the same as the positions being exactly `{0, …, count-1}`.
- `column_ordering.dfy` (`ColumnOrdering`):
  - what add, reorder and delete do to the table (`Appended`, `Reordered`, `Compacted`);
  - the invariant lemmas;
  - concrete examples;
  - the board-scoped corrected shifts (`ExecuteOn`, `ReorderedOn`, `CompactedOn`).
- `columns_repository.dfy` (`ColumnsStore`): class `ColumnsRepository`. It holds the rows and the id sequence, and its methods update the rows in place and are proved against the table functions.
- `columns_service_impl.dfy` (`ColumnsServiceCurrent`) and `columns_service.dfy` (`ColumnsServiceLegacy`): the two services, as classes over a repository.
- `workspace_service.dfy` (`Workspaces`): the guards as functions, and class `WorkspaceService`.
- `member_service.dfy` (`Members`): the invite code and URL, the lookups and the membership updates as functions with lemmas, and class `MemberService`.

Three classes carry a `Valid()` invariant, and every method of those classes that changes state requires it and keeps it:

- `ColumnsStore.ColumnsRepository.Valid` holds when column ids are unique and each is below the next id to be issued. The two column services keep no invariant of their own; they require and keep their repository's.
- `Workspaces.WorkspaceService.Valid` holds when workspace ids are below the next workspace id, and membership ids are unique and below the next membership id.
- `Members.MemberService.Valid` holds when membership ids are unique and below the next membership id, and invitation ids are unique and below the next invitation id.

## Model

| member | source | states |
|---|---|---|
| ColumnTable.CountOnBoard | src/main/java/com/example/trelloprojects/columns/repository/ColumnsRepository.java:12 | the count of a board's columns is at most the table size; it equals the table size exactly when every row is on that board, and is zero exactly when no row is |
| ColumnTable.FindById | src/main/java/com/example/trelloprojects/columns/service/impl/ColumnsServiceImpl.java:68-73 | none exactly when no row has the id; otherwise a row of the table with that id |
| ColumnTable.Execute | src/main/java/com/example/trelloprojects/columns/repository/ColumnsRepository.java:14-26 | a bulk update keeps length, ids and boards; every row whose position matches the WHERE clause moves by the update's delta, whatever its board; every other row is unchanged |
| ColumnTable.WithPosition | src/main/java/com/example/trelloprojects/columns/service/impl/ColumnsServiceImpl.java:64-65 | saving a column rewrites the position of the row with its id and leaves every other row, id and board unchanged |
| ColumnTable.RemoveId | src/main/java/com/example/trelloprojects/columns/service/impl/ColumnsServiceImpl.java:47 | deleting an unknown id leaves the table unchanged; deleting a present id removes exactly one row |
| ColumnTable.RemoveIdKeepsOthers | src/main/java/com/example/trelloprojects/columns/service/ColumnsService.java:42 | with unique ids, the rows after deleteById are exactly the old rows with a different id |
| ColumnTable.RemoveIdKeepsUniqueIds | src/main/java/com/example/trelloprojects/columns/service/ColumnsService.java:42 | deleteById keeps ids unique |
| ColumnTable.DenseIsPermutation | src/main/java/com/example/trelloprojects/columns/service/impl/ColumnsServiceImpl.java:31-32 | the ordering invariant holds exactly when the positions on the board are the set {0, …, count-1} |
| ColumnOrdering.ReorderShift | src/main/java/com/example/trelloprojects/columns/service/impl/ColumnsServiceImpl.java:58-62 | the bulk update reorder issues: never selects the moved column's own position, and sends every other position of the board to where the independent MovedPosition says it belongs (later: (old, new] down by one; earlier: [new, old) up by one) |
| ColumnOrdering.Appended | src/main/java/com/example/trelloprojects/columns/service/impl/ColumnsServiceImpl.java:31-32 | the table addColumns leaves: the old rows unchanged, then one row with the new id on the requested board (at the board's old count, see AppendedAtCount) |
| ColumnOrdering.Reordered | src/main/java/com/example/trelloprojects/columns/service/impl/ColumnsServiceImpl.java:58-65 | the table reorder leaves: the reorder shift applied to every board, then the moved column saved at the new position; same length, ids and boards row by row, and the moved column at the new position |
| ColumnOrdering.Compacted | src/main/java/com/example/trelloprojects/columns/service/impl/ColumnsServiceImpl.java:46-47 | the table deleteColumns leaves: decrementBelow on every board, then deleteById; one row shorter when the column exists, unchanged in length otherwise |
| ColumnOrdering.AppendedAtCount | src/main/java/com/example/trelloprojects/columns/service/impl/ColumnsServiceImpl.java:31-32 | the added column is the last row, on the requested board, at the old column count; the count grows by one and nothing else changes |
| ColumnOrdering.AddPreservesDense | src/main/java/com/example/trelloprojects/columns/service/impl/ColumnsServiceImpl.java:25-33 | adding a column keeps every board's positions a permutation of 0..count-1 |
| ColumnOrdering.AddPreservesUniqueIds | src/main/java/com/example/trelloprojects/columns/service/impl/ColumnsServiceImpl.java:32 | a fresh id above all existing ids keeps ids unique |
| ColumnOrdering.ReorderedMovesExactly | src/main/java/com/example/trelloprojects/columns/service/impl/ColumnsServiceImpl.java:55-65 | after reorder, the moved column has the new position; when moving later, rows in (old, new] go down by one; when moving earlier or staying, rows in [new, old) go up by one; every other row is unchanged |
| ColumnOrdering.ReorderToSamePositionIsNoOp | src/main/java/com/example/trelloprojects/columns/service/impl/ColumnsServiceImpl.java:58-65 | reordering a column to its own position leaves the table unchanged |
| ColumnOrdering.ReorderPreservesDense | src/main/java/com/example/trelloprojects/columns/service/impl/ColumnsServiceImpl.java:50-66 | on a table holding one board, a reorder to a position in [0, count) keeps the ordering invariant |
| ColumnOrdering.CompactedShiftsExactly | src/main/java/com/example/trelloprojects/columns/service/impl/ColumnsServiceImpl.java:45-47 | delete removes the column and moves every remaining row positioned after it down by one, leaving the others unchanged |
| ColumnOrdering.DeletePreservesDense | src/main/java/com/example/trelloprojects/columns/service/impl/ColumnsServiceImpl.java:42-48 | on a table holding one board, delete keeps the ordering invariant and removes one row |
| ColumnOrdering.ReorderKeepsOwnBoardDense | src/main/java/com/example/trelloprojects/columns/service/impl/ColumnsServiceImpl.java:50-66 | on any table, however many boards it holds, a reorder to a position in [0, N) keeps the moved column's own board in order |
| ColumnOrdering.DeleteKeepsOwnBoardDense | src/main/java/com/example/trelloprojects/columns/service/impl/ColumnsServiceImpl.java:42-48 | on any table, delete keeps the deleted column's own board in order |
| ColumnOrdering.DeleteKeepsOrder | src/main/java/com/example/trelloprojects/columns/service/impl/ColumnsServiceImpl.java:42-48 | delete keeps an ordered board of the deleted column in order, and keeps a one-board table on that one board with no ordering needed |
| ColumnTable.SameBoardRowsSameDense | src/main/java/com/example/trelloprojects/columns/repository/ColumnsRepository.java:14-26 | two tables with the same boards row by row and the same positions on one board agree on that board's ordering invariant, whatever the other boards hold |
| ColumnOrdering.LegacyDeleteKeepsDenseIffLast | src/main/java/com/example/trelloprojects/columns/service/ColumnsService.java:40-43 | the legacy delete (no shift) keeps the ordering invariant exactly when the deleted column was the last one of its board |
| ColumnOrdering.MoveLaterExample | src/main/java/com/example/trelloprojects/columns/service/impl/ColumnsServiceImpl.java:58-59 | moving the first of four columns to position 2 gives the positions 2, 0, 1, 3 |
| ColumnOrdering.MoveEarlierExample | src/main/java/com/example/trelloprojects/columns/service/impl/ColumnsServiceImpl.java:60-62 | moving the last of four columns to position 1 gives the positions 0, 2, 3, 1 |
| ColumnOrdering.ReorderPastEndLeavesGap | src/main/java/com/example/trelloprojects/columns/service/impl/ColumnsServiceImpl.java:56-64 | the new position is not range-checked: moving to position 2 on a two-column board gives positions {2, 0}, which breaks the invariant |
| ColumnOrdering.ReorderBeforeStartGoesNegative | src/main/java/com/example/trelloprojects/columns/service/impl/ColumnsServiceImpl.java:56-64 | a negative new position is stored as is and breaks the invariant |
| ColumnOrdering.UnscopedDeleteCorruptsOtherBoard | src/main/java/com/example/trelloprojects/columns/repository/ColumnsRepository.java:25 | deleting the first column of board 1 also shifts board 2's column to position -1 |
| ColumnOrdering.UnscopedReorderCorruptsOtherBoard | src/main/java/com/example/trelloprojects/columns/repository/ColumnsRepository.java:15 | moving a board-1 column to position 0 also shifts board 2's column from 0 to 1 |
| ColumnOrdering.ExecuteOn | src/main/java/com/example/trelloprojects/columns/repository/ColumnsRepository.java:14-26 | the corrected, board-scoped bulk update moves only the matching rows of the given board and leaves every other row unchanged |
| ColumnOrdering.ReorderedOn | src/main/java/com/example/trelloprojects/columns/service/impl/ColumnsServiceImpl.java:58-65 | the corrected reorder with the shift scoped to the moved column's board: same ids and boards row by row, the moved column at the new position, and every row of another board unchanged |
| ColumnOrdering.CompactedOn | src/main/java/com/example/trelloprojects/columns/service/impl/ColumnsServiceImpl.java:46-47 | the corrected delete with the shift scoped to the deleted column's board: one row shorter when the column exists, unchanged in length otherwise |
| ColumnOrdering.ExecuteOnSingleBoard | src/main/java/com/example/trelloprojects/columns/repository/ColumnsRepository.java:14-26 | on a table holding one board, the scoped and unscoped updates agree |
| ColumnOrdering.ReorderOnPreservesDense | src/main/java/com/example/trelloprojects/columns/service/impl/ColumnsServiceImpl.java:50-66 | with board-scoped shifts, a reorder to a position in [0, count) keeps the ordering invariant of every board of the table |
| ColumnOrdering.CompactedOnPreservesDense | src/main/java/com/example/trelloprojects/columns/service/impl/ColumnsServiceImpl.java:42-48 | with board-scoped shifts, delete keeps the ordering invariant of every board |
| ColumnsStore.ColumnsRepository.CountColumnsByBoard | src/main/java/com/example/trelloprojects/columns/repository/ColumnsRepository.java:12 | the loop returns the number of rows of the board |
| ColumnsStore.ColumnsRepository.FindById | src/main/java/com/example/trelloprojects/columns/repository/ColumnsRepository.java:10 | the loop returns the row with the id, or none exactly when there is no such row |
| ColumnsStore.ColumnsRepository.FindAll | src/main/java/com/example/trelloprojects/columns/service/ColumnsService.java:47 | returns the rows |
| ColumnsStore.ColumnsRepository.Insert | src/main/java/com/example/trelloprojects/columns/service/impl/ColumnsServiceImpl.java:32 | appends the column with the next id and keeps ids unique |
| ColumnsStore.ColumnsRepository.Save | src/main/java/com/example/trelloprojects/columns/service/impl/ColumnsServiceImpl.java:65 | the rows become the old rows with the column's position written |
| ColumnsStore.ColumnsRepository.DeleteById | src/main/java/com/example/trelloprojects/columns/service/impl/ColumnsServiceImpl.java:47 | the rows become the old rows without the id |
| ColumnsStore.ColumnsRepository.Run | src/main/java/com/example/trelloprojects/columns/repository/ColumnsRepository.java:14-26 | the in-place loop leaves the rows equal to the bulk update applied to the old rows |
| ColumnsStore.ColumnsRepository.IncrementBelowToPosition | src/main/java/com/example/trelloprojects/columns/repository/ColumnsRepository.java:14-17 | position + 1 for every row with new <= position < old |
| ColumnsStore.ColumnsRepository.DecrementAboveToPosition | src/main/java/com/example/trelloprojects/columns/repository/ColumnsRepository.java:19-22 | position - 1 for every row with old < position <= new |
| ColumnsStore.ColumnsRepository.DecrementBelow | src/main/java/com/example/trelloprojects/columns/repository/ColumnsRepository.java:24-26 | position - 1 for every row with position >= the given one |
| ColumnsServiceCurrent.ColumnsServiceImpl.FindColumn | src/main/java/com/example/trelloprojects/columns/service/impl/ColumnsServiceImpl.java:68-73 | COLUMN_NOT_FOUND exactly when no row has the id, otherwise that row |
| ColumnsServiceCurrent.ColumnsServiceImpl.AddColumns | src/main/java/com/example/trelloprojects/columns/service/impl/ColumnsServiceImpl.java:25-33 | BOARD_NOT_FOUND for an unknown board, with nothing changed; otherwise the column is appended at the board's count; the ordering invariant of every board is kept |
| ColumnsServiceCurrent.ColumnsServiceImpl.UpdateColumns | src/main/java/com/example/trelloprojects/columns/service/impl/ColumnsServiceImpl.java:35-40 | COLUMN_NOT_FOUND exactly when the column is missing; the table is unchanged |
| ColumnsServiceCurrent.ColumnsServiceImpl.DeleteColumns | src/main/java/com/example/trelloprojects/columns/service/impl/ColumnsServiceImpl.java:42-48 | COLUMN_NOT_FOUND with nothing changed, or the compacted table; the deleted column's board stays in order on any table, and a one-board table keeps holding one board |
| ColumnsServiceCurrent.ColumnsServiceImpl.Reorder | src/main/java/com/example/trelloprojects/columns/service/impl/ColumnsServiceImpl.java:50-66 | COLUMN_NOT_FOUND with nothing changed, or the reordered table; for a new position in [0, N) the moved column's board stays in order on any table, and a one-board table keeps holding one board |
| ColumnsServiceLegacy.ColumnsService.AddColumns | src/main/java/com/example/trelloprojects/columns/service/ColumnsService.java:23-30 | IllegalArgumentException for an unknown board; otherwise returns the saved column, with the next id and the board's old count as position; the invariant is kept |
| ColumnsServiceLegacy.ColumnsService.UpdateColumns | src/main/java/com/example/trelloprojects/columns/service/ColumnsService.java:32-38 | IllegalArgumentException exactly when the column is missing, otherwise the stored column |
| ColumnsServiceLegacy.ColumnsService.DeleteColumns | src/main/java/com/example/trelloprojects/columns/service/ColumnsService.java:40-43 | removes the row without shifting (a missing id is a no-op); the invariant survives exactly when the deleted column was last |
| ColumnsServiceLegacy.ColumnsService.GetColumns | src/main/java/com/example/trelloprojects/columns/service/ColumnsService.java:45-48 | returns every row of every board |
| ColumnsServiceLegacy.ColumnsService.Reorder | src/main/java/com/example/trelloprojects/columns/service/ColumnsService.java:50-69 | IllegalArgumentException with nothing changed, or the same reordered table as the current service; moving to the same position is a no-op; the invariant is kept as in the current service |
| Queries.FindOne | src/main/java/com/example/trelloprojects/member/service/MemberService.java:157-160 | no row exactly when nothing matches; several rows exactly when two distinct rows match; otherwise the only matching row |
| Workspaces.FindWorkspace | src/main/java/com/example/trelloprojects/workspace/service/WorkspaceService.java:90-93 | found exactly when the id is stored, otherwise WORKSPACE_NOT_FOUND |
| Workspaces.FindActiveWorkspace | src/main/java/com/example/trelloprojects/workspace/service/WorkspaceService.java:70-78 | succeeds exactly for a stored ACTIVE workspace; WORKSPACE_NOT_FOUND when missing, DELETED_WORKSPACE when deleted |
| Workspaces.FindDeletedWorkspace | src/main/java/com/example/trelloprojects/workspace/service/WorkspaceService.java:80-88 | succeeds exactly for a stored non-ACTIVE workspace; WORKSPACE_NOT_FOUND when missing, ALREADY_ACTIVATED_WORKSPACE when active |
| Workspaces.GuardsPartitionStoredWorkspaces | src/main/java/com/example/trelloprojects/workspace/service/WorkspaceService.java:70-93 | for a stored workspace exactly one of the two guards lets the call through; for a missing one both fail with WORKSPACE_NOT_FOUND |
| Workspaces.BoardsOf | src/main/java/com/example/trelloprojects/workspace/service/WorkspaceService.java:64 | the boards whose workspace is the given one, and only those |
| Workspaces.MembersOf | src/main/java/com/example/trelloprojects/member/service/MemberService.java:50 | the memberships whose workspace is the given one, and only those |
| Workspaces.WorkspaceService.CreateWorkspace | src/main/java/com/example/trelloprojects/workspace/service/WorkspaceService.java:31-35 | stores a fresh workspace as ACTIVE and appends one membership of the creator with a fresh id |
| Workspaces.WorkspaceService.GetWorkspace | src/main/java/com/example/trelloprojects/workspace/service/WorkspaceService.java:37-40 | the result of the active guard |
| Workspaces.WorkspaceService.UpdateWorkspace | src/main/java/com/example/trelloprojects/workspace/service/WorkspaceService.java:42-46 | on a guard error, the error and no call; otherwise one update call is recorded; the stores are unchanged |
| Workspaces.WorkspaceService.DeleteWorkspace | src/main/java/com/example/trelloprojects/workspace/service/WorkspaceService.java:48-52 | on a guard error, the error with nothing changed; otherwise the ACTIVE workspace becomes DELETED, no other workspace changes, and the delete call is recorded |
| Workspaces.WorkspaceService.ReopenWorkspace | src/main/java/com/example/trelloprojects/workspace/service/WorkspaceService.java:54-58 | on a guard error, the error with nothing changed; otherwise the DELETED workspace becomes ACTIVE, no other workspace changes, and the reopen call is recorded |
| Workspaces.DeleteThenReopen | src/main/java/com/example/trelloprojects/workspace/service/WorkspaceService.java:48-58 | after delete, the active guard refuses the workspace as DELETED_WORKSPACE and the reopen guard admits it; reopening restores the store exactly |
| Workspaces.ReopenThenDelete | src/main/java/com/example/trelloprojects/workspace/service/WorkspaceService.java:48-58 | after reopen, the reopen guard refuses the workspace as ALREADY_ACTIVATED_WORKSPACE and the active guard admits it; deleting restores the store exactly |
| Workspaces.WorkspaceService.GetBoards | src/main/java/com/example/trelloprojects/workspace/service/WorkspaceService.java:60-68 | the active guard's error, or exactly the boards of the workspace |
| Members.CharactersAreAlphanumeric | src/main/java/com/example/trelloprojects/member/service/MemberService.java:44 | the alphabet has 62 characters, all ASCII letters or digits |
| Members.AlphabetIndexFindsCharacter | src/main/java/com/example/trelloprojects/member/service/MemberService.java:44 | every ASCII letter and digit occurs in the alphabet, at the index AlphabetIndex gives |
| Members.EveryAlphanumericCodeCanBeDrawn | src/main/java/com/example/trelloprojects/member/service/MemberService.java:127-136 | every 8-character alphanumeric string is the code produced by some sequence of draws |
| Members.DecimalString | src/main/java/com/example/trelloprojects/member/service/MemberService.java:139 | the decimal rendering of the workspace id is non-empty and made of digits |
| Members.DecimalRoundTrip | src/main/java/com/example/trelloprojects/member/service/MemberService.java:139 | reading the decimal rendering back gives the id |
| Members.GenerateInviteUrl | src/main/java/com/example/trelloprojects/member/service/MemberService.java:138-140 | the URL is the fixed prefix, the decimal id, the join path and the code, in that order |
| Members.InviteUrlDeterminesWorkspaceAndCode | src/main/java/com/example/trelloprojects/member/service/MemberService.java:138-140 | two URLs with codes of the same length are equal only for the same workspace and code |
| Members.FindUser | src/main/java/com/example/trelloprojects/member/service/MemberService.java:147-150 | found exactly when the user exists, otherwise USER_NOT_FOUND |
| Members.FindWorkspace | src/main/java/com/example/trelloprojects/member/service/MemberService.java:152-155 | found exactly when the workspace exists, whatever its status, otherwise WORKSPACE_NOT_FOUND |
| Members.FindUserWorkspace | src/main/java/com/example/trelloprojects/member/service/MemberService.java:157-160 | USER_DOES_NOT_BELONG_TO_WORKSPACE exactly when no membership matches; a result-size error exactly when two do; otherwise the only match |
| Members.FindPendingInvitation | src/main/java/com/example/trelloprojects/member/service/MemberService.java:162-165 | INVALID_INVITE_CODE exactly when no pending invitation has the code; a result-size error exactly when two do; otherwise a pending invitation with the code |
| Members.JoinGuard | src/main/java/com/example/trelloprojects/member/service/MemberService.java:79-87 | the checks of joinWorkspace: the workspace must exist and some pending invitation must carry the code, for any workspace |
| Members.JoinGuardForWorkspace | src/main/java/com/example/trelloprojects/member/service/MemberService.java:79-87 | corrected checks: additionally the invitation must belong to the workspace being joined |
| Members.JoinAcceptsInvitationOfAnotherWorkspace | src/main/java/com/example/trelloprojects/member/service/MemberService.java:81-82 | an invitation to workspace 1 admits its holder to workspace 2 |
| Members.ScopedJoinRefusesInvitationOfAnotherWorkspace | src/main/java/com/example/trelloprojects/member/service/MemberService.java:81-82 | the corrected checks refuse that join with INVALID_INVITE_CODE |
| Members.WithoutMembership | src/main/java/com/example/trelloprojects/member/service/MemberService.java:76 | deleting a membership keeps exactly the memberships with other ids |
| Members.WithAccepted | src/main/java/com/example/trelloprojects/member/service/MemberService.java:83 | only the invitation with the id changes, and its status becomes ACCEPTED |
| Members.WithAcceptedKeepsIds | src/main/java/com/example/trelloprojects/member/service/MemberService.java:83 | accepting an invitation changes no id, so invitation ids stay unique |
| Members.AcceptedCodeIsSpent | src/main/java/com/example/trelloprojects/member/service/MemberService.java:79-87 | once the invitation a code found is accepted, the code finds no pending invitation: a second join with it fails with INVALID_INVITE_CODE |
| Members.WithAdmin | src/main/java/com/example/trelloprojects/member/service/MemberService.java:99 | only the membership with the id has its admin flag changed |
| Members.JoinedMembershipIsFound | src/main/java/com/example/trelloprojects/member/service/MemberService.java:85-86 | after a first join, the membership lookup returns the new membership |
| Members.JoiningTwiceMakesLookupFail | src/main/java/com/example/trelloprojects/member/service/MemberService.java:79-87 | joining a workspace one already belongs to makes every later lookup of that membership fail with a result-size error |
| Members.JoinedOnceKeepsLookup | src/main/java/com/example/trelloprojects/member/service/MemberService.java:79-87 | corrected join that first looks for an existing membership: the lookup afterwards finds the new membership after a first join, and the unchanged old one after a repeated join |
| Members.LeftMembershipIsGone | src/main/java/com/example/trelloprojects/member/service/MemberService.java:89-93 | after leaving, no membership of that user in that workspace remains |
| Members.FoundAtOneIndex | src/main/java/com/example/trelloprojects/member/service/MemberService.java:157-160 | a successful lookup identifies exactly one row |
| Members.LookupOfOnlyMatch | src/main/java/com/example/trelloprojects/member/service/MemberService.java:157-160 | the only matching row is what the lookup returns |
| Members.AdminRoleReadBack | src/main/java/com/example/trelloprojects/member/service/MemberService.java:95-106 | after updateAdminRole, isWorkspaceAdmin returns the new flag |
| Members.MemberService.GenerateInviteCode | src/main/java/com/example/trelloprojects/member/service/MemberService.java:127-136 | the loop builds 8 characters, the i-th being the alphabet character at the i-th draw; all are alphanumeric |
| Members.MemberService.GetMembers | src/main/java/com/example/trelloprojects/member/service/MemberService.java:46-54 | WORKSPACE_NOT_FOUND, or exactly the memberships of the workspace |
| Members.MemberService.InviteMember | src/main/java/com/example/trelloprojects/member/service/MemberService.java:56-68 | WORKSPACE_NOT_FOUND, then USER_NOT_FOUND, with nothing changed; otherwise one PENDING invitation with a fresh id and a generated code is appended |
| Members.MemberService.RemoveMember | src/main/java/com/example/trelloprojects/member/service/MemberService.java:70-77 | USER_NOT_FOUND, or the lookup error, with nothing changed; otherwise the found membership is deleted |
| Members.MemberService.JoinWorkspace | src/main/java/com/example/trelloprojects/member/service/MemberService.java:79-87 | the guard error with nothing changed; otherwise the found invitation becomes ACCEPTED (every other invitation is kept) and a membership with a fresh id is appended |
| Members.MemberService.LeaveWorkspace | src/main/java/com/example/trelloprojects/member/service/MemberService.java:89-93 | the lookup error with nothing changed, or the found membership is deleted |
| Members.MemberService.UpdateAdminRole | src/main/java/com/example/trelloprojects/member/service/MemberService.java:95-100 | the lookup error with nothing changed, or only the found membership's admin flag changes |
| Members.MemberService.IsWorkspaceAdmin | src/main/java/com/example/trelloprojects/member/service/MemberService.java:102-106 | the lookup error, or the found membership's admin flag |
| Members.MemberService.Delete | src/main/java/com/example/trelloprojects/member/service/MemberService.java:76 | the memberships become the old ones without the given id |

## Left out

- Transactions, rollback and concurrent requests. Each service call is modelled as one atomic step on the state. A call that fails leaves the state unchanged, which matches a rolled-back transaction.
- The JPA persistence context and flushing. Bulk updates act directly on the table. The moved column's own row is never inside either shift range, so the stale entity copy does not change the outcome.
- The legacy service passes a third argument (the column id as text) to the two-argument shift queries at src/main/java/com/example/trelloprojects/columns/service/ColumnsService.java:59-63. That argument is ignored in the model. The moved row is never in the shifted range, and its position is overwritten afterwards.
- Email. `sendWorkspaceInvitation` and `sendHtmlEmail` are not modelled: `InviteMember` builds the URL and records the invitation but sends nothing. A `MessagingException` is not modelled either.
- `SecureRandom`. The eight `nextInt(62)` results are a parameter (`draws`).
- Authorization: the `@AdminOnly` aspect and the user, token and security classes (`TokenProvider`, `UserRoleEnum`) are not part of this model.
- Entity behaviour whose source is not part of this model:
  - `Workspace.update/delete/reopen` are recorded as calls in `invoked`. `delete` is taken to set the status to DELETED and `reopen` to set it to ACTIVE, and to change nothing else the model holds;
  - `Invitation.markAsAccepted` is taken to set the invitation's status to ACCEPTED and change nothing else;
  - `UserWorkspace.updateAdminRole` and `isAdmin` are taken as setting and reading an admin flag;
  - a new workspace is taken to start ACTIVE, and a new invitation PENDING;
  - the admin flag of a new membership is a constructor parameter (`initialAdmin`);
  - `Columns.update` (called at src/main/java/com/example/trelloprojects/columns/service/impl/ColumnsServiceImpl.java:39 and src/main/java/com/example/trelloprojects/columns/service/ColumnsService.java:37) is taken to change only the title, never the position or the board, so `UpdateColumns` leaves the table unchanged; the legacy service is taken to return the stored column itself, so its `UpdateColumns` returns a row of the table.
- Shared repositories. In the program, `WorkspaceService` and `MemberService` use the same workspace and UserWorkspace repositories. The model gives each service class its own store, and nothing connects them. `MemberService.workspaces` is a fixed set of ids. So the creator's membership written by `CreateWorkspace` is not visible to `LeaveWorkspace`, `IsWorkspaceAdmin` or `UpdateAdminRole`, and a workspace created or deleted through `WorkspaceService` does not change what `MemberService` sees.
- Titles, names, descriptions and e-mail text, and the DTO mapping (`toDto`, `ColumnsResponse`, `MemberResponseDto`). `UpdateColumns` therefore only performs the lookup.
- Values other than ACTIVE and DELETED of `WorkspaceStatus`. The enum's source is not part of this model, so two values are assumed.
- Java `Long` ids and positions are unbounded integers; overflow is not modelled. Null arguments are not modelled.
- Cards, comments, controllers and the older `Colum` entity are not part of this model.
- ColumnOrdering.ReorderPreservesDense: stated only for a table holding one board, because only the claim that every board of the table stays in order needs that. The as-written shifts move rows of other boards too (see Findings). The moved column's own board stays in order on any table (ColumnOrdering.ReorderKeepsOwnBoardDense). The same applies to ColumnOrdering.DeletePreservesDense and ColumnOrdering.DeleteKeepsOwnBoardDense.

## Findings

| source | as written | input that shows it | evidently intended | confidence | as-written member | corrected member |
|---|---|---|---|---|---|---|
| src/main/java/com/example/trelloprojects/columns/repository/ColumnsRepository.java:25 | `decrementBelow` shifts every column at or after the position, on every board | board 1 has columns at 0 and 1 and board 2 a column at 0; deleting board 1's column at 0 moves board 2's column to -1 | shift only the deleted column's board | high, not executed | ColumnOrdering.UnscopedDeleteCorruptsOtherBoard | ColumnOrdering.CompactedOnPreservesDense |
| src/main/java/com/example/trelloprojects/columns/repository/ColumnsRepository.java:15 | `incrementBelowToPosition` and `decrementAboveToPosition` shift columns of every board | the same table; moving board 1's column at 1 to 0 moves board 2's column from 0 to 1 | shift only the moved column's board | high, not executed | ColumnOrdering.UnscopedReorderCorruptsOtherBoard | ColumnOrdering.ReorderOnPreservesDense |
| src/main/java/com/example/trelloprojects/member/service/MemberService.java:79-87 | `joinWorkspace` never looks for an existing membership of the user in the workspace | a user with a membership of workspace 1 joins it again with a second pending code; the table then holds two rows for that user and workspace, and every later leave, admin query or admin update for them fails with `IncorrectResultSizeDataAccessException` | refuse or skip the join when the user already belongs | medium, not executed | Members.JoiningTwiceMakesLookupFail | Members.JoinedOnceKeepsLookup |
| src/main/java/com/example/trelloprojects/member/service/MemberService.java:81-82 | `joinWorkspace` accepts any pending invitation with the code, whatever workspace it was issued for | a pending invitation to workspace 1 with code AAAAAAAA; joining workspace 2 with that code succeeds | require the invitation's workspace to be the one being joined | medium, not executed | Members.JoinAcceptsInvitationOfAnotherWorkspace | Members.ScopedJoinRefusesInvitationOfAnotherWorkspace |

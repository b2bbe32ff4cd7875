/** WorkspaceService: workspaces, the status guards in front of their
    operations, and the membership row written when one is created. */
module Workspaces {
  import opened Errors

  datatype WorkspaceStatus = Active | Deleted

  /** A stored workspace as the guards see it: its id and status. */
  datatype Workspace = Workspace(id: nat, status: WorkspaceStatus)

  /** A UserWorkspace row: one user's membership of one workspace. */
  datatype UserWorkspace = UserWorkspace(id: nat, userId: nat, workspaceId: nat, admin: bool)

  /** A stored board and the workspace it belongs to. */
  datatype Board = Board(id: nat, workspaceId: nat)

  /** The Workspace entity methods the service invokes. delete and reopen
      are taken to set the status to DELETED and ACTIVE; what update does
      to the name and description is not part of this model. */
  datatype WorkspaceCall = Update(id: nat) | Delete(id: nat) | Reopen(id: nat)

  /** No two UserWorkspace rows share an id. */
  predicate UniqueMembershipIds(ms: seq<UserWorkspace>) {
    forall i, j :: 0 <= i < j < |ms| ==> ms[i].id != ms[j].id
  }

  // ---------------------------------------------------------------------
  // The guards
  // ---------------------------------------------------------------------

  /** findWorkspace: the stored workspace, or WORKSPACE_NOT_FOUND. */
  function FindWorkspace(store: map<nat, WorkspaceStatus>, id: nat): (r: Result<Workspace>)
    ensures r.Ok? <==> id in store
    ensures r.Ok? ==> r.value == Workspace(id, store[id])
    ensures r.Err? ==> r.failure == Business(WorkspaceNotFound)
  {
    if id in store then Ok(Workspace(id, store[id])) else Err(Business(WorkspaceNotFound))
  }

  /** findActiveWorkspace: passes only an ACTIVE workspace; a DELETED one
      raises DELETED_WORKSPACE, a missing one WORKSPACE_NOT_FOUND. */
  function FindActiveWorkspace(store: map<nat, WorkspaceStatus>, id: nat): (r: Result<Workspace>)
    ensures r.Ok? <==> id in store && store[id] == Active
    ensures r.Ok? ==> r.value == Workspace(id, Active)
    ensures id !in store ==> r == Err(Business(WorkspaceNotFound))
    ensures id in store && store[id] == Deleted ==> r == Err(Business(DeletedWorkspace))
  {
    var found := FindWorkspace(store, id);
    assert found.Ok? ==> found.value.status == store[id];
    if found.Err? then found
    else if found.value.status == Deleted then Err(Business(DeletedWorkspace))
    else Ok(found.value)
  }

  /** findDeletedWorkspace: passes only a workspace that is not ACTIVE; an
      ACTIVE one raises ALREADY_ACTIVATED_WORKSPACE, a missing one
      WORKSPACE_NOT_FOUND. */
  function FindDeletedWorkspace(store: map<nat, WorkspaceStatus>, id: nat): (r: Result<Workspace>)
    ensures r.Ok? <==> id in store && store[id] != Active
    ensures r.Ok? ==> r.value == Workspace(id, Deleted)
    ensures id !in store ==> r == Err(Business(WorkspaceNotFound))
    ensures id in store && store[id] == Active ==> r == Err(Business(AlreadyActivatedWorkspace))
  {
    var found := FindWorkspace(store, id);
    assert found.Ok? ==> found.value.status == store[id];
    if found.Err? then found
    else if found.value.status == Active then Err(Business(AlreadyActivatedWorkspace))
    else Ok(found.value)
  }

  /** For a stored workspace exactly one of the two guards passes; for a
      missing one both fail with the same error. */
  lemma GuardsPartitionStoredWorkspaces(store: map<nat, WorkspaceStatus>, id: nat)
    ensures id in store ==> FindActiveWorkspace(store, id).Ok? != FindDeletedWorkspace(store, id).Ok?
    ensures id !in store ==> FindActiveWorkspace(store, id) == FindDeletedWorkspace(store, id) == Err(Business(WorkspaceNotFound))
  {
  }

  /** Deleting an active workspace switches the guards over: it is then
      refused as DELETED_WORKSPACE and accepted by reopen, and reopening it
      gives back the store as it was. */
  lemma DeleteThenReopen(store: map<nat, WorkspaceStatus>, id: nat)
    requires FindActiveWorkspace(store, id).Ok?
    ensures var deleted := store[id := Deleted];
      && FindActiveWorkspace(deleted, id) == Err(Business(DeletedWorkspace))
      && FindDeletedWorkspace(deleted, id) == Ok(Workspace(id, Deleted))
      && deleted[id := Active] == store
  {
    assert store[id] == Active;
    assert store[id := Deleted][id := Active] == store[id := Active];
  }

  /** Reopening a deleted workspace switches the guards back: it is then
      refused by reopen as ALREADY_ACTIVATED_WORKSPACE and readable again. */
  lemma ReopenThenDelete(store: map<nat, WorkspaceStatus>, id: nat)
    requires FindDeletedWorkspace(store, id).Ok?
    ensures var reopened := store[id := Active];
      && FindDeletedWorkspace(reopened, id) == Err(Business(AlreadyActivatedWorkspace))
      && FindActiveWorkspace(reopened, id) == Ok(Workspace(id, Active))
      && reopened[id := Deleted] == store
  {
    assert store[id] == Deleted;
    assert store[id := Active][id := Deleted] == store[id := Deleted];
  }

  /** findByWorkspace on the boards: those of the workspace, in storage order. */
  function BoardsOf(boards: seq<Board>, workspaceId: nat): (r: seq<Board>)
    ensures forall b :: b in r <==> b in boards && b.workspaceId == workspaceId
    ensures |r| <= |boards|
  {
    if boards == [] then []
    else (if boards[0].workspaceId == workspaceId then [boards[0]] else []) + BoardsOf(boards[1..], workspaceId)
  }

  /** Workspace.getMembers: the memberships of the workspace, in storage order. */
  function MembersOf(ms: seq<UserWorkspace>, workspaceId: nat): (r: seq<UserWorkspace>)
    ensures forall m :: m in r <==> m in ms && m.workspaceId == workspaceId
    ensures |r| <= |ms|
  {
    if ms == [] then []
    else (if ms[0].workspaceId == workspaceId then [ms[0]] else []) + MembersOf(ms[1..], workspaceId)
  }

  // ---------------------------------------------------------------------
  // The service
  // ---------------------------------------------------------------------

  class WorkspaceService {
    /** The stored workspaces and their status (WorkspaceRepository). */
    var workspaces: map<nat, WorkspaceStatus>
    var nextWorkspaceId: nat
    /** The stored memberships (UserWorkspaceRepository). */
    var memberships: seq<UserWorkspace>
    var nextMembershipId: nat
    /** The Workspace entity methods invoked so far, oldest first. */
    var invoked: seq<WorkspaceCall>
    /** The stored boards (BoardRepository), which this service only reads. */
    const boards: seq<Board>
    /** The admin flag a new UserWorkspace row starts with. */
    const initialAdmin: bool

    ghost predicate Valid()
      reads this
    {
      && (forall id :: id in workspaces ==> id < nextWorkspaceId)
      && (forall i :: 0 <= i < |memberships| ==> memberships[i].id < nextMembershipId)
      && UniqueMembershipIds(memberships)
    }

    constructor (boards: seq<Board>, initialAdmin: bool)
      ensures Valid()
      ensures workspaces == map[] && memberships == [] && invoked == []
      ensures this.boards == boards && this.initialAdmin == initialAdmin
    {
      workspaces := map[];
      nextWorkspaceId := 1;
      memberships := [];
      nextMembershipId := 1;
      invoked := [];
      this.boards := boards;
      this.initialAdmin := initialAdmin;
    }

    /** createWorkspace: stores one new, active workspace under a fresh id
        and exactly one membership of the creator in it. */
    method CreateWorkspace(userId: nat) returns (id: nat)
      requires Valid()
      modifies this
      ensures Valid()
      ensures id !in old(workspaces) && workspaces == old(workspaces)[id := Active]
      ensures memberships == old(memberships) + [UserWorkspace(old(nextMembershipId), userId, id, initialAdmin)]
      ensures forall i :: 0 <= i < |old(memberships)| ==> memberships[|memberships| - 1].id != old(memberships)[i].id
      ensures nextWorkspaceId == old(nextWorkspaceId) + 1 && nextMembershipId == old(nextMembershipId) + 1
      ensures invoked == old(invoked)
    {
      id := nextWorkspaceId;
      workspaces := workspaces[id := Active];
      nextWorkspaceId := nextWorkspaceId + 1;
      memberships := memberships + [UserWorkspace(nextMembershipId, userId, id, initialAdmin)];
      nextMembershipId := nextMembershipId + 1;
    }

    /** getWorkspace: the workspace, if it is active. */
    method GetWorkspace(id: nat) returns (r: Result<Workspace>)
      ensures r == FindActiveWorkspace(workspaces, id)
    {
      r := FindActiveWorkspace(workspaces, id);
    }

    /** updateWorkspace: invokes update on an active workspace only. */
    method UpdateWorkspace(id: nat) returns (r: Result<()>)
      requires Valid()
      modifies this
      ensures Valid()
      ensures workspaces == old(workspaces) && memberships == old(memberships)
      ensures nextWorkspaceId == old(nextWorkspaceId) && nextMembershipId == old(nextMembershipId)
      ensures var guard := FindActiveWorkspace(old(workspaces), id);
        && (guard.Err? ==> r == Err(guard.failure) && invoked == old(invoked))
        && (guard.Ok? ==> r == Ok(()) && invoked == old(invoked) + [Update(id)])
    {
      var guard := FindActiveWorkspace(workspaces, id);
      if guard.Err? {
        return Err(guard.failure);
      }
      invoked := invoked + [Update(id)];
      r := Ok(());
    }

    /** deleteWorkspace: invokes delete on an active workspace only, which
        marks it DELETED. */
    method DeleteWorkspace(id: nat) returns (r: Result<()>)
      requires Valid()
      modifies this
      ensures Valid()
      ensures memberships == old(memberships)
      ensures nextWorkspaceId == old(nextWorkspaceId) && nextMembershipId == old(nextMembershipId)
      ensures var guard := FindActiveWorkspace(old(workspaces), id);
        && (guard.Err? ==> r == Err(guard.failure) && workspaces == old(workspaces) && invoked == old(invoked))
        && (guard.Ok? ==> r == Ok(()) && workspaces == old(workspaces)[id := Deleted] && invoked == old(invoked) + [Delete(id)])
    {
      var guard := FindActiveWorkspace(workspaces, id);
      if guard.Err? {
        return Err(guard.failure);
      }
      workspaces := workspaces[id := Deleted];
      invoked := invoked + [Delete(id)];
      r := Ok(());
    }

    /** reopenWorkspace: invokes reopen on a workspace that is not active
        only, which marks it ACTIVE again. */
    method ReopenWorkspace(id: nat) returns (r: Result<()>)
      requires Valid()
      modifies this
      ensures Valid()
      ensures memberships == old(memberships)
      ensures nextWorkspaceId == old(nextWorkspaceId) && nextMembershipId == old(nextMembershipId)
      ensures var guard := FindDeletedWorkspace(old(workspaces), id);
        && (guard.Err? ==> r == Err(guard.failure) && workspaces == old(workspaces) && invoked == old(invoked))
        && (guard.Ok? ==> r == Ok(()) && workspaces == old(workspaces)[id := Active] && invoked == old(invoked) + [Reopen(id)])
    {
      var guard := FindDeletedWorkspace(workspaces, id);
      if guard.Err? {
        return Err(guard.failure);
      }
      workspaces := workspaces[id := Active];
      invoked := invoked + [Reopen(id)];
      r := Ok(());
    }

    /** getBoards: the boards of an active workspace. */
    method GetBoards(id: nat) returns (r: Result<seq<Board>>)
      ensures r.Ok? <==> FindActiveWorkspace(workspaces, id).Ok?
      ensures r.Err? ==> r.failure == FindActiveWorkspace(workspaces, id).failure
      ensures r.Ok? ==> forall b :: b in r.value <==> b in boards && b.workspaceId == id
    {
      var guard := FindActiveWorkspace(workspaces, id);
      if guard.Err? {
        return Err(guard.failure);
      }
      r := Ok(BoardsOf(boards, id));
    }
  }
}

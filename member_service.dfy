/** MemberService: invite codes and URLs, invitations, and the membership
    rows (UserWorkspace) that joining, leaving and the admin role act on. */
module Members {
  import opened Errors
  import opened Queries
  import Workspaces

  type UserWorkspace = Workspaces.UserWorkspace

  datatype InvitationStatus = Pending | Accepted

  /** A stored invitation: who invited whom to which workspace, the code
      sent, and whether it is still pending. */
  datatype Invitation = Invitation(
    id: nat, inviterId: nat, workspaceId: nat, inviteeEmail: string, inviteCode: string, status: InvitationStatus)

  // ---------------------------------------------------------------------
  // Invite codes
  // ---------------------------------------------------------------------

  const INVITE_CODE_LENGTH: nat := 8

  const UPPERCASE: string := "ABCDEFGHIJKLMNOPQRSTUVWXYZ"
  const LOWERCASE: string := "abcdefghijklmnopqrstuvwxyz"
  const DIGITS: string := "0123456789"

  /** The alphabet of invite codes: upper-case letters, lower-case letters,
      then digits. */
  const CHARACTERS: string := UPPERCASE + LOWERCASE + DIGITS

  predicate IsAlphanumeric(c: char) {
    'A' <= c <= 'Z' || 'a' <= c <= 'z' || '0' <= c <= '9'
  }

  lemma UppercaseRun()
    ensures |UPPERCASE| == 26 && forall k :: 0 <= k < 26 ==> UPPERCASE[k] as int == 'A' as int + k
  {
  }

  lemma LowercaseRun()
    ensures |LOWERCASE| == 26 && forall k :: 0 <= k < 26 ==> LOWERCASE[k] as int == 'a' as int + k
  {
  }

  lemma DigitRun()
    ensures |DIGITS| == 10 && forall k :: 0 <= k < 10 ==> DIGITS[k] as int == '0' as int + k
  {
  }

  /** Where each run sits in the alphabet. */
  lemma CharactersLayout()
    ensures |CHARACTERS| == 62
    ensures forall k :: 0 <= k < 26 ==> CHARACTERS[k] == UPPERCASE[k] && CHARACTERS[26 + k] == LOWERCASE[k]
    ensures forall k :: 0 <= k < 10 ==> CHARACTERS[52 + k] == DIGITS[k]
  {
  }

  /** The alphabet has 62 characters, each an ASCII letter or digit. */
  lemma CharactersAreAlphanumeric()
    ensures |CHARACTERS| == 62
    ensures forall k :: 0 <= k < |CHARACTERS| ==> IsAlphanumeric(CHARACTERS[k])
  {
    UppercaseRun();
    LowercaseRun();
    DigitRun();
    forall k | 0 <= k < |CHARACTERS| ensures IsAlphanumeric(CHARACTERS[k]) {
      if k < 26 {
        assert CHARACTERS[k] == UPPERCASE[k];
      } else if k < 52 {
        assert CHARACTERS[k] == LOWERCASE[k - 26];
      } else {
        assert CHARACTERS[k] == DIGITS[k - 52];
      }
    }
  }

  /** Where an ASCII letter or digit sits in the alphabet. */
  function AlphabetIndex(c: char): nat
    requires IsAlphanumeric(c)
  {
    if 'A' <= c <= 'Z' then c as int - 'A' as int
    else if 'a' <= c <= 'z' then 26 + (c as int - 'a' as int)
    else 52 + (c as int - '0' as int)
  }

  /** AlphabetIndex finds the character in the alphabet. */
  lemma AlphabetIndexFindsCharacter(c: char)
    requires IsAlphanumeric(c)
    ensures AlphabetIndex(c) < |CHARACTERS| && CHARACTERS[AlphabetIndex(c)] == c
  {
    CharactersLayout();
    if 'A' <= c <= 'Z' {
      UppercaseIndex(c);
    } else if 'a' <= c <= 'z' {
      LowercaseIndex(c);
    } else {
      DigitIndex(c);
    }
  }

  lemma UppercaseIndex(c: char)
    requires 'A' <= c <= 'Z'
    ensures CHARACTERS[c as int - 'A' as int] == c
  {
    var k := c as int - 'A' as int;
    UppercaseRun();
    CharactersLayout();
    assert UPPERCASE[k] as int == c as int;
  }

  lemma LowercaseIndex(c: char)
    requires 'a' <= c <= 'z'
    ensures CHARACTERS[26 + (c as int - 'a' as int)] == c
  {
    var k := c as int - 'a' as int;
    LowercaseRun();
    CharactersLayout();
    assert LOWERCASE[k] as int == c as int;
  }

  lemma DigitIndex(c: char)
    requires '0' <= c <= '9'
    ensures CHARACTERS[52 + (c as int - '0' as int)] == c
  {
    var k := c as int - '0' as int;
    DigitRun();
    CharactersLayout();
    assert DIGITS[k] as int == c as int;
  }

  /** Every string of INVITE_CODE_LENGTH letters and digits is the code some
      sequence of draws in [0, 62) produces. */
  lemma EveryAlphanumericCodeCanBeDrawn(code: string)
    requires |code| == INVITE_CODE_LENGTH
    requires forall i :: 0 <= i < |code| ==> IsAlphanumeric(code[i])
    ensures exists draws: seq<nat> ::
      && |draws| == INVITE_CODE_LENGTH
      && (forall i :: 0 <= i < |draws| ==> draws[i] < |CHARACTERS|)
      && forall i :: 0 <= i < |draws| ==> CHARACTERS[draws[i]] == code[i]
  {
    var draws := seq(|code|, i requires 0 <= i < |code| => AlphabetIndex(code[i]));
    forall i | 0 <= i < |draws| ensures draws[i] < |CHARACTERS| && CHARACTERS[draws[i]] == code[i] {
      AlphabetIndexFindsCharacter(code[i]);
    }
    assert |draws| == INVITE_CODE_LENGTH;
  }

  // ---------------------------------------------------------------------
  // Invite URLs
  // ---------------------------------------------------------------------

  const INVITE_URL_PREFIX: string := "http://localhost:8080/api/workspaces/"
  const JOIN_PATH: string := "/members/join?code="

  function DigitChar(d: nat): (c: char)
    requires d < 10
    ensures '0' <= c <= '9' && c as int - '0' as int == d
  {
    ('0' as int + d) as char
  }

  /** The decimal spelling of a workspace id, as string concatenation of a
      Long gives it. */
  function DecimalString(n: nat): (s: string)
    ensures |s| >= 1
    ensures forall i :: 0 <= i < |s| ==> '0' <= s[i] <= '9'
  {
    if n < 10 then [DigitChar(n)] else DecimalString(n / 10) + [DigitChar(n % 10)]
  }

  /** The number a string of decimal digits denotes. */
  function DecimalValue(s: string): nat
    requires forall i :: 0 <= i < |s| ==> '0' <= s[i] <= '9'
  {
    if s == [] then 0 else 10 * DecimalValue(s[..|s| - 1]) + (s[|s| - 1] as int - '0' as int)
  }

  /** Reading the decimal spelling back gives the id. */
  lemma {:induction false} DecimalRoundTrip(n: nat)
    ensures DecimalValue(DecimalString(n)) == n
  {
    if n >= 10 {
      DecimalRoundTrip(n / 10);
      var s := DecimalString(n);
      assert s[..|s| - 1] == DecimalString(n / 10);
    }
  }

  /** generateInviteUrl: the fixed prefix, the workspace id, the join path,
      then the code. */
  function GenerateInviteUrl(workspaceId: nat, inviteCode: string): (url: string)
    ensures var idEnd := |INVITE_URL_PREFIX| + |DecimalString(workspaceId)|;
      && |url| == idEnd + |JOIN_PATH| + |inviteCode|
      && url[..|INVITE_URL_PREFIX|] == INVITE_URL_PREFIX
      && url[|INVITE_URL_PREFIX|..idEnd] == DecimalString(workspaceId)
      && url[idEnd..idEnd + |JOIN_PATH|] == JOIN_PATH
      && url[idEnd + |JOIN_PATH|..] == inviteCode
  {
    INVITE_URL_PREFIX + DecimalString(workspaceId) + JOIN_PATH + inviteCode
  }

  /** Two invite URLs with codes of the same length are equal only for the
      same workspace and the same code: the URL identifies both. */
  lemma InviteUrlDeterminesWorkspaceAndCode(a: nat, codeA: string, b: nat, codeB: string)
    requires |codeA| == |codeB|
    requires GenerateInviteUrl(a, codeA) == GenerateInviteUrl(b, codeB)
    ensures a == b && codeA == codeB
  {
    var url := GenerateInviteUrl(a, codeA);
    assert |DecimalString(a)| == |DecimalString(b)|;
    assert DecimalString(a) == DecimalString(b);
    DecimalRoundTrip(a);
    DecimalRoundTrip(b);
  }

  // ---------------------------------------------------------------------
  // The lookups
  // ---------------------------------------------------------------------

  /** findUser: the stored user id, or USER_NOT_FOUND. */
  function FindUser(users: set<nat>, id: nat): (r: Result<nat>)
    ensures r.Ok? <==> id in users
    ensures r.Ok? ==> r.value == id
    ensures r.Err? ==> r.failure == Business(UserNotFound)
  {
    if id in users then Ok(id) else Err(Business(UserNotFound))
  }

  /** findWorkspace: the stored workspace id, or WORKSPACE_NOT_FOUND. Its
      status is not looked at. */
  function FindWorkspace(workspaces: set<nat>, id: nat): (r: Result<nat>)
    ensures r.Ok? <==> id in workspaces
    ensures r.Ok? ==> r.value == id
    ensures r.Err? ==> r.failure == Business(WorkspaceNotFound)
  {
    if id in workspaces then Ok(id) else Err(Business(WorkspaceNotFound))
  }

  predicate Belongs(m: UserWorkspace, userId: nat, workspaceId: nat) {
    m.userId == userId && m.workspaceId == workspaceId
  }

  /** findUserWorkspace (findByUserIdAndWorkspaceId): the one membership of
      the user in the workspace; none raises USER_DOES_NOT_BELONG_TO_WORKSPACE,
      several make the query fail. */
  function FindUserWorkspace(ms: seq<UserWorkspace>, userId: nat, workspaceId: nat): (r: Result<UserWorkspace>)
    ensures r == Err(Business(UserDoesNotBelongToWorkspace)) <==>
      forall i :: 0 <= i < |ms| ==> !Belongs(ms[i], userId, workspaceId)
    ensures r == Err(IncorrectResultSize) <==>
      exists i, j :: 0 <= i < j < |ms| && Belongs(ms[i], userId, workspaceId) && Belongs(ms[j], userId, workspaceId)
    ensures r.Ok? ==> r.value in ms && Belongs(r.value, userId, workspaceId)
    ensures r.Ok? ==> forall i :: 0 <= i < |ms| && Belongs(ms[i], userId, workspaceId) ==> ms[i] == r.value
  {
    match FindOne(ms, (m: UserWorkspace) => Belongs(m, userId, workspaceId))
    case NoRow => Err(Business(UserDoesNotBelongToWorkspace))
    case ManyRows => Err(IncorrectResultSize)
    case OneRow(m) =>
      assert forall i, j :: 0 <= i < j < |ms| ==> !(Belongs(ms[i], userId, workspaceId) && Belongs(ms[j], userId, workspaceId));
      Ok(m)
  }

  predicate IsPendingWithCode(inv: Invitation, code: string) {
    inv.status == Pending && inv.inviteCode == code
  }

  /** findPendingInvitation (findByInviteCodeAndStatus with PENDING): the
      one pending invitation with the code; none raises INVALID_INVITE_CODE,
      several make the query fail. */
  function FindPendingInvitation(invs: seq<Invitation>, code: string): (r: Result<Invitation>)
    ensures r == Err(Business(InvalidInviteCode)) <==>
      forall i :: 0 <= i < |invs| ==> !IsPendingWithCode(invs[i], code)
    ensures r == Err(IncorrectResultSize) <==>
      exists i, j :: 0 <= i < j < |invs| && IsPendingWithCode(invs[i], code) && IsPendingWithCode(invs[j], code)
    ensures r.Ok? ==> r.value in invs && IsPendingWithCode(r.value, code)
  {
    match FindOne(invs, (inv: Invitation) => IsPendingWithCode(inv, code))
    case NoRow => Err(Business(InvalidInviteCode))
    case ManyRows => Err(IncorrectResultSize)
    case OneRow(inv) => Ok(inv)
  }

  /** The checks joinWorkspace makes before it writes: the workspace exists,
      then a pending invitation carries the code. */
  function JoinGuard(workspaces: set<nat>, invs: seq<Invitation>, workspaceId: nat, code: string): (r: Result<Invitation>)
    ensures workspaceId !in workspaces ==> r == Err(Business(WorkspaceNotFound))
    ensures workspaceId in workspaces ==> r == FindPendingInvitation(invs, code)
    ensures r.Ok? ==> workspaceId in workspaces && r.value in invs && IsPendingWithCode(r.value, code)
  {
    var found := FindWorkspace(workspaces, workspaceId);
    if found.Err? then Err(found.failure) else FindPendingInvitation(invs, code)
  }

  /** The join checks with the invitation's workspace compared against the
      workspace being joined. */
  function JoinGuardForWorkspace(workspaces: set<nat>, invs: seq<Invitation>, workspaceId: nat, code: string): (r: Result<Invitation>)
    ensures r.Ok? ==> && workspaceId in workspaces && r.value in invs && IsPendingWithCode(r.value, code)
                      && r.value.workspaceId == workspaceId
    ensures r == Err(Business(InvalidInviteCode)) <==>
      (workspaceId in workspaces &&
       forall i :: 0 <= i < |invs| ==> !(IsPendingWithCode(invs[i], code) && invs[i].workspaceId == workspaceId))
  {
    var found := FindWorkspace(workspaces, workspaceId);
    if found.Err? then Err(found.failure)
    else
      match FindOne(invs, (inv: Invitation) => IsPendingWithCode(inv, code) && inv.workspaceId == workspaceId)
      case NoRow => Err(Business(InvalidInviteCode))
      case ManyRows => Err(IncorrectResultSize)
      case OneRow(inv) => Ok(inv)
  }

  /** As written, a pending code of workspace 1 passes the join checks for
      workspace 2, so its holder becomes a member of workspace 2. */
  lemma JoinAcceptsInvitationOfAnotherWorkspace()
    ensures var invs := [Invitation(1, 5, 1, "invitee@example.com", "AAAAAAAA", Pending)];
      && JoinGuard({1, 2}, invs, 2, "AAAAAAAA") == Ok(invs[0])
      && invs[0].workspaceId != 2
  {
    var invs := [Invitation(1, 5, 1, "invitee@example.com", "AAAAAAAA", Pending)];
    assert IsPendingWithCode(invs[0], "AAAAAAAA");
  }

  /** With the workspace compared, the same code is refused for workspace 2
      and accepted for workspace 1. */
  lemma ScopedJoinRefusesInvitationOfAnotherWorkspace()
    ensures var invs := [Invitation(1, 5, 1, "invitee@example.com", "AAAAAAAA", Pending)];
      && JoinGuardForWorkspace({1, 2}, invs, 2, "AAAAAAAA") == Err(Business(InvalidInviteCode))
      && JoinGuardForWorkspace({1, 2}, invs, 1, "AAAAAAAA") == Ok(invs[0])
  {
    var invs := [Invitation(1, 5, 1, "invitee@example.com", "AAAAAAAA", Pending)];
    assert IsPendingWithCode(invs[0], "AAAAAAAA");
  }

  // ---------------------------------------------------------------------
  // Accepting an invitation
  // ---------------------------------------------------------------------

  /** No two invitations share an id. */
  predicate UniqueInvitationIds(invs: seq<Invitation>) {
    forall i, j :: 0 <= i < j < |invs| ==> invs[i].id != invs[j].id
  }

  /** markAsAccepted on the invitation with that id; every other one is kept. */
  function WithAccepted(invs: seq<Invitation>, id: nat): (r: seq<Invitation>)
    ensures |r| == |invs|
    ensures forall i :: 0 <= i < |invs| && invs[i].id == id ==> r[i] == invs[i].(status := Accepted)
    ensures forall i :: 0 <= i < |invs| && invs[i].id != id ==> r[i] == invs[i]
  {
    if invs == [] then []
    else [if invs[0].id == id then invs[0].(status := Accepted) else invs[0]] + WithAccepted(invs[1..], id)
  }

  /** markAsAccepted changes no id, so ids stay unique and below the next one. */
  lemma {:induction false} WithAcceptedKeepsIds(invs: seq<Invitation>, id: nat)
    requires UniqueInvitationIds(invs)
    ensures forall i :: 0 <= i < |invs| ==> WithAccepted(invs, id)[i].id == invs[i].id
    ensures UniqueInvitationIds(WithAccepted(invs, id))
  {
    var r := WithAccepted(invs, id);
    forall i | 0 <= i < |invs| ensures r[i].id == invs[i].id {
      if invs[i].id == id { assert r[i] == invs[i].(status := Accepted); }
    }
  }

  /** Once the pending invitation a code found is accepted, the code finds
      nothing: a second join with it fails with INVALID_INVITE_CODE. */
  lemma {:induction false} AcceptedCodeIsSpent(invs: seq<Invitation>, code: string)
    requires FindPendingInvitation(invs, code).Ok?
    ensures var inv := FindPendingInvitation(invs, code).value;
      FindPendingInvitation(WithAccepted(invs, inv.id), code) == Err(Business(InvalidInviteCode))
  {
    var inv := FindPendingInvitation(invs, code).value;
    var r := WithAccepted(invs, inv.id);
    var k :| 0 <= k < |invs| && invs[k] == inv;
    forall i | 0 <= i < |r| ensures !IsPendingWithCode(r[i], code) {
      if invs[i].id != inv.id {
        var other := invs[i];
        if i < k {
          assert !(IsPendingWithCode(other, code) && IsPendingWithCode(inv, code));
        } else if k < i {
          assert !(IsPendingWithCode(inv, code) && IsPendingWithCode(other, code));
        }
      }
    }
  }

  // ---------------------------------------------------------------------
  // Membership updates
  // ---------------------------------------------------------------------

  /** delete of a UserWorkspace entity: the row with its id goes, every
      other row stays in order. */
  function WithoutMembership(ms: seq<UserWorkspace>, id: nat): (r: seq<UserWorkspace>)
    ensures forall m :: m in r <==> m in ms && m.id != id
    ensures |r| <= |ms|
  {
    if ms == [] then []
    else (if ms[0].id == id then [] else [ms[0]]) + WithoutMembership(ms[1..], id)
  }

  /** updateAdminRole on the row with that id; every other row is kept. */
  function WithAdmin(ms: seq<UserWorkspace>, id: nat, admin: bool): (r: seq<UserWorkspace>)
    ensures |r| == |ms|
    ensures forall i :: 0 <= i < |ms| && ms[i].id == id ==> r[i] == ms[i].(admin := admin)
    ensures forall i :: 0 <= i < |ms| && ms[i].id != id ==> r[i] == ms[i]
  {
    if ms == [] then []
    else [if ms[0].id == id then ms[0].(admin := admin) else ms[0]] + WithAdmin(ms[1..], id, admin)
  }

  /** updateAdminRole changes no id, so ids stay unique and below the next one. */
  lemma {:induction false} WithAdminKeepsIds(ms: seq<UserWorkspace>, id: nat, admin: bool)
    requires Workspaces.UniqueMembershipIds(ms)
    ensures forall i :: 0 <= i < |ms| ==> WithAdmin(ms, id, admin)[i].id == ms[i].id
    ensures Workspaces.UniqueMembershipIds(WithAdmin(ms, id, admin))
  {
    var r := WithAdmin(ms, id, admin);
    forall i | 0 <= i < |ms| ensures r[i].id == ms[i].id {
      if ms[i].id == id { assert r[i] == ms[i].(admin := admin); }
    }
  }

  /** A membership added where there was none is the one the lookup finds. */
  lemma {:induction false} JoinedMembershipIsFound(ms: seq<UserWorkspace>, m: UserWorkspace)
    requires FindUserWorkspace(ms, m.userId, m.workspaceId) == Err(Business(UserDoesNotBelongToWorkspace))
    ensures FindUserWorkspace(ms + [m], m.userId, m.workspaceId) == Ok(m)
  {
    var t := ms + [m];
    assert t[|ms|] == m;
    assert forall i :: 0 <= i < |ms| ==> t[i] == ms[i];
  }

  /** joinWorkspace does not look for an existing membership: joining a
      workspace one already belongs to leaves two rows, and every later
      lookup of that membership fails. */
  lemma {:induction false} JoiningTwiceMakesLookupFail(ms: seq<UserWorkspace>, m: UserWorkspace)
    requires FindUserWorkspace(ms, m.userId, m.workspaceId).Ok?
    ensures FindUserWorkspace(ms + [m], m.userId, m.workspaceId) == Err(IncorrectResultSize)
  {
    var t := ms + [m];
    var i :| 0 <= i < |ms| && ms[i] == FindUserWorkspace(ms, m.userId, m.workspaceId).value;
    assert t[i] == ms[i] && t[|ms|] == m;
  }

  /** The join with a look for an existing membership first: a user who
      already belongs to the workspace keeps the one row they have. */
  function JoinedOnce(ms: seq<UserWorkspace>, m: UserWorkspace): seq<UserWorkspace>
  {
    if FindUserWorkspace(ms, m.userId, m.workspaceId) == Err(Business(UserDoesNotBelongToWorkspace)) then ms + [m] else ms
  }

  /** With that look, joining never breaks the lookup: it finds the new
      membership after a first join, and the old one after any later join. */
  lemma {:induction false} JoinedOnceKeepsLookup(ms: seq<UserWorkspace>, m: UserWorkspace)
    requires FindUserWorkspace(ms, m.userId, m.workspaceId) != Err(IncorrectResultSize)
    ensures var before := FindUserWorkspace(ms, m.userId, m.workspaceId);
      && (before.Err? ==> FindUserWorkspace(JoinedOnce(ms, m), m.userId, m.workspaceId) == Ok(m))
      && (before.Ok? ==> FindUserWorkspace(JoinedOnce(ms, m), m.userId, m.workspaceId) == before)
  {
    if FindUserWorkspace(ms, m.userId, m.workspaceId).Err? {
      JoinedMembershipIsFound(ms, m);
    }
  }

  /** Deleting the membership a lookup found leaves none for that user and
      workspace. */
  lemma {:induction false} LeftMembershipIsGone(ms: seq<UserWorkspace>, userId: nat, workspaceId: nat)
    requires FindUserWorkspace(ms, userId, workspaceId).Ok?
    ensures var m := FindUserWorkspace(ms, userId, workspaceId).value;
      FindUserWorkspace(WithoutMembership(ms, m.id), userId, workspaceId) == Err(Business(UserDoesNotBelongToWorkspace))
  {
    var m := FindUserWorkspace(ms, userId, workspaceId).value;
    var r := WithoutMembership(ms, m.id);
    forall i | 0 <= i < |r| ensures !Belongs(r[i], userId, workspaceId) {
      assert r[i] in r;
      var j :| 0 <= j < |ms| && ms[j] == r[i];
    }
  }

  /** With unique ids, the membership a lookup finds sits at one index only. */
  lemma {:induction false} FoundAtOneIndex(ms: seq<UserWorkspace>, userId: nat, workspaceId: nat, k: nat)
    requires Workspaces.UniqueMembershipIds(ms) && k < |ms|
    requires FindUserWorkspace(ms, userId, workspaceId) == Ok(ms[k])
    ensures forall i :: 0 <= i < |ms| && Belongs(ms[i], userId, workspaceId) ==> i == k
  {
  }

  /** A lookup finds the row when it is the only one that matches. */
  lemma {:induction false} LookupOfOnlyMatch(ms: seq<UserWorkspace>, userId: nat, workspaceId: nat, k: nat)
    requires k < |ms| && Belongs(ms[k], userId, workspaceId)
    requires forall i :: 0 <= i < |ms| && Belongs(ms[i], userId, workspaceId) ==> i == k
    ensures FindUserWorkspace(ms, userId, workspaceId) == Ok(ms[k])
  {
    var found := FindUserWorkspace(ms, userId, workspaceId);
    var i :| 0 <= i < |ms| && ms[i] == found.value;
  }

  /** After updateAdminRole, isWorkspaceAdmin reads back the flag that was
      set, and the membership is otherwise the same. */
  lemma {:induction false} AdminRoleReadBack(ms: seq<UserWorkspace>, userId: nat, workspaceId: nat, admin: bool)
    requires Workspaces.UniqueMembershipIds(ms)
    requires FindUserWorkspace(ms, userId, workspaceId).Ok?
    ensures var m := FindUserWorkspace(ms, userId, workspaceId).value;
      FindUserWorkspace(WithAdmin(ms, m.id, admin), userId, workspaceId) == Ok(m.(admin := admin))
  {
    var m := FindUserWorkspace(ms, userId, workspaceId).value;
    var r := WithAdmin(ms, m.id, admin);
    var k :| 0 <= k < |ms| && ms[k] == m;
    FoundAtOneIndex(ms, userId, workspaceId, k);
    assert forall i :: 0 <= i < |ms| ==> (Belongs(r[i], userId, workspaceId) <==> Belongs(ms[i], userId, workspaceId));
    LookupOfOnlyMatch(r, userId, workspaceId, k);
  }

  // ---------------------------------------------------------------------
  // The service
  // ---------------------------------------------------------------------

  class MemberService {
    /** The stored user ids (UserRepository), which this service only reads. */
    const users: set<nat>
    /** The stored workspace ids (WorkspaceRepository), which this service only reads. */
    const workspaces: set<nat>
    /** The stored memberships (UserWorkspaceRepository). */
    var memberships: seq<UserWorkspace>
    var nextMembershipId: nat
    /** The stored invitations (InvitationRepository). */
    var invitations: seq<Invitation>
    var nextInvitationId: nat
    /** The admin flag a new UserWorkspace row starts with. */
    const initialAdmin: bool

    ghost predicate Valid()
      reads this
    {
      && Workspaces.UniqueMembershipIds(memberships)
      && (forall i :: 0 <= i < |memberships| ==> memberships[i].id < nextMembershipId)
      && UniqueInvitationIds(invitations)
      && forall i :: 0 <= i < |invitations| ==> invitations[i].id < nextInvitationId
    }

    constructor (users: set<nat>, workspaces: set<nat>, initialAdmin: bool)
      ensures Valid()
      ensures memberships == [] && invitations == []
      ensures this.users == users && this.workspaces == workspaces && this.initialAdmin == initialAdmin
    {
      this.users := users;
      this.workspaces := workspaces;
      memberships := [];
      nextMembershipId := 1;
      invitations := [];
      nextInvitationId := 1;
      this.initialAdmin := initialAdmin;
    }

    /** generateInviteCode: INVITE_CODE_LENGTH characters, the i-th being
        CHARACTERS at the i-th draw of random.nextInt(62). */
    method GenerateInviteCode(draws: seq<nat>) returns (code: string)
      requires |draws| == INVITE_CODE_LENGTH
      requires forall i :: 0 <= i < |draws| ==> draws[i] < |CHARACTERS|
      ensures |code| == INVITE_CODE_LENGTH
      ensures forall i :: 0 <= i < |code| ==> code[i] == CHARACTERS[draws[i]]
      ensures forall i :: 0 <= i < |code| ==> IsAlphanumeric(code[i])
    {
      code := [];
      var i := 0;
      while i < INVITE_CODE_LENGTH
        invariant 0 <= i <= INVITE_CODE_LENGTH && |code| == i
        invariant forall j :: 0 <= j < i ==> code[j] == CHARACTERS[draws[j]]
      {
        code := code + [CHARACTERS[draws[i]]];
        i := i + 1;
      }
      CharactersAreAlphanumeric();
    }

    /** getMembers: the memberships of a stored workspace. */
    method GetMembers(workspaceId: nat) returns (r: Result<seq<UserWorkspace>>)
      ensures r.Ok? <==> workspaceId in workspaces
      ensures r.Err? ==> r.failure == Business(WorkspaceNotFound)
      ensures r.Ok? ==> forall m :: m in r.value <==> m in memberships && m.workspaceId == workspaceId
    {
      var found := FindWorkspace(workspaces, workspaceId);
      if found.Err? {
        return Err(found.failure);
      }
      r := Ok(Workspaces.MembersOf(memberships, workspaceId));
    }

    /** inviteMember: with a stored workspace and inviter, stores one
        pending invitation carrying a freshly drawn code. */
    method InviteMember(workspaceId: nat, inviterId: nat, inviteeEmail: string, draws: seq<nat>) returns (r: Result<()>)
      requires Valid()
      requires |draws| == INVITE_CODE_LENGTH
      requires forall i :: 0 <= i < |draws| ==> draws[i] < |CHARACTERS|
      modifies this
      ensures Valid()
      ensures memberships == old(memberships)
      ensures nextMembershipId == old(nextMembershipId)
      ensures workspaceId !in workspaces ==>
        r == Err(Business(WorkspaceNotFound)) && invitations == old(invitations) && nextInvitationId == old(nextInvitationId)
      ensures workspaceId in workspaces && inviterId !in users ==>
        r == Err(Business(UserNotFound)) && invitations == old(invitations) && nextInvitationId == old(nextInvitationId)
      ensures workspaceId in workspaces && inviterId in users ==>
        && r == Ok(())
        && nextInvitationId == old(nextInvitationId) + 1
        && |invitations| == |old(invitations)| + 1
        && invitations[..|old(invitations)|] == old(invitations)
        && var inv := invitations[|old(invitations)|];
           && inv == Invitation(old(nextInvitationId), inviterId, workspaceId, inviteeEmail, inv.inviteCode, Pending)
           && |inv.inviteCode| == INVITE_CODE_LENGTH
           && forall i :: 0 <= i < INVITE_CODE_LENGTH ==> inv.inviteCode[i] == CHARACTERS[draws[i]]
    {
      var workspace := FindWorkspace(workspaces, workspaceId);
      if workspace.Err? {
        return Err(workspace.failure);
      }
      var inviter := FindUser(users, inviterId);
      if inviter.Err? {
        return Err(inviter.failure);
      }
      var inviteCode := GenerateInviteCode(draws);
      var inviteUrl := GenerateInviteUrl(workspaceId, inviteCode);
      invitations := invitations + [Invitation(nextInvitationId, inviterId, workspaceId, inviteeEmail, inviteCode, Pending)];
      nextInvitationId := nextInvitationId + 1;
      r := Ok(());
    }

    /** removeMember: with a stored member who belongs to the workspace,
        deletes that one membership. */
    method RemoveMember(workspaceId: nat, memberId: nat) returns (r: Result<()>)
      requires Valid()
      modifies this
      ensures Valid()
      ensures invitations == old(invitations)
      ensures nextMembershipId == old(nextMembershipId) && nextInvitationId == old(nextInvitationId)
      ensures memberId !in users ==> r == Err(Business(UserNotFound)) && memberships == old(memberships)
      ensures var found := FindUserWorkspace(old(memberships), memberId, workspaceId);
        memberId in users && found.Err? ==> r == Err(found.failure) && memberships == old(memberships)
      ensures var found := FindUserWorkspace(old(memberships), memberId, workspaceId);
        memberId in users && found.Ok? ==> r == Ok(()) && memberships == WithoutMembership(old(memberships), found.value.id)
    {
      var user := FindUser(users, memberId);
      if user.Err? {
        return Err(user.failure);
      }
      var found := FindUserWorkspace(memberships, user.value, workspaceId);
      if found.Err? {
        return Err(found.failure);
      }
      Delete(found.value);
      r := Ok(());
    }

    /** joinWorkspace: with a stored workspace and one pending invitation
        carrying the code, marks that invitation ACCEPTED and stores one
        membership of the user in the workspace. */
    method JoinWorkspace(workspaceId: nat, inviteCode: string, userId: nat) returns (r: Result<()>)
      requires Valid()
      modifies this
      ensures Valid()
      ensures nextInvitationId == old(nextInvitationId)
      ensures var guard := JoinGuard(workspaces, old(invitations), workspaceId, inviteCode);
        guard.Err? ==>
          && r == Err(guard.failure) && memberships == old(memberships) && invitations == old(invitations)
          && nextMembershipId == old(nextMembershipId)
      ensures var guard := JoinGuard(workspaces, old(invitations), workspaceId, inviteCode);
        guard.Ok? ==>
          && r == Ok(())
          && invitations == WithAccepted(old(invitations), guard.value.id)
          && memberships == old(memberships) + [Workspaces.UserWorkspace(old(nextMembershipId), userId, workspaceId, initialAdmin)]
          && nextMembershipId == old(nextMembershipId) + 1
    {
      var workspace := FindWorkspace(workspaces, workspaceId);
      if workspace.Err? {
        return Err(workspace.failure);
      }
      var invitation := FindPendingInvitation(invitations, inviteCode);
      if invitation.Err? {
        return Err(invitation.failure);
      }
      WithAcceptedKeepsIds(invitations, invitation.value.id);
      invitations := WithAccepted(invitations, invitation.value.id);
      memberships := memberships + [Workspaces.UserWorkspace(nextMembershipId, userId, workspaceId, initialAdmin)];
      nextMembershipId := nextMembershipId + 1;
      r := Ok(());
    }

    /** leaveWorkspace: deletes the user's one membership of the workspace. */
    method LeaveWorkspace(workspaceId: nat, userId: nat) returns (r: Result<()>)
      requires Valid()
      modifies this
      ensures Valid()
      ensures invitations == old(invitations)
      ensures nextMembershipId == old(nextMembershipId) && nextInvitationId == old(nextInvitationId)
      ensures var found := FindUserWorkspace(old(memberships), userId, workspaceId);
        found.Err? ==> r == Err(found.failure) && memberships == old(memberships)
      ensures var found := FindUserWorkspace(old(memberships), userId, workspaceId);
        found.Ok? ==> r == Ok(()) && memberships == WithoutMembership(old(memberships), found.value.id)
    {
      var found := FindUserWorkspace(memberships, userId, workspaceId);
      if found.Err? {
        return Err(found.failure);
      }
      Delete(found.value);
      r := Ok(());
    }

    /** updateAdminRole: sets the admin flag of the user's one membership of
        the workspace. */
    method UpdateAdminRole(workspaceId: nat, userId: nat, admin: bool) returns (r: Result<()>)
      requires Valid()
      modifies this
      ensures Valid()
      ensures invitations == old(invitations)
      ensures nextMembershipId == old(nextMembershipId) && nextInvitationId == old(nextInvitationId)
      ensures var found := FindUserWorkspace(old(memberships), userId, workspaceId);
        found.Err? ==> r == Err(found.failure) && memberships == old(memberships)
      ensures var found := FindUserWorkspace(old(memberships), userId, workspaceId);
        found.Ok? ==> r == Ok(()) && memberships == WithAdmin(old(memberships), found.value.id, admin)
    {
      var found := FindUserWorkspace(memberships, userId, workspaceId);
      if found.Err? {
        return Err(found.failure);
      }
      WithAdminKeepsIds(memberships, found.value.id, admin);
      memberships := WithAdmin(memberships, found.value.id, admin);
      r := Ok(());
    }

    /** isWorkspaceAdmin: the admin flag of the user's one membership of the
        workspace. */
    method IsWorkspaceAdmin(workspaceId: nat, userId: nat) returns (r: Result<bool>)
      ensures var found := FindUserWorkspace(memberships, userId, workspaceId);
        && (found.Err? ==> r == Err(found.failure))
        && (found.Ok? ==> r == Ok(found.value.admin))
    {
      var found := FindUserWorkspace(memberships, userId, workspaceId);
      if found.Err? {
        return Err(found.failure);
      }
      r := Ok(found.value.admin);
    }

    /** userWorkspaceRepository.delete: removes the row with the entity's id. */
    method Delete(m: UserWorkspace)
      requires Valid()
      modifies this
      ensures Valid()
      ensures memberships == WithoutMembership(old(memberships), m.id)
      ensures invitations == old(invitations)
      ensures nextMembershipId == old(nextMembershipId) && nextInvitationId == old(nextInvitationId)
    {
      ghost var before := memberships;
      memberships := WithoutMembership(memberships, m.id);
      assert forall i :: 0 <= i < |memberships| ==> memberships[i] in before;
      assert Workspaces.UniqueMembershipIds(memberships) by {
        WithoutMembershipKeepsUniqueIds(before, m.id);
      }
    }
  }

  lemma {:induction false} WithoutMembershipKeepsUniqueIds(ms: seq<UserWorkspace>, id: nat)
    requires Workspaces.UniqueMembershipIds(ms)
    ensures Workspaces.UniqueMembershipIds(WithoutMembership(ms, id))
  {
    if ms != [] {
      WithoutMembershipKeepsUniqueIds(ms[1..], id);
      var rest := WithoutMembership(ms[1..], id);
      if ms[0].id != id {
        assert forall m :: m in rest ==> m in ms[1..];
        forall j | 0 <= j < |rest| ensures rest[j].id != ms[0].id {
          assert rest[j] in ms[1..];
        }
        assert WithoutMembership(ms, id) == [ms[0]] + rest;
      }
    }
  }
}

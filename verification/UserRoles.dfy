/**
 Roles and statuses of users under the administration handlers. A row of the user
 table keeps what these handlers change: role, status, the editable profile and
 whether the row is soft-deleted. Names, quotas, permissions, sessions and caches
 are not part of this model, and the database does not fail.
 */
module UserRoles {

  const GUEST := 0
  const COMMON := 1
  const ADMIN := 10
  const ROOT := 100

  datatype Status = Enabled | Disabled

  datatype User = User(role: int, status: Status, profile: string, deleted: bool)

  datatype ManageAction = Disable | Enable | SoftDelete | Promote | Demote | Unknown

  datatype Request =
    | Manage(id: int, action: ManageAction)
    | Create(id: int, role: int, profile: string)
    | Update(id: int, role: int, profile: string)
    | Delete(id: int)
    | DeleteSelf

  /** A request together with the id and the role of the session that sends it. */
  datatype Step = Step(actor: int, myRole: int, request: Request)

  datatype Reply =
    | Success
    | InvalidParams
    | UserNotExists
    | NoPermissionHigherLevel
    | CannotCreateHigherLevel
    | CannotDisableRoot
    | CannotDeleteRoot
    | CannotDemoteRoot
    | AdminCannotPromote
    | AlreadyAdmin
    | AlreadyCommon

  type Table = map<int, User>

  predicate CanManage(myRole: int, targetRole: int) { myRole == ROOT || myRole > targetRole }

  /** Queries see only rows that are not soft-deleted. */
  predicate Live(t: Table, id: int) { id in t && !t[id].deleted }

  // ---------------------------------------------------------------- what a request asks for

  function ManageReply(u: User, myRole: int, action: ManageAction): Reply {
    if !CanManage(myRole, u.role) then NoPermissionHigherLevel
    else
      match action
      case Disable => if u.role == ROOT then CannotDisableRoot else Updated(u)
      case Enable => Updated(u)
      case SoftDelete => if u.role == ROOT then CannotDeleteRoot else Success
      case Promote =>
        if myRole != ROOT then AdminCannotPromote else if u.role >= ADMIN then AlreadyAdmin else Updated(u)
      case Demote =>
        if u.role == ROOT then CannotDemoteRoot else if u.role == COMMON then AlreadyCommon else Updated(u)
      case Unknown => InvalidParams
  }

  /** An update looks the row up again, without the soft-deleted ones. */
  function Updated(u: User): Reply { if u.deleted then UserNotExists else Success }

  function Managed(u: User, action: ManageAction): User {
    match action
    case Disable => u.(status := Disabled)
    case Enable => u.(status := Enabled)
    case SoftDelete => u.(deleted := true)
    case Promote => u.(role := ADMIN)
    case Demote => u.(role := COMMON)
    case Unknown => u
  }

  /** The database stores its default for a role of zero. */
  function StoredRole(role: int): int { if role == GUEST then COMMON else role }

  function ReplyTo(t: Table, s: Step): Reply {
    match s.request
    case Manage(id, action) => if id !in t then UserNotExists else ManageReply(t[id], s.myRole, action)
    case Create(id, role, _) =>
      if role >= s.myRole then CannotCreateHigherLevel else if id in t then InvalidParams else Success
    case Update(id, role, _) =>
      if !Live(t, id) then UserNotExists
      else if role != GUEST && role != t[id].role then InvalidParams
      else if !CanManage(s.myRole, t[id].role) then NoPermissionHigherLevel
      else Success
    case Delete(id) =>
      if !Live(t, id) then UserNotExists else if s.myRole <= t[id].role then NoPermissionHigherLevel else Success
    case DeleteSelf =>
      if Live(t, s.actor) && t[s.actor].role == ROOT then CannotDeleteRoot
      else if s.actor !in t then UserNotExists
      else Success
  }

  /** The table after a request: only a successful one changes it. */
  function Next(t: Table, s: Step): Table {
    if ReplyTo(t, s) != Success then t
    else
      match s.request
      case Manage(id, action) => t[id := Managed(t[id], action)]
      case Create(id, role, profile) => t[id := User(StoredRole(role), Enabled, profile, false)]
      case Update(id, _, profile) => t[id := t[id].(profile := profile)]
      case Delete(id) => t - {id}
      case DeleteSelf => t[s.actor := t[s.actor].(deleted := true)]
  }

  function Run(t: Table, steps: seq<Step>): Table
    decreases |steps|
  {
    if |steps| == 0 then t else Run(Next(t, steps[0]), steps[1..])
  }

  // ---------------------------------------------------------------- the handlers

  class UserTable {
    var users: Table

    constructor (users: Table)
      ensures this.users == users
    {
      this.users := users;
    }

    /** `id` is the row the lookup finds, soft-deleted rows included. */
    method ManageUser(actor: int, myRole: int, id: int, action: ManageAction) returns (reply: Reply)
      modifies this
      ensures var s := Step(actor, myRole, Manage(id, action));
              reply == ReplyTo(old(users), s) && users == Next(old(users), s)
    {
      if id !in users { return UserNotExists; }
      var user := users[id];
      if !CanManage(myRole, user.role) { return NoPermissionHigherLevel; }
      match action {
        case Disable =>
          user := user.(status := Disabled);
          if user.role == ROOT { return CannotDisableRoot; }
        case Enable =>
          user := user.(status := Enabled);
        case SoftDelete =>
          if user.role == ROOT { return CannotDeleteRoot; }
          users := users[id := user.(deleted := true)];
          return Success;
        case Promote =>
          if myRole != ROOT { return AdminCannotPromote; }
          if user.role >= ADMIN { return AlreadyAdmin; }
          user := user.(role := ADMIN);
        case Demote =>
          if user.role == ROOT { return CannotDemoteRoot; }
          if user.role == COMMON { return AlreadyCommon; }
          user := user.(role := COMMON);
        case Unknown =>
          return InvalidParams;
      }
      if users[id].deleted { return UserNotExists; }
      users := users[id := user];
      return Success;
    }

    /** `id` is the key the database gives the new row. */
    method CreateUser(actor: int, myRole: int, id: int, role: int, profile: string) returns (reply: Reply)
      modifies this
      ensures var s := Step(actor, myRole, Create(id, role, profile));
              reply == ReplyTo(old(users), s) && users == Next(old(users), s)
    {
      if role >= myRole { return CannotCreateHigherLevel; }
      if id in users { return InvalidParams; }
      users := users[id := User(StoredRole(role), Enabled, profile, false)];
      return Success;
    }

    method UpdateUser(actor: int, myRole: int, id: int, role: int, profile: string) returns (reply: Reply)
      modifies this
      ensures var s := Step(actor, myRole, Update(id, role, profile));
              reply == ReplyTo(old(users), s) && users == Next(old(users), s)
    {
      if !Live(users, id) { return UserNotExists; }
      var origin := users[id];
      if role != GUEST && role != origin.role { return InvalidParams; }
      if !CanManage(myRole, origin.role) { return NoPermissionHigherLevel; }
      users := users[id := origin.(profile := profile)];
      return Success;
    }

    method DeleteUser(actor: int, myRole: int, id: int) returns (reply: Reply)
      modifies this
      ensures var s := Step(actor, myRole, Delete(id));
              reply == ReplyTo(old(users), s) && users == Next(old(users), s)
    {
      if !Live(users, id) { return UserNotExists; }
      if myRole <= users[id].role { return NoPermissionHigherLevel; }
      users := users - {id};
      return Success;
    }

    method DeleteOneself(actor: int, myRole: int) returns (reply: Reply)
      modifies this
      ensures var s := Step(actor, myRole, DeleteSelf);
              reply == ReplyTo(old(users), s) && users == Next(old(users), s)
    {
      var role := if Live(users, actor) then users[actor].role else GUEST;
      if role == ROOT { return CannotDeleteRoot; }
      if actor !in users { return UserNotExists; }
      users := users[actor := users[actor].(deleted := true)];
      return Success;
    }
  }

  // ---------------------------------------------------------------- what a request does

  predicate SameRow(t: Table, u: Table, id: int) { (id in t) == (id in u) && (id in t ==> t[id] == u[id]) }

  /** Whether somebody of this role may manage a user of that role. */
  predicate Outranks(myRole: int, role: int) { myRole == 100 || myRole > role }

  /** Exactly these requests succeed. */
  lemma SucceedsIff(t: Table, s: Step)
    ensures ReplyTo(t, s) == Success <==>
              match s.request
              case Manage(id, action) =>
                && id in t && Outranks(s.myRole, t[id].role)
                && (match action
                    case Disable => t[id].role != 100 && !t[id].deleted
                    case Enable => !t[id].deleted
                    case SoftDelete => t[id].role != 100
                    case Promote => s.myRole == 100 && t[id].role < 10 && !t[id].deleted
                    case Demote => t[id].role != 100 && t[id].role != 1 && !t[id].deleted
                    case Unknown => false)
              case Create(id, role, _) => role < s.myRole && id !in t
              case Update(id, role, _) =>
                id in t && !t[id].deleted && (role == 0 || role == t[id].role) && Outranks(s.myRole, t[id].role)
              case Delete(id) => id in t && !t[id].deleted && t[id].role < s.myRole
              case DeleteSelf => s.actor in t && (t[s.actor].deleted || t[s.actor].role != 100)
  {
  }

  /** The row a request is about. */
  function Target(s: Step): int { if s.request.DeleteSelf? then s.actor else s.request.id }

  /** A successful request changes its target in exactly one respect and nobody else. */
  lemma SuccessMeans(t: Table, s: Step)
    requires ReplyTo(t, s) == Success
    ensures var after, id := Next(t, s), Target(s);
            && (forall other :: other != id ==> SameRow(t, after, other))
            && match s.request
               case Manage(_, action) =>
                 && id in t && id in after && after[id].profile == t[id].profile
                 && after[id].role == (if action == Promote then 10 else if action == Demote then 1 else t[id].role)
                 && after[id].status ==
                      (if action == Disable then Disabled else if action == Enable then Enabled else t[id].status)
                 && after[id].deleted == (t[id].deleted || action == SoftDelete)
               case Create(_, role, profile) =>
                 id in after && after[id] == User(if role == 0 then 1 else role, Enabled, profile, false)
               case Update(_, _, profile) =>
                 id in t && id in after && after[id] == User(t[id].role, t[id].status, profile, t[id].deleted)
               case Delete(_) => id !in after
               case DeleteSelf =>
                 id in t && id in after && after[id] == User(t[id].role, t[id].status, t[id].profile, true)
  {
  }

  // ---------------------------------------------------------------- root users

  /** The administration routes admit administrators and root; anybody may delete themselves. */
  predicate Admitted(s: Step) { s.myRole <= ROOT && (s.request.DeleteSelf? || s.myRole >= ADMIN) }

  predicate AllAdmitted(steps: seq<Step>) { forall s :: s in steps ==> Admitted(s) }

  predicate IsRoot(t: Table, id: int) { Live(t, id) && t[id].role == ROOT }

  function Roots(t: Table): set<int> { set id | id in t && IsRoot(t, id) }

  ghost predicate RootsEnabled(t: Table) { forall id :: IsRoot(t, id) ==> t[id].status == Enabled }

  lemma StepKeepsRoot(t: Table, s: Step, id: int)
    requires Admitted(s)
    ensures IsRoot(Next(t, s), id) == IsRoot(t, id)
    ensures IsRoot(t, id) && t[id].status == Enabled ==> Next(t, s)[id].status == Enabled
  {
  }

  /** No run changes the set of root users, and every root user stays enabled. */
  lemma {:induction false} RootsNeverChange(t: Table, steps: seq<Step>)
    requires AllAdmitted(steps)
    ensures Roots(Run(t, steps)) == Roots(t)
    ensures RootsEnabled(t) ==> RootsEnabled(Run(t, steps))
    decreases |steps|
  {
    if |steps| > 0 {
      var next := Next(t, steps[0]);
      assert steps[0] in steps;
      forall id: int
        ensures IsRoot(next, id) == IsRoot(t, id)
        ensures IsRoot(t, id) && t[id].status == Enabled ==> next[id].status == Enabled
      {
        StepKeepsRoot(t, steps[0], id);
      }
      assert Roots(next) == Roots(t);
      RootsNeverChange(next, steps[1..]);
    }
  }

  // ---------------------------------------------------------------- users at or above the actor

  predicate AtLeast(t: Table, id: int, role: int) { id in t && t[id].role >= role }

  predicate DeletesItself(s: Step, id: int) { s.request.DeleteSelf? && s.actor == id }

  /**
   A step of an actor who is not root changes, deletes or creates only users strictly
   below the actor's role, and leaves them strictly below it; deleting oneself aside.
   */
  lemma StepStaysBelow(t: Table, s: Step, id: int)
    requires Admitted(s) && s.myRole < ROOT && !DeletesItself(s, id)
    ensures SameRow(t, Next(t, s), id) || (!AtLeast(t, id, s.myRole) && !AtLeast(Next(t, s), id, s.myRole))
  {
  }

  /** Every actor of the run is below root and has at most this role. */
  predicate ActorsUpTo(steps: seq<Step>, role: int) { forall s :: s in steps ==> s.myRole <= role < ROOT }

  predicate NobodyLeaves(steps: seq<Step>, id: int) { forall s :: s in steps ==> !DeletesItself(s, id) }

  lemma StepSparesTheHigher(t: Table, s: Step, id: int, role: int)
    requires Admitted(s) && s.myRole <= role < ROOT && !DeletesItself(s, id)
    ensures AtLeast(Next(t, s), id, role) == AtLeast(t, id, role)
    ensures AtLeast(t, id, role) ==> Next(t, s)[id] == t[id]
  {
    StepStaysBelow(t, s, id);
  }

  /**
   Over whole runs of actors up to some role below root, a user of at least that role
   stays exactly as they are, and nobody else reaches that role.
   */
  lemma {:induction false} RunSparesTheHigher(t: Table, steps: seq<Step>, id: int, role: int)
    requires AllAdmitted(steps) && ActorsUpTo(steps, role) && NobodyLeaves(steps, id)
    ensures AtLeast(Run(t, steps), id, role) == AtLeast(t, id, role)
    ensures AtLeast(t, id, role) ==> Run(t, steps)[id] == t[id]
    decreases |steps|
  {
    if |steps| > 0 {
      assert steps[0] in steps;
      StepSparesTheHigher(t, steps[0], id, role);
      RunSparesTheHigher(Next(t, steps[0]), steps[1..], id, role);
    }
  }

  /** The role of an administrator comes only from root: without root nobody becomes one. */
  lemma OnlyRootMakesAdministrators(t: Table, steps: seq<Step>, id: int)
    requires AllAdmitted(steps) && ActorsUpTo(steps, ADMIN) && NobodyLeaves(steps, id)
    requires AtLeast(Run(t, steps), id, ADMIN)
    ensures AtLeast(t, id, ADMIN) && Run(t, steps)[id] == t[id]
  {
    RunSparesTheHigher(t, steps, id, ADMIN);
  }
}

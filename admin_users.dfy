/**
 * The admin panel's user list: every auth user joined with the set of users holding an
 * "admin" row in `user_roles`, and the toggle that inserts or deletes that row. The auth
 * listing and the role query are results passed in; the role table is a sequence of rows.
 */
module AdminUsers {
  import opened Wrappers
  import opened Schema

  /** A backend read: the rows it returned, or an error. */
  datatype Fetch<T> = Fetched(data: T) | FetchFailed

  /** A line of the user list. */
  datatype UserEntry = UserEntry(id: string, email: string, createdAt: int, isAdmin: bool)

  /** The user holds the admin role in the role table. */
  predicate IsAdminIn(table: seq<RoleRow>, userId: string)
  {
    RoleRow(userId, AdminRole) in table
  }

  /** `select user_id from user_roles where role = 'admin'`, in table order. */
  function AdminRoleRows(table: seq<RoleRow>): (rows: seq<RoleRow>)
    ensures forall row :: row in rows <==> row in table && row.role == AdminRole
  {
    if table == [] then []
    else (if table[0].role == AdminRole then [table[0]] else []) + AdminRoleRows(table[1..])
  }

  /** `new Set(adminRoles?.map(r => r.user_id) || [])`: empty when the role query failed. */
  function AdminIds(roles: Fetch<seq<RoleRow>>): (ids: set<string>)
    ensures roles.FetchFailed? ==> ids == {}
    ensures roles.Fetched? ==> forall id :: id in ids <==> exists row :: row in roles.data && row.userId == id
  {
    match roles
    case FetchFailed => {}
    case Fetched(rows) => set row | row in rows :: row.userId
  }

  /** `user.email || 'No email'` */
  function DisplayEmail(email: Option<string>): (shown: string)
    ensures shown == "No email" <==> email.None? || email.value == "" || email.value == "No email"
    ensures email.Some? && email.value != "" ==> shown == email.value
  {
    if email.None? || email.value == "" then "No email" else email.value
  }

  /** One entry per auth user, in listing order, flagged when its id is in `adminIds`. */
  function JoinUsers(users: seq<AuthUser>, adminIds: set<string>): (entries: seq<UserEntry>)
    ensures |entries| == |users|
    ensures forall i :: 0 <= i < |users| ==>
      entries[i] == UserEntry(users[i].id, DisplayEmail(users[i].email), users[i].createdAt, users[i].id in adminIds)
  {
    seq(|users|, i requires 0 <= i < |users| => UserEntry(users[i].id, DisplayEmail(users[i].email), users[i].createdAt, users[i].id in adminIds))
  }

  /**
   * With the role query answered from the table, a listed user is shown as admin exactly
   * when the table holds an admin row for that user; with the query failed, nobody is.
   */
  lemma JoinReflectsRoleTable(users: seq<AuthUser>, table: seq<RoleRow>, i: nat)
    requires i < |users|
    ensures JoinUsers(users, AdminIds(Fetched(AdminRoleRows(table))))[i].isAdmin <==> IsAdminIn(table, users[i].id)
    ensures !JoinUsers(users, AdminIds(FetchFailed))[i].isAdmin
  {
    var id := users[i].id;
    if IsAdminIn(table, id) {
      assert RoleRow(id, AdminRole) in AdminRoleRows(table);
    }
  }

  /** `delete from user_roles where user_id = userId and role = 'admin'` */
  function RemoveAdminRows(table: seq<RoleRow>, userId: string): (rest: seq<RoleRow>)
    ensures |rest| <= |table|
    ensures forall row :: row in rest <==> row in table && row != RoleRow(userId, AdminRole)
  {
    if table == [] then []
    else (if table[0] == RoleRow(userId, AdminRole) then [] else [table[0]]) + RemoveAdminRows(table[1..], userId)
  }

  /** The role table after a successful toggle: delete every admin row of an admin, insert one for anybody else. */
  function ToggleRows(table: seq<RoleRow>, userId: string, currentlyAdmin: bool): seq<RoleRow>
  {
    if currentlyAdmin then RemoveAdminRows(table, userId) else table + [RoleRow(userId, AdminRole)]
  }

  /**
   * When the flag the button was drawn with is current, a toggle flips that user's
   * membership and leaves every other user's alone.
   */
  lemma ToggleFlipsOnlyThatUser(table: seq<RoleRow>, userId: string, other: string)
    requires other != userId
    ensures IsAdminIn(ToggleRows(table, userId, IsAdminIn(table, userId)), userId) == !IsAdminIn(table, userId)
    ensures IsAdminIn(ToggleRows(table, userId, IsAdminIn(table, userId)), other) == IsAdminIn(table, other)
  {
  }

  /** Two successive successful toggles give every user back the membership they had. */
  lemma ToggleTwiceRestores(table: seq<RoleRow>, userId: string, anyone: string)
    ensures var once := ToggleRows(table, userId, IsAdminIn(table, userId));
      IsAdminIn(ToggleRows(once, userId, IsAdminIn(once, userId)), anyone) == IsAdminIn(table, anyone)
  {
    var once := ToggleRows(table, userId, IsAdminIn(table, userId));
    if anyone != userId {
      ToggleFlipsOnlyThatUser(table, userId, anyone);
      ToggleFlipsOnlyThatUser(once, userId, anyone);
    } else {
      ToggleFlipsOnlyThatUser(table, userId, userId + "'");
      ToggleFlipsOnlyThatUser(once, userId, userId + "'");
    }
  }

  /** A user's button is disabled while a toggle for that user is in flight. */
  predicate ButtonDisabled(processingUserId: Option<string>, userId: string)
  {
    processingUserId == Some(userId)
  }

  class AdminUserManagement {
    var users: seq<UserEntry>
    var loading: bool
    var processingUserId: Option<string>

    constructor ()
      ensures users == [] && loading && processingUserId.None?
    {
      users, loading, processingUserId := [], true, None;
    }

    /**
     * `fetchUsers`: when listing users fails the list is kept; otherwise it becomes the
     * join of the listing with the admin ids of the role query (none if that query
     * failed). Loading ends either way.
     */
    method FetchUsers(listing: Fetch<seq<AuthUser>>, roles: Fetch<seq<RoleRow>>)
      modifies this`users, this`loading
      ensures listing.FetchFailed? ==> users == old(users)
      ensures listing.Fetched? ==> users == JoinUsers(listing.data, AdminIds(roles))
      ensures !loading
    {
      loading := true;
      if listing.FetchFailed? {
        loading := false;
        return;
      }
      var adminUserIds := AdminIds(roles);
      users := JoinUsers(listing.data, adminUserIds);
      loading := false;
    }

    /** `toggleAdminRole` up to its awaited delete or insert: the user's button is disabled. */
    method BeginToggle(userId: string)
      modifies this`processingUserId
      ensures processingUserId == Some(userId)
      ensures ButtonDisabled(processingUserId, userId)
      ensures forall other :: other != userId ==> !ButtonDisabled(processingUserId, other)
    {
      processingUserId := Some(userId);
    }

    /**
     * `toggleAdminRole` after the awaited delete or insert. On success the table is
     * toggled and a refetch is started (not awaited); the in-flight marker is cleared
     * whatever the outcome.
     */
    method CompleteToggle(userId: string, currentlyAdmin: bool, table: seq<RoleRow>, mutationOk: bool)
      returns (newTable: seq<RoleRow>, refetch: bool)
      modifies this`processingUserId
      ensures newTable == if mutationOk then ToggleRows(table, userId, currentlyAdmin) else table
      ensures refetch == mutationOk
      ensures processingUserId.None?
      ensures forall id :: !ButtonDisabled(processingUserId, id)
    {
      newTable, refetch := table, false;
      if currentlyAdmin {
        if mutationOk {
          newTable := RemoveAdminRows(table, userId);
          refetch := true;
        }
      } else {
        if mutationOk {
          newTable := table + [RoleRow(userId, AdminRole)];
          refetch := true;
        }
      }
      processingUserId := None;
    }
  }
}

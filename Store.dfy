/** The in-memory store the views work on, and one method per view: the
    session lifecycle of attendance/views.py (create, mark, close, the
    detail list, the two exports) and the user operations of users/views.py
    (create, detail, delete, edit). Each view is one atomic step; ids taken
    from a URL are naturals (Django's `<int:...>` converter). */
module Store {
  import opened Text
  import opened Db
  import Order
  import Sessions
  import Accounts

  datatype CreateSessionOutcome = TitleRequired | NoTargets | SessionCreated(id: SessionId, targetCount: nat)

  /** `NotMarked` is the fall-through to rendering the page: not a POST, an
      ended session, no user id or a status outside the three. */
  datatype MarkOutcome = MarkSessionNotFound | NotMarked | MarkUserNotFound | NotTarget | Marked(user: UserId, status: Status)

  datatype CloseOutcome = CloseSessionNotFound | CloseNotPost | AlreadyClosed | Closed(filled: nat)

  /** One line of the session page. */
  datatype DetailEntry = DetailEntry(user: UserId, profile: Option<Profile>, status: string)

  datatype CreateUserOutcome = CreateFormShown | CreateRejected(error: Accounts.CreateError) | UserCreated(id: UserId)

  datatype DeleteOutcome = DeleteNotPost | DeleteUserNotFound | DeletePermissionDenied | UserDeleted(username: string)

  /** `EditAccountIsNone` is the TypeError of the concatenation and
      `UsernameConflict` the unique-constraint violation of the save; both
      abort the atomic view, so nothing it did is kept. */
  datatype EditOutcome =
    | EditUserNotFound | EditFormShown | EditEmptyUsername | EditAccountIsNone
    | EditNothingChanged | UsernameConflict | UserUpdated

  /** One row of the user export. */
  datatype RosterRow = RosterRow(username: string, email: string, grade: string, section: string, account: Option<string>, phone: string)

  /** The row of `export_users_excel` for a user: the user's username and
      email, and the profile's fields, each "" when there is no profile. */
  function RosterRowOf(u: User): (r: RosterRow)
    ensures r.username == u.username && r.email == u.email
    ensures u.profile.None? ==> r.grade == "" && r.section == "" && r.account == Some("") && r.phone == ""
    ensures u.profile.Some? ==>
      && r.grade == u.profile.value.grade && r.section == u.profile.value.section
      && r.account == u.profile.value.account && r.phone == u.profile.value.phone
  {
    match u.profile
    case None => RosterRow(u.username, u.email, "", "", Some(""), "")
    case Some(p) => RosterRow(u.username, u.email, p.grade, p.section, p.account, p.phone)
  }

  class Store {
    var users: map<UserId, User>
    var nextUserId: nat
    var sessions: seq<Session>
    var attendance: map<Key, Status>

    ghost predicate Valid()
      reads this
    {
      Consistent(users, nextUserId, sessions, attendance)
    }

    constructor ()
      ensures Valid()
      ensures users == map[] && sessions == [] && attendance == map[]
    {
      users := map[];
      nextUserId := 0;
      sessions := [];
      attendance := map[];
    }

    /** `create_attendance_session`, POST: a title that is not blank and a
        non-empty id list create an open session whose targets are the listed
        ids that name existing users (possibly none). */
    method CreateSession(title: string, targetIds: seq<int>) returns (out: CreateSessionOutcome)
      requires Valid()
      modifies this
      ensures Valid()
      ensures out == TitleRequired <==> Blank(title)
      ensures out == NoTargets <==> !Blank(title) && targetIds == []
      ensures out.SessionCreated? ==>
        && out.id == old(|sessions|)
        && sessions == old(sessions) + [Session(title, false, set u | u in users && u in targetIds)]
        && out.targetCount == |sessions[out.id].targets|
      ensures !out.SessionCreated? ==> sessions == old(sessions)
      ensures users == old(users) && nextUserId == old(nextUserId) && attendance == old(attendance)
      ensures EndedFrozen(old(sessions), old(attendance), sessions, attendance)
    {
      var missing := title == "" || Strip(title) == "";
      MissingIffBlank(title);
      if missing {
        return TitleRequired;
      }
      if targetIds == [] {
        return NoTargets;
      }
      var session := Session(title, false, set u | u in users && u in targetIds);
      AppendSessionKeeps(users, nextUserId, sessions, attendance, session);
      sessions := sessions + [session];
      out := SessionCreated(|sessions| - 1, |session.targets|);
      assert sessions[out.id] == session;
    }

    /** The marking branch of `attendance_session_detail`: an upsert of the
        (session, user) record, last write wins. */
    method MarkAttendance(isPost: bool, sid: nat, userId: Option<int>, status: string) returns (out: MarkOutcome)
      requires Valid()
      modifies this
      ensures Valid()
      ensures users == old(users) && sessions == old(sessions) && nextUserId == old(nextUserId)
      ensures out == MarkSessionNotFound <==> sid >= |sessions|
      ensures out == NotMarked <==>
        sid < |sessions| && !(isPost && !sessions[sid].isEnded && userId.Some? && ParseStatus(status).Some?)
      ensures out == MarkUserNotFound <==>
        && sid < |sessions| && isPost && !sessions[sid].isEnded && userId.Some? && ParseStatus(status).Some?
        && userId.value !in users
      ensures out == NotTarget <==>
        && sid < |sessions| && isPost && !sessions[sid].isEnded && userId.Some? && ParseStatus(status).Some?
        && userId.value in users && userId.value !in sessions[sid].targets
      ensures out.Marked? <==>
        && sid < |sessions| && isPost && !sessions[sid].isEnded && userId.Some? && ParseStatus(status).Some?
        && userId.value in sessions[sid].targets
      ensures out.Marked? ==>
        && out.user == userId.value && ParseStatus(status) == Some(out.status)
        && (sid, out.user) in attendance && attendance[(sid, out.user)] == out.status
        && forall k :: k != (sid, out.user) ==> (k in attendance <==> k in old(attendance)) && (k in attendance ==> attendance[k] == old(attendance)[k])
      ensures !out.Marked? ==> attendance == old(attendance)
      ensures EndedFrozen(old(sessions), old(attendance), sessions, attendance)
    {
      FrozenRefl(sessions, attendance);
      if sid >= |sessions| {
        return MarkSessionNotFound;
      }
      var parsed := ParseStatus(status);
      if !(isPost && !sessions[sid].isEnded && userId.Some? && parsed.Some?) {
        return NotMarked;
      }
      var uid := userId.value;
      if uid !in users {
        return MarkUserNotFound;
      }
      if uid !in sessions[sid].targets {
        return NotTarget;
      }
      UpsertKeeps(users, nextUserId, sessions, attendance, sid, uid, parsed.value);
      attendance := attendance[(sid, uid) := parsed.value];
      out := Marked(uid, parsed.value);
    }

    /** `close_attendance_session`: on POST, an open session gets an Absent
        record for every target without one and is marked ended. */
    method CloseSession(isPost: bool, sid: nat) returns (out: CloseOutcome)
      requires Valid()
      modifies this
      ensures Valid()
      ensures users == old(users) && nextUserId == old(nextUserId)
      ensures out == CloseSessionNotFound <==> sid >= old(|sessions|)
      ensures out == CloseNotPost <==> sid < old(|sessions|) && !isPost
      ensures out == AlreadyClosed <==> sid < old(|sessions|) && isPost && old(sessions[sid].isEnded)
      ensures out.Closed? <==> sid < old(|sessions|) && isPost && !old(sessions[sid].isEnded)
      ensures out.Closed? ==>
        && sessions == old(sessions)[sid := old(sessions[sid]).(isEnded := true)]
        && attendance == Sessions.FillAbsent(old(attendance), sid, old(sessions[sid].targets))
        && out.filled == |Sessions.Missing(old(sessions[sid].targets), old(attendance), sid)|
        && out.filled == |attendance.Keys - old(attendance).Keys|
      ensures !out.Closed? ==> sessions == old(sessions) && attendance == old(attendance)
      ensures EndedFrozen(old(sessions), old(attendance), sessions, attendance)
    {
      FrozenRefl(sessions, attendance);
      if sid >= |sessions| {
        return CloseSessionNotFound;
      }
      if !isPost {
        return CloseNotPost;
      }
      var session := sessions[sid];
      if session.isEnded {
        return AlreadyClosed;
      }
      var missing := Sessions.Missing(session.targets, attendance, sid);
      var filled := Sessions.FillAbsent(attendance, sid, session.targets);
      Sessions.FillAbsentCount(attendance, sid, session.targets);
      EndSessionKeeps(users, nextUserId, sessions, attendance, sid, filled);
      attendance := filled;
      sessions := sessions[sid := session.(isEnded := true)];
      out := Closed(|missing|);
    }

    /** The page of `attendance_session_detail`: one entry per target, with
        its profile and its status or "unmarked", in ascending id order. */
    method SessionDetail(sid: nat) returns (entries: Option<seq<DetailEntry>>)
      requires Valid()
      ensures entries.None? <==> sid >= |sessions|
      ensures entries.Some? ==>
        var es := entries.value;
        && (forall i :: 0 <= i < |es| ==>
              && es[i].user in sessions[sid].targets
              && es[i].profile == users[es[i].user].profile
              && es[i].status == Sessions.DetailStatus(attendance, sid, es[i].user))
        && (forall u :: u in sessions[sid].targets ==> exists i :: 0 <= i < |es| && es[i].user == u)
        && (forall i, j :: 0 <= i < j < |es| ==> es[i].user < es[j].user)
    {
      if sid >= |sessions| {
        return None;
      }
      var targets := sessions[sid].targets;
      var list: seq<DetailEntry> := [];
      for u := 0 to nextUserId
        invariant forall i :: 0 <= i < |list| ==>
          && list[i].user < u && list[i].user in targets
          && list[i].profile == users[list[i].user].profile
          && list[i].status == Sessions.DetailStatus(attendance, sid, list[i].user)
        invariant forall v :: v in targets && v < u ==> exists i :: 0 <= i < |list| && list[i].user == v
        invariant forall i, j :: 0 <= i < j < |list| ==> list[i].user < list[j].user
      {
        if u in targets {
          var entry := DetailEntry(u, users[u].profile, Sessions.DetailStatus(attendance, sid, u));
          assert (list + [entry])[|list|].user == u;
          assert forall i :: 0 <= i < |list| ==> (list + [entry])[i] == list[i];
          list := list + [entry];
        }
      }
      entries := Some(list);
    }

    /** The rows of `export_users_excel`: every user, ordered by username. */
    method ExportUsers() returns (rows: seq<RosterRow>)
      requires Valid()
      ensures var order := Order.UsersByName(users, nextUserId, false);
        && |rows| == |order|
        && forall i :: 0 <= i < |rows| ==> rows[i] == RosterRowOf(users[order[i]])
    {
      var order := Order.UsersByName(users, nextUserId, false);
      assert forall k :: 0 <= k < |order| ==> order[k] in users;
      rows := [];
      for i := 0 to |order|
        invariant |rows| == i
        invariant forall k :: 0 <= k < i ==> rows[k] == RosterRowOf(users[order[k]])
      {
        rows := rows + [RosterRowOf(users[order[i]])];
      }
    }

    /** The header and the row dictionaries of `export_attendance_matrix_excel`:
        one row per user with a profile, ordered by username. */
    method ExportMatrix() returns (columns: seq<string>, rows: seq<map<string, string>>)
      requires Valid()
      ensures columns == Sessions.Columns(sessions)
      ensures var order := Order.UsersByName(users, nextUserId, true);
        && |rows| == |order|
        && forall i :: 0 <= i < |rows| ==>
             rows[i] == Sessions.MatrixRow(users[order[i]].username, order[i], sessions, attendance, |sessions|)
    {
      var students := Order.UsersByName(users, nextUserId, true);
      assert forall k :: 0 <= k < |students| ==> students[k] in users;
      columns := ["User"] + Sessions.Titles(sessions);
      rows := [];
      for i := 0 to |students|
        invariant |rows| == i
        invariant forall k :: 0 <= k < i ==>
          rows[k] == Sessions.MatrixRow(users[students[k]].username, students[k], sessions, attendance, |sessions|)
      {
        var row := MatrixRowFor(users[students[i]].username, students[i]);
        rows := rows + [row];
      }
    }

    /** The inner loop of `export_attendance_matrix`: one user's row. */
    method MatrixRowFor(username: string, student: UserId) returns (row: map<string, string>)
      ensures row == Sessions.MatrixRow(username, student, sessions, attendance, |sessions|)
    {
      row := map["User" := username];
      for j := 0 to |sessions|
        invariant row == Sessions.MatrixRow(username, student, sessions, attendance, j)
      {
        row := row[sessions[j].title := Sessions.CellText(attendance, j, student)];
      }
    }

    /** `create_user`: on POST, the three checks, then a new non-superuser
        user with a profile from the form. */
    method CreateUser(isPost: bool, f: Accounts.CreateForm) returns (out: CreateUserOutcome)
      requires Valid()
      modifies this
      ensures Valid()
      ensures sessions == old(sessions) && attendance == old(attendance)
      ensures !isPost ==> out == CreateFormShown
      ensures isPost ==>
        var check := Accounts.CreateCheck(f, exists u :: u in old(users) && old(users)[u].username == f.username);
        && (check.Some? ==> out == CreateRejected(check.value))
        && (check.None? ==> out == UserCreated(old(nextUserId)))
      ensures out.UserCreated? ==>
        && out.id !in old(users)
        && users == old(users)[out.id := User(f.username, f.email, false, Some(Accounts.NewProfile(f)))]
        && nextUserId == old(nextUserId) + 1
      ensures !out.UserCreated? ==> users == old(users) && nextUserId == old(nextUserId)
      ensures EndedFrozen(old(sessions), old(attendance), sessions, attendance)
    {
      FrozenRefl(sessions, attendance);
      if !isPost {
        return CreateFormShown;
      }
      var taken := exists u | u in users :: users[u].username == f.username;
      var check := Accounts.CreateCheck(f, taken);
      if check.Some? {
        return CreateRejected(check.value);
      }
      var id := nextUserId;
      var user := User(f.username, f.email, false, Some(Accounts.NewProfile(f)));
      AddUserKeeps(users, nextUserId, sessions, attendance, user);
      users := users[id := user];
      nextUserId := nextUserId + 1;
      out := UserCreated(id);
    }

    /** `user_detail`: get-or-create of the profile, then the analytics. */
    method UserDetail(uid: nat) returns (out: Option<Accounts.Stats>)
      requires Valid()
      modifies this
      ensures Valid()
      ensures sessions == old(sessions) && attendance == old(attendance) && nextUserId == old(nextUserId)
      ensures out.None? <==> uid !in old(users)
      ensures out.None? ==> users == old(users)
      ensures out.Some? ==>
        && out.value == Accounts.StatsOf(sessions, attendance, uid)
        && users == old(users)[uid := if old(users)[uid].profile.Some? then old(users)[uid]
                                      else old(users)[uid].(profile := Some(DefaultProfile))]
      ensures EndedFrozen(old(sessions), old(attendance), sessions, attendance)
    {
      if uid !in users {
        return None;
      }
      FrozenRefl(sessions, attendance);
      if users[uid].profile.None? {
        ReplaceUserKeeps(users, nextUserId, sessions, attendance, uid, users[uid].(profile := Some(DefaultProfile)));
        users := users[uid := users[uid].(profile := Some(DefaultProfile))];
      }
      out := Some(Accounts.StatsOf(sessions, attendance, uid));
    }

    /** `user_delete`: on POST, an existing user is deleted unless it is a
        superuser and the requester is not; the profile, the user's records
        and the user's target memberships go with it. */
    method DeleteUser(isPost: bool, requesterIsSuperuser: bool, uid: nat) returns (out: DeleteOutcome)
      requires Valid()
      modifies this
      ensures Valid()
      ensures nextUserId == old(nextUserId)
      ensures out == DeleteNotPost <==> !isPost
      ensures out == DeleteUserNotFound <==> isPost && uid !in old(users)
      ensures out == DeletePermissionDenied <==>
        isPost && uid in old(users) && !Accounts.MayDelete(old(users)[uid], requesterIsSuperuser)
      ensures out.UserDeleted? <==>
        isPost && uid in old(users) && Accounts.MayDelete(old(users)[uid], requesterIsSuperuser)
      ensures out.UserDeleted? ==>
        && out.username == old(users)[uid].username
        && users == old(users) - {uid}
        && sessions == Accounts.WithoutTarget(old(sessions), uid)
        && attendance == Accounts.WithoutRecordsOf(old(attendance), uid)
      ensures !out.UserDeleted? ==> users == old(users) && sessions == old(sessions) && attendance == old(attendance)
    {
      if !isPost {
        return DeleteNotPost;
      }
      if uid !in users {
        return DeleteUserNotFound;
      }
      if !Accounts.MayDelete(users[uid], requesterIsSuperuser) {
        return DeletePermissionDenied;
      }
      out := UserDeleted(users[uid].username);
      Accounts.DeleteKeeps(users, nextUserId, sessions, attendance, uid);
      users := users - {uid};
      sessions := Accounts.WithoutTarget(sessions, uid);
      attendance := Accounts.WithoutRecordsOf(attendance, uid);
    }

    /** `user_edit`: get-or-create of the profile; on POST, the checks of
        `Accounts.EditCheck`, then the username and the four profile fields
        are overwritten. */
    method EditUser(isPost: bool, uid: nat, f: Accounts.EditForm) returns (out: EditOutcome)
      requires Valid()
      modifies this
      ensures Valid()
      ensures sessions == old(sessions) && attendance == old(attendance) && nextUserId == old(nextUserId)
      ensures out == EditUserNotFound <==> uid !in old(users)
      ensures uid !in old(users) ==> users == old(users)
      ensures uid in old(users) ==>
        var u := old(users)[uid];
        var p := if u.profile.Some? then u.profile.value else DefaultProfile;
        var withProfile := old(users)[uid := u.(profile := Some(p))];
        var check := Accounts.EditCheck(p, u.username, f);
        var taken := exists v :: v in old(users) && v != uid && old(users)[v].username == f.username;
        && (!isPost ==> out == EditFormShown && users == withProfile)
        && (isPost && check == Accounts.EmptyUsername ==> out == EditEmptyUsername && users == withProfile)
        && (isPost && check == Accounts.AccountIsNone ==> out == EditAccountIsNone && users == old(users))
        && (isPost && check == Accounts.NothingChanged ==> out == EditNothingChanged && users == withProfile)
        && (isPost && check == Accounts.Proceed && taken ==> out == UsernameConflict && users == old(users))
        && (isPost && check == Accounts.Proceed && !taken ==>
              && out == UserUpdated
              && users == old(users)[uid := u.(username := f.username, profile := Some(Accounts.EditedProfile(p, f)))])
      ensures EndedFrozen(old(sessions), old(attendance), sessions, attendance)
    {
      FrozenRefl(sessions, attendance);
      if uid !in users {
        return EditUserNotFound;
      }
      var u := users[uid];
      var p := if u.profile.Some? then u.profile.value else DefaultProfile;
      ReplaceUserKeeps(users, nextUserId, sessions, attendance, uid, u.(profile := Some(p)));
      if !isPost {
        users := users[uid := u.(profile := Some(p))];
        return EditFormShown;
      }
      var check := Accounts.EditCheck(p, u.username, f);
      if check == Accounts.EmptyUsername {
        users := users[uid := u.(profile := Some(p))];
        return EditEmptyUsername;
      }
      if check == Accounts.AccountIsNone {
        return EditAccountIsNone;
      }
      if check == Accounts.NothingChanged {
        users := users[uid := u.(profile := Some(p))];
        return EditNothingChanged;
      }
      var taken := exists v | v in users :: v != uid && users[v].username == f.username;
      if taken {
        return UsernameConflict;
      }
      ReplaceUserKeeps(users, nextUserId, sessions, attendance, uid, u.(username := f.username, profile := Some(Accounts.EditedProfile(p, f))));
      users := users[uid := u.(username := f.username, profile := Some(Accounts.EditedProfile(p, f)))];
      out := UserUpdated;
    }
  }
}

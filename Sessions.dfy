/** The rules of attendance/views.py as functions on the store's tables:
    which targets are unmarked, the close (absent-fill) rule, the per-session
    summary, the status shown per target, and the rows of the attendance
    matrix export. */
module Sessions {
  import opened Db

  /** The users of session `s` that have a record, whatever its status. */
  function MarkedUsers(att: map<Key, Status>, s: SessionId): (m: set<UserId>)
    ensures forall u :: u in m <==> (s, u) in att
  {
    set k | k in att && k.0 == s :: k.1
  }

  /** The targets of session `s` that have no record: the derived "unmarked"
      state (`session.targets.exclude(id__in=marked_user_ids)`). */
  function Missing(targets: set<UserId>, att: map<Key, Status>, s: SessionId): (m: set<UserId>)
    ensures m <= targets
    ensures forall u :: u in m <==> u in targets && (s, u) !in att
  {
    targets - MarkedUsers(att, s)
  }

  /** The records of session `s` (the keys with first component `s`). */
  function KeysOf(att: map<Key, Status>, s: SessionId): set<Key> {
    set k | k in att && k.0 == s
  }

  /** The close rule: every target of `s` without a record gets one with
      status Absent; every existing record is kept as it is; nothing else is
      added. */
  function FillAbsent(att: map<Key, Status>, s: SessionId, targets: set<UserId>): (r: map<Key, Status>)
    ensures forall k :: k in att ==> k in r && r[k] == att[k]
    ensures forall u :: u in targets ==> (s, u) in r
    ensures forall k :: k in r && k !in att ==> k.0 == s && k.1 in Missing(targets, att, s) && r[k] == Absent
    ensures r.Keys == att.Keys + PairsWith(s, Missing(targets, att, s), true)
  {
    att + map u | u in Missing(targets, att, s) :: (s, u) := Absent
  }

  /** The number of records close inserts, `len(to_create)`, is the number of
      targets that had none. */
  lemma FillAbsentCount(att: map<Key, Status>, s: SessionId, targets: set<UserId>)
    ensures |FillAbsent(att, s, targets).Keys - att.Keys| == |Missing(targets, att, s)|
  {
    var m := Missing(targets, att, s);
    assert FillAbsent(att, s, targets).Keys - att.Keys == PairsWith(s, m, true);
    PairsWithCard(s, m, true);
  }

  /** Filling a session a second time adds nothing. */
  lemma FillAbsentIdempotent(att: map<Key, Status>, s: SessionId, targets: set<UserId>)
    ensures FillAbsent(FillAbsent(att, s, targets), s, targets) == FillAbsent(att, s, targets)
  {
    var once := FillAbsent(att, s, targets);
    assert Missing(targets, once, s) == {};
  }

  /** The records of `att` with session `s` and status `st`. */
  function KeysWith(att: map<Key, Status>, s: SessionId, st: Status): set<Key> {
    set k | k in att && k.0 == s && att[k] == st
  }

  /** The distinct users of session `s` whose record has status `st`. */
  function UsersWith(att: map<Key, Status>, s: SessionId, st: Status): set<UserId> {
    set k | k in att && k.0 == s && att[k] == st :: k.1
  }

  /** `Count("attendances", filter=Q(attendances__status=...), distinct=True)`:
      the number of records of the session with that status, which is the
      number of distinct users with that status. */
  function CountStatus(att: map<Key, Status>, s: SessionId, st: Status): (n: nat)
    ensures n == |UsersWith(att, s, st)|
  {
    assert KeysWith(att, s, st) == PairsWith(s, UsersWith(att, s, st), true);
    PairsWithCard(s, UsersWith(att, s, st), true);
    |KeysWith(att, s, st)|
  }

  /** One line of the session list. */
  datatype Summary = Summary(
    id: SessionId, title: string, isEnded: bool,
    targetCount: nat, presentCount: nat, lateCount: nat, absentCount: nat, unmarkedCount: int)

  /** The annotation of `attendance_session_list` for one session; the four
      counts add up to the number of targets. */
  function Summarize(id: SessionId, session: Session, att: map<Key, Status>): (r: Summary)
    ensures r.id == id && r.title == session.title && r.isEnded == session.isEnded
    ensures r.targetCount == |session.targets|
    ensures r.presentCount == |UsersWith(att, id, Present)|
    ensures r.lateCount == |UsersWith(att, id, Late)|
    ensures r.absentCount == |UsersWith(att, id, Absent)|
    ensures r.presentCount + r.lateCount + r.absentCount + r.unmarkedCount == r.targetCount
  {
    var p, l, a := CountStatus(att, id, Present), CountStatus(att, id, Late), CountStatus(att, id, Absent);
    Summary(id, session.title, session.isEnded, |session.targets|, p, l, a, |session.targets| - p - l - a)
  }

  /** The session list: one summary per session, newest first. */
  function SessionList(sessions: seq<Session>, att: map<Key, Status>): (r: seq<Summary>)
    ensures |r| == |sessions|
    ensures forall i :: 0 <= i < |r| ==> r[i].id == |sessions| - 1 - i && r[i] == Summarize(r[i].id, sessions[r[i].id], att)
    ensures forall i, j :: 0 <= i < j < |r| ==> r[i].id > r[j].id
  {
    seq(|sessions|, i requires 0 <= i < |sessions| => Summarize(|sessions| - 1 - i, sessions[|sessions| - 1 - i], att))
  }

  /** Present, late and absent records of a session partition its marked
      users. */
  lemma MarkedPartition(att: map<Key, Status>, s: SessionId)
    ensures CountStatus(att, s, Present) + CountStatus(att, s, Late) + CountStatus(att, s, Absent)
         == |MarkedUsers(att, s)|
  {
    var kp, kl, ka := KeysWith(att, s, Present), KeysWith(att, s, Late), KeysWith(att, s, Absent);
    assert KeysOf(att, s) == kp + kl + ka;
    assert kp !! kl && (kp + kl) !! ka;
    assert |kp + kl| == |kp| + |kl|;
    assert |KeysOf(att, s)| == |kp + kl| + |ka|;
    assert KeysOf(att, s) == PairsWith(s, MarkedUsers(att, s), true);
    PairsWithCard(s, MarkedUsers(att, s), true);
  }

  /** When every record of the session belongs to a target (the store keeps
      this), the unmarked count is exactly the number of targets without a
      record, so it is never negative. */
  lemma UnmarkedIsMissing(id: SessionId, session: Session, att: map<Key, Status>)
    requires forall u :: (id, u) in att ==> u in session.targets
    ensures Summarize(id, session, att).unmarkedCount == |Missing(session.targets, att, id)| >= 0
  {
    MarkedPartition(att, id);
    var marked := MarkedUsers(att, id);
    assert session.targets == marked + Missing(session.targets, att, id);
    assert marked !! Missing(session.targets, att, id);
  }

  /** Close adds only Absent records, all of them for targets that had none. */
  lemma KeysWithAfterFill(att: map<Key, Status>, s: SessionId, targets: set<UserId>)
    ensures KeysWith(FillAbsent(att, s, targets), s, Present) == KeysWith(att, s, Present)
    ensures KeysWith(FillAbsent(att, s, targets), s, Late) == KeysWith(att, s, Late)
    ensures KeysWith(FillAbsent(att, s, targets), s, Absent)
         == KeysWith(att, s, Absent) + PairsWith(s, Missing(targets, att, s), true)
    ensures KeysWith(att, s, Absent) !! PairsWith(s, Missing(targets, att, s), true)
  {
  }

  /** After close: present and late counts are unchanged, absent grows by the
      number of previously unmarked targets, and nothing is unmarked. */
  lemma SummaryAfterClose(id: SessionId, session: Session, att: map<Key, Status>)
    requires forall u :: (id, u) in att ==> u in session.targets
    ensures var before := Summarize(id, session, att);
            var after := Summarize(id, session.(isEnded := true), FillAbsent(att, id, session.targets));
            && after.isEnded
            && after.presentCount == before.presentCount
            && after.lateCount == before.lateCount
            && after.absentCount == before.absentCount + |Missing(session.targets, att, id)|
            && after.unmarkedCount == 0
  {
    var m := Missing(session.targets, att, id);
    var filled := FillAbsent(att, id, session.targets);
    KeysWithAfterFill(att, id, session.targets);
    PairsWithCard(id, m, true);
    assert CountStatus(filled, id, Absent) == CountStatus(att, id, Absent) + |m|;
    assert Missing(session.targets, filled, id) == {};
    UnmarkedIsMissing(id, session.(isEnded := true), filled);
  }

  /** Targets A, B, C; A marked present, B late, C left unmarked; after
      close the summary reads present 1, late 1, absent 1, unmarked 0. */
  lemma CloseScenario()
    ensures var session := Session("Morning", false, {1, 2, 3});
            var att := map[(0, 1) := Present, (0, 2) := Late];
            Summarize(0, session.(isEnded := true), FillAbsent(att, 0, session.targets))
              == Summary(0, "Morning", true, 3, 1, 1, 1, 0)
  {
    var session := Session("Morning", false, {1, 2, 3});
    var att := map[(0, 1) := Present, (0, 2) := Late];
    assert KeysWith(att, 0, Present) == {(0, 1)};
    assert KeysWith(att, 0, Late) == {(0, 2)};
    assert KeysWith(att, 0, Absent) == {};
    assert Missing(session.targets, att, 0) == {3};
    SummaryAfterClose(0, session, att);
  }

  /** The stored status name of (s, u), or `fallback` when there is no record:
      `dict.get(key, fallback)` on the status map. */
  function StatusOr(att: map<Key, Status>, s: SessionId, u: UserId, fallback: string): (r: string)
    ensures (s, u) in att ==> r == StatusName(att[(s, u)])
    ensures (s, u) !in att ==> r == fallback
  {
    if (s, u) in att then StatusName(att[(s, u)]) else fallback
  }

  /** The status the session page shows for a target: the stored status, or
      "unmarked" when there is no record. */
  function DetailStatus(att: map<Key, Status>, s: SessionId, u: UserId): (r: string)
    ensures (s, u) in att ==> r == StatusName(att[(s, u)])
    ensures r == "unmarked" <==> (s, u) !in att
  {
    StatusOr(att, s, u, "unmarked")
  }

  /** A cell of the attendance matrix: the stored status, or the sentinel
      "N/A" exactly when there is no record. */
  function CellText(att: map<Key, Status>, s: SessionId, u: UserId): (r: string)
    ensures (s, u) in att ==> r == StatusName(att[(s, u)])
    ensures r == "N/A" <==> (s, u) !in att
  {
    StatusOr(att, s, u, "N/A")
  }

  /** The session titles in creation order. */
  function Titles(sessions: seq<Session>): (r: seq<string>)
    ensures |r| == |sessions| && forall j :: 0 <= j < |r| ==> r[j] == sessions[j].title
  {
    seq(|sessions|, j requires 0 <= j < |sessions| => sessions[j].title)
  }

  /** The header of the matrix: "User", then the titles in creation order. */
  function Columns(sessions: seq<Session>): (r: seq<string>)
    ensures |r| == |sessions| + 1 && r[0] == "User"
    ensures forall j :: 1 <= j < |r| ==> r[j] == sessions[j - 1].title
  {
    ["User"] + Titles(sessions)
  }

  /** The row dictionary of one user after the first `n` sessions were
      written into it, each under its title: `{"User": username}` updated
      with `row[session.title] = status` in creation order. */
  function MatrixRow(username: string, u: UserId, sessions: seq<Session>, att: map<Key, Status>, n: nat): (row: map<string, string>)
    requires n <= |sessions|
    ensures "User" in row
    ensures forall j :: 0 <= j < n ==> sessions[j].title in row
  {
    if n == 0 then map["User" := username]
    else MatrixRow(username, u, sessions, att, n - 1)[sessions[n - 1].title := CellText(att, n - 1, u)]
  }

  /** A row has no key but "User" and the session titles. */
  lemma {:induction false} MatrixRowKeys(username: string, u: UserId, sessions: seq<Session>, att: map<Key, Status>, n: nat)
    requires n <= |sessions|
    ensures forall t :: t in MatrixRow(username, u, sessions, att, n) ==>
      t == "User" || exists j :: 0 <= j < n && sessions[j].title == t
  {
    if n > 0 {
      MatrixRowKeys(username, u, sessions, att, n - 1);
    }
  }

  /** A title's cell holds the status of the LAST session with that title:
      an earlier session with the same title is overwritten. */
  lemma {:induction false} MatrixCellIsLastSession(username: string, u: UserId, sessions: seq<Session>, att: map<Key, Status>, n: nat, k: nat)
    requires k < n <= |sessions|
    requires forall j :: k < j < n ==> sessions[j].title != sessions[k].title
    ensures MatrixRow(username, u, sessions, att, n)[sessions[k].title] == CellText(att, k, u)
  {
    if k < n - 1 {
      MatrixCellIsLastSession(username, u, sessions, att, n - 1, k);
    }
  }

  /** The "User" cell holds the username unless a session is titled "User". */
  lemma {:induction false} MatrixUserCell(username: string, u: UserId, sessions: seq<Session>, att: map<Key, Status>, n: nat)
    requires n <= |sessions|
    requires forall j :: 0 <= j < n ==> sessions[j].title != "User"
    ensures MatrixRow(username, u, sessions, att, n)["User"] == username
  {
    if n > 0 {
      MatrixUserCell(username, u, sessions, att, n - 1);
    }
  }

  /** The DataFrame's projection of a row dictionary onto the header. */
  function Project(row: map<string, string>, columns: seq<string>): (cells: seq<string>)
    requires forall j :: 0 <= j < |columns| ==> columns[j] in row
    ensures |cells| == |columns| && forall j :: 0 <= j < |cells| ==> cells[j] == row[columns[j]]
  {
    seq(|columns|, j requires 0 <= j < |columns| => row[columns[j]])
  }

  /** With distinct titles, a session's title holds that session's cell. */
  lemma MatrixCellWithDistinctTitles(username: string, u: UserId, sessions: seq<Session>, att: map<Key, Status>, k: nat)
    requires k < |sessions|
    requires forall i, j :: 0 <= i < j < |sessions| ==> sessions[i].title != sessions[j].title
    ensures MatrixRow(username, u, sessions, att, |sessions|)[sessions[k].title] == CellText(att, k, u)
  {
    assert forall j :: k < j < |sessions| ==> sessions[j].title != sessions[k].title;
    MatrixCellIsLastSession(username, u, sessions, att, |sessions|, k);
  }

  /** With distinct titles, none of them "User", a row of the matrix is the
      username followed by one cell per session in creation order. */
  lemma MatrixRowWithDistinctTitles(username: string, u: UserId, sessions: seq<Session>, att: map<Key, Status>)
    requires forall i, j :: 0 <= i < j < |sessions| ==> sessions[i].title != sessions[j].title
    requires forall j :: 0 <= j < |sessions| ==> sessions[j].title != "User"
    ensures forall j :: 0 <= j < |Columns(sessions)| ==> Columns(sessions)[j] in MatrixRow(username, u, sessions, att, |sessions|)
    ensures var cells := Project(MatrixRow(username, u, sessions, att, |sessions|), Columns(sessions));
            && |cells| == |sessions| + 1
            && cells[0] == username
            && forall j :: 1 <= j < |cells| ==> cells[j] == CellText(att, j - 1, u)
  {
    var n := |sessions|;
    var row := MatrixRow(username, u, sessions, att, n);
    var cols := Columns(sessions);
    assert forall j :: 0 <= j < |cols| ==> cols[j] in row by {
      forall j | 0 <= j < |cols|
        ensures cols[j] in row
      {
        if j > 0 {
          assert cols[j] == sessions[j - 1].title;
        }
      }
    }
    var cells := Project(row, cols);
    MatrixUserCell(username, u, sessions, att, n);
    assert cells[0] == username;
    forall j | 1 <= j < |cells|
      ensures cells[j] == CellText(att, j - 1, u)
    {
      assert cells[j] == row[sessions[j - 1].title];
      MatrixCellWithDistinctTitles(username, u, sessions, att, j - 1);
    }
  }
}

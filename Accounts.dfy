/** The rules of users/views.py as functions: validation of the create form,
    the per-user analytics of the detail page, the superuser guard and the
    cascade of a deletion, and the "nothing changed" check of an edit. */
module Accounts {
  import opened Text
  import opened Db

  /** The fields posted to `create_user`; an absent field is the empty
      string, which every test in the view treats like a missing one. */
  datatype CreateForm = CreateForm(
    username: string, email: string, password: string, confirmPassword: string,
    grade: string, section: string, account: string, phone: string)

  datatype CreateError = MissingField | PasswordMismatch | UsernameTaken

  /** Every field but the account is present (`all([...])`). */
  predicate RequiredPresent(f: CreateForm) {
    && f.username != "" && f.email != "" && f.password != "" && f.confirmPassword != ""
    && f.grade != "" && f.section != "" && f.phone != ""
  }

  /** The three checks of `create_user`, in order; `taken` says whether a
      user with the username exists. None means the user is created. */
  function CreateCheck(f: CreateForm, taken: bool): (r: Option<CreateError>)
    ensures r == None <==> RequiredPresent(f) && f.password == f.confirmPassword && !taken
    ensures r == Some(MissingField) <==> !RequiredPresent(f)
    ensures r == Some(PasswordMismatch) <==> RequiredPresent(f) && f.password != f.confirmPassword
    ensures r == Some(UsernameTaken) <==> RequiredPresent(f) && f.password == f.confirmPassword && taken
  {
    if !RequiredPresent(f) then Some(MissingField)
    else if f.password != f.confirmPassword then Some(PasswordMismatch)
    else if taken then Some(UsernameTaken)
    else None
  }

  /** `account or None`: an empty account is stored as None. */
  function StoredAccount(account: string): (r: Option<string>)
    ensures r == None <==> account == ""
    ensures r.Some? ==> r.value == account
  {
    if account == "" then None else Some(account)
  }

  /** The profile `create_user` stores (the track keeps its default). */
  function NewProfile(f: CreateForm): (p: Profile)
    ensures p.grade == f.grade && p.section == f.section && p.phone == f.phone
    ensures p.track == Frontend
    ensures p.account == StoredAccount(f.account)
  {
    Profile(f.grade, f.section, Frontend, StoredAccount(f.account), f.phone)
  }

  /** `(n / total) * 100`, and 0 when there are no sessions. */
  function Percent(n: int, total: nat): real {
    if total > 0 then (n as real / total as real) * 100.0 else 0.0
  }

  /** What the detail page shows: the counts, the unmarked remainder, the
      percentages (unrounded), the attendance rate and the chart data. */
  datatype Stats = Stats(
    total: nat, present: nat, late: nat, absent: nat, unmarked: int,
    presentPercent: real, latePercent: real, absentPercent: real, unmarkedPercent: real,
    attendanceRate: real, chartData: seq<int>)

  function UserStats(total: nat, present: nat, late: nat, absent: nat): (r: Stats)
    ensures r.total == total && r.present == present && r.late == late && r.absent == absent
    ensures r.present + r.late + r.absent + r.unmarked == total
    ensures r.chartData == [present, late, absent, r.unmarked]
    ensures total == 0 ==>
      && r.presentPercent == 0.0 && r.latePercent == 0.0 && r.absentPercent == 0.0
      && r.unmarkedPercent == 0.0 && r.attendanceRate == 0.0
    ensures total > 0 ==> r.presentPercent + r.latePercent + r.absentPercent + r.unmarkedPercent == 100.0
    ensures r.attendanceRate == r.presentPercent + r.latePercent
    ensures total > 0 ==>
      && r.presentPercent * total as real == present as real * 100.0
      && r.latePercent * total as real == late as real * 100.0
      && r.absentPercent * total as real == absent as real * 100.0
      && r.unmarkedPercent * total as real == r.unmarked as real * 100.0
  {
    var unmarked := total - (present + late + absent);
    var stats := Stats(total, present, late, absent, unmarked,
      Percent(present, total), Percent(late, total), Percent(absent, total), Percent(unmarked, total),
      Percent(present + late, total), [present, late, absent, unmarked]);
    PercentsAdd(present, late, total);
    PercentsAdd(present + late, absent, total);
    PercentsAdd(present + late + absent, unmarked, total);
    assert (present + late + absent + unmarked) as real == total as real;
    PercentScaled(present, total);
    PercentScaled(late, total);
    PercentScaled(absent, total);
    PercentScaled(unmarked, total);
    stats
  }

  /** With sessions, a percentage times the total is the count times 100. */
  lemma PercentScaled(n: int, total: nat)
    ensures total > 0 ==> Percent(n, total) * total as real == n as real * 100.0
  {
    if total > 0 {
      var t := total as real;
      assert (n as real / t) * t == n as real;
    }
  }

  lemma PercentsAdd(a: int, b: int, total: nat)
    ensures Percent(a, total) + Percent(b, total) == Percent(a + b, total)
  {
    if total > 0 {
      var t := total as real;
      assert (a as real / t) + (b as real / t) == (a + b) as real / t;
    }
  }

  /** The sessions that target `u`. */
  function SessionsOf(sessions: seq<Session>, u: UserId): set<SessionId> {
    set s | 0 <= s < |sessions| && u in sessions[s].targets
  }

  /** The records of `u` with status `st`, over all sessions. */
  function UserKeysWith(att: map<Key, Status>, u: UserId, st: Status): set<Key> {
    set k | k in att && k.1 == u && att[k] == st
  }

  /** The sessions in which `u` has a record with status `st`. */
  function SessionsWithStatus(att: map<Key, Status>, u: UserId, st: Status): set<SessionId> {
    set k | k in att && k.1 == u && att[k] == st :: k.0
  }

  /** The analytics of `user_detail` for user `u`: the total is the number
      of sessions targeting `u`, and each status count is the number of
      sessions in which `u` has a record with that status. */
  function StatsOf(sessions: seq<Session>, att: map<Key, Status>, u: UserId): (r: Stats)
    ensures r.total == |SessionsOf(sessions, u)|
    ensures r.present == |SessionsWithStatus(att, u, Present)|
    ensures r.late == |SessionsWithStatus(att, u, Late)|
    ensures r.absent == |SessionsWithStatus(att, u, Absent)|
    ensures r == UserStats(r.total, r.present, r.late, r.absent)
  {
    UserKeysAreSessions(att, u, Present);
    UserKeysAreSessions(att, u, Late);
    UserKeysAreSessions(att, u, Absent);
    UserStats(|SessionsOf(sessions, u)|,
      |UserKeysWith(att, u, Present)|, |UserKeysWith(att, u, Late)|, |UserKeysWith(att, u, Absent)|)
  }

  /** A user has one record per session at most, so the user's records with
      a status are as many as the sessions in which the user has it. */
  lemma UserKeysAreSessions(att: map<Key, Status>, u: UserId, st: Status)
    ensures |UserKeysWith(att, u, st)| == |SessionsWithStatus(att, u, st)|
  {
    assert UserKeysWith(att, u, st) == PairsWith(u, SessionsWithStatus(att, u, st), false);
    PairsWithCard(u, SessionsWithStatus(att, u, st), false);
  }

  /** The sessions targeting `u` that are still open and have no record for `u`. */
  function OpenUnmarked(sessions: seq<Session>, att: map<Key, Status>, u: UserId): set<SessionId> {
    set s | 0 <= s < |sessions| && u in sessions[s].targets && !sessions[s].isEnded && (s, u) !in att
  }

  /** In a consistent store, a user's unmarked count is the number of OPEN
      sessions that target the user and hold no record for them: it is never
      negative, and it is 0 once every such session is closed. */
  lemma UnmarkedAreOpenSessions(sessions: seq<Session>, att: map<Key, Status>, u: UserId)
    requires RecordsAreTargets(sessions, att) && EndedComplete(sessions, att)
    ensures StatsOf(sessions, att, u).unmarked == |OpenUnmarked(sessions, att, u)|
  {
    var all := SessionsOf(sessions, u);
    var marked := MarkedSessions(att, u);
    var open := OpenUnmarked(sessions, att, u);
    assert all == marked + open;
    assert marked !! open;
    UserMarkedPartition(att, u);
  }

  /** The sessions with a record for `u`. */
  function MarkedSessions(att: map<Key, Status>, u: UserId): set<SessionId> {
    set k | k in att && k.1 == u :: k.0
  }

  /** A user's present, late and absent records together are one per
      session that has a record for the user. */
  lemma UserMarkedPartition(att: map<Key, Status>, u: UserId)
    ensures |UserKeysWith(att, u, Present)| + |UserKeysWith(att, u, Late)| + |UserKeysWith(att, u, Absent)|
         == |MarkedSessions(att, u)|
  {
    var kp, kl, ka := UserKeysWith(att, u, Present), UserKeysWith(att, u, Late), UserKeysWith(att, u, Absent);
    var marked := MarkedSessions(att, u);
    var keys := set k | k in att && k.1 == u;
    assert keys == kp + kl + ka;
    assert kp !! kl && (kp + kl) !! ka;
    assert |kp + kl| == |kp| + |kl|;
    assert |keys| == |kp + kl| + |ka|;
    forall k | k in keys
      ensures k in PairsWith(u, marked, false)
    {
      assert k.0 in marked;
    }
    forall k | k in PairsWith(u, marked, false)
      ensures k in keys
    {
      var s :| s in marked && k == (s, u);
      var k' :| k' in att && k'.1 == u && k'.0 == s;
      assert k' == k;
    }
    assert keys == PairsWith(u, marked, false);
    PairsWithCard(u, marked, false);
  }

  /** A user that no session targets sees zero totals, all percentages 0 and
      an attendance rate of 0 (the division-by-zero guard). */
  lemma NoSessionsAllZero(sessions: seq<Session>, att: map<Key, Status>, u: UserId)
    requires RecordsAreTargets(sessions, att)
    requires forall s :: 0 <= s < |sessions| ==> u !in sessions[s].targets
    ensures var st := StatsOf(sessions, att, u);
            && st.total == 0 && st.present == 0 && st.late == 0 && st.absent == 0 && st.unmarked == 0
            && st.presentPercent == 0.0 && st.latePercent == 0.0 && st.absentPercent == 0.0
            && st.unmarkedPercent == 0.0 && st.attendanceRate == 0.0
  {
    assert SessionsOf(sessions, u) == {};
    assert UserKeysWith(att, u, Present) == {};
    assert UserKeysWith(att, u, Late) == {};
    assert UserKeysWith(att, u, Absent) == {};
  }

  /** The guard of `user_delete`: a superuser is deleted only by a superuser. */
  function MayDelete(target: User, requesterIsSuperuser: bool): (ok: bool)
    ensures !ok <==> target.isSuperuser && !requesterIsSuperuser
  {
    !target.isSuperuser || requesterIsSuperuser
  }

  /** The sessions once user `u` is deleted: `u` leaves every target set. */
  function WithoutTarget(sessions: seq<Session>, u: UserId): (r: seq<Session>)
    ensures |r| == |sessions|
    ensures forall s :: 0 <= s < |r| ==>
      && r[s].title == sessions[s].title && r[s].isEnded == sessions[s].isEnded
      && u !in r[s].targets
      && forall v :: v != u ==> (v in r[s].targets <==> v in sessions[s].targets)
  {
    seq(|sessions|, s requires 0 <= s < |sessions| => sessions[s].(targets := sessions[s].targets - {u}))
  }

  /** The records once user `u` is deleted: all of `u`'s are gone, all others kept. */
  function WithoutRecordsOf(att: map<Key, Status>, u: UserId): (r: map<Key, Status>)
    ensures forall k :: k in r <==> k in att && k.1 != u
    ensures forall k :: k in r ==> r[k] == att[k]
  {
    map k | k in att && k.1 != u :: att[k]
  }

  /** Deleting a user together with its records and target memberships
      keeps the store consistent. */
  lemma DeleteKeeps(users: map<UserId, User>, n: nat, sessions: seq<Session>, att: map<Key, Status>, uid: UserId)
    requires Consistent(users, n, sessions, att)
    ensures Consistent(users - {uid}, n, WithoutTarget(sessions, uid), WithoutRecordsOf(att, uid))
  {
  }

  /** The fields posted to `user_edit` (absent ones are ""). */
  datatype EditForm = EditForm(username: string, grade: string, section: string, account: string, phone: string)

  /** The concatenation the view compares. */
  function Joined(grade: string, section: string, account: string, phone: string, username: string): string {
    grade + section + account + phone + username
  }

  /** The submitted side: the section is upper-cased first. */
  function SubmittedJoin(f: EditForm): string {
    Joined(f.grade, Upper(f.section), f.account, f.phone, f.username)
  }

  /** The stored side; None when the account is None, where the Python
      concatenation `str + None` raises TypeError. */
  function StoredJoin(p: Profile, username: string): (r: Option<string>)
    ensures r.None? <==> p.account.None?
  {
    match p.account
    case None => None
    case Some(a) => Some(Joined(p.grade, p.section, a, p.phone, username))
  }

  /** The profile an edit writes: grade, upper-cased section, account and
      phone from the form; the track is kept. */
  function EditedProfile(p: Profile, f: EditForm): (r: Profile)
    ensures r.grade == f.grade && r.section == Upper(f.section) && r.account == Some(f.account) && r.phone == f.phone
    ensures r.track == p.track
  {
    Profile(f.grade, Upper(f.section), p.track, Some(f.account), f.phone)
  }

  datatype EditCheckResult = EmptyUsername | AccountIsNone | NothingChanged | Proceed

  /** The checks of a posted edit, in order: blank username, the
      concatenation crashing on a None account, and the joined-string
      comparison. */
  function EditCheck(p: Profile, username: string, f: EditForm): (r: EditCheckResult)
    ensures r == EmptyUsername <==> Blank(f.username)
    ensures r == AccountIsNone <==> !Blank(f.username) && p.account.None?
    ensures r == NothingChanged <==> !Blank(f.username) && StoredJoin(p, username) == Some(SubmittedJoin(f))
    ensures r == Proceed <==> !Blank(f.username) && p.account.Some? && StoredJoin(p, username) != Some(SubmittedJoin(f))
  {
    MissingIffBlank(f.username);
    if f.username == "" || Strip(f.username) == "" then EmptyUsername
    else if p.account.None? then AccountIsNone
    else if StoredJoin(p, username) == Some(SubmittedJoin(f)) then NothingChanged
    else Proceed
  }

  /** Submitting exactly the stored values (section already upper-case) is
      reported as "nothing changed". */
  lemma SameFieldsUnchanged(p: Profile, username: string, f: EditForm)
    requires !Blank(f.username) && p.account == Some(f.account)
    requires f.username == username && f.grade == p.grade && f.phone == p.phone && Upper(f.section) == p.section
    ensures EditCheck(p, username, f) == NothingChanged
  {
  }

  /** The check compares the joined string, not the fields: moving a
      character from the section into the grade is reported as "nothing
      changed" although the profile would differ. */
  lemma JoinedCheckIsNotFieldwise()
    ensures var p := Profile("1", "0A", Frontend, Some(""), "5");
            var f := EditForm("bob", "10", "A", "", "5");
            EditCheck(p, "bob", f) == NothingChanged && EditedProfile(p, f) != p
  {
    var f := EditForm("bob", "10", "A", "", "5");
    assert Upper("A") == "A";
    assert Joined("1", "0A", "", "5", "bob") == Joined("10", "A", "", "5", "bob");
    assert !Blank(f.username) by { assert !IsSpace(f.username[0]); }
  }

  /** A user created without an account has account None, so every posted
      edit with a username fails in the concatenation. */
  lemma AccountlessNeverEditable(c: CreateForm, f: EditForm)
    requires c.account == ""
    requires !Blank(f.username)
    ensures EditCheck(NewProfile(c), c.username, f) == AccountIsNone
  {
  }

  /** The form the edit page shows for a profile with an account. */
  function DisplayedForm(p: Profile, username: string): (f: EditForm)
    requires p.account.Some?
  {
    EditForm(username, p.grade, p.section, p.account.value, p.phone)
  }

  /** After an edit goes through, re-submitting the values now displayed is
      "nothing changed": the stored section is already upper-case. */
  lemma EditThenResubmitUnchanged(p: Profile, username: string, f: EditForm)
    requires EditCheck(p, username, f) == Proceed
    ensures EditCheck(EditedProfile(p, f), f.username, DisplayedForm(EditedProfile(p, f), f.username)) == NothingChanged
  {
    UpperIdempotent(f.section);
  }
}

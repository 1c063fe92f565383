/** The records the views read and write: users with their optional
    profile, attendance sessions, and attendance records with their
    one-of-three status; and the consistency the database keeps between
    them. */
module Db {

  datatype Option<T> = None | Some(value: T)

  /** Primary keys. A session's id is its position in creation order. */
  type UserId = nat
  type SessionId = nat

  /** The key of an attendance record: (session, user). Keying the table by
      this pair is the "at most one record per (session, user)" rule. */
  type Key = (SessionId, UserId)

  datatype Status = Present | Late | Absent

  /** The keys that pair `c` with each element of `xs`: (c, x) when
      `cFirst` (the records of one session), else (x, c) (the records of one
      user). */
  function PairsWith(c: nat, xs: set<nat>, cFirst: bool): set<Key> {
    set x | x in xs :: if cFirst then (c, x) else (x, c)
  }

  /** Pairing with a fixed component is injective, so it keeps the count. */
  lemma {:induction false} PairsWithCard(c: nat, xs: set<nat>, cFirst: bool)
    ensures |PairsWith(c, xs, cFirst)| == |xs|
    decreases xs
  {
    if xs != {} {
      var x :| x in xs;
      var rest := xs - {x};
      PairsWithCard(c, rest, cFirst);
      assert PairsWith(c, xs, cFirst) == PairsWith(c, rest, cFirst) + {if cFirst then (c, x) else (x, c)};
    }
  }

  /** The string stored in the `status` column. */
  function StatusName(st: Status): string {
    match st
    case Present => "present"
    case Late => "late"
    case Absent => "absent"
  }

  /** The test `status in ["present", "late", "absent"]` applied to a posted
      status, with the status it names. */
  function ParseStatus(s: string): (r: Option<Status>)
    ensures r.Some? ==> StatusName(r.value) == s
    ensures r.None? ==> forall st: Status :: StatusName(st) != s
  {
    if s == "present" then Some(Present)
    else if s == "late" then Some(Late)
    else if s == "absent" then Some(Absent)
    else None
  }

  lemma {:induction false} ParseStatusName(st: Status)
    ensures ParseStatus(StatusName(st)) == Some(st)
  {
    match st
    case Present =>
    case Late => assert StatusName(st)[0] != "present"[0];
    case Absent => assert StatusName(st)[0] != "present"[0] && StatusName(st)[0] != "late"[0];
  }

  /** The profile's `field` choices. */
  datatype Track = Frontend | Backend | Ai | Embedded | Cyber | Other

  /** A profile. `account` is nullable: `create_user` stores None for an
      empty account. */
  datatype Profile = Profile(grade: string, section: string, track: Track, account: Option<string>, phone: string)

  /** What `Profile.objects.get_or_create(user=...)` stores for a user without
      a profile: the column defaults (empty grade, section and phone, track
      "frontend", account "N/A"). */
  const DefaultProfile := Profile("", "", Frontend, Some("N/A"), "")

  datatype User = User(username: string, email: string, isSuperuser: bool, profile: Option<Profile>)

  datatype Session = Session(title: string, isEnded: bool, targets: set<UserId>)

  /** The `username` column is unique. */
  ghost predicate UniqueUsernames(users: map<UserId, User>) {
    forall u, v :: u in users && v in users && u != v ==> users[u].username != users[v].username
  }

  /** Targets are existing users. */
  ghost predicate TargetsExist(users: map<UserId, User>, sessions: seq<Session>) {
    forall s :: 0 <= s < |sessions| ==> sessions[s].targets <= users.Keys
  }

  /** Every record belongs to an existing session and to one of its targets. */
  ghost predicate RecordsAreTargets(sessions: seq<Session>, att: map<Key, Status>) {
    forall k :: k in att ==> k.0 < |sessions| && k.1 in sessions[k.0].targets
  }

  /** An ended session has a record for each of its targets. */
  ghost predicate EndedComplete(sessions: seq<Session>, att: map<Key, Status>) {
    forall s, u :: 0 <= s < |sessions| && sessions[s].isEnded && u in sessions[s].targets ==> (s, u) in att
  }

  ghost predicate Consistent(users: map<UserId, User>, nextUserId: nat, sessions: seq<Session>, att: map<Key, Status>) {
    && (forall u :: u in users ==> u < nextUserId)
    && UniqueUsernames(users)
    && TargetsExist(users, sessions)
    && RecordsAreTargets(sessions, att)
    && EndedComplete(sessions, att)
  }

  /** No session that had ended before has changed: its title, targets and
      records are as they were. */
  ghost predicate EndedFrozen(oldSessions: seq<Session>, oldAtt: map<Key, Status>, sessions: seq<Session>, att: map<Key, Status>) {
    && (forall s :: 0 <= s < |oldSessions| && oldSessions[s].isEnded ==> s < |sessions| && sessions[s] == oldSessions[s])
    && (forall k :: k in oldAtt && k.0 < |oldSessions| && oldSessions[k.0].isEnded ==> k in att && att[k] == oldAtt[k])
    && (forall k :: k in att && k.0 < |oldSessions| && oldSessions[k.0].isEnded ==> k in oldAtt)
  }

  /** Creating an open session whose targets exist keeps the store consistent
      and touches no ended session. */
  lemma AppendSessionKeeps(users: map<UserId, User>, n: nat, sessions: seq<Session>, att: map<Key, Status>, s: Session)
    requires Consistent(users, n, sessions, att)
    requires s.targets <= users.Keys && !s.isEnded
    ensures Consistent(users, n, sessions + [s], att)
    ensures EndedFrozen(sessions, att, sessions + [s], att)
  {
    var ss := sessions + [s];
    assert forall i :: 0 <= i < |sessions| ==> ss[i] == sessions[i];
  }

  /** Writing a record for a target of an open session keeps the store
      consistent and touches no ended session. */
  lemma UpsertKeeps(users: map<UserId, User>, n: nat, sessions: seq<Session>, att: map<Key, Status>, sid: SessionId, u: UserId, st: Status)
    requires Consistent(users, n, sessions, att)
    requires sid < |sessions| && !sessions[sid].isEnded && u in sessions[sid].targets
    ensures Consistent(users, n, sessions, att[(sid, u) := st])
    ensures EndedFrozen(sessions, att, sessions, att[(sid, u) := st])
  {
  }

  /** Ending a session that has a record for each of its targets, after
      adding records only for its own targets, keeps the store consistent;
      no other ended session is touched. */
  lemma EndSessionKeeps(users: map<UserId, User>, n: nat, sessions: seq<Session>, att: map<Key, Status>, sid: SessionId, att': map<Key, Status>)
    requires Consistent(users, n, sessions, att)
    requires sid < |sessions| && !sessions[sid].isEnded
    requires forall k :: k in att ==> k in att' && att'[k] == att[k]
    requires forall k :: k in att' && k !in att ==> k.0 == sid && k.1 in sessions[sid].targets
    requires forall u :: u in sessions[sid].targets ==> (sid, u) in att'
    ensures Consistent(users, n, sessions[sid := sessions[sid].(isEnded := true)], att')
    ensures EndedFrozen(sessions, att, sessions[sid := sessions[sid].(isEnded := true)], att')
  {
  }

  /** Frozen over two steps is frozen over both: a session that has ended
      stays as it was across any run of operations that each keep it. */
  lemma FrozenTrans(s0: seq<Session>, a0: map<Key, Status>, s1: seq<Session>, a1: map<Key, Status>, s2: seq<Session>, a2: map<Key, Status>)
    requires EndedFrozen(s0, a0, s1, a1) && EndedFrozen(s1, a1, s2, a2)
    ensures EndedFrozen(s0, a0, s2, a2)
  {
    forall k | k in a2 && k.0 < |s0| && s0[k.0].isEnded
      ensures k in a0
    {
      assert s1[k.0] == s0[k.0];
    }
  }

  /** Nothing changed, nothing ended changed. */
  lemma FrozenRefl(sessions: seq<Session>, att: map<Key, Status>)
    ensures EndedFrozen(sessions, att, sessions, att)
  {
  }

  /** Replacing one user's record by one whose username no other user has
      keeps the store consistent. */
  lemma ReplaceUserKeeps(users: map<UserId, User>, n: nat, sessions: seq<Session>, att: map<Key, Status>, uid: UserId, user: User)
    requires Consistent(users, n, sessions, att)
    requires uid in users
    requires forall v :: v in users && v != uid ==> users[v].username != user.username
    ensures Consistent(users[uid := user], n, sessions, att)
  {
  }

  /** Adding a user under the next id, with a username no user has, keeps the
      store consistent. */
  lemma AddUserKeeps(users: map<UserId, User>, n: nat, sessions: seq<Session>, att: map<Key, Status>, user: User)
    requires Consistent(users, n, sessions, att)
    requires forall v :: v in users ==> users[v].username != user.username
    ensures n !in users
    ensures Consistent(users[n := user], n + 1, sessions, att)
  {
  }
}

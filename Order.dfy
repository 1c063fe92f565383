/** The row order of the two exports: users in ascending id order (the
    table scan), then sorted by username (`order_by("username")`), where
    usernames compare character by character, as Python and SQLite's
    default collation compare them. */
module Order {
  import opened Db

  /** Lexicographic order on strings by character code. */
  predicate StrLe(a: string, b: string)
    decreases |a|
  {
    a == [] || (b != [] && (a[0] < b[0] || (a[0] == b[0] && StrLe(a[1..], b[1..]))))
  }

  lemma {:induction false} StrLeTotal(a: string, b: string)
    ensures StrLe(a, b) || StrLe(b, a)
    decreases |a|
  {
    if a != [] && b != [] && a[0] == b[0] {
      StrLeTotal(a[1..], b[1..]);
    }
  }

  lemma {:induction false} StrLeTrans(a: string, b: string, c: string)
    requires StrLe(a, b) && StrLe(b, c)
    ensures StrLe(a, c)
    decreases |a|
  {
    if a != [] && a[0] == b[0] && b[0] == c[0] {
      StrLeTrans(a[1..], b[1..], c[1..]);
    }
  }

  lemma {:induction false} StrLeAntisym(a: string, b: string)
    requires StrLe(a, b) && StrLe(b, a)
    ensures a == b
    decreases |a|
  {
    if a != [] {
      StrLeAntisym(a[1..], b[1..]);
      assert a == [a[0]] + a[1..] && b == [b[0]] + b[1..];
    }
  }

  /** The ids below `n` of the users in `users` (of those with a profile when
      `onlyWithProfile`), ascending: each such user once. */
  function IdsBelow(users: map<UserId, User>, n: nat, onlyWithProfile: bool): (r: seq<UserId>)
    ensures forall i :: 0 <= i < |r| ==> r[i] in users && r[i] < n && (onlyWithProfile ==> users[r[i]].profile.Some?)
    ensures forall i, j :: 0 <= i < j < |r| ==> r[i] < r[j]
    ensures forall u :: u in users && u < n && (onlyWithProfile ==> users[u].profile.Some?) ==> u in r
  {
    if n == 0 then []
    else
      var m := n - 1;
      var below := IdsBelow(users, m, onlyWithProfile);
      if m in users && (!onlyWithProfile || users[m].profile.Some?) then
        AppendLarger(below, m);
        below + [m]
      else below
  }

  /** Appending a value larger than every element keeps a sequence strictly
      increasing. */
  lemma AppendLarger(s: seq<UserId>, m: UserId)
    requires forall i, j :: 0 <= i < j < |s| ==> s[i] < s[j]
    requires forall i :: 0 <= i < |s| ==> s[i] < m
    ensures forall i, j :: 0 <= i < j < |s + [m]| ==> (s + [m])[i] < (s + [m])[j]
    ensures forall i :: 0 <= i < |s| ==> (s + [m])[i] == s[i]
    ensures (s + [m])[|s|] == m
    ensures forall u :: u in s + [m] <==> u in s || u == m
  {
  }

  ghost predicate AllIn(ids: seq<UserId>, users: map<UserId, User>) {
    forall i :: 0 <= i < |ids| ==> ids[i] in users
  }

  ghost predicate SortedByName(ids: seq<UserId>, users: map<UserId, User>)
    requires AllIn(ids, users)
  {
    forall i, j :: 0 <= i < j < |ids| ==> StrLe(users[ids[i]].username, users[ids[j]].username)
  }

  /** The user `y` sorts no later than any user in `ids`. */
  ghost predicate FirstByName(y: UserId, ids: seq<UserId>, users: map<UserId, User>)
    requires y in users && AllIn(ids, users)
  {
    forall j :: 0 <= j < |ids| ==> StrLe(users[y].username, users[ids[j]].username)
  }

  lemma FirstByNamePermutation(y: UserId, ids: seq<UserId>, r: seq<UserId>, users: map<UserId, User>)
    requires y in users && AllIn(ids, users) && AllIn(r, users)
    requires FirstByName(y, ids, users) && multiset(r) == multiset(ids)
    ensures FirstByName(y, r, users)
  {
    forall j | 0 <= j < |r|
      ensures StrLe(users[y].username, users[r[j]].username)
    {
      assert r[j] in multiset(ids);
      var k :| 0 <= k < |ids| && ids[k] == r[j];
    }
  }

  lemma ConsSorted(y: UserId, ids: seq<UserId>, users: map<UserId, User>)
    requires y in users && AllIn(ids, users)
    requires FirstByName(y, ids, users) && SortedByName(ids, users)
    ensures AllIn([y] + ids, users) && SortedByName([y] + ids, users)
  {
    var r := [y] + ids;
    forall i, j | 0 <= i < j < |r|
      ensures StrLe(users[r[i]].username, users[r[j]].username)
    {
      if i > 0 {
        assert r[i] == ids[i - 1] && r[j] == ids[j - 1];
      } else {
        assert r[j] == ids[j - 1];
      }
    }
  }

  /** `x` sorts before the head of a sorted sequence, hence before all of it. */
  lemma InsertFrontStep(x: UserId, ids: seq<UserId>, users: map<UserId, User>)
    requires x in users && AllIn(ids, users) && SortedByName(ids, users) && ids != []
    requires StrLe(users[x].username, users[ids[0]].username)
    ensures AllIn([x] + ids, users) && SortedByName([x] + ids, users)
  {
    forall j | 0 < j < |ids|
      ensures StrLe(users[x].username, users[ids[j]].username)
    {
      StrLeTrans(users[x].username, users[ids[0]].username, users[ids[j]].username);
    }
    ConsSorted(x, ids, users);
  }

  /** The head `y` of a sorted sequence that sorts before `x` stays in front
      of `rest`, a sorted permutation of the tail with `x` added. */
  lemma InsertBehindStep(x: UserId, ids: seq<UserId>, rest: seq<UserId>, users: map<UserId, User>)
    requires x in users && AllIn(ids, users) && SortedByName(ids, users) && ids != []
    requires !StrLe(users[x].username, users[ids[0]].username)
    requires AllIn(rest, users) && SortedByName(rest, users)
    requires multiset(rest) == multiset(ids[1..]) + multiset{x}
    ensures AllIn([ids[0]] + rest, users) && SortedByName([ids[0]] + rest, users)
  {
    var y, tail := ids[0], ids[1..];
    StrLeTotal(users[x].username, users[y].username);
    assert FirstByName(y, tail + [x], users) by {
      forall j | 0 <= j < |tail + [x]|
        ensures StrLe(users[y].username, users[(tail + [x])[j]].username)
      {
        if j < |tail| {
          assert (tail + [x])[j] == ids[j + 1];
        }
      }
    }
    assert multiset(tail + [x]) == multiset(tail) + multiset{x};
    FirstByNamePermutation(y, tail + [x], rest, users);
    ConsSorted(y, rest, users);
  }

  /** `x` inserted into an already sorted sequence, keeping it sorted. */
  function Insert(x: UserId, ids: seq<UserId>, users: map<UserId, User>): (r: seq<UserId>)
    requires x in users && AllIn(ids, users) && SortedByName(ids, users)
    ensures AllIn(r, users) && SortedByName(r, users)
    ensures multiset(r) == multiset(ids) + multiset{x}
  {
    if ids == [] then [x]
    else if StrLe(users[x].username, users[ids[0]].username) then
      InsertFrontStep(x, ids, users);
      [x] + ids
    else
      assert ids == [ids[0]] + ids[1..];
      assert SortedByName(ids[1..], users);
      var rest := Insert(x, ids[1..], users);
      InsertBehindStep(x, ids, rest, users);
      [ids[0]] + rest
  }

  /** Insertion sort by username: a sorted permutation of `ids`. */
  function SortByName(ids: seq<UserId>, users: map<UserId, User>): (r: seq<UserId>)
    requires AllIn(ids, users)
    ensures AllIn(r, users) && SortedByName(r, users)
    ensures multiset(r) == multiset(ids)
  {
    if ids == [] then []
    else
      assert ids == [ids[0]] + ids[1..];
      Insert(ids[0], SortByName(ids[1..], users), users)
  }

  /** A value that occurs at two positions occurs at least twice. */
  lemma TwiceCounted(s: seq<UserId>, i: nat, j: nat)
    requires i < j < |s| && s[i] == s[j]
    ensures multiset(s)[s[i]] >= 2
  {
    assert s == s[..j] + s[j..];
    assert s[i] in multiset(s[..j]);
    assert s[j] in multiset(s[j..]);
  }

  /** In a strictly increasing sequence every value occurs at most once. */
  lemma {:induction false} IncreasingOnce(s: seq<UserId>, x: UserId)
    requires forall i, j :: 0 <= i < j < |s| ==> s[i] < s[j]
    ensures multiset(s)[x] <= 1
  {
    if s != [] {
      assert s == [s[0]] + s[1..];
      IncreasingOnce(s[1..], x);
      if x == s[0] {
        assert x !in s[1..];
      }
    }
  }

  /** A permutation of a strictly increasing sequence repeats no element. */
  lemma PermutationOfIncreasingIsDistinct(r: seq<UserId>, s: seq<UserId>)
    requires forall i, j :: 0 <= i < j < |s| ==> s[i] < s[j]
    requires multiset(r) == multiset(s)
    ensures forall i, j :: 0 <= i < j < |r| ==> r[i] != r[j]
  {
    forall i, j | 0 <= i < j < |r|
      ensures r[i] != r[j]
    {
      if r[i] == r[j] {
        TwiceCounted(r, i, j);
        IncreasingOnce(s, r[i]);
      }
    }
  }

  /** The users below `n` (those with a profile when `onlyWithProfile`)
      ordered by username: each such user exactly once, in username order. */
  function UsersByName(users: map<UserId, User>, n: nat, onlyWithProfile: bool): (r: seq<UserId>)
    ensures AllIn(r, users) && SortedByName(r, users)
    ensures forall u :: u in r <==> u in users && u < n && (onlyWithProfile ==> users[u].profile.Some?)
    ensures forall i, j :: 0 <= i < j < |r| ==> r[i] != r[j]
  {
    var ids := IdsBelow(users, n, onlyWithProfile);
    var sorted := SortByName(ids, users);
    PermutationOfIncreasingIsDistinct(sorted, ids);
    assert forall u :: u in sorted <==> u in multiset(ids);
    sorted
  }
}

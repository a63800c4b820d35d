/**
 The judge-API side of the scoreboard: the map from judge user ids to
 student names, and the per-problem fold that keeps, for each student, the
 best verdict and a penalty counter. Fetching and decoding the API's
 responses is outside the model; the decoded user list and submission list
 arrive as sequences, in the order the API returns them (newest submission
 first).
 */
module OnlineJudge {
  import opened StudentIds

  /** A judge account: its numeric id and its name. */
  datatype User = User(id: int, name: string)

  /** A submission, reduced to the two fields the fold reads. */
  datatype Submission = Submission(userId: int, verdictId: int)

  /** A student's entry: best verdict and penalty; both read 0 when absent. */
  datatype Entry = Entry(verdict: int, penalty: int)

  /** The verdict code of an accepted submission. */
  const Accepted: int := 10

  /** Verdict codes 4 to 10 are judged results; the others are not counted. */
  predicate Counted(verdictId: int) {
    3 < verdictId < 11
  }

  // ---------------------------------------------------------------------
  // The user map
  // ---------------------------------------------------------------------

  /** `users[i]` is the last user in the list with this id whose name passes
      the student-name filter; a dictionary comprehension keeps the last
      value written for a key. */
  ghost predicate LastStudentWith(users: seq<User>, id: int, i: int) {
    && 0 <= i < |users|
    && users[i].id == id && IsStudentName(users[i].name)
    && forall j :: i < j < |users| && users[j].id == id ==> !IsStudentName(users[j].name)
  }

  /** `get_user`'s dictionary: id to name, for users whose name starts with
      `0` and six digits. */
  function UserMap(users: seq<User>): (m: map<int, string>)
    ensures forall id :: id in m <==>
      exists i :: 0 <= i < |users| && users[i].id == id && IsStudentName(users[i].name)
    ensures forall id :: id in m ==> exists i :: LastStudentWith(users, id, i) && m[id] == users[i].name
    decreases |users|
  {
    if |users| == 0 then map[]
    else
      var n := |users| - 1;
      var m := UserMap(users[..n]);
      var u := users[n];
      var r := if IsStudentName(u.name) then m[u.id := u.name] else m;
      UserMapStep(users, m, r);
      r
  }

  /** The inductive step of `UserMap`: writing the last user, if it passes
      the filter, over the map of the earlier users. */
  lemma UserMapStep(users: seq<User>, m: map<int, string>, r: map<int, string>)
    requires |users| > 0
    requires var front := users[..|users| - 1];
      && (forall id :: id in m <==>
            exists i :: 0 <= i < |front| && front[i].id == id && IsStudentName(front[i].name))
      && (forall id :: id in m ==> exists i :: LastStudentWith(front, id, i) && m[id] == front[i].name)
    requires var u := users[|users| - 1];
      r == if IsStudentName(u.name) then m[u.id := u.name] else m
    ensures forall id :: id in r <==>
      exists i :: 0 <= i < |users| && users[i].id == id && IsStudentName(users[i].name)
    ensures forall id :: id in r ==> exists i :: LastStudentWith(users, id, i) && r[id] == users[i].name
  {
    var n := |users| - 1;
    var front, u := users[..n], users[n];
    assert forall i :: 0 <= i < n ==> front[i] == users[i];
    forall id
      ensures id in r <==> exists i :: 0 <= i < |users| && users[i].id == id && IsStudentName(users[i].name)
    {
      if exists i :: 0 <= i < |users| && users[i].id == id && IsStudentName(users[i].name) {
        var i :| 0 <= i < |users| && users[i].id == id && IsStudentName(users[i].name);
        if i < n {
          assert front[i].id == id && IsStudentName(front[i].name);
        }
      }
    }
    forall id | id in r
      ensures exists i :: LastStudentWith(users, id, i) && r[id] == users[i].name
    {
      if IsStudentName(u.name) && id == u.id {
        assert LastStudentWith(users, id, n);
      } else {
        var i :| LastStudentWith(front, id, i) && m[id] == front[i].name;
        assert LastStudentWith(users, id, i);
      }
    }
  }

  // ---------------------------------------------------------------------
  // The submission fold
  // ---------------------------------------------------------------------

  /** A missing key of the `Counter` reads as 0. */
  function EntryOf(t: map<string, Entry>, s: string): Entry {
    if s in t then t[s] else Entry(0, 0)
  }

  /** One submission folded into the table. It is skipped when its verdict is
      not counted, and when its user is not in the map: that lookup fails
      before the table is touched. Otherwise the penalty grows by one unless
      the stored verdict is already Accepted, and the stored verdict becomes
      the larger of the two. */
  function Step(user: map<int, string>, t: map<string, Entry>, sub: Submission): (r: map<string, Entry>)
    ensures !Counted(sub.verdictId) || sub.userId !in user ==> r == t
    ensures Counted(sub.verdictId) && sub.userId in user ==>
      var s := user[sub.userId];
      && r.Keys == t.Keys + {s}
      && (forall o :: o in t && o != s ==> r[o] == t[o])
      && EntryOf(t, s).verdict <= r[s].verdict
      && sub.verdictId <= r[s].verdict
      && (r[s].verdict == EntryOf(t, s).verdict || r[s].verdict == sub.verdictId)
      && (EntryOf(t, s).verdict == Accepted ==> r[s].penalty == EntryOf(t, s).penalty)
      && (EntryOf(t, s).verdict != Accepted ==> r[s].penalty == EntryOf(t, s).penalty + 1)
  {
    if Counted(sub.verdictId) && sub.userId in user then
      var s := user[sub.userId];
      var e := EntryOf(t, s);
      var penalty := if e.verdict != Accepted then e.penalty + 1 else e.penalty;
      var verdict := if e.verdict < sub.verdictId then sub.verdictId else e.verdict;
      t[s := Entry(verdict, penalty)]
    else t
  }

  /** The submissions folded in the given order, first to last. */
  function Fold(user: map<int, string>, subs: seq<Submission>): (r: map<string, Entry>)
    decreases |subs|
  {
    if |subs| == 0 then map[]
    else Step(user, Fold(user, subs[..|subs| - 1]), subs[|subs| - 1])
  }

  /** The fetched list turned around, so the oldest submission comes first. */
  function Reverse<T>(xs: seq<T>): (r: seq<T>)
    ensures |r| == |xs|
    ensures forall i :: 0 <= i < |xs| ==> r[i] == xs[|xs| - 1 - i]
  {
    if |xs| == 0 then [] else [xs[|xs| - 1]] + Reverse(xs[..|xs| - 1])
  }

  /** The counted verdicts of student `s`, in processing order. */
  function History(user: map<int, string>, subs: seq<Submission>, s: string): (h: seq<int>)
    ensures forall v :: v in h ==> 3 < v < 11
    ensures |h| <= |subs|
    decreases |subs|
  {
    if |subs| == 0 then []
    else
      var x := subs[|subs| - 1];
      var front := History(user, subs[..|subs| - 1], s);
      if Counted(x.verdictId) && x.userId in user && user[x.userId] == s then front + [x.verdictId]
      else front
  }

  function Max(vs: seq<int>): (m: int)
    requires |vs| > 0
    ensures m in vs
    ensures forall v :: v in vs ==> v <= m
  {
    if |vs| == 1 then vs[0]
    else
      var m := Max(vs[1..]);
      assert vs == [vs[0]] + vs[1..];
      if vs[0] < m then m else vs[0]
  }

  /** Position of the first occurrence of `x`. */
  function FirstIndex(vs: seq<int>, x: int): (i: nat)
    requires x in vs
    ensures i < |vs| && vs[i] == x
    ensures forall j :: 0 <= j < i ==> vs[j] != x
  {
    if vs[0] == x then 0 else 1 + FirstIndex(vs[1..], x)
  }

  /** The penalty a student's counted verdicts earn: every counted submission
      up to and including the first accepted one, or all of them when none
      was accepted. */
  function Penalty(vs: seq<int>): nat {
    if Accepted in vs then FirstIndex(vs, Accepted) + 1 else |vs|
  }

  lemma {:induction false} FirstIndexSnoc(vs: seq<int>, x: int, y: int)
    requires x in vs
    ensures FirstIndex(vs + [y], x) == FirstIndex(vs, x)
  {
    if vs[0] != x {
      assert (vs + [y])[1..] == vs[1..] + [y];
      FirstIndexSnoc(vs[1..], x, y);
    }
  }

  lemma MaxSnoc(vs: seq<int>, v: int)
    requires |vs| > 0
    ensures Max(vs + [v]) == if Max(vs) < v then v else Max(vs)
  {
    var m := Max(vs + [v]);
    assert m in vs || m == v;
    assert v in vs + [v] && Max(vs) in vs + [v];
  }

  /** The fold agrees with the declarative reading of a student's counted
      verdicts: a student has an entry exactly when they have one, and then
      the entry holds their maximum and their penalty. */
  lemma {:induction false} FoldMatchesHistory(user: map<int, string>, subs: seq<Submission>, s: string)
    ensures s in Fold(user, subs) <==> |History(user, subs, s)| > 0
    ensures s in Fold(user, subs) ==>
      var h := History(user, subs, s);
      Fold(user, subs)[s] == Entry(Max(h), Penalty(h))
    decreases |subs|
  {
    if |subs| > 0 {
      var front := subs[..|subs| - 1];
      var x := subs[|subs| - 1];
      FoldMatchesHistory(user, front, s);
      var h := History(user, front, s);
      var t := Fold(user, front);
      if Counted(x.verdictId) && x.userId in user && user[x.userId] == s {
        var h' := h + [x.verdictId];
        assert History(user, subs, s) == h';
        assert x.verdictId in h';
        if |h| > 0 {
          MaxSnoc(h, x.verdictId);
          assert Max(h) == Accepted <==> Accepted in h;
          if Accepted in h {
            FirstIndexSnoc(h, Accepted, x.verdictId);
          } else if x.verdictId == Accepted {
            assert FirstIndex(h', Accepted) == |h|;
          }
        } else {
          assert h' == [x.verdictId];
        }
      }
    }
  }

  /** `get_submission`: the fetched list, newest first, is reversed and
      folded oldest first. Only students with a counted submission get an
      entry; its verdict is their best counted verdict, a judged result from
      4 to 10, and its penalty counts their counted submissions up to the
      first accepted one. */
  function GetSubmission(user: map<int, string>, fetched: seq<Submission>): (r: map<string, Entry>)
    ensures forall s :: s in r <==> |History(user, Reverse(fetched), s)| > 0
    ensures forall s :: s in r ==>
      var h := History(user, Reverse(fetched), s);
      && r[s].verdict == Max(h) && 4 <= r[s].verdict <= Accepted
      && r[s].penalty == Penalty(h) && 1 <= r[s].penalty <= |h|
  {
    var subs := Reverse(fetched);
    var r := Fold(user, subs);
    assert forall s :: s in r <==> |History(user, subs, s)| > 0 by {
      forall s
        ensures s in r <==> |History(user, subs, s)| > 0
      {
        FoldMatchesHistory(user, subs, s);
      }
    }
    assert forall s :: s in r ==> r[s].verdict == Max(History(user, subs, s)) && r[s].penalty == Penalty(History(user, subs, s)) by {
      forall s | s in r
        ensures r[s].verdict == Max(History(user, subs, s)) && r[s].penalty == Penalty(History(user, subs, s))
      {
        FoldMatchesHistory(user, subs, s);
      }
    }
    r
  }
}

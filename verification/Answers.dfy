/** The scripted answers of a device, port or file to successive requests. */
module Answers {
  /** The answers behind the next one. */
  function Later<T>(answers: seq<T>): seq<T> {
    if answers == [] then [] else answers[1..]
  }

  /** The answers used to get from `was` to `now`. */
  function Used<T>(was: seq<T>, now: seq<T>): seq<T>
    requires |now| <= |was|
  {
    was[..|was| - |now|]
  }

  ghost predicate AllPositive(answers: seq<int>) {
    forall i :: 0 <= i < |answers| ==> answers[i] > 0
  }

  lemma PositiveLater(answers: seq<int>)
    requires AllPositive(answers)
    ensures AllPositive(Later(answers)) && (answers != [] ==> answers[0] > 0)
  {
  }

  lemma NoneUsed(answers: seq<int>)
    ensures Used(answers, answers) == [] && AllPositive([])
    ensures answers == Used(answers, answers) + answers && |Later(answers)| <= |answers|
  {
  }

  lemma UsedFirst(was: seq<int>, now: seq<int>)
    requires |now| <= |Later(was)| && Later(was) == Used(Later(was), now) + now
    ensures |now| <= |was| && was == Used(was, now) + now
    ensures AllPositive(Used(was, now)) <==> (was != [] ==> was[0] > 0) && AllPositive(Used(Later(was), now))
    ensures AllPositive(was) ==> AllPositive(now)
  {
    if was != [] {
      var u := Used(Later(was), now);
      assert Used(was, now) == [was[0]] + u;
      assert forall i :: 0 <= i < |u| ==> ([was[0]] + u)[i + 1] == u[i];
      assert forall i :: 0 <= i < |now| ==> was[|was| - |now| + i] == now[i];
    }
  }

  lemma UsedJoin(a: seq<int>, b: seq<int>, c: seq<int>)
    requires |c| <= |b| <= |a| && a == Used(a, b) + b && b == Used(b, c) + c
    ensures a == Used(a, c) + c
    ensures AllPositive(Used(a, c)) <==> AllPositive(Used(a, b)) && AllPositive(Used(b, c))
  {
    var u, v := Used(a, b), Used(b, c);
    assert Used(a, c) == u + v;
    assert forall i :: 0 <= i < |v| ==> (u + v)[|u| + i] == v[i];
    assert forall i :: 0 <= i < |u| ==> (u + v)[i] == u[i];
  }
}

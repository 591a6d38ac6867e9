/** The federation "will run" choice of src/api/allocate.c: one thread per cluster asks
    when a job could start, and the best answer is taken. */
module WillRun {

  /** preempted is the number of jobs the start would preempt. */
  datatype Response = Response(cluster: string, start: int, preempted: nat)

  /** What the thread of one cluster ends with. */
  datatype Answer = Answered(response: Response) | Failed(errno: int)

  // ----- the order of responses

  /** slurm_sort_will_run_resp; local is the name of this cluster. */
  function Compare(a: Response, b: Response, local: string): int {
    if a.start < b.start then -1
    else if a.start > b.start then 1
    else if a.preempted < b.preempted then -1
    else if a.preempted > b.preempted then 1
    else if a.cluster == local then -1
    else if b.cluster == local then 1
    else 0
  }

  /** Earlier start first, then fewer preempted jobs, then the local cluster. */
  predicate Better(a: Response, b: Response, local: string) {
    || a.start < b.start
    || (a.start == b.start && a.preempted < b.preempted)
    || (a.start == b.start && a.preempted == b.preempted && a.cluster == local && b.cluster != local)
  }

  predicate Tied(a: Response, b: Response) { a.start == b.start && a.preempted == b.preempted }

  /** The comparator says "before" exactly for the better response, and swaps its sign with
      its arguments, exactly when the two are not tied responses of the local cluster. */
  lemma CompareIff(a: Response, b: Response, local: string)
    ensures (Compare(a, b, local) < 0 <==> Better(a, b, local)) && Compare(a, b, local) == -Compare(b, a, local)
       <==> !(Tied(a, b) && a.cluster == local && b.cluster == local)
  {
  }

  /** Two tied responses of the local cluster come each before the other. */
  lemma LocalTie()
    ensures var r := Response("here", 0, 0); Compare(r, r, "here") < 0 && !Better(r, r, "here")
  {
  }

  /** On responses of distinct clusters "before" is a strict weak order. */
  lemma StrictWeakOrder(a: Response, b: Response, c: Response, local: string)
    requires a.cluster != b.cluster && b.cluster != c.cluster && a.cluster != c.cluster
    ensures Compare(a, b, local) < 0 ==> !(Compare(b, a, local) < 0)
    ensures Compare(a, b, local) < 0 && Compare(b, c, local) < 0 ==> Compare(a, c, local) < 0
    ensures Compare(a, b, local) == 0 && Compare(b, c, local) == 0 ==> Compare(a, c, local) == 0
  {
  }

  predicate DistinctClusters(rs: seq<Response>) {
    forall i, j :: 0 <= i < j < |rs| ==> rs[i].cluster != rs[j].cluster
  }

  predicate Sorted(rs: seq<Response>, local: string) {
    forall i, j :: 0 <= i < j < |rs| ==> Compare(rs[i], rs[j], local) <= 0
  }

  /** list_sort: any algorithm that leaves the list ordered by the comparator would do;
      this one inserts each response into the ordered list of the earlier ones. */
  method SortResponses(rs: seq<Response>, local: string) returns (out: seq<Response>)
    requires DistinctClusters(rs)
    ensures multiset(out) == multiset(rs) && Sorted(out, local)
  {
    hide Compare, Sorted, DistinctClusters;
    out := [];
    NoneSorted(local);
    for i := 0 to |rs|
      invariant multiset(out) == multiset(rs[..i]) && Sorted(out, local)
    {
      var k := Place(out, rs[i], local);
      OtherClusters(rs, i, out);
      InsertSorted(out, rs[i], k, local);
      InsertKeeps(rs, i, out, k);
      out := out[..k] + [rs[i]] + out[k..];
    }
    assert rs[..|rs|] == rs;
  }

  method Place(out: seq<Response>, x: Response, local: string) returns (k: nat)
    ensures k <= |out| && (forall j :: 0 <= j < k ==> Compare(out[j], x, local) <= 0)
    ensures k < |out| ==> Compare(out[k], x, local) > 0
  {
    hide Compare;
    k := 0;
    while k < |out| && Compare(out[k], x, local) <= 0
      invariant 0 <= k <= |out| && forall j :: 0 <= j < k ==> Compare(out[j], x, local) <= 0
    {
      k := k + 1;
    }
  }

  lemma NoneSorted(local: string)
    ensures Sorted([], local)
  {
  }

  lemma OtherClusters(rs: seq<Response>, i: nat, out: seq<Response>)
    requires i < |rs| && DistinctClusters(rs) && multiset(out) == multiset(rs[..i])
    ensures forall r :: r in out ==> r.cluster != rs[i].cluster
  {
    forall r | r in out ensures r.cluster != rs[i].cluster {
      assert r in multiset(out);
      assert r in rs[..i];
      var j :| 0 <= j < i && rs[..i][j] == r;
      assert rs[j] == r;
    }
  }

  lemma InsertKeeps(rs: seq<Response>, i: nat, out: seq<Response>, k: nat)
    requires i < |rs| && k <= |out| && multiset(out) == multiset(rs[..i])
    ensures multiset(out[..k] + [rs[i]] + out[k..]) == multiset(rs[..i + 1])
  {
    assert rs[..i + 1] == rs[..i] + [rs[i]];
    assert out == out[..k] + out[k..];
  }

  lemma InsertSorted(out: seq<Response>, x: Response, k: nat, local: string)
    requires k <= |out| && Sorted(out, local)
    requires forall r :: r in out ==> r.cluster != x.cluster
    requires forall j :: 0 <= j < k ==> Compare(out[j], x, local) <= 0
    requires k < |out| ==> Compare(out[k], x, local) > 0
    ensures Sorted(out[..k] + [x] + out[k..], local)
  {
    hide Compare;
    var t := out[..k] + [x] + out[k..];
    forall i, j | 0 <= i < j < |t| ensures Compare(t[i], t[j], local) <= 0 {
      if i == k {
        assert t[j] == out[j - 1] && out[j - 1] in out;
        AfterIsNotBetter(out, x, k, j - 1, local);
      }
    }
  }

  lemma AfterIsNotBetter(out: seq<Response>, x: Response, k: nat, j: nat, local: string)
    requires k <= j < |out| && Sorted(out, local) && out[k].cluster != x.cluster && out[j].cluster != x.cluster
    requires Compare(out[k], x, local) > 0
    ensures Compare(x, out[j], local) <= 0
  {
    if k < j { assert Compare(out[k], out[j], local) <= 0; }
  }

  // ----- the choice

  predicate Least(r: Response, rs: seq<Response>, local: string) {
    r in rs && forall s :: s in rs ==> !Better(s, r, local)
  }

  /** The responses among the answers, in the order the threads finished. */
  function Responses(answers: seq<Answer>): seq<Response> {
    if answers == [] then []
    else Responses(answers[..|answers| - 1]) +
         match answers[|answers| - 1] case Answered(r) => [r] case Failed(_) => []
  }

  /** The error left behind: that of the last thread to fail. */
  function LastError(answers: seq<Answer>): int {
    if answers == [] then 0
    else match answers[|answers| - 1] case Answered(_) => LastError(answers[..|answers| - 1]) case Failed(e) => e
  }

  /** It is the error of a thread that failed, and every thread that finished later has an
      answer; without a failure it is 0. */
  lemma {:induction false} LastErrorIs(answers: seq<Answer>)
    ensures (exists i :: 0 <= i < |answers| && answers[i].Failed?) ==>
              exists i :: 0 <= i < |answers| && answers[i] == Failed(LastError(answers)) && AnsweredFrom(answers, i + 1)
    ensures (forall i :: 0 <= i < |answers| ==> answers[i].Answered?) ==> LastError(answers) == 0
  {
    if answers != [] {
      var last := |answers| - 1;
      var before := answers[..last];
      LastErrorIs(before);
      if answers[last].Failed? {
        assert answers[last] == Failed(LastError(answers)) && AnsweredFrom(answers, last + 1);
      } else if i :| 0 <= i < |answers| && answers[i].Failed? {
        assert before[i].Failed?;
        var j :| 0 <= j < last && before[j] == Failed(LastError(before)) && AnsweredFrom(before, j + 1);
        assert answers[j] == Failed(LastError(answers));
        assert AnsweredFrom(answers, j + 1) by {
          forall t | j + 1 <= t < |answers| ensures answers[t].Answered? {
            if t < last { assert before[t].Answered?; }
          }
        }
      } else {
        assert forall t :: 0 <= t < last ==> before[t] == answers[t];
      }
    }
  }

  predicate AnsweredFrom(answers: seq<Answer>, i: nat) { forall t :: i <= t < |answers| ==> answers[t].Answered? }

  datatype Choice = Chosen(response: Response) | NoAnswer(errno: int)

  /** _fed_job_will_run once the threads are joined: answers holds what each queried
      cluster's thread ended with, in the order in which they finished. */
  method FedJobWillRun(answers: seq<Answer>, local: string) returns (c: Choice)
    requires DistinctClusters(Responses(answers))
    ensures c.NoAnswer? <==> forall a :: a in answers ==> a.Failed?
    ensures c.NoAnswer? ==> c.errno == LastError(answers)
    ensures c.NoAnswer? && answers != [] ==> answers[|answers| - 1] == Failed(c.errno)
    ensures c.NoAnswer? && answers == [] ==> c.errno == 0
    ensures c.Chosen? ==> Least(c.response, Responses(answers), local)
    ensures c.Chosen? ==>
              Answered(c.response) in answers && forall r :: Answered(r) in answers ==> !Better(r, c.response, local)
  {
    var list, rc := [], 0;
    for i := 0 to |answers|
      invariant list == Responses(answers[..i]) && rc == LastError(answers[..i])
    {
      assert answers[..i + 1][..i] == answers[..i];
      match answers[i]
      case Answered(r) => list := list + [r];
      case Failed(e) => rc := e;
    }
    assert answers[..|answers|] == answers;
    NoResponses(answers);
    var sorted := SortResponses(list, local);
    if |sorted| == 0 {
      assert multiset(list) == multiset{};
      return NoAnswer(rc);
    }
    HeadIsLeast(sorted, list, local);
    assert sorted[0] in multiset(list);
    forall r ensures r in Responses(answers) <==> Answered(r) in answers { ResponsesHas(answers, r); }
    return Chosen(sorted[0]);
  }

  lemma ResponsesHas(answers: seq<Answer>, r: Response)
    ensures r in Responses(answers) <==> Answered(r) in answers
  {
    hide Responses;
    ResponsesCount(answers, r);
    assert r in Responses(answers) <==> r in multiset(Responses(answers));
    assert Answered(r) in answers <==> Answered(r) in multiset(answers);
  }

  lemma {:induction false} NoResponses(answers: seq<Answer>)
    ensures Responses(answers) == [] <==> forall a :: a in answers ==> a.Failed?
  {
    if answers != [] {
      var before, a := answers[..|answers| - 1], answers[|answers| - 1];
      NoResponses(before);
      assert answers == before + [a];
      if a.Failed? { assert Responses(answers) == Responses(before) + []; } else { assert a in answers; }
    }
  }

  lemma HeadIsLeast(sorted: seq<Response>, list: seq<Response>, local: string)
    requires sorted != [] && Sorted(sorted, local) && multiset(sorted) == multiset(list) && DistinctClusters(list)
    ensures Least(sorted[0], list, local)
  {
    assert sorted[0] in multiset(list);
    forall s | s in list ensures !Better(s, sorted[0], local) {
      assert s in multiset(sorted);
      var j :| 0 <= j < |sorted| && sorted[j] == s;
      if j > 0 { assert Compare(sorted[0], sorted[j], local) <= 0; }
    }
  }

  lemma {:induction false} ResponsesCount(answers: seq<Answer>, r: Response)
    ensures multiset(Responses(answers))[r] == multiset(answers)[Answered(r)]
  {
    if answers != [] {
      var before, a := answers[..|answers| - 1], answers[|answers| - 1];
      ResponsesCount(before, r);
      assert answers == before + [a];
    }
  }

  /** The order in which the threads finish does not matter: whatever response is chosen
      after one order ties in start, preemptions and locality with that after another. */
  lemma AnyCompletionOrder(answers: seq<Answer>, others: seq<Answer>, r: Response, s: Response, local: string)
    requires multiset(answers) == multiset(others)
    requires Least(r, Responses(answers), local) && Least(s, Responses(others), local)
    ensures Tied(r, s) && (r.cluster == local <==> s.cluster == local)
  {
    ResponsesCount(answers, r);
    ResponsesCount(others, r);
    ResponsesCount(answers, s);
    ResponsesCount(others, s);
    assert r in multiset(Responses(others)) && s in multiset(Responses(answers));
    assert r in Responses(others) && s in Responses(answers);
    assert !Better(r, s, local) && !Better(s, r, local);
  }
}

/** How often the iterator of a rank shows a pair. contribs/pmi/pmi.c hides a rank's own
    copies at a barrier so that the iterator does not return duplicated keys; this module
    counts, over every run in the default mode, the copies that it does return. */
module PmiCounts {
  import opened CText
  import opened PmiSystem
  import S = PmiStore
  import V = PmiServer

  // ----- what has happened in a run, counted

  /** The commits of the pair's rank since it put the pair. */
  function Commits(acts: seq<Action>, k: string, v: string): nat {
    if acts == [] then 0
    else
      var before, a := acts[..|acts| - 1], acts[|acts| - 1];
      Commits(before, k, v) + if a.Commit? && WasPut(before, a.rank, k, v) then 1 else 0
  }

  /** Those before the last complete barrier. */
  function ReleasedCommits(n: nat, acts: seq<Action>, k: string, v: string): nat {
    if acts == [] then 0
    else
      var before, a := acts[..|acts| - 1], acts[|acts| - 1];
      var s := Exec(n, true, before);
      if s.Some? && Completes(s.value, a) then Commits(before, k, v) else ReleasedCommits(n, before, k, v)
  }

  /** Those before the last barrier from which rank r has returned. */
  function DeliveredCommits(n: nat, acts: seq<Action>, r: nat, k: string, v: string): nat {
    if acts == [] then 0
    else
      var before := acts[..|acts| - 1];
      if acts[|acts| - 1] == Deliver(r) then ReleasedCommits(n, before, k, v)
      else DeliveredCommits(n, before, r, k, v)
  }

  /** 1 when rank r has put the pair and not returned from a barrier since. */
  function Own(acts: seq<Action>, r: nat, k: string, v: string): nat {
    if acts == [] then 0
    else if acts[|acts| - 1] == Put(r, k, v) then 1
    else if acts[|acts| - 1] == Deliver(r) then 0
    else Own(acts[..|acts| - 1], r, k, v)
  }

  function Times(b: bool): nat { if b then 1 else 0 }

  /** How one more action extends the counts. */
  lemma OneMoreCount(n: nat, acts: seq<Action>, a: Action, s: System, r: nat, k: string, v: string)
    requires Exec(n, true, acts) == Some(s)
    ensures
      var all := acts + [a];
      && (WasPut(all, r, k, v) <==> a == Put(r, k, v) || WasPut(acts, r, k, v))
      && Commits(all, k, v) == Commits(acts, k, v) + Times(a.Commit? && WasPut(acts, a.rank, k, v))
      && ReleasedCommits(n, all, k, v) ==
           (if Completes(s, a) then Commits(acts, k, v) else ReleasedCommits(n, acts, k, v))
      && DeliveredCommits(n, all, r, k, v) ==
           (if a == Deliver(r) then ReleasedCommits(n, acts, k, v) else DeliveredCommits(n, acts, r, k, v))
      && Own(all, r, k, v) == if a == Put(r, k, v) then 1 else if a == Deliver(r) then 0 else Own(acts, r, k, v)
  {
    hide Completes;
    var all := acts + [a];
    assert all[..|all| - 1] == acts && all[|all| - 1] == a;
  }

  lemma {:induction false} NeverCommitted(acts: seq<Action>, k: string, v: string)
    requires forall o :: !WasPut(acts, o, k, v)
    ensures Commits(acts, k, v) == 0
  {
    if acts != [] {
      var before := acts[..|acts| - 1];
      forall o ensures !WasPut(before, o, k, v) { assert !WasPut(acts, o, k, v); }
      NeverCommitted(before, k, v);
    }
  }

  // ----- copies in the tables

  function Copies(es: S.Store, k: string, v: string, state: S.KeyState): nat {
    multiset(es)[S.Entry(k, v, state)]
  }

  function Unsent(master: Option<V.Master>, k: string, v: string): nat {
    if master.None? then 0 else multiset(master.value)[V.Held(k, v, false)]
  }

  lemma PutCopies(es: S.Store, k: string, v: string, k': string, v': string)
    ensures
      var r := S.Put(es, k, v, true, true);
      && Copies(r, k', v', S.Local) == Copies(es, k', v', S.Local) + Times(k' == k && v' == v)
      && Copies(r, k', v', S.Global) == Copies(es, k', v', S.Global)
      && Copies(r, k', v', S.Disabled) == Copies(es, k', v', S.Disabled)
  {
    hide S.Find;
  }

  lemma {:induction false} DisabledCopies(es: S.Store, k: string, v: string)
    ensures
      var r := S.DisableLocal(es);
      && Copies(r, k, v, S.Global) == Copies(es, k, v, S.Global) && Copies(r, k, v, S.Local) == 0
      && Copies(r, k, v, S.Disabled) == Copies(es, k, v, S.Disabled) + Copies(es, k, v, S.Local)
  {
    hide S.DisableLocal;
    if es == [] {
      assert S.DisableLocal(es) == [];
    } else {
      DisabledCopies(es[1..], k, v);
      assert es == [es[0]] + es[1..];
      assert S.DisableLocal(es) == [S.Disable(es[0])] + S.DisableLocal(es[1..]);
    }
  }

  lemma {:induction false} GlobalCopies(kvs: seq<S.KV>, k: string, v: string)
    ensures
      var r := S.GlobalEntries(kvs);
      && Copies(r, k, v, S.Global) == multiset(kvs)[S.KV(k, v)]
      && Copies(r, k, v, S.Local) == Copies(r, k, v, S.Disabled) == 0
  {
    hide S.GlobalEntries;
    if kvs == [] {
      assert S.GlobalEntries(kvs) == [];
    } else {
      GlobalCopies(kvs[1..], k, v);
      assert kvs == [kvs[0]] + kvs[1..];
      assert S.GlobalEntries(kvs) == [S.Entry(kvs[0].key, kvs[0].value, S.Global)] + S.GlobalEntries(kvs[1..]);
    }
  }

  lemma DeliveredCopies(es: S.Store, kvs: seq<S.KV>, k: string, v: string)
    ensures
      var r := S.Deliver(es, kvs, true);
      && Copies(r, k, v, S.Global) == Copies(es, k, v, S.Global) + multiset(kvs)[S.KV(k, v)]
      && Copies(r, k, v, S.Local) == 0
      && Copies(r, k, v, S.Disabled) == Copies(es, k, v, S.Disabled) + Copies(es, k, v, S.Local)
  {
    hide S.DisableLocal, S.PutAll, S.GlobalEntries;
    S.DeliverAppends(S.DisableLocal(es), kvs);
    DisabledCopies(es, k, v);
    GlobalCopies(kvs, k, v);
  }

  lemma KVsFirst(e: S.Entry, rest: S.Store)
    ensures S.KVs([e] + rest) == [S.KV(e.key, e.value)] + S.KVs(rest)
    ensures S.KVs([]) == []
  {
    hide S.KVs;
  }

  /** The pairs sent and the pairs shown, by the first entry. */
  lemma FirstEntry(es: S.Store)
    requires es != []
    ensures
      var kv := S.KV(es[0].key, es[0].value);
      && S.Committed(es) == (if es[0].state == S.Global then [] else [kv]) + S.Committed(es[1..])
      && S.KVs(S.Visible(es)) == (if es[0].state == S.Disabled then [] else [kv]) + S.KVs(S.Visible(es[1..]))
  {
    hide S.KVs;
    var ns, vs := S.NonGlobal(es[1..]), S.Visible(es[1..]);
    KVsFirst(es[0], ns);
    KVsFirst(es[0], vs);
    assert [] + ns == ns && [] + vs == vs;
    assert [] + S.KVs(ns) == S.KVs(ns) && [] + S.KVs(vs) == S.KVs(vs);
  }

  lemma {:induction false} CommittedCopies(es: S.Store, k: string, v: string)
    ensures multiset(S.Committed(es))[S.KV(k, v)] == Copies(es, k, v, S.Local) + Copies(es, k, v, S.Disabled)
  {
    hide S.KVs, S.Visible, S.Committed;
    if es == [] {
      NothingShown(es);
    } else {
      FirstEntry(es);
      CommittedCopies(es[1..], k, v);
      assert es == [es[0]] + es[1..];
    }
  }

  lemma {:induction false} VisibleCopies(es: S.Store, k: string, v: string)
    ensures multiset(S.KVs(S.Visible(es)))[S.KV(k, v)] == Copies(es, k, v, S.Local) + Copies(es, k, v, S.Global)
  {
    hide S.KVs, S.Visible, S.Committed;
    if es == [] {
      NothingShown(es);
    } else {
      FirstEntry(es);
      VisibleCopies(es[1..], k, v);
      assert es == [es[0]] + es[1..];
    }
  }

  lemma NothingShown(es: S.Store)
    requires es == []
    ensures S.KVs(S.Visible(es)) == [] && S.Committed(es) == []
  {
  }

  // ----- copies at the server

  lemma {:induction false} MergeAppends(hs: V.Master, kvs: seq<S.KV>)
    ensures V.Merge(hs, kvs, true) == hs + V.Move(kvs)
    decreases |kvs|
  {
    hide V.FindHeld, V.Move;
    if kvs == [] {
      assert hs + V.Move(kvs) == hs;
    } else {
      var h := V.Held(kvs[0].key, kvs[0].value, false);
      MergeAppends(hs + [h], kvs[1..]);
      assert V.Move(kvs) == [h] + V.Move(kvs[1..]);
      assert (hs + [h]) + V.Move(kvs[1..]) == hs + ([h] + V.Move(kvs[1..]));
    }
  }

  lemma {:induction false} MovedCopies(kvs: seq<S.KV>, k: string, v: string)
    ensures multiset(V.Move(kvs))[V.Held(k, v, false)] == multiset(kvs)[S.KV(k, v)]
  {
    hide V.Move;
    if kvs == [] {
      assert V.Move(kvs) == [];
    } else {
      MovedCopies(kvs[1..], k, v);
      assert kvs == [kvs[0]] + kvs[1..];
      assert V.Move(kvs) == [V.Held(kvs[0].key, kvs[0].value, false)] + V.Move(kvs[1..]);
    }
  }

  lemma ReceivedCopies(master: Option<V.Master>, kvs: seq<S.KV>, k: string, v: string)
    ensures Unsent(Receive(master, kvs, true), k, v) == Unsent(master, k, v) + multiset(kvs)[S.KV(k, v)]
  {
    hide V.Merge, V.Move;
    MovedCopies(kvs, k, v);
    if master.Some? { MergeAppends(master.value, kvs); }
  }

  lemma {:induction false} UnsentCopies(hs: V.Master, k: string, v: string)
    ensures multiset(V.Unsent(hs))[S.KV(k, v)] == multiset(hs)[V.Held(k, v, false)]
  {
    hide V.Unsent;
    UnsentUnfold(hs);
    if hs != [] {
      UnsentCopies(hs[1..], k, v);
      assert hs == [hs[0]] + hs[1..];
    }
  }

  lemma UnsentUnfold(hs: V.Master)
    ensures V.Unsent(hs) ==
            if hs == [] then []
            else if hs[0].sent then V.Unsent(hs[1..])
            else [S.KV(hs[0].key, hs[0].value)] + V.Unsent(hs[1..])
  {
    if hs != [] {
      var rest := V.Unsent(hs[1..]);
      assert [] + rest == rest;
    }
  }

  lemma SentCopies(hs: V.Master, k: string, v: string)
    ensures multiset(V.MarkSent(hs))[V.Held(k, v, false)] == 0
  {
    hide V.MarkSent;
    var r := V.MarkSent(hs);
    assert V.Held(k, v, false) !in r;
  }

  // ----- the invariant

  /** The copies of a pair with a rank, and on the way to it. */
  ghost predicate RankCounts(n: nat, acts: seq<Action>, x: Rank, r: nat, k: string, v: string) {
    && Own(acts, r, k, v) <= Times(WasPut(acts, r, k, v))
    && Copies(x.store, k, v, S.Local) == Own(acts, r, k, v)
    && Copies(x.store, k, v, S.Disabled) == Times(WasPut(acts, r, k, v)) - Own(acts, r, k, v)
    && Copies(x.store, k, v, S.Global) == DeliveredCommits(n, acts, r, k, v)
    && ReleasedCommits(n, acts, k, v) ==
         DeliveredCommits(n, acts, r, k, v) + if x.phase.Released? then multiset(x.phase.msg)[S.KV(k, v)] else 0
  }

  ghost predicate Counts(n: nat, acts: seq<Action>, s: System, k: string, v: string) {
    && (forall r :: 0 <= r < |s.ranks| ==> RankCounts(n, acts, s.ranks[r], r, k, v))
    && Commits(acts, k, v) == ReleasedCommits(n, acts, k, v) + Unsent(s.master, k, v)
    && (!s.updated ==> Unsent(s.master, k, v) == 0)
  }

  lemma PutCounts(n: nat, acts: seq<Action>, s: System, a: Action, k: string, v: string)
    requires Exec(n, true, acts) == Some(s) && Counts(n, acts, s, k, v)
    requires a.Put? && Enabled(s, a) && FreshKey(acts, a.key)
    ensures Counts(n, acts + [a], Step(s, a, true), k, v)
  {
    hide Exec, WasPut, Commits, ReleasedCommits, DeliveredCommits, Own, FreshKey, S.Put, Copies, Unsent;
    OneMoreCount(n, acts, a, s, 0, k, v);
    PutCopies(s.ranks[a.rank].store, a.key, a.value, k, v);
    forall r | 0 <= r < |s.ranks|
      ensures RankCounts(n, acts + [a], Step(s, a, true).ranks[r], r, k, v)
    {
      OneMoreCount(n, acts, a, s, r, k, v);
      assert RankCounts(n, acts, s.ranks[r], r, k, v);
      if a == Put(r, k, v) { FreshNotPut(acts, r, k, v); }
    }
  }

  lemma CommitCounts(n: nat, acts: seq<Action>, s: System, a: Action, k: string, v: string)
    requires Exec(n, true, acts) == Some(s) && Counts(n, acts, s, k, v) && a.Commit? && Enabled(s, a)
    ensures Counts(n, acts + [a], Step(s, a, true), k, v)
  {
    hide Exec, WasPut, Commits, ReleasedCommits, DeliveredCommits, Own, S.Compact, S.Committed, Receive, Unsent;
    var x := s.ranks[a.rank];
    OneMoreCount(n, acts, a, s, 0, k, v);
    S.CompactSpec(x.store);
    CommittedCopies(x.store, k, v);
    ReceivedCopies(s.master, S.Committed(x.store), k, v);
    assert RankCounts(n, acts, x, a.rank, k, v);
    forall r | 0 <= r < |s.ranks|
      ensures RankCounts(n, acts + [a], Step(s, a, true).ranks[r], r, k, v)
    {
      OneMoreCount(n, acts, a, s, r, k, v);
      assert RankCounts(n, acts, s.ranks[r], r, k, v);
    }
  }

  lemma EnterCounts(n: nat, acts: seq<Action>, s: System, a: Action, k: string, v: string)
    requires Exec(n, true, acts) == Some(s) && Counts(n, acts, s, k, v) && a.Enter? && Enabled(s, a)
    ensures Counts(n, acts + [a], Step(s, a, true), k, v)
  {
    hide Exec, WasPut, Commits, ReleasedCommits, DeliveredCommits, Own, Copies, Unsent, Reply, Release, AllWaiting;
    var w := WithRank(s, a.rank, s.ranks[a.rank].(phase := Waiting));
    OneMoreCount(n, acts, a, s, 0, k, v);
    ReleaseCounts(w, k, v);
    var t := Step(s, a, true);
    forall r | 0 <= r < |s.ranks|
      ensures RankCounts(n, acts + [a], t.ranks[r], r, k, v)
    {
      OneMoreCount(n, acts, a, s, r, k, v);
      assert RankCounts(n, acts, s.ranks[r], r, k, v);
      if AllWaiting(w) { WaitingAll(w, r); }
    }
  }

  lemma WaitingAll(w: System, r: nat)
    requires AllWaiting(w) && r < |w.ranks|
    ensures w.ranks[r].phase == Waiting
    ensures Release(w).ranks[r] == w.ranks[r].(phase := Released(Reply(w)))
  {
    hide Reply;
  }

  /** A complete barrier hands out every copy that was not sent before. */
  lemma ReleaseCounts(w: System, k: string, v: string)
    ensures !Release(w).updated
    ensures Unsent(Release(w).master, k, v) == (if w.updated then 0 else Unsent(w.master, k, v))
    ensures multiset(Reply(w))[S.KV(k, v)] == if w.updated then Unsent(w.master, k, v) else 0
  {
    hide V.MarkSent, V.Unsent;
    if w.master.Some? {
      UnsentCopies(w.master.value, k, v);
      SentCopies(w.master.value, k, v);
    }
  }

  lemma DeliverCounts(n: nat, acts: seq<Action>, s: System, a: Action, k: string, v: string)
    requires Exec(n, true, acts) == Some(s) && Counts(n, acts, s, k, v) && a.Deliver? && Enabled(s, a)
    ensures Counts(n, acts + [a], Step(s, a, true), k, v)
  {
    hide Exec, WasPut, Commits, ReleasedCommits, DeliveredCommits, Own, Copies, Unsent, S.Deliver;
    var x := s.ranks[a.rank];
    OneMoreCount(n, acts, a, s, 0, k, v);
    DeliveredCopies(x.store, x.phase.msg, k, v);
    forall r | 0 <= r < |s.ranks|
      ensures RankCounts(n, acts + [a], Step(s, a, true).ranks[r], r, k, v)
    {
      OneMoreCount(n, acts, a, s, r, k, v);
      assert RankCounts(n, acts, s.ranks[r], r, k, v);
    }
  }

  lemma {:induction false} RunCounts(n: nat, acts: seq<Action>, k: string, v: string)
    requires Exec(n, true, acts).Some?
    ensures Counts(n, acts, Exec(n, true, acts).value, k, v)
  {
    hide Counts, Step, FreshKey, Enabled;
    if acts == [] {
      InitCounts(n, k, v);
    } else {
      var before, a := acts[..|acts| - 1], acts[|acts| - 1];
      var s := Exec(n, true, before).value;
      RunCounts(n, before, k, v);
      assert before + [a] == acts;
      match a
      case Put(_, _, _) => PutCounts(n, before, s, a, k, v);
      case Commit(_) => CommitCounts(n, before, s, a, k, v);
      case Enter(_) => EnterCounts(n, before, s, a, k, v);
      case Deliver(_) => DeliverCounts(n, before, s, a, k, v);
    }
  }

  lemma InitCounts(n: nat, k: string, v: string)
    ensures Counts(n, [], Init(n), k, v)
  {
  }

  // ----- what the iterator of a rank shows

  function Shown(n: nat, acts: seq<Action>, r: nat, k: string, v: string): nat
    requires Exec(n, true, acts).Some? && r < n
  {
    multiset(S.KVs(S.Visible(Exec(n, true, acts).value.ranks[r].store)))[S.KV(k, v)]
  }

  /** After any run a rank is shown a pair once for its own put, until it returns from a
      barrier, and once for every commit of the pair's rank, since the put, that came before
      a barrier from which it has returned. */
  lemma ShownExactly(n: nat, acts: seq<Action>, r: nat, k: string, v: string)
    requires Exec(n, true, acts).Some? && r < n
    ensures Shown(n, acts, r, k, v) == Own(acts, r, k, v) + DeliveredCommits(n, acts, r, k, v)
  {
    hide Exec, WasPut, Commits, ReleasedCommits, DeliveredCommits, Own, S.Visible, S.KVs;
    RunCounts(n, acts, k, v);
    var x := Exec(n, true, acts).value.ranks[r];
    assert RankCounts(n, acts, x, r, k, v);
    VisibleCopies(x.store, k, v);
  }

  /** While a rank is shown its own put it has not had the pair delivered. */
  lemma {:induction false} OwnNotDelivered(n: nat, acts: seq<Action>, r: nat, k: string, v: string)
    requires Exec(n, true, acts).Some? && r < n
    ensures Own(acts, r, k, v) <= 1
    ensures Own(acts, r, k, v) == 1 ==> DeliveredCommits(n, acts, r, k, v) == 0
  {
    hide Completes, Commits, ReleasedCommits, Step, Enabled, FreshKey;
    if acts != [] {
      var before, a := acts[..|acts| - 1], acts[|acts| - 1];
      OwnNotDelivered(n, before, r, k, v);
      if a == Put(r, k, v) {
        forall o ensures !WasPut(before, o, k, v) { FreshNotPut(before, o, k, v); }
        NeverCommitted(before, k, v);
        DeliveredBound(n, before, r, k, v);
      }
    }
  }

  lemma DeliveredBound(n: nat, acts: seq<Action>, r: nat, k: string, v: string)
    requires Exec(n, true, acts).Some? && r < n
    ensures DeliveredCommits(n, acts, r, k, v) <= ReleasedCommits(n, acts, k, v) <= Commits(acts, k, v)
  {
    hide Exec, WasPut, Commits, ReleasedCommits, DeliveredCommits, Own, Copies, Unsent;
    RunCounts(n, acts, k, v);
    assert RankCounts(n, acts, Exec(n, true, acts).value.ranks[r], r, k, v);
  }

  /** The iterator shows no duplicate of a pair exactly when the pair's rank committed at
      most once, between the put and the last barrier this rank has returned from; and it
      shows the pair once exactly when the rank has its own put still in view, or there was
      one such commit. */
  lemma NoDuplicateIff(n: nat, acts: seq<Action>, r: nat, k: string, v: string)
    requires Exec(n, true, acts).Some? && r < n
    ensures Shown(n, acts, r, k, v) <= 1 <==> DeliveredCommits(n, acts, r, k, v) <= 1
    ensures Shown(n, acts, r, k, v) == 1 <==>
              Own(acts, r, k, v) == 1 || DeliveredCommits(n, acts, r, k, v) == 1
  {
    hide Exec, Commits, ReleasedCommits, DeliveredCommits, Own, Shown;
    ShownExactly(n, acts, r, k, v);
    OwnNotDelivered(n, acts, r, k, v);
  }

  /** A rank that commits only once after its put causes no duplicate. */
  lemma OneCommitNoDuplicate(n: nat, acts: seq<Action>, r: nat, k: string, v: string)
    requires Exec(n, true, acts).Some? && r < n && Commits(acts, k, v) <= 1
    ensures Shown(n, acts, r, k, v) <= 1
  {
    hide Exec, Commits, ReleasedCommits, DeliveredCommits, Own, Shown;
    NoDuplicateIff(n, acts, r, k, v);
    DeliveredBound(n, acts, r, k, v);
  }

  // ----- a run that shows a pair twice

  lemma ExecNext(n: nat, acts: seq<Action>, a: Action, s: System)
    requires Exec(n, true, acts) == Some(s) && Enabled(s, a) && (a.Put? ==> FreshKey(acts, a.key))
    ensures Exec(n, true, acts + [a]) == Some(Step(s, a, true))
  {
    hide Step;
    var all := acts + [a];
    assert all[..|all| - 1] == acts && all[|all| - 1] == a;
  }

  /** A run of a single rank, between its calls, that has put the pair. */
  ghost predicate Alone(acts: seq<Action>, k: string, v: string, commits: nat, delivered: nat) {
    && Exec(1, true, acts).Some? && Exec(1, true, acts).value.ranks[0].phase == Running
    && WasPut(acts, 0, k, v) && Commits(acts, k, v) == commits
    && DeliveredCommits(1, acts, 0, k, v) == delivered
  }

  lemma AlonePuts(k: string, v: string)
    ensures Alone([Put(0, k, v)], k, v, 0, 0)
  {
    hide S.Put;
    var a := Put(0, k, v);
    assert [] + [a] == [a];
    ExecNext(1, [], a, Init(1));
    OneMoreCount(1, [], a, Init(1), 0, k, v);
  }

  lemma AloneCommits(acts: seq<Action>, k: string, v: string, commits: nat, delivered: nat)
    requires Alone(acts, k, v, commits, delivered)
    ensures Alone(acts + [Commit(0)], k, v, commits + 1, delivered)
  {
    hide Exec, WasPut, Commits, ReleasedCommits, DeliveredCommits, Own, S.Compact, S.Committed, Receive;
    var s := Exec(1, true, acts).value;
    ExecNext(1, acts, Commit(0), s);
    OneMoreCount(1, acts, Commit(0), s, 0, k, v);
  }

  lemma AloneBarrier(acts: seq<Action>, k: string, v: string, commits: nat, delivered: nat)
    requires Alone(acts, k, v, commits, delivered)
    ensures Alone(acts + [Enter(0)] + [Deliver(0)], k, v, commits, commits)
    ensures Own(acts + [Enter(0)] + [Deliver(0)], 0, k, v) == 0
  {
    hide Exec, WasPut, Commits, ReleasedCommits, DeliveredCommits, Own, S.Deliver, Reply;
    var s := Exec(1, true, acts).value;
    var t := Step(s, Enter(0), true);
    ExecNext(1, acts, Enter(0), s);
    OneMoreCount(1, acts, Enter(0), s, 0, k, v);
    ExecNext(1, acts + [Enter(0)], Deliver(0), t);
    OneMoreCount(1, acts + [Enter(0)], Deliver(0), t, 0, k, v);
  }

  /** One rank alone: after a put and twice a commit and a barrier it is shown the pair
      twice, because its hidden copy is sent again. */
  lemma SecondCommitDuplicates(k: string, v: string)
    ensures
      var once := [Put(0, k, v)] + [Commit(0)] + [Enter(0)] + [Deliver(0)];
      var twice := once + [Commit(0)] + [Enter(0)] + [Deliver(0)];
      Exec(1, true, twice).Some? && Shown(1, twice, 0, k, v) == 2
  {
    hide Exec, WasPut, Commits, ReleasedCommits, DeliveredCommits, Own, Shown;
    var put := [Put(0, k, v)];
    AlonePuts(k, v);
    AloneCommits(put, k, v, 0, 0);
    AloneBarrier(put + [Commit(0)], k, v, 1, 0);
    var once := put + [Commit(0)] + [Enter(0)] + [Deliver(0)];
    AloneCommits(once, k, v, 1, 1);
    AloneBarrier(once + [Commit(0)], k, v, 2, 1);
    ShownExactly(1, once + [Commit(0)] + [Enter(0)] + [Deliver(0)], 0, k, v);
  }
}

/** A whole PMI-1 job: n ranks (contribs/pmi/pmi.c) and the srun server
    (src/api/pmi_server.c), sharing one keyval space. Steps of different ranks interleave
    in any order; the server's reply reaches every rank on its own. */
module PmiSystem {
  import opened CText
  import opened PmiStore
  import opened PmiServer
  import PmiClient

  /** Where a rank is: between calls, inside PMI_Barrier waiting for the others, or with
      the server's reply on its way. */
  datatype Phase = Running | Waiting | Released(msg: seq<KV>)

  datatype Rank = Rank(store: Store, phase: Phase)

  /** master is None until the first pair is committed; updated is kvs_updated. */
  datatype System = System(ranks: seq<Rank>, master: Option<Master>, updated: bool)

  datatype Action =
    | Put(rank: nat, key: string, value: string)
    | Commit(rank: nat)
    | Enter(rank: nat)    // the barrier request of a rank reaches the server
    | Deliver(rank: nat)  // the server's reply reaches a rank

  // ----- the steps

  function Init(n: nat): System {
    System(seq(n, _ => Rank([], Running)), None, false)
  }

  function WithRank(s: System, r: nat, x: Rank): System
    requires r < |s.ranks|
  {
    s.(ranks := s.ranks[r := x])
  }

  /** The server takes in the pairs of a commit; a commit without pairs names no space. */
  function Receive(master: Option<Master>, kvs: seq<KV>, noDup: bool): Option<Master> {
    if kvs == [] then master
    else if master.None? then Some(Move(kvs))
    else Some(Merge(master.value, kvs, noDup))
  }

  predicate AllWaiting(s: System) { forall i :: 0 <= i < |s.ranks| ==> s.ranks[i].phase == Waiting }

  /** The pairs sent when the barrier is complete: the new ones, if there was any commit. */
  function Reply(s: System): seq<KV> {
    if s.updated && s.master.Some? then Unsent(s.master.value) else []
  }

  /** _kvs_xmit_tasks. */
  function Release(s: System): (t: System)
    ensures |t.ranks| == |s.ranks|
  {
    System(
      seq(|s.ranks|, i requires 0 <= i < |s.ranks| => s.ranks[i].(phase := Released(Reply(s)))),
      if s.updated && s.master.Some? then Some(MarkSent(s.master.value)) else s.master,
      false)
  }

  predicate Enabled(s: System, a: Action) {
    && a.rank < |s.ranks|
    && if a.Deliver? then s.ranks[a.rank].phase.Released? else s.ranks[a.rank].phase == Running
  }

  function Step(s: System, a: Action, noDup: bool): (t: System)
    requires Enabled(s, a)
    ensures |t.ranks| == |s.ranks|
  {
    var x := s.ranks[a.rank];
    match a
    case Put(r, k, v) => WithRank(s, r, x.(store := PmiStore.Put(x.store, k, v, true, noDup)))
    case Commit(r) =>
      WithRank(s, r, x.(store := Compact(x.store)))
      .(master := Receive(s.master, Committed(x.store), noDup), updated := true)
    case Enter(r) =>
      var t := WithRank(s, r, x.(phase := Waiting));
      if AllWaiting(t) then Release(t) else t
    case Deliver(r) => WithRank(s, r, Rank(PmiStore.Deliver(x.store, x.phase.msg, noDup), Running))
  }

  // ----- runs

  /** Keys put to the space are unique, as the interface demands of its callers. */
  predicate FreshKey(acts: seq<Action>, k: string) {
    forall i :: 0 <= i < |acts| && acts[i].Put? ==> acts[i].key != k
  }

  /** The state after a run from the start, if every action was possible in its turn. */
  function Exec(n: nat, noDup: bool, acts: seq<Action>): (s: Option<System>)
    ensures s.Some? ==> |s.value.ranks| == n
  {
    if acts == [] then Some(Init(n))
    else
      var before, a := acts[..|acts| - 1], acts[|acts| - 1];
      match Exec(n, noDup, before)
      case None => None
      case Some(s) =>
        if Enabled(s, a) && (a.Put? ==> FreshKey(before, a.key)) then Some(Step(s, a, noDup)) else None
  }

  // ----- what has happened in a run

  /** Rank o has put the pair. */
  predicate WasPut(acts: seq<Action>, o: nat, k: string, v: string) {
    if acts == [] then false
    else acts[|acts| - 1] == Put(o, k, v) || WasPut(acts[..|acts| - 1], o, k, v)
  }

  /** A rank that had put the pair has committed afterwards. */
  predicate WasCommitted(acts: seq<Action>, k: string, v: string) {
    if acts == [] then false
    else
      var before, a := acts[..|acts| - 1], acts[|acts| - 1];
      (a.Commit? && WasPut(before, a.rank, k, v)) || WasCommitted(before, k, v)
  }

  /** The action is the last rank reaching the barrier. */
  predicate Completes(s: System, a: Action) {
    a.Enter? && a.rank < |s.ranks| && AllWaiting(WithRank(s, a.rank, s.ranks[a.rank].(phase := Waiting)))
  }

  /** A barrier was completed after the pair was committed. */
  predicate WasReleased(n: nat, noDup: bool, acts: seq<Action>, k: string, v: string) {
    if acts == [] then false
    else
      var before, a := acts[..|acts| - 1], acts[|acts| - 1];
      var s := Exec(n, noDup, before);
      (s.Some? && Completes(s.value, a) && WasCommitted(before, k, v)) || WasReleased(n, noDup, before, k, v)
  }

  /** Rank r has returned from such a barrier. */
  predicate WasDelivered(n: nat, noDup: bool, acts: seq<Action>, r: nat, k: string, v: string) {
    if acts == [] then false
    else
      var before, a := acts[..|acts| - 1], acts[|acts| - 1];
      (a == Deliver(r) && WasReleased(n, noDup, before, k, v)) || WasDelivered(n, noDup, before, r, k, v)
  }

  // ----- the invariant

  predicate MasterHas(s: System, k: string, v: string) { s.master.Some? && Has(s.master.value, k, v) }

  predicate MasterSent(s: System, k: string, v: string) { s.master.Some? && HasSent(s.master.value, k, v) }

  predicate InTransit(x: Rank, k: string, v: string) { x.phase.Released? && Carries(x.phase.msg, k, v) }

  /** What the state shows of a pair is exactly what has happened to it. */
  ghost predicate InvAt(n: nat, noDup: bool, acts: seq<Action>, s: System, k: string, v: string) {
    && (forall r :: 0 <= r < |s.ranks| ==> RankInv(n, noDup, acts, s.ranks[r], r, k, v))
    && (MasterHas(s, k, v) <==> WasCommitted(acts, k, v))
    && (MasterSent(s, k, v) ==> WasReleased(n, noDup, acts, k, v))
  }

  ghost predicate RankInv(n: nat, noDup: bool, acts: seq<Action>, x: Rank, r: nat, k: string, v: string) {
    && (Owns(x.store, k, v) <==> WasPut(acts, r, k, v))
    && (Holds(x.store, k, v) <==> WasPut(acts, r, k, v) || WasDelivered(n, noDup, acts, r, k, v))
    && (InTransit(x, k, v) ==> WasReleased(n, noDup, acts, k, v))
    && (WasReleased(n, noDup, acts, k, v) ==> Holds(x.store, k, v) || InTransit(x, k, v))
  }

  ghost predicate Inv(n: nat, noDup: bool, acts: seq<Action>, s: System) {
    && (!s.updated && s.master.Some? ==> AllSent(s.master.value))
    && forall k, v :: InvAt(n, noDup, acts, s, k, v)
  }

  // ----- one value per key

  predicate UniqueKeys(acts: seq<Action>) {
    if acts == [] then true
    else
      var before, a := acts[..|acts| - 1], acts[|acts| - 1];
      UniqueKeys(before) && (a.Put? ==> FreshKey(before, a.key))
  }

  lemma {:induction false} ExecUnique(n: nat, noDup: bool, acts: seq<Action>)
    requires Exec(n, noDup, acts).Some?
    ensures UniqueKeys(acts)
  {
    if acts != [] { ExecUnique(n, noDup, acts[..|acts| - 1]); }
  }

  lemma {:induction false} FreshNotPut(acts: seq<Action>, o: nat, k: string, v: string)
    requires FreshKey(acts, k)
    ensures !WasPut(acts, o, k, v)
  {
    if acts != [] { FreshNotPut(acts[..|acts| - 1], o, k, v); }
  }

  /** No key is ever put with two values, or by two ranks. */
  lemma {:induction false} PutOnce(acts: seq<Action>, o: nat, p: nat, k: string, v: string, w: string)
    requires UniqueKeys(acts) && WasPut(acts, o, k, v) && WasPut(acts, p, k, w)
    ensures o == p && v == w
  {
    var before, a := acts[..|acts| - 1], acts[|acts| - 1];
    if a.Put? && a.key == k {
      FreshNotPut(before, o, k, v);
      FreshNotPut(before, p, k, w);
    } else {
      PutOnce(before, o, p, k, v, w);
    }
  }

  lemma {:induction false} CommittedWasPut(acts: seq<Action>, k: string, v: string) returns (o: nat)
    requires WasCommitted(acts, k, v)
    ensures WasPut(acts, o, k, v)
  {
    var before, a := acts[..|acts| - 1], acts[|acts| - 1];
    if a.Commit? && WasPut(before, a.rank, k, v) { o := a.rank; } else { o := CommittedWasPut(before, k, v); }
  }

  lemma {:induction false} ReleasedWasCommitted(n: nat, noDup: bool, acts: seq<Action>, k: string, v: string)
    requires WasReleased(n, noDup, acts, k, v)
    ensures WasCommitted(acts, k, v)
  {
    hide Exec, Completes;
    var before := acts[..|acts| - 1];
    if !WasCommitted(before, k, v) { ReleasedWasCommitted(n, noDup, before, k, v); }
  }

  lemma {:induction false} DeliveredWasReleased(n: nat, noDup: bool, acts: seq<Action>, r: nat, k: string, v: string)
    requires WasDelivered(n, noDup, acts, r, k, v)
    ensures WasReleased(n, noDup, acts, k, v)
  {
    hide Exec, Completes, WasCommitted;
    var before := acts[..|acts| - 1];
    if !WasReleased(n, noDup, before, k, v) { DeliveredWasReleased(n, noDup, before, r, k, v); }
  }

  /** The pair has been put by someone. */
  ghost predicate Known(acts: seq<Action>, k: string, v: string) { exists o :: WasPut(acts, o, k, v) }

  lemma KnownOnce(acts: seq<Action>, k: string, v: string, w: string)
    requires UniqueKeys(acts) && Known(acts, k, v) && Known(acts, k, w)
    ensures v == w
  {
    var o :| WasPut(acts, o, k, v);
    var p :| WasPut(acts, p, k, w);
    PutOnce(acts, o, p, k, v, w);
  }

  /** Every copy of a pair, wherever it is, was put by someone. */
  lemma CopiesAreKnown(n: nat, noDup: bool, acts: seq<Action>, s: System, r: nat, k: string, v: string)
    requires Inv(n, noDup, acts, s) && r < |s.ranks|
    ensures Holds(s.ranks[r].store, k, v) ==> Known(acts, k, v)
    ensures InTransit(s.ranks[r], k, v) ==> Known(acts, k, v)
    ensures MasterHas(s, k, v) ==> Known(acts, k, v)
  {
    hide Exec, WasPut, WasCommitted, WasReleased, WasDelivered, Holds, InTransit, MasterHas, MasterSent, AllSent;
    assert InvAt(n, noDup, acts, s, k, v);
    assert RankInv(n, noDup, acts, s.ranks[r], r, k, v);
    if WasDelivered(n, noDup, acts, r, k, v) { DeliveredWasReleased(n, noDup, acts, r, k, v); }
    if WasReleased(n, noDup, acts, k, v) { ReleasedWasCommitted(n, noDup, acts, k, v); }
    if WasCommitted(acts, k, v) { var o := CommittedWasPut(acts, k, v); }
  }

  // ----- every step keeps the invariant

  /** How one more action extends what has happened. */
  lemma OneMore(n: nat, noDup: bool, acts: seq<Action>, a: Action, s: System, r: nat, k: string, v: string)
    requires Exec(n, noDup, acts) == Some(s)
    ensures
      var all := acts + [a];
      && (WasPut(all, r, k, v) <==> a == Put(r, k, v) || WasPut(acts, r, k, v))
      && (WasCommitted(all, k, v) <==> (a.Commit? && WasPut(acts, a.rank, k, v)) || WasCommitted(acts, k, v))
      && (WasReleased(n, noDup, all, k, v) <==>
            (Completes(s, a) && WasCommitted(acts, k, v)) || WasReleased(n, noDup, acts, k, v))
      && (WasDelivered(n, noDup, all, r, k, v) <==>
            (a == Deliver(r) && WasReleased(n, noDup, acts, k, v)) || WasDelivered(n, noDup, acts, r, k, v))
  {
    hide Completes;
    var all := acts + [a];
    assert all[..|all| - 1] == acts && all[|all| - 1] == a;
  }

  lemma InitInv(n: nat, noDup: bool)
    ensures Inv(n, noDup, [], Init(n))
  {
  }

  lemma UnknownKey(n: nat, noDup: bool, acts: seq<Action>, s: System, r: nat, k: string)
    requires Inv(n, noDup, acts, s) && r < |s.ranks| && FreshKey(acts, k)
    ensures forall v :: OnlyValue(s.ranks[r].store, k, v)
  {
    hide Inv, FreshKey, WasPut;
    var es := s.ranks[r].store;
    forall i | 0 <= i < |es| ensures es[i].key != k {
      if es[i].key == k {
        var v := es[i].value;
        assert Holds(es, k, v);
        CopiesAreKnown(n, noDup, acts, s, r, k, v);
        var o :| WasPut(acts, o, k, v);
        FreshNotPut(acts, o, k, v);
      }
    }
  }

  lemma PutKeepsInv(n: nat, noDup: bool, acts: seq<Action>, s: System, r0: nat, k0: string, v0: string,
                    k: string, v: string)
    requires Exec(n, noDup, acts) == Some(s) && Inv(n, noDup, acts, s)
    requires Enabled(s, Put(r0, k0, v0)) && FreshKey(acts, k0)
    ensures InvAt(n, noDup, acts + [Put(r0, k0, v0)], Step(s, Put(r0, k0, v0), noDup), k, v)
  {
    hide Exec, WasPut, WasCommitted, WasReleased, WasDelivered, Holds, Owns;
    hide OnlyValue, Has, HasSent, PmiStore.Put, FreshKey, Carries, AllSent;
    var a := Put(r0, k0, v0);
    var t := Step(s, a, noDup);
    assert InvAt(n, noDup, acts, s, k, v);
    UnknownKey(n, noDup, acts, s, r0, k0);
    PutHolds(s.ranks[r0].store, k0, v0, true, noDup, k, v);
    OneMore(n, noDup, acts, a, s, 0, k, v);
    forall r | 0 <= r < |t.ranks| ensures RankInv(n, noDup, acts + [a], t.ranks[r], r, k, v) {
      assert RankInv(n, noDup, acts, s.ranks[r], r, k, v);
      OneMore(n, noDup, acts, a, s, r, k, v);
    }
  }

  /** All pairs a rank would commit agree with the master copy and with each other. */
  lemma CommitConsistent(n: nat, noDup: bool, acts: seq<Action>, s: System, r: nat)
    requires UniqueKeys(acts) && Inv(n, noDup, acts, s) && r < |s.ranks| && s.master.Some?
    ensures PmiServer.Consistent(s.master.value, Committed(s.ranks[r].store))
  {
    hide Inv, UniqueKeys, Known, Committed, Owns;
    var es, hs := s.ranks[r].store, s.master.value;
    var kvs := Committed(es);
    forall kv | kv in kvs ensures Known(acts, kv.key, kv.value) {
      CommittedCarries(es, kv.key, kv.value);
      OwnsHolds(es, kv.key, kv.value);
      CopiesAreKnown(n, noDup, acts, s, r, kv.key, kv.value);
    }
    forall kv | kv in kvs ensures OnlyHeld(hs, kv.key, kv.value) {
      forall i | 0 <= i < |hs| && hs[i].key == kv.key ensures hs[i].value == kv.value {
        assert Has(hs, kv.key, hs[i].value);
        CopiesAreKnown(n, noDup, acts, s, r, kv.key, hs[i].value);
        KnownOnce(acts, kv.key, hs[i].value, kv.value);
      }
    }
    forall i, j | 0 <= i < |kvs| && 0 <= j < |kvs| && kvs[i].key == kvs[j].key ensures kvs[i].value == kvs[j].value {
      assert kvs[i] in kvs && kvs[j] in kvs;
      KnownOnce(acts, kvs[i].key, kvs[i].value, kvs[j].value);
    }
  }

  lemma OwnsHolds(es: Store, k: string, v: string)
    ensures Owns(es, k, v) ==> Holds(es, k, v)
  {
  }

  lemma ReceiveHas(n: nat, noDup: bool, acts: seq<Action>, s: System, r: nat, k: string, v: string)
    requires UniqueKeys(acts) && Inv(n, noDup, acts, s) && r < |s.ranks|
    ensures
      var m := Receive(s.master, Committed(s.ranks[r].store), noDup);
      && (m.Some? && Has(m.value, k, v) <==> MasterHas(s, k, v) || Owns(s.ranks[r].store, k, v))
      && (m.Some? && HasSent(m.value, k, v) ==> MasterSent(s, k, v))
  {
    hide Inv, UniqueKeys, Committed, Owns, Has, HasSent, Merge;
    var es := s.ranks[r].store;
    var kvs := Committed(es);
    CommittedCarries(es, k, v);
    MoveHas(kvs, k, v);
    if s.master.Some? {
      CommitConsistent(n, noDup, acts, s, r);
      MergeHas(s.master.value, kvs, noDup, k, v);
    }
  }

  lemma CommitKeepsInv(n: nat, noDup: bool, acts: seq<Action>, s: System, r0: nat, k: string, v: string)
    requires Exec(n, noDup, acts) == Some(s) && Inv(n, noDup, acts, s) && UniqueKeys(acts) && Enabled(s, Commit(r0))
    ensures InvAt(n, noDup, acts + [Commit(r0)], Step(s, Commit(r0), noDup), k, v)
  {
    hide Exec, WasPut, WasCommitted, WasReleased, WasDelivered, Holds, Owns;
    hide Has, HasSent, Compact, Committed, Receive, Carries, UniqueKeys, AllSent;
    var a := Commit(r0);
    var t := Step(s, a, noDup);
    assert InvAt(n, noDup, acts, s, k, v);
    assert RankInv(n, noDup, acts, s.ranks[r0], r0, k, v);
    CompactHolds(s.ranks[r0].store, k, v);
    ReceiveHas(n, noDup, acts, s, r0, k, v);
    OneMore(n, noDup, acts, a, s, 0, k, v);
    forall r | 0 <= r < |t.ranks| ensures RankInv(n, noDup, acts + [a], t.ranks[r], r, k, v) {
      assert RankInv(n, noDup, acts, s.ranks[r], r, k, v);
      OneMore(n, noDup, acts, a, s, r, k, v);
    }
  }

  lemma EnterKeepsInv(n: nat, noDup: bool, acts: seq<Action>, s: System, r0: nat, k: string, v: string)
    requires Exec(n, noDup, acts) == Some(s) && Inv(n, noDup, acts, s) && Enabled(s, Enter(r0))
    requires !Completes(s, Enter(r0))
    ensures InvAt(n, noDup, acts + [Enter(r0)], Step(s, Enter(r0), noDup), k, v)
  {
    hide Exec, WasPut, WasCommitted, WasReleased, WasDelivered, Holds;
    hide Owns, Has, HasSent, Carries, AllWaiting, Release, AllSent;
    var a := Enter(r0);
    var t := Step(s, a, noDup);
    assert InvAt(n, noDup, acts, s, k, v);
    OneMore(n, noDup, acts, a, s, 0, k, v);
    forall r | 0 <= r < |t.ranks| ensures RankInv(n, noDup, acts + [a], t.ranks[r], r, k, v) {
      assert RankInv(n, noDup, acts, s.ranks[r], r, k, v);
      OneMore(n, noDup, acts, a, s, r, k, v);
    }
  }

  /** When the barrier completes, a committed pair was sent before or is sent now. */
  lemma ReplyCovers(s: System, k: string, v: string)
    requires !s.updated && s.master.Some? ==> AllSent(s.master.value)
    ensures Carries(Reply(s), k, v) ==> MasterHas(s, k, v)
    ensures MasterHas(s, k, v) ==> MasterSent(s, k, v) || Carries(Reply(s), k, v)
    ensures MasterHas(Release(s), k, v) <==> MasterHas(s, k, v)
    ensures !s.updated ==> (MasterSent(Release(s), k, v) <==> MasterSent(s, k, v))
    ensures s.master.Some? ==> AllSent(Release(s).master.value)
  {
    if s.master.Some? {
      UnsentHas(s.master.value, k, v);
      MarkSentHas(s.master.value, k, v);
    }
  }

  lemma SentIsHeld(s: System, k: string, v: string)
    ensures MasterSent(s, k, v) ==> MasterHas(s, k, v)
  {
  }

  lemma ReleaseKeepsInv(n: nat, noDup: bool, acts: seq<Action>, s: System, r0: nat, k: string, v: string)
    requires Exec(n, noDup, acts) == Some(s) && Inv(n, noDup, acts, s) && Enabled(s, Enter(r0))
    requires Completes(s, Enter(r0))
    ensures InvAt(n, noDup, acts + [Enter(r0)], Step(s, Enter(r0), noDup), k, v)
  {
    hide Exec, WasPut, WasCommitted, WasReleased, WasDelivered, Holds;
    hide Owns, Carries, AllSent, MasterHas, MasterSent, Reply;
    var a := Enter(r0);
    var u := WithRank(s, r0, s.ranks[r0].(phase := Waiting));
    var t := Step(s, a, noDup);
    assert t == Release(u) && Reply(u) == Reply(s) by { SameReply(s, u, k, v); }
    assert InvAt(n, noDup, acts, s, k, v);
    SameReply(s, u, k, v);
    ReplyCovers(u, k, v);
    SentIsHeld(t, k, v);
    OneMore(n, noDup, acts, a, s, 0, k, v);
    forall r | 0 <= r < |t.ranks| ensures RankInv(n, noDup, acts + [a], t.ranks[r], r, k, v) {
      assert RankInv(n, noDup, acts, s.ranks[r], r, k, v);
      OneMore(n, noDup, acts, a, s, r, k, v);
      assert u.ranks[r].phase == Waiting && u.ranks[r].store == s.ranks[r].store;
      assert !InTransit(s.ranks[r], k, v);
      assert t.ranks[r] == Rank(s.ranks[r].store, Released(Reply(u)));
    }
  }

  lemma SameReply(s: System, u: System, k: string, v: string)
    requires s.master == u.master && s.updated == u.updated
    ensures Reply(s) == Reply(u)
    ensures MasterHas(s, k, v) == MasterHas(u, k, v) && MasterSent(s, k, v) == MasterSent(u, k, v)
  {
  }

  /** The pairs on their way to a rank agree with what it holds and with each other. */
  lemma DeliverConsistent(n: nat, noDup: bool, acts: seq<Action>, s: System, r: nat)
    requires UniqueKeys(acts) && Inv(n, noDup, acts, s) && r < |s.ranks| && s.ranks[r].phase.Released?
    ensures PmiStore.Consistent(s.ranks[r].store, s.ranks[r].phase.msg)
  {
    hide Inv, UniqueKeys, Known;
    var es, kvs := s.ranks[r].store, s.ranks[r].phase.msg;
    forall kv | kv in kvs ensures Known(acts, kv.key, kv.value) {
      assert InTransit(s.ranks[r], kv.key, kv.value);
      CopiesAreKnown(n, noDup, acts, s, r, kv.key, kv.value);
    }
    forall kv | kv in kvs ensures OnlyValue(es, kv.key, kv.value) {
      forall i | 0 <= i < |es| && es[i].key == kv.key ensures es[i].value == kv.value {
        assert Holds(es, kv.key, es[i].value);
        CopiesAreKnown(n, noDup, acts, s, r, kv.key, es[i].value);
        KnownOnce(acts, kv.key, es[i].value, kv.value);
      }
    }
    forall i, j | 0 <= i < |kvs| && 0 <= j < |kvs| && kvs[i].key == kvs[j].key ensures kvs[i].value == kvs[j].value {
      assert kvs[i] in kvs && kvs[j] in kvs;
      KnownOnce(acts, kvs[i].key, kvs[i].value, kvs[j].value);
    }
  }

  lemma DeliverKeepsInv(n: nat, noDup: bool, acts: seq<Action>, s: System, r0: nat, k: string, v: string)
    requires Exec(n, noDup, acts) == Some(s) && Inv(n, noDup, acts, s) && UniqueKeys(acts) && Enabled(s, Deliver(r0))
    ensures InvAt(n, noDup, acts + [Deliver(r0)], Step(s, Deliver(r0), noDup), k, v)
  {
    hide Exec, WasPut, WasCommitted, WasReleased, WasDelivered, Holds;
    hide Owns, Has, HasSent, PmiStore.Deliver, Carries, UniqueKeys, AllSent;
    var a := Deliver(r0);
    var t := Step(s, a, noDup);
    assert InvAt(n, noDup, acts, s, k, v);
    DeliverConsistent(n, noDup, acts, s, r0);
    DeliverHolds(s.ranks[r0].store, s.ranks[r0].phase.msg, noDup, k, v);
    OneMore(n, noDup, acts, a, s, 0, k, v);
    forall r | 0 <= r < |t.ranks| ensures RankInv(n, noDup, acts + [a], t.ranks[r], r, k, v) {
      assert RankInv(n, noDup, acts, s.ranks[r], r, k, v);
      OneMore(n, noDup, acts, a, s, r, k, v);
    }
  }

  lemma StepKeepsInv(n: nat, noDup: bool, acts: seq<Action>, s: System, a: Action)
    requires Exec(n, noDup, acts) == Some(s) && Inv(n, noDup, acts, s) && UniqueKeys(acts)
    requires Enabled(s, a) && (a.Put? ==> FreshKey(acts, a.key))
    ensures Inv(n, noDup, acts + [a], Step(s, a, noDup))
  {
    hide Exec, InvAt, AllSent, Reply, FreshKey, UniqueKeys;
    var t := Step(s, a, noDup);
    if Completes(s, a) {
      var u := WithRank(s, a.rank, s.ranks[a.rank].(phase := Waiting));
      ReplyCovers(u, "", "");
    }
    forall k, v ensures InvAt(n, noDup, acts + [a], t, k, v) {
      match a
      case Put(r, k0, v0) => PutKeepsInv(n, noDup, acts, s, r, k0, v0, k, v);
      case Commit(r) => CommitKeepsInv(n, noDup, acts, s, r, k, v);
      case Enter(r) =>
        if Completes(s, a) {
          ReleaseKeepsInv(n, noDup, acts, s, r, k, v);
        } else {
          EnterKeepsInv(n, noDup, acts, s, r, k, v);
        }
      case Deliver(r) => DeliverKeepsInv(n, noDup, acts, s, r, k, v);
    }
  }

  /** The invariant holds after every run. */
  lemma {:induction false} RunKeepsInv(n: nat, noDup: bool, acts: seq<Action>)
    requires Exec(n, noDup, acts).Some?
    ensures Inv(n, noDup, acts, Exec(n, noDup, acts).value)
  {
    hide Inv, Step, Enabled, FreshKey, UniqueKeys;
    if acts == [] {
      InitInv(n, noDup);
    } else {
      var before, a := acts[..|acts| - 1], acts[|acts| - 1];
      RunKeepsInv(n, noDup, before);
      ExecUnique(n, noDup, before);
      assert before + [a] == acts;
      StepKeepsInv(n, noDup, before, Exec(n, noDup, before).value, a);
    }
  }

  // ----- visibility

  /** After every run, in either mode: a rank's get returns value v for key k exactly when
      the rank put that pair itself, or some rank put it, then committed, then a barrier
      was completed, and then this rank returned from it. */
  lemma VisibleExactly(n: nat, noDup: bool, acts: seq<Action>, r: nat, k: string, v: string)
    requires Exec(n, noDup, acts).Some? && r < n
    ensures Get(Exec(n, noDup, acts).value.ranks[r].store, k) == Some(v) <==>
      WasPut(acts, r, k, v) || WasDelivered(n, noDup, acts, r, k, v)
  {
    hide Exec, Get, WasPut, WasDelivered, WasReleased, WasCommitted, Holds, Owns, UniqueKeys;
    var s := Exec(n, noDup, acts).value;
    var es := s.ranks[r].store;
    RunKeepsInv(n, noDup, acts);
    ExecUnique(n, noDup, acts);
    assert InvAt(n, noDup, acts, s, k, v);
    assert RankInv(n, noDup, acts, s.ranks[r], r, k, v);
    GetFindsHeld(es, k, v);
    if Holds(es, k, v) {
      OneValueHeld(n, noDup, acts, s, r, k, v);
    }
  }

  lemma OneValueHeld(n: nat, noDup: bool, acts: seq<Action>, s: System, r: nat, k: string, v: string)
    requires UniqueKeys(acts) && Inv(n, noDup, acts, s) && r < |s.ranks| && Holds(s.ranks[r].store, k, v)
    ensures OnlyValue(s.ranks[r].store, k, v)
  {
    hide Inv, UniqueKeys, Known;
    var es := s.ranks[r].store;
    CopiesAreKnown(n, noDup, acts, s, r, k, v);
    forall i | 0 <= i < |es| && es[i].key == k ensures es[i].value == v {
      assert Holds(es, k, es[i].value);
      CopiesAreKnown(n, noDup, acts, s, r, k, es[i].value);
      KnownOnce(acts, k, es[i].value, v);
    }
  }

  // ----- the order of events behind a visible pair

  /** At position l the last rank reaches a barrier. */
  ghost predicate CompletesAt(n: nat, noDup: bool, acts: seq<Action>, l: nat) {
    l < |acts| && Exec(n, noDup, acts[..l]).Some? && Completes(Exec(n, noDup, acts[..l]).value, acts[l])
  }

  /** Put by o at i, committed by o at j, a barrier completed at l, delivered to r at m. */
  ghost predicate Ordered(n: nat, noDup: bool, acts: seq<Action>, r: nat, k: string, v: string,
                          o: nat, i: nat, j: nat, l: nat, m: nat) {
    && i < j < l < m < |acts|
    && acts[i] == Put(o, k, v) && acts[j] == Commit(o)
    && CompletesAt(n, noDup, acts, l) && acts[m] == Deliver(r)
  }

  lemma Prefixes(acts: seq<Action>, p: nat, q: nat)
    requires p <= q <= |acts|
    ensures acts[..q][..p] == acts[..p]
  {
  }

  lemma {:induction false} PutPersists(acts: seq<Action>, p: nat, o: nat, k: string, v: string)
    requires p <= |acts| && WasPut(acts[..p], o, k, v)
    ensures WasPut(acts, o, k, v)
    decreases |acts|
  {
    if p == |acts| {
      assert acts[..p] == acts;
    } else {
      Prefixes(acts, p, |acts| - 1);
      PutPersists(acts[..|acts| - 1], p, o, k, v);
    }
  }

  lemma {:induction false} CommittedPersists(acts: seq<Action>, p: nat, k: string, v: string)
    requires p <= |acts| && WasCommitted(acts[..p], k, v)
    ensures WasCommitted(acts, k, v)
    decreases |acts|
  {
    if p == |acts| {
      assert acts[..p] == acts;
    } else {
      Prefixes(acts, p, |acts| - 1);
      CommittedPersists(acts[..|acts| - 1], p, k, v);
    }
  }

  lemma {:induction false} ReleasedPersists(n: nat, noDup: bool, acts: seq<Action>, p: nat, k: string, v: string)
    requires p <= |acts| && WasReleased(n, noDup, acts[..p], k, v)
    ensures WasReleased(n, noDup, acts, k, v)
    decreases |acts|
  {
    hide Exec, Completes, WasCommitted;
    if p == |acts| {
      assert acts[..p] == acts;
    } else {
      Prefixes(acts, p, |acts| - 1);
      ReleasedPersists(n, noDup, acts[..|acts| - 1], p, k, v);
    }
  }

  lemma {:induction false} DeliveredPersists(n: nat, noDup: bool, acts: seq<Action>, p: nat, r: nat,
                                             k: string, v: string)
    requires p <= |acts| && WasDelivered(n, noDup, acts[..p], r, k, v)
    ensures WasDelivered(n, noDup, acts, r, k, v)
    decreases |acts|
  {
    hide WasReleased;
    if p == |acts| {
      assert acts[..p] == acts;
    } else {
      Prefixes(acts, p, |acts| - 1);
      DeliveredPersists(n, noDup, acts[..|acts| - 1], p, r, k, v);
    }
  }

  lemma OrderCommits(acts: seq<Action>, k: string, v: string, o: nat, i: nat, j: nat, l: nat)
    requires i < j < l <= |acts| && acts[i] == Put(o, k, v) && acts[j] == Commit(o)
    ensures WasCommitted(acts[..l], k, v)
  {
    Prefixes(acts, i, i + 1);
    Prefixes(acts, i + 1, j);
    Prefixes(acts, j, j + 1);
    Prefixes(acts, j + 1, l);
    assert WasPut(acts[..i + 1], o, k, v);
    PutPersists(acts[..j], i + 1, o, k, v);
    assert WasCommitted(acts[..j + 1], k, v);
    CommittedPersists(acts[..l], j + 1, k, v);
  }

  /** Events in this order mean that the pair was delivered. */
  lemma OrderDelivers(n: nat, noDup: bool, acts: seq<Action>, r: nat, k: string, v: string,
                      o: nat, i: nat, j: nat, l: nat, m: nat)
    requires Ordered(n, noDup, acts, r, k, v, o, i, j, l, m)
    ensures WasDelivered(n, noDup, acts, r, k, v)
  {
    hide Exec, Completes, WasCommitted;
    OrderCommits(acts, k, v, o, i, j, l);
    Prefixes(acts, l, l + 1);
    Prefixes(acts, l + 1, m);
    Prefixes(acts, m, m + 1);
    assert WasReleased(n, noDup, acts[..l + 1], k, v);
    ReleasedPersists(n, noDup, acts[..m], l + 1, k, v);
    assert WasDelivered(n, noDup, acts[..m + 1], r, k, v);
    DeliveredPersists(n, noDup, acts, m + 1, r, k, v);
  }

  lemma {:induction false} FindPut(acts: seq<Action>, o: nat, k: string, v: string) returns (i: nat)
    requires WasPut(acts, o, k, v)
    ensures i < |acts| && acts[i] == Put(o, k, v)
  {
    if acts[|acts| - 1] == Put(o, k, v) { i := |acts| - 1; } else { i := FindPut(acts[..|acts| - 1], o, k, v); }
  }

  lemma {:induction false} FindCommit(acts: seq<Action>, k: string, v: string) returns (o: nat, i: nat, j: nat)
    requires WasCommitted(acts, k, v)
    ensures i < j < |acts| && acts[i] == Put(o, k, v) && acts[j] == Commit(o)
  {
    var before, a := acts[..|acts| - 1], acts[|acts| - 1];
    if a.Commit? && WasPut(before, a.rank, k, v) {
      o, j := a.rank, |acts| - 1;
      i := FindPut(before, o, k, v);
    } else {
      o, i, j := FindCommit(before, k, v);
    }
  }

  lemma {:induction false} FindRelease(n: nat, noDup: bool, acts: seq<Action>, k: string, v: string)
    returns (o: nat, i: nat, j: nat, l: nat)
    requires WasReleased(n, noDup, acts, k, v)
    ensures i < j < l < |acts| && acts[i] == Put(o, k, v) && acts[j] == Commit(o) && CompletesAt(n, noDup, acts, l)
  {
    hide Exec, Completes, WasCommitted;
    var before, a := acts[..|acts| - 1], acts[|acts| - 1];
    var s := Exec(n, noDup, before);
    if s.Some? && Completes(s.value, a) && WasCommitted(before, k, v) {
      l := |acts| - 1;
      o, i, j := FindCommit(before, k, v);
    } else {
      o, i, j, l := FindRelease(n, noDup, before, k, v);
      Prefixes(acts, l, |acts| - 1);
    }
  }

  /** A delivered pair has such a history. */
  lemma {:induction false} DeliveredInOrder(n: nat, noDup: bool, acts: seq<Action>, r: nat, k: string, v: string)
    returns (o: nat, i: nat, j: nat, l: nat, m: nat)
    requires WasDelivered(n, noDup, acts, r, k, v)
    ensures Ordered(n, noDup, acts, r, k, v, o, i, j, l, m)
  {
    hide Exec, Completes, WasReleased;
    var before, a := acts[..|acts| - 1], acts[|acts| - 1];
    if a == Deliver(r) && WasReleased(n, noDup, before, k, v) {
      m := |acts| - 1;
      o, i, j, l := FindRelease(n, noDup, before, k, v);
    } else {
      o, i, j, l, m := DeliveredInOrder(n, noDup, before, r, k, v);
    }
    Prefixes(acts, l, |acts| - 1);
  }

  /** No rank sees another rank's pair before that rank committed it, a barrier was
      completed after the commit, and the reader returned from it. */
  lemma NotBeforeCommit(n: nat, noDup: bool, acts: seq<Action>, r: nat, k: string, v: string)
    returns (o: nat, i: nat, j: nat, l: nat, m: nat)
    requires Exec(n, noDup, acts).Some? && r < n && !WasPut(acts, r, k, v)
    requires Get(Exec(n, noDup, acts).value.ranks[r].store, k) == Some(v)
    ensures Ordered(n, noDup, acts, r, k, v, o, i, j, l, m) && o != r
  {
    hide Exec, Get, Ordered, WasPut, WasDelivered;
    VisibleExactly(n, noDup, acts, r, k, v);
    o, i, j, l, m := DeliveredInOrder(n, noDup, acts, r, k, v);
    OrderedPut(n, noDup, acts, r, k, v, o, i, j, l, m);
  }

  lemma OrderedPut(n: nat, noDup: bool, acts: seq<Action>, r: nat, k: string, v: string,
                   o: nat, i: nat, j: nat, l: nat, m: nat)
    requires Ordered(n, noDup, acts, r, k, v, o, i, j, l, m)
    ensures WasPut(acts, o, k, v)
  {
    hide CompletesAt;
    Prefixes(acts, i, i + 1);
    assert WasPut(acts[..i + 1], o, k, v);
    PutPersists(acts, i + 1, o, k, v);
  }

  /** Once a committed pair went through a barrier, every rank back from it agrees on the
      value: get returns it there, and no later step takes it away. */
  lemma SameForAll(n: nat, noDup: bool, acts: seq<Action>, k: string, v: string,
                   o: nat, i: nat, j: nat, l: nat, back: seq<nat>)
    requires Exec(n, noDup, acts).Some? && |back| == n
    requires forall r :: 0 <= r < n ==> Ordered(n, noDup, acts, r, k, v, o, i, j, l, back[r])
    ensures forall r :: 0 <= r < n ==> Get(Exec(n, noDup, acts).value.ranks[r].store, k) == Some(v)
  {
    hide Exec, Get, Ordered, WasPut, WasDelivered;
    forall r | 0 <= r < n ensures Get(Exec(n, noDup, acts).value.ranks[r].store, k) == Some(v) {
      OrderDelivers(n, noDup, acts, r, k, v, o, i, j, l, back[r]);
      VisibleExactly(n, noDup, acts, r, k, v);
    }
  }

  // ----- the steps are what the client and the server do

  /** The server's spaces when the job uses one. */
  function AsNamed(name: string, master: Option<Master>): seq<Named> {
    if master.None? then [] else [Named(name, master.value)]
  }

  function AsMessage(name: string, kvs: seq<KV>): seq<Comm> { if kvs == [] then [] else [Comm(name, kvs)] }

  /** A commit of a live space sends its own pairs, and the server takes them in. */
  lemma CommitIsTheCode(name: string, inx: nat, store: Store, master: Option<Master>, noDup: bool)
    ensures PmiClient.CommitMessage([PmiClient.Space(name, false, inx, store)]) == AsMessage(name, Committed(store))
    ensures TakeComms(AsNamed(name, master), AsMessage(name, Committed(store)), noDup) ==
      AsNamed(name, Receive(master, Committed(store), noDup))
  {
    hide Committed, Merge, Move;
    var ms, kvs := AsNamed(name, master), Committed(store);
    var ss := [PmiClient.Space(name, false, inx, store)];
    assert PmiClient.CommitMessage(ss[1..]) == [];
    assert PmiClient.CommitMessage(ss) == AsMessage(name, kvs) + [];
    if kvs != [] {
      var c := Comm(name, kvs);
      assert AsMessage(name, kvs)[1..] == [];
      assert TakeComms(ms, [c], noDup) == TakeComms(TakeComm(ms, c, noDup), [], noDup);
      FindNamedIs(ms, name, 0);
    }
  }

  /** A complete barrier replies with and marks what the server hands out, and the client
      merges exactly that. */
  lemma BarrierIsTheCode(name: string, inx: nat, store: Store, s: System, noDup: bool)
    ensures
      var ms := AsNamed(name, s.master);
      var reply := if s.updated then UnsentComms(ms) else [];
      && PairsFor(reply, name) == Reply(s)
      && AsNamed(name, Release(s).master) == (if s.updated then MarkAll(ms) else ms)
      && PmiClient.PutComms(PmiClient.DisableAll([PmiClient.Space(name, false, inx, store)]), reply, noDup) ==
           [PmiClient.Space(name, false, inx, PmiStore.Deliver(store, Reply(s), noDup))]
  {
    hide Unsent, MarkSent, PmiStore.Deliver, PmiClient.PutComms, PmiClient.DisableAll;
    var ms := AsNamed(name, s.master);
    var reply := if s.updated then UnsentComms(ms) else [];
    if s.updated && s.master.Some? {
      assert PairsFor(reply[1..], name) == [];
      assert PairsFor(reply, name) == Reply(s) + [];
    }
    PmiClient.FirstNamedIs([PmiClient.Space(name, false, inx, store)], name, 0);
    PmiClient.BarrierOnSpace([PmiClient.Space(name, false, inx, store)], reply, noDup, 0);
  }

  // ----- the server's state in a run

  /** The server of a system: its master copy, and a barrier at which exactly the waiting
      ranks have left their ports and are counted. */
  ghost predicate Mirrors(s: System, b: State, name: string) {
    && b.spaces == AsNamed(name, s.master) && b.updated == s.updated
    && |b.ports| == b.size && (b.size == 0 || b.size == |s.ranks|)
    && b.arrived == Arrived(b.ports) && (b.size > 0 ==> b.arrived < b.size)
    && forall t :: 0 <= t < |s.ranks| ==> (s.ranks[t].phase == Waiting <==> b.size != 0 && b.ports[t] != 0)
  }

  /** What the messages of an action do to the server. */
  function ServerStep(b: State, s: System, a: Action, name: string, port: nat, noDup: bool): (c: State)
    requires Enabled(s, a) && |b.ports| == b.size
    ensures |c.ports| == c.size
  {
    match a
    case Commit(r) =>
      var sent := PmiClient.CommitMessage([PmiClient.Space(name, false, 0, s.ranks[r].store)]);
      b.(spaces := TakeComms(b.spaces, sent, noDup), updated := true)
    case Enter(r) => Arrive(b, r, |s.ranks|, port).1
    case _ => b
  }

  /** Reaching the barrier is the server's pmi_kvs_get: it is never refused, it completes
      exactly when all ranks wait, and then every rank is sent the server's reply. */
  lemma EnterIsTheCode(s: System, b: State, r: nat, name: string, port: nat, noDup: bool)
    requires Mirrors(s, b, name) && Enabled(s, Enter(r)) && port != 0
    ensures
      var (o, c) := Arrive(b, r, |s.ranks|, port);
      var t := Step(s, Enter(r), noDup);
      && Mirrors(t, c, name) && !o.Refused?
      && (o.Complete? <==> Completes(s, Enter(r)))
      && (o.Complete? ==> forall i :: 0 <= i < |t.ranks| ==>
            t.ranks[i].phase == Released(PairsFor(o.reply, name)))
  {
    hide Reply, UnsentComms, MarkAll, PairsFor, Arrived, Mirrors, Arrive, Release;
    var w := WithRank(s, r, s.ranks[r].(phase := Waiting));
    EnterArrives(s, b, r, name, port);
    if AllWaiting(w) { ReleaseMirrors(w, b, name, noDup); }
  }

  /** The server's side of an arrival: the ports are those of the ranks that now wait. */
  lemma EnterArrives(s: System, b: State, r: nat, name: string, port: nat)
    requires Mirrors(s, b, name) && Enabled(s, Enter(r)) && port != 0
    ensures
      var (o, c) := Arrive(b, r, |s.ranks|, port);
      var w := WithRank(s, r, s.ranks[r].(phase := Waiting));
      && b.spaces == AsNamed(name, w.master) && b.updated == w.updated
      && if AllWaiting(w) then o.Complete? && o.reply == HandOut(b) && c == State(HandedOut(b), false, 0, 0, [])
         else o.Counted? && Mirrors(w, c, name)
  {
    hide UnsentComms, MarkAll, Arrived, HandOut, HandedOut;
    var n := |s.ranks|;
    var w := WithRank(s, r, s.ranks[r].(phase := Waiting));
    var ports := OpenPorts(b.ports, n)[r := port];
    assert forall t :: 0 <= t < n ==> (w.ranks[t].phase == Waiting <==> ports[t] != 0);
    assert AllThere(ports) <==> AllWaiting(w);
    ArriveCountsIff(b, r, n, port);
    ArrivedAll(ports);
  }

  /** The release of a complete barrier is the server's reply, and leaves it idle. */
  lemma ReleaseMirrors(w: System, b: State, name: string, noDup: bool)
    requires AllWaiting(w) && b.spaces == AsNamed(name, w.master) && b.updated == w.updated
    ensures Mirrors(Release(w), State(HandedOut(b), false, 0, 0, []), name)
    ensures forall i :: 0 <= i < |w.ranks| ==>
              Release(w).ranks[i].phase == Released(PairsFor(HandOut(b), name))
  {
    hide Reply, UnsentComms, MarkAll, PairsFor, MarkSent;
    BarrierIsTheCode(name, 0, [], w, noDup);
    ArrivedNone([]);
  }

  /** Every action of a system keeps its server in step. */
  lemma StepMirrors(s: System, b: State, a: Action, name: string, port: nat, noDup: bool)
    requires Mirrors(s, b, name) && Enabled(s, a) && port != 0
    ensures Mirrors(Step(s, a, noDup), ServerStep(b, s, a, name, port, noDup), name)
  {
    hide PmiStore.Put, PmiStore.Deliver, Compact, Committed, Receive, Arrive, TakeComms, PmiClient.CommitMessage;
    match a
    case Put(_, _, _) =>
    case Commit(r) => CommitIsTheCode(name, 0, s.ranks[r].store, s.master, noDup);
    case Enter(r) => EnterIsTheCode(s, b, r, name, port, noDup);
    case Deliver(_) =>
  }

  /** The server after the messages of a run; ports[i] is the reply port of action i. */
  function ServerExec(n: nat, noDup: bool, acts: seq<Action>, name: string, ports: seq<nat>): (b: State)
    requires Exec(n, noDup, acts).Some? && |ports| == |acts|
    ensures |b.ports| == b.size
  {
    if acts == [] then State([], false, 0, 0, [])
    else
      var last := |acts| - 1;
      ServerStep(ServerExec(n, noDup, acts[..last], name, ports[..last]), Exec(n, noDup, acts[..last]).value,
                 acts[last], name, ports[last], noDup)
  }

  /** In every run the system's steps are what the messages do to the server's own state. */
  lemma {:induction false} RunMirrors(n: nat, noDup: bool, acts: seq<Action>, name: string, ports: seq<nat>)
    requires Exec(n, noDup, acts).Some? && |ports| == |acts| && forall i :: 0 <= i < |ports| ==> ports[i] != 0
    ensures Mirrors(Exec(n, noDup, acts).value, ServerExec(n, noDup, acts, name, ports), name)
  {
    hide Step, ServerStep, Mirrors;
    if acts == [] {
      InitMirrors(n, name);
    } else {
      var last := |acts| - 1;
      RunMirrors(n, noDup, acts[..last], name, ports[..last]);
      StepMirrors(Exec(n, noDup, acts[..last]).value, ServerExec(n, noDup, acts[..last], name, ports[..last]),
                  acts[last], name, ports[last], noDup);
    }
  }

  lemma InitMirrors(n: nat, name: string)
    ensures Mirrors(Init(n), State([], false, 0, 0, []), name)
  {
  }
}

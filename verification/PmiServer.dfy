/** src/api/pmi_server.c, the srun side of PMI-1: merging committed pairs into the master
    copy, and handing the pairs not sent before to all ranks when the last one reaches the
    barrier. */
module PmiServer {
  import opened CText
  import opened PmiStore

  /** A pair of the master copy; sent is its kvs_key_sent flag. */
  datatype Held = Held(key: string, value: string, sent: bool)

  type Master = seq<Held>

  // ----- the operations on one keyval space

  function FindHeld(hs: Master, k: string): (j: nat)
    ensures j <= |hs| && (j < |hs| ==> hs[j].key == k) && forall i :: 0 <= i < j ==> hs[i].key != k
  {
    if hs == [] || hs[0].key == k then 0 else 1 + FindHeld(hs[1..], k)
  }

  /** One turn of the loop of _merge_named_kvs. */
  function MergeOne(hs: Master, kv: KV, noDup: bool): Master {
    var j := FindHeld(hs, kv.key);
    if noDup || j == |hs| then hs + [Held(kv.key, kv.value, false)] else hs[j := Held(kv.key, kv.value, false)]
  }

  function Merge(hs: Master, kvs: seq<KV>, noDup: bool): Master
    decreases |kvs|
  {
    if kvs == [] then hs else Merge(MergeOne(hs, kvs[0], noDup), kvs[1..], noDup)
  }

  /** _move_kvs: the first pairs of a space become its master copy as they are. */
  function Move(kvs: seq<KV>): (r: Master)
    ensures |r| == |kvs| && forall i :: 0 <= i < |kvs| ==> r[i] == Held(kvs[i].key, kvs[i].value, false)
  {
    seq(|kvs|, i requires 0 <= i < |kvs| => Held(kvs[i].key, kvs[i].value, false))
  }

  /** The pairs _kvs_comm_dup copies: those not sent before. */
  function Unsent(hs: Master): seq<KV> {
    if hs == [] then [] else (if hs[0].sent then [] else [KV(hs[0].key, hs[0].value)]) + Unsent(hs[1..])
  }

  function MarkSent(hs: Master): (r: Master)
    ensures |r| == |hs| && forall i :: 0 <= i < |hs| ==> r[i] == hs[i].(sent := true)
  {
    seq(|hs|, i requires 0 <= i < |hs| => hs[i].(sent := true))
  }

  // ----- which pairs the master copy holds

  predicate Has(hs: Master, k: string, v: string) {
    exists i :: 0 <= i < |hs| && hs[i].key == k && hs[i].value == v
  }

  predicate HasSent(hs: Master, k: string, v: string) {
    exists i :: 0 <= i < |hs| && hs[i].key == k && hs[i].value == v && hs[i].sent
  }

  predicate AllSent(hs: Master) { forall i :: 0 <= i < |hs| ==> hs[i].sent }

  predicate OnlyHeld(hs: Master, k: string, v: string) {
    forall i :: 0 <= i < |hs| && hs[i].key == k ==> hs[i].value == v
  }

  lemma MergeOneHas(hs: Master, kv: KV, noDup: bool, k: string, v: string)
    requires OnlyHeld(hs, kv.key, kv.value)
    ensures Has(MergeOne(hs, kv, noDup), k, v) <==> Has(hs, k, v) || kv == KV(k, v)
    ensures HasSent(MergeOne(hs, kv, noDup), k, v) ==> HasSent(hs, k, v)
  {
    hide FindHeld;
    var r, j := MergeOne(hs, kv, noDup), FindHeld(hs, kv.key);
    var at := if noDup || j == |hs| then |hs| else j;
    assert at < |r| && r[at] == Held(kv.key, kv.value, false);
    assert forall i :: 0 <= i < |r| && i != at ==> i < |hs| && r[i] == hs[i];
    if Has(hs, k, v) {
      var i :| 0 <= i < |hs| && hs[i].key == k && hs[i].value == v;
      assert r[i].key == k && r[i].value == v;
    }
    if Has(r, k, v) && kv != KV(k, v) {
      var i :| 0 <= i < |r| && r[i].key == k && r[i].value == v;
      assert hs[i].key == k;
    }
    if HasSent(r, k, v) {
      var i :| 0 <= i < |r| && r[i].key == k && r[i].value == v && r[i].sent;
      assert hs[i].key == k;
    }
  }

  /** One value per key across the master copy and the pairs to merge. */
  ghost predicate Consistent(hs: Master, kvs: seq<KV>) {
    && (forall kv :: kv in kvs ==> OnlyHeld(hs, kv.key, kv.value))
    && forall i, j :: 0 <= i < |kvs| && 0 <= j < |kvs| && kvs[i].key == kvs[j].key ==> kvs[i].value == kvs[j].value
  }

  lemma MergeOneConsistent(hs: Master, kvs: seq<KV>, noDup: bool)
    requires kvs != [] && Consistent(hs, kvs)
    ensures Consistent(MergeOne(hs, kvs[0], noDup), kvs[1..])
  {
    hide FindHeld;
    var r := MergeOne(hs, kvs[0], noDup);
    forall kv | kv in kvs[1..] ensures OnlyHeld(r, kv.key, kv.value) {
      assert kv in kvs && OnlyHeld(hs, kv.key, kv.value);
    }
  }

  /** Merging adds exactly the new pairs, and marks none as sent. */
  lemma {:induction false} MergeHas(hs: Master, kvs: seq<KV>, noDup: bool, k: string, v: string)
    requires Consistent(hs, kvs)
    ensures Has(Merge(hs, kvs, noDup), k, v) <==> Has(hs, k, v) || KV(k, v) in kvs
    ensures HasSent(Merge(hs, kvs, noDup), k, v) ==> HasSent(hs, k, v)
    decreases |kvs|
  {
    hide MergeOne, Has, HasSent, Consistent;
    if kvs != [] {
      assert OnlyHeld(hs, kvs[0].key, kvs[0].value) by { ConsistentFirst(hs, kvs); }
      MergeOneHas(hs, kvs[0], noDup, k, v);
      MergeOneConsistent(hs, kvs, noDup);
      MergeHas(MergeOne(hs, kvs[0], noDup), kvs[1..], noDup, k, v);
      assert kvs == [kvs[0]] + kvs[1..];
    }
  }

  lemma ConsistentFirst(hs: Master, kvs: seq<KV>)
    requires kvs != [] && Consistent(hs, kvs)
    ensures OnlyHeld(hs, kvs[0].key, kvs[0].value)
  {
  }

  lemma MoveHas(kvs: seq<KV>, k: string, v: string)
    ensures Has(Move(kvs), k, v) <==> KV(k, v) in kvs
    ensures !HasSent(Move(kvs), k, v)
  {
    var r := Move(kvs);
    if KV(k, v) in kvs {
      var i :| 0 <= i < |kvs| && kvs[i] == KV(k, v);
      assert r[i].key == k && r[i].value == v;
    }
    if Has(r, k, v) {
      var i :| 0 <= i < |r| && r[i].key == k && r[i].value == v;
      assert kvs[i] == KV(k, v);
    }
  }

  /** What is handed out is held; what is held was sent before or is handed out now. */
  lemma {:induction false} UnsentHas(hs: Master, k: string, v: string)
    ensures KV(k, v) in Unsent(hs) ==> Has(hs, k, v)
    ensures Has(hs, k, v) ==> HasSent(hs, k, v) || KV(k, v) in Unsent(hs)
  {
    if hs != [] {
      UnsentHas(hs[1..], k, v);
      assert hs == [hs[0]] + hs[1..];
      if Has(hs[1..], k, v) {
        var i :| 0 <= i < |hs[1..]| && hs[1..][i].key == k && hs[1..][i].value == v;
        assert hs[i + 1].key == k && hs[i + 1].value == v;
      }
      if HasSent(hs[1..], k, v) {
        var i :| 0 <= i < |hs[1..]| && hs[1..][i].key == k && hs[1..][i].value == v && hs[1..][i].sent;
        assert hs[i + 1].key == k && hs[i + 1].value == v && hs[i + 1].sent;
      }
      if Has(hs, k, v) && !Has(hs[1..], k, v) {
        var i :| 0 <= i < |hs| && hs[i].key == k && hs[i].value == v;
        assert i == 0;
      }
    }
  }

  lemma MarkSentHas(hs: Master, k: string, v: string)
    ensures Has(MarkSent(hs), k, v) <==> Has(hs, k, v)
    ensures AllSent(MarkSent(hs))
  {
    var r := MarkSent(hs);
    if Has(r, k, v) {
      var i :| 0 <= i < |r| && r[i].key == k && r[i].value == v;
      assert hs[i].key == k;
    }
    if Has(hs, k, v) {
      var i :| 0 <= i < |hs| && hs[i].key == k && hs[i].value == v;
      assert r[i].key == k;
    }
  }

  // ----- what a merge with the search for duplicates computes

  /** The entry of a key. */
  function Lookup(hs: Master, k: string): Option<Held> {
    var j := FindHeld(hs, k);
    if j < |hs| then Some(hs[j]) else None
  }

  predicate DistinctHeld(hs: Master) { forall i, j :: 0 <= i < j < |hs| ==> hs[i].key != hs[j].key }

  /** A pair replaces the entry of its key, or makes one, and is to be sent; the entries of
      all other keys stay. */
  lemma MergeOneLookup(hs: Master, kv: KV, k: string)
    ensures Lookup(MergeOne(hs, kv, false), k) == if k == kv.key then Some(Held(k, kv.value, false)) else Lookup(hs, k)
    ensures DistinctHeld(hs) ==> DistinctHeld(MergeOne(hs, kv, false))
  {
    hide FindHeld;
    var r := MergeOne(hs, kv, false);
    FindHeldIs(r, k, if k == kv.key then FindHeld(hs, k)
                     else if FindHeld(hs, k) == |hs| then |r| else FindHeld(hs, k));
  }

  /** The value a list of pairs ends up giving a key: that of the last one. */
  function LastOf(kvs: seq<KV>, k: string): Option<string> {
    if kvs == [] then None
    else if kvs[|kvs| - 1].key == k then Some(kvs[|kvs| - 1].value)
    else LastOf(kvs[..|kvs| - 1], k)
  }

  lemma {:induction false} LastOfFirst(kvs: seq<KV>, k: string)
    requires kvs != []
    ensures LastOf(kvs, k) ==
            if LastOf(kvs[1..], k).Some? then LastOf(kvs[1..], k)
            else if kvs[0].key == k then Some(kvs[0].value) else None
  {
    if |kvs| > 1 {
      LastOfFirst(kvs[..|kvs| - 1], k);
      assert kvs[1..][..|kvs| - 2] == kvs[..|kvs| - 1][1..];
    }
  }

  /** A merge is a map update in which the last value wins: the keys of the message have it
      and are to be sent, and all others are as before. */
  lemma {:induction false} MergeLookup(hs: Master, kvs: seq<KV>, k: string)
    ensures Lookup(Merge(hs, kvs, false), k) ==
            if LastOf(kvs, k).Some? then Some(Held(k, LastOf(kvs, k).value, false)) else Lookup(hs, k)
    ensures DistinctHeld(hs) ==> DistinctHeld(Merge(hs, kvs, false))
    decreases |kvs|
  {
    hide MergeOne, Lookup, LastOf, DistinctHeld;
    if kvs == [] {
      LastOfNone(k);
    } else {
      MergeOneLookup(hs, kvs[0], k);
      LastOfFirst(kvs, k);
      MergeLookup(MergeOne(hs, kvs[0], false), kvs[1..], k);
    }
  }

  lemma LastOfNone(k: string)
    ensures LastOf([], k) == None
  {
  }

  /** What reaches the server for one space: the pairs of a commit, or a complete barrier. */
  datatype Event = Message(kvs: seq<KV>) | Handout

  function RunEvents(evs: seq<Event>): Master {
    if evs == [] then []
    else
      var hs := RunEvents(evs[..|evs| - 1]);
      match evs[|evs| - 1]
      case Message(kvs) => if hs == [] then Move(kvs) else Merge(hs, kvs, false)
      case Handout => MarkSent(hs)
  }

  /** The value last committed for a key. */
  function LastCommitted(evs: seq<Event>, k: string): Option<string> {
    if evs == [] then None
    else
      var e := evs[|evs| - 1];
      if e.Message? && LastOf(e.kvs, k).Some? then LastOf(e.kvs, k) else LastCommitted(evs[..|evs| - 1], k)
  }

  /** Whether the key was committed again since the last barrier. */
  predicate NewSince(evs: seq<Event>, k: string) {
    if evs == [] then false
    else
      var e := evs[|evs| - 1];
      e.Message? && (LastOf(e.kvs, k).Some? || NewSince(evs[..|evs| - 1], k))
  }

  predicate DistinctKeys(kvs: seq<KV>) { forall i, j :: 0 <= i < j < |kvs| ==> kvs[i].key != kvs[j].key }

  /** With the search for duplicates the master copy has, after any commits and barriers,
      every key once with the value last committed, and it is to be sent exactly when it was
      committed since the last barrier. */
  lemma {:induction false} MasterIsMap(evs: seq<Event>, k: string)
    requires forall i :: 0 <= i < |evs| && evs[i].Message? ==> DistinctKeys(evs[i].kvs)
    ensures Lookup(RunEvents(evs), k) ==
            if LastCommitted(evs, k).None? then None
            else Some(Held(k, LastCommitted(evs, k).value, !NewSince(evs, k)))
    ensures DistinctHeld(RunEvents(evs))
  {
    hide Lookup, Merge, Move, MarkSent, DistinctKeys, DistinctHeld, LastOf;
    EmptyLookup(k);
    if evs != [] {
      var before, e := evs[..|evs| - 1], evs[|evs| - 1];
      var hs := RunEvents(before);
      MasterIsMap(before, k);
      match e
      case Message(kvs) =>
        if hs == [] { MoveLookup(kvs, k); } else { MergeLookup(hs, kvs, k); }
      case Handout => MarkLookup(hs, k);
    }
  }

  lemma EmptyLookup(k: string)
    ensures Lookup([], k) == None && DistinctHeld([])
  {
  }

  lemma MoveLookup(kvs: seq<KV>, k: string)
    requires DistinctKeys(kvs)
    ensures Lookup(Move(kvs), k) == if LastOf(kvs, k).Some? then Some(Held(k, LastOf(kvs, k).value, false)) else None
    ensures DistinctHeld(Move(kvs))
  {
    hide FindHeld, LastOf, Move;
    var r := Move(kvs);
    if i :| 0 <= i < |kvs| && kvs[i].key == k {
      FindHeldIs(r, k, i);
      LastOfAt(kvs, k, i);
    } else {
      FindHeldIs(r, k, |r|);
      LastOfAbsent(kvs, k);
    }
  }

  lemma {:induction false} LastOfAt(kvs: seq<KV>, k: string, i: nat)
    requires i < |kvs| && kvs[i].key == k && forall j :: i < j < |kvs| ==> kvs[j].key != k
    ensures LastOf(kvs, k) == Some(kvs[i].value)
    decreases |kvs|
  {
    if i < |kvs| - 1 { LastOfAt(kvs[..|kvs| - 1], k, i); }
  }

  lemma {:induction false} LastOfAbsent(kvs: seq<KV>, k: string)
    requires forall i :: 0 <= i < |kvs| ==> kvs[i].key != k
    ensures LastOf(kvs, k) == None
  {
    if kvs != [] { LastOfAbsent(kvs[..|kvs| - 1], k); }
  }

  lemma MarkLookup(hs: Master, k: string)
    ensures Lookup(MarkSent(hs), k) ==
            if Lookup(hs, k).None? then None else Some(Lookup(hs, k).value.(sent := true))
    ensures DistinctHeld(hs) ==> DistinctHeld(MarkSent(hs))
  {
    hide FindHeld, MarkSent;
    FindHeldIs(MarkSent(hs), k, FindHeld(hs, k));
  }

  /** What is handed out keeps the order of the master copy. */
  lemma {:induction false} UnsentConcat(hs: Master, gs: Master)
    ensures Unsent(hs + gs) == Unsent(hs) + Unsent(gs)
    ensures forall h :: Unsent([h]) == if h.sent then [] else [KV(h.key, h.value)]
  {
    forall h ensures Unsent([h]) == if h.sent then [] else [KV(h.key, h.value)] { assert [h][1..] == []; }
    if hs == [] {
      assert hs + gs == gs;
    } else {
      assert (hs + gs)[1..] == hs[1..] + gs;
      UnsentConcat(hs[1..], gs);
    }
  }

  // ----- the server

  datatype Named = Named(name: string, master: Master)

  function FindNamed(ms: seq<Named>, name: string): (i: nat)
    ensures i <= |ms| && (i < |ms| ==> ms[i].name == name) && forall j :: 0 <= j < i ==> ms[j].name != name
  {
    if ms == [] || ms[0].name == name then 0 else 1 + FindNamed(ms[1..], name)
  }

  lemma FindNamedIs(ms: seq<Named>, name: string, i: nat)
    requires i <= |ms| && (i < |ms| ==> ms[i].name == name) && forall j :: 0 <= j < i ==> ms[j].name != name
    ensures FindNamed(ms, name) == i
  {
  }

  lemma FindHeldIs(hs: Master, k: string, i: nat)
    requires i <= |hs| && (i < |hs| ==> hs[i].key == k) && forall j :: 0 <= j < i ==> hs[j].key != k
    ensures FindHeld(hs, k) == i
  {
  }

  /** pmi_kvs_put for one space of the message. */
  function TakeComm(ms: seq<Named>, c: Comm, noDup: bool): seq<Named> {
    var i := FindNamed(ms, c.name);
    if i == |ms| then ms + [Named(c.name, Move(c.kvs))]
    else ms[i := ms[i].(master := Merge(ms[i].master, c.kvs, noDup))]
  }

  function TakeComms(ms: seq<Named>, cs: seq<Comm>, noDup: bool): seq<Named>
    decreases |cs|
  {
    if cs == [] then ms else TakeComms(TakeComm(ms, cs[0], noDup), cs[1..], noDup)
  }

  function UnsentComms(ms: seq<Named>): (cs: seq<Comm>)
    ensures |cs| == |ms| && forall i :: 0 <= i < |ms| ==> cs[i] == Comm(ms[i].name, Unsent(ms[i].master))
  {
    seq(|ms|, i requires 0 <= i < |ms| => Comm(ms[i].name, Unsent(ms[i].master)))
  }

  function MarkAll(ms: seq<Named>): (r: seq<Named>)
    ensures |r| == |ms| && forall i :: 0 <= i < |ms| ==> r[i] == ms[i].(master := MarkSent(ms[i].master))
  {
    seq(|ms|, i requires 0 <= i < |ms| => ms[i].(master := MarkSent(ms[i].master)))
  }

  /** How many ranks wait at the barrier: those whose reply port is known. */
  function Arrived(ports: seq<nat>): nat {
    if ports == [] then 0 else (if ports[0] != 0 then 1 else 0) + Arrived(ports[1..])
  }

  lemma {:induction false} ArrivedSet(ports: seq<nat>, t: nat, p: nat)
    requires t < |ports|
    ensures Arrived(ports[t := p]) == Arrived(ports) - (if ports[t] != 0 then 1 else 0) + if p != 0 then 1 else 0
  {
    if t == 0 {
      assert ports[t := p][1..] == ports[1..];
    } else {
      assert ports[t := p][1..] == ports[1..][t - 1 := p];
      ArrivedSet(ports[1..], t - 1, p);
    }
  }

  /** The count is complete exactly when every rank has arrived. */
  lemma {:induction false} ArrivedAll(ports: seq<nat>)
    ensures Arrived(ports) <= |ports|
    ensures Arrived(ports) == |ports| <==> forall i :: 0 <= i < |ports| ==> ports[i] != 0
  {
    if ports != [] {
      ArrivedAll(ports[1..]);
      assert ports == [ports[0]] + ports[1..];
    }
  }

  lemma {:induction false} ArrivedNone(ports: seq<nat>)
    requires forall i :: 0 <= i < |ports| ==> ports[i] == 0
    ensures Arrived(ports) == 0
  {
    if ports != [] { ArrivedNone(ports[1..]); }
  }

  /** What a complete barrier hands out: nothing, or the unsent pairs of every space. */
  datatype Outcome = Refused | Counted | Complete(reply: seq<Comm>, to: seq<nat>)

  /** The server between two messages. size is barrier_cnt: the ranks needing to reach the
      barrier, 0 when none is open; arrived is barrier_resp_cnt; ports are the reply ports,
      0 for ranks that are not there. */
  datatype State = State(spaces: seq<Named>, updated: bool, size: nat, arrived: nat, ports: seq<nat>)

  /** What pmi_kvs_get does to the server. */
  function Arrive(s: State, rank: nat, size: nat, port: nat): (Outcome, State)
    requires |s.ports| == s.size
  {
    if size == 0 || (s.size != 0 && s.size != size) then (Refused, s)
    else
      var open := s.(size := size, ports := OpenPorts(s.ports, size));
      if rank >= size then (Refused, open)
      else
        var arrived := s.arrived + if open.ports[rank] == 0 then 1 else 0;
        var ports := open.ports[rank := port];
        if arrived == size then (Complete(HandOut(s), ports), State(HandedOut(s), false, 0, 0, []))
        else (Counted, open.(arrived := arrived, ports := ports))
  }

  /** The reply of a complete barrier: the pairs not sent before, if there was any message. */
  function HandOut(s: State): seq<Comm> { if s.updated then UnsentComms(s.spaces) else [] }

  function HandedOut(s: State): seq<Named> { if s.updated then MarkAll(s.spaces) else s.spaces }

  /** A refused request leaves the server alone exactly when it does not come to an idle
      server with a rank that is not below the size it names. */
  lemma RefusedKeepsIff(s: State, rank: nat, size: nat, port: nat)
    requires |s.ports| == s.size && Arrive(s, rank, size, port).0 == Refused
    ensures Arrive(s, rank, size, port).1 == s <==> !(s.size == 0 && 0 < size <= rank)
  {
  }

  /** Such a request opens a barrier of that size: then only requests of that size are taken
      until it is complete. */
  lemma RefusedOpens(s: State, rank: nat, size: nat, port: nat)
    requires s.size == 0 && s.ports == [] && 0 < size <= rank
    ensures Arrive(s, rank, size, port) == (Refused, s.(size := size, ports := seq(size, _ => 0)))
    ensures forall r: nat, n: nat, p: nat :: n != size ==> Arrive(Arrive(s, rank, size, port).1, r, n, p).0 == Refused
  {
  }

  predicate AllThere(ports: seq<nat>) { forall t :: 0 <= t < |ports| ==> ports[t] != 0 }

  /** Whether the count is that of the ranks whose port is known: so a complete barrier has
      all of them. */
  predicate CountsAll(o: Outcome, s: State) {
    match o
    case Complete(_, to) => AllThere(to)
    case _ => s.arrived == Arrived(s.ports)
  }

  /** A request that is taken keeps the count right exactly when its port is not 0, the mark
      of a rank that is not there; and with the count right, the barrier is complete
      exactly when every rank is there. */
  lemma ArriveCountsIff(s: State, rank: nat, size: nat, port: nat)
    requires |s.ports| == s.size && s.arrived == Arrived(s.ports) && (s.size > 0 ==> s.arrived < s.size)
    requires Arrive(s, rank, size, port).0 != Refused
    ensures
      var (o, t) := Arrive(s, rank, size, port);
      && (CountsAll(o, t) <==> port != 0)
      && (port != 0 ==> (o.Complete? <==> AllThere(OpenPorts(s.ports, size)[rank := port])))
  {
    hide Arrived, HandOut, HandedOut;
    var ports := OpenPorts(s.ports, size);
    if s.size == 0 {
      ArrivedNone(s.ports);
      ArrivedNone(ports);
    }
    ArrivedSet(ports, rank, port);
    ArrivedAll(ports[rank := port]);
  }

  /** A rank without a port is counted again with every request, and completes the barrier
      of two ranks alone. */
  lemma ZeroPortCompletes(s: State)
    requires s.size == 0 && s.arrived == 0 && s.ports == []
    ensures
      var once := Arrive(s, 0, 2, 0);
      once.0 == Counted && Arrive(once.1, 0, 2, 0).0 == Complete(HandOut(s), [0, 0])
  {
    hide UnsentComms, MarkAll;
    var once := Arrive(s, 0, 2, 0).1;
    assert HandOut(once) == HandOut(s) && once.ports == [0, 0] && once.ports[0 := 0] == [0, 0];
  }

  class Server {
    const noDup: bool
    var spaces: seq<Named>    // kvs_comm_ptr
    var updated: bool         // kvs_updated
    var barrierCnt: nat       // ranks needing to reach the barrier, 0 when none is open
    var respCnt: nat          // ranks having reached it
    var ports: seq<nat>       // barrier_ptr[].port

    ghost predicate Valid()
      reads this
    {
      |ports| == barrierCnt && if barrierCnt == 0 then respCnt == 0 else respCnt < barrierCnt
    }

    ghost function Now(): State
      reads this
    {
      State(spaces, updated, barrierCnt, respCnt, ports)
    }

    constructor (noDup: bool)
      ensures Valid() && spaces == [] && !updated && barrierCnt == 0 && this.noDup == noDup
    {
      this.noDup, spaces, updated, barrierCnt, respCnt, ports := noDup, [], false, 0, 0, [];
    }

    /** pmi_kvs_put. */
    method KvsPut(cs: seq<Comm>)
      requires Valid()
      modifies this
      ensures Valid() && barrierCnt == old(barrierCnt) && respCnt == old(respCnt) && ports == old(ports)
      ensures updated && spaces == TakeComms(old(spaces), cs, noDup)
    {
      hide TakeComms, TakeComm, FindNamed, Merge, Move;
      ghost var goal := TakeComms(spaces, cs, noDup);
      assert cs[0..] == cs;
      for i := 0 to |cs|
        invariant Valid() && barrierCnt == old(barrierCnt) && respCnt == old(respCnt) && ports == old(ports)
        invariant TakeComms(spaces, cs[i..], noDup) == goal
      {
        TakeCommsNext(spaces, cs, i, noDup);
        var j := 0;
        while j < |spaces| && spaces[j].name != cs[i].name
          invariant 0 <= j <= |spaces| && forall t :: 0 <= t < j ==> spaces[t].name != cs[i].name
        {
          j := j + 1;
        }
        TakeCommIs(spaces, cs[i], noDup, j);
        if j < |spaces| {
          var m := MergeNamed(spaces[j].master, cs[i].kvs, noDup);
          spaces := spaces[j := spaces[j].(master := m)];
        } else {
          spaces := spaces + [Named(cs[i].name, Move(cs[i].kvs))];
        }
      }
      TakeCommsDone(spaces, cs[|cs|..], noDup);
      updated := true;
    }

    /** pmi_kvs_get: a rank reaches the barrier. The last one completes it; then the reply
        goes to every rank's port and the barrier is closed. */
    method KvsGet(rank: nat, size: nat, port: nat) returns (r: Outcome)
      requires Valid()
      modifies this
      ensures Valid()
      ensures (r, Now()) == Arrive(old(Now()), rank, size, port)
      ensures r == Refused <==> size == 0 || (old(barrierCnt) != 0 && old(barrierCnt) != size) || rank >= size
    {
      hide UnsentComms, MarkAll;
      if size == 0 { return Refused; }
      if barrierCnt == 0 {
        barrierCnt, ports := size, seq(size, _ => 0);
      } else if barrierCnt != size {
        return Refused;
      }
      if rank >= barrierCnt { return Refused; }
      if ports[rank] == 0 { respCnt := respCnt + 1; }
      ports := ports[rank := port];
      if respCnt == barrierCnt {
        var to := ports;
        var reply: seq<Comm> := [];
        ports, respCnt, barrierCnt := [], 0, 0;
        if updated {
          reply := CommDup();
          updated := false;
        }
        return Complete(reply, to);
      }
      return Counted;
    }

    /** _kvs_comm_dup: copies the pairs not sent before and marks them. */
    method CommDup() returns (cs: seq<Comm>)
      modifies this`spaces
      ensures cs == UnsentComms(old(spaces)) && spaces == MarkAll(old(spaces))
    {
      hide Unsent, MarkSent;
      cs := [];
      ghost var ms := spaces;
      for i := 0 to |spaces|
        invariant |spaces| == |ms| && |cs| == i
        invariant forall j :: 0 <= j < i ==> cs[j] == Comm(ms[j].name, Unsent(ms[j].master))
        invariant forall j :: 0 <= j < i ==> spaces[j] == ms[j].(master := MarkSent(ms[j].master))
        invariant forall j :: i <= j < |ms| ==> spaces[j] == ms[j]
      {
        var kvs, marked := DupSpace(spaces[i].master);
        cs := cs + [Comm(spaces[i].name, kvs)];
        spaces := spaces[i := spaces[i].(master := marked)];
      }
    }
  }

  function OpenPorts(ports: seq<nat>, size: nat): seq<nat> {
    if ports == [] then seq(size, _ => 0) else ports
  }

  lemma TakeCommIs(ms: seq<Named>, c: Comm, noDup: bool, i: nat)
    requires i <= |ms| && (i < |ms| ==> ms[i].name == c.name) && forall j :: 0 <= j < i ==> ms[j].name != c.name
    ensures TakeComm(ms, c, noDup) ==
            if i == |ms| then ms + [Named(c.name, Move(c.kvs))]
            else ms[i := ms[i].(master := Merge(ms[i].master, c.kvs, noDup))]
  {
    FindNamedIs(ms, c.name, i);
  }

  lemma TakeCommsNext(ms: seq<Named>, cs: seq<Comm>, i: nat, noDup: bool)
    requires i < |cs|
    ensures TakeComms(ms, cs[i..], noDup) == TakeComms(TakeComm(ms, cs[i], noDup), cs[i + 1..], noDup)
  {
    assert cs[i..][1..] == cs[i + 1..];
  }

  lemma TakeCommsDone(ms: seq<Named>, cs: seq<Comm>, noDup: bool)
    requires cs == []
    ensures TakeComms(ms, cs, noDup) == ms
  {
  }

  function MasterOf(ms: seq<Named>, name: string): Option<Master> {
    var i := FindNamed(ms, name);
    if i < |ms| then Some(ms[i].master) else None
  }

  lemma {:induction false} MergeConcat(hs: Master, kvs: seq<KV>, more: seq<KV>, noDup: bool)
    ensures Merge(hs, kvs + more, noDup) == Merge(Merge(hs, kvs, noDup), more, noDup)
    decreases |kvs|
  {
    hide MergeOne;
    if kvs == [] {
      assert kvs + more == more;
    } else {
      assert (kvs + more)[1..] == kvs[1..] + more;
      MergeConcat(MergeOne(hs, kvs[0], noDup), kvs[1..], more, noDup);
    }
  }

  /** A message of several parts merges into each space all the pairs it holds for it. */
  lemma {:induction false} TakeCommsAt(ms: seq<Named>, cs: seq<Comm>, noDup: bool, name: string)
    requires MasterOf(ms, name).Some?
    ensures MasterOf(TakeComms(ms, cs, noDup), name) ==
            Some(Merge(MasterOf(ms, name).value, PairsFor(cs, name), noDup))
    decreases |cs|
  {
    hide MasterOf, Merge, TakeComm;
    if cs == [] {
      MergeNone(MasterOf(ms, name).value, noDup);
    } else {
      TakeCommAt(ms, cs[0], noDup, name);
      TakeCommsAt(TakeComm(ms, cs[0], noDup), cs[1..], noDup, name);
      MergeConcat(MasterOf(ms, name).value, if cs[0].name == name then cs[0].kvs else [],
                  PairsFor(cs[1..], name), noDup);
      MergeNone(MasterOf(ms, name).value, noDup);
    }
  }

  lemma MergeNone(hs: Master, noDup: bool)
    ensures Merge(hs, [], noDup) == hs
  {
  }

  /** One part changes the space it names and no other; a new name makes a new space. */
  lemma TakeCommAt(ms: seq<Named>, c: Comm, noDup: bool, name: string)
    ensures MasterOf(TakeComm(ms, c, noDup), name) ==
            if name != c.name then MasterOf(ms, name)
            else if MasterOf(ms, name).None? then Some(Move(c.kvs))
            else Some(Merge(MasterOf(ms, name).value, c.kvs, noDup))
  {
    hide FindNamed, Merge, Move;
    var t, i, j := TakeComm(ms, c, noDup), FindNamed(ms, name), FindNamed(ms, c.name);
    FindNamedIs(t, name, if i < |ms| then i else if name == c.name then |ms| else |t|);
  }

  /** _merge_named_kvs. */
  method MergeNamed(hs: Master, kvs: seq<KV>, noDup: bool) returns (r: Master)
    ensures r == Merge(hs, kvs, noDup)
  {
    hide FindHeld;
    r := hs;
    assert kvs[0..] == kvs;
    for i := 0 to |kvs|
      invariant Merge(r, kvs[i..], noDup) == Merge(hs, kvs, noDup)
    {
      assert kvs[i..][1..] == kvs[i + 1..];
      var j := 0;
      if !noDup {
        while j < |r| && r[j].key != kvs[i].key
          invariant 0 <= j <= |r| && forall t :: 0 <= t < j ==> r[t].key != kvs[i].key
        {
          j := j + 1;
        }
        FindHeldIs(r, kvs[i].key, j);
        if j < |r| {
          r := r[j := Held(kvs[i].key, kvs[i].value, false)];
          continue;
        }
      }
      r := r + [Held(kvs[i].key, kvs[i].value, false)];
    }
  }

  /** Lines 324-335: the pairs of one space not sent before, and their marks. */
  method DupSpace(hs: Master) returns (kvs: seq<KV>, marked: Master)
    ensures kvs == Unsent(hs) && marked == MarkSent(hs)
  {
    hide Unsent;
    kvs, marked := [], hs;
    assert hs[0..] == hs && [] + Unsent(hs) == Unsent(hs);
    for j := 0 to |hs|
      invariant |marked| == |hs| && kvs + Unsent(hs[j..]) == Unsent(hs)
      invariant forall i :: 0 <= i < j ==> marked[i] == hs[i].(sent := true)
      invariant forall i :: j <= i < |hs| ==> marked[i] == hs[i]
    {
      UnsentNext(kvs, hs, j);
      if !marked[j].sent {
        kvs := kvs + [KV(marked[j].key, marked[j].value)];
        marked := marked[j := marked[j].(sent := true)];
      }
    }
    UnsentNone(kvs, hs[|hs|..]);
  }

  lemma UnsentNext(kvs: seq<KV>, hs: Master, j: nat)
    requires j < |hs|
    ensures kvs + Unsent(hs[j..]) ==
            (if hs[j].sent then kvs else kvs + [KV(hs[j].key, hs[j].value)]) + Unsent(hs[j + 1..])
  {
    assert hs[j..][1..] == hs[j + 1..];
  }

  lemma UnsentNone(kvs: seq<KV>, hs: Master)
    requires hs == []
    ensures kvs + Unsent(hs) == kvs
  {
  }

  // ----- handing out the reply

  /** One message of _agent: its direct receiver, and the ranks that one forwards to. */
  datatype Msg = Msg(target: nat, forwards: seq<nat>)

  /** All ranks the messages reach, in order. */
  function Reached(msgs: seq<Msg>): seq<nat> {
    if msgs == [] then [] else Reached(msgs[..|msgs| - 1]) + [msgs[|msgs| - 1].target] + msgs[|msgs| - 1].forwards
  }

  /** _agent: every rank whose port is known is reached exactly once, directly or by one
      forwarding rank, and no message forwards to more ranks than the fan-out. A further
      message goes to a host only when those before it forward to as many as they may. */
  method Agent(to: seq<nat>, hosts: seq<string>, fanout: nat, offHost: bool) returns (msgs: seq<Msg>)
    requires |hosts| == |to| && fanout >= 1
    ensures forall t: nat :: multiset(Reached(msgs))[t] == if t < |to| && to[t] != 0 then 1 else 0
    ensures forall m :: m in msgs ==> m.target < |to| && |m.forwards| <= fanout
    ensures !offHost ==> forall m, f :: m in msgs && f in m.forwards ==> f < |to| && hosts[f] == hosts[m.target]
    ensures Eager(msgs, hosts, fanout, offHost)
  {
    hide Reached;
    ReachedNone();
    var ports := to;
    msgs := [];
    for i := 0 to |to|
      invariant |ports| == |to|
      invariant forall t :: 0 <= t < |to| && to[t] == 0 ==> ports[t] == 0
      invariant forall t: nat ::
                  multiset(Reached(msgs))[t] == if t < |to| && to[t] != 0 && (t < i || ports[t] == 0) then 1 else 0
      invariant forall m :: m in msgs ==> m.target < |to| && |m.forwards| <= fanout
      invariant !offHost ==> forall m, f :: m in msgs && f in m.forwards ==> f < |to| && hosts[f] == hosts[m.target]
      invariant Eager(msgs, hosts, fanout, offHost) && Spent(msgs, ports, i, hosts, fanout, offHost)
    {
      if ports[i] == 0 { continue; }
      var forwards: seq<nat>;
      ghost var was := ports;
      ports, forwards := TakeForwards(ports, hosts, i, fanout, offHost);
      ReachedNext(msgs, Msg(i, forwards));
      EagerNext(msgs, Msg(i, forwards), was, ports, hosts, fanout, offHost);
      msgs := msgs + [Msg(i, forwards)];
    }
  }

  /** One message may forward to the other's rank. */
  predicate Near(hosts: seq<string>, offHost: bool, x: nat, y: nat) {
    x < |hosts| && y < |hosts| && (offHost || hosts[x] == hosts[y])
  }

  predicate Eager(msgs: seq<Msg>, hosts: seq<string>, fanout: nat, offHost: bool) {
    forall a, b :: 0 <= a < b < |msgs| && Near(hosts, offHost, msgs[a].target, msgs[b].target) ==>
      |msgs[a].forwards| == fanout
  }

  /** A message that forwards to fewer than it may has left no rank from i on. */
  predicate Spent(msgs: seq<Msg>, ports: seq<nat>, i: nat, hosts: seq<string>, fanout: nat, offHost: bool) {
    forall a, t :: 0 <= a < |msgs| && i <= t < |ports| && Near(hosts, offHost, msgs[a].target, t) ==>
      |msgs[a].forwards| < fanout ==> ports[t] == 0
  }

  lemma EagerNext(msgs: seq<Msg>, m: Msg, before: seq<nat>, ports: seq<nat>,
                  hosts: seq<string>, fanout: nat, offHost: bool)
    requires m.target < |before| == |ports| == |hosts| && before[m.target] != 0
    requires forall k :: k in msgs ==> |k.forwards| <= fanout
    requires Eager(msgs, hosts, fanout, offHost) && Spent(msgs, before, m.target, hosts, fanout, offHost)
    requires forall t :: 0 <= t < |before| && before[t] == 0 ==> ports[t] == 0
    requires |m.forwards| < fanout ==>
               forall t :: m.target < t < |before| && (offHost || hosts[m.target] == hosts[t]) ==> ports[t] == 0
    ensures Eager(msgs + [m], hosts, fanout, offHost)
    ensures Spent(msgs + [m], ports, m.target + 1, hosts, fanout, offHost)
  {
    var all := msgs + [m];
    forall a, b | 0 <= a < b < |all| && Near(hosts, offHost, all[a].target, all[b].target)
      ensures |all[a].forwards| == fanout
    {
      if b == |msgs| { assert msgs[a] in msgs; }
    }
  }

  lemma ReachedNone()
    ensures Reached([]) == []
  {
  }

  lemma ReachedNext(msgs: seq<Msg>, m: Msg)
    ensures multiset(Reached(msgs + [m])) == multiset(Reached(msgs)) + multiset{m.target} + multiset(m.forwards)
  {
    var all := msgs + [m];
    assert all[..|all| - 1] == msgs;
  }

  /** Lines 219-238: the ranks that rank i forwards to; their ports are cleared. */
  method TakeForwards(before: seq<nat>, hosts: seq<string>, i: nat, fanout: nat, offHost: bool)
    returns (ports: seq<nat>, forwards: seq<nat>)
    requires i < |before| == |hosts| && fanout >= 1
    ensures |ports| == |before| && |forwards| <= fanout
    ensures forall t :: 0 <= t <= i ==> ports[t] == before[t]
    ensures forall t: nat :: multiset(forwards)[t] == if t < |before| && before[t] != 0 && ports[t] == 0 then 1 else 0
    ensures forall t :: 0 <= t < |before| && before[t] == 0 ==> ports[t] == 0
    ensures !offHost ==> forall f :: f in forwards ==> f < |hosts| && hosts[f] == hosts[i]
    ensures |forwards| < fanout ==>
              forall t :: i < t < |before| && (offHost || hosts[i] == hosts[t]) ==> ports[t] == 0
  {
    ports, forwards := before, [];
    var j := i + 1;
    while j < |before|
      invariant i < j <= |before| && |ports| == |before| && |forwards| < fanout
      invariant forall t :: 0 <= t <= i || j <= t < |before| ==> ports[t] == before[t]
      invariant forall t: nat ::
                  multiset(forwards)[t] == if t < |before| && before[t] != 0 && ports[t] == 0 then 1 else 0
      invariant forall t :: 0 <= t < |before| && before[t] == 0 ==> ports[t] == 0
      invariant !offHost ==> forall f :: f in forwards ==> f < |hosts| && hosts[f] == hosts[i]
      invariant forall t :: i < t < j && (offHost || hosts[i] == hosts[t]) ==> ports[t] == 0
    {
      if ports[j] != 0 && (offHost || hosts[i] == hosts[j]) {
        forwards := forwards + [j];
        ports := ports[j := 0];
        if |forwards| >= fanout { break; }
      }
      j := j + 1;
    }
  }
}

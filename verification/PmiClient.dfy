/** contribs/pmi/pmi.c: the keyval spaces of one process. A record keeps keys, values and
    key states in three parallel arrays; every operation is tied to what it does to the
    entries of the record (module PmiStore). */
module PmiClient {
  import opened CText
  import opened PmiStore

  const MAX_KVSNAME_LEN := 256  // PMI_MAX_KVSNAME_LEN
  const MAX_KEY_LEN := 256      // PMI_MAX_KEY_LEN
  const MAX_VAL_LEN := 1024     // PMI_MAX_VAL_LEN
  const UINT16 := 65536         // kvs_inx is a uint16_t

  const SIZE_MODULUS := 0x1_0000_0000_0000_0000  // a size_t has 64 bits
  const INT_MAX := 0x7fff_ffff

  /** Overrun stands for a call that reads or writes past the end of its memory. */
  datatype Rc = Success | Fail | InvalidArg | InvalidKvs | InvalidKey | InvalidVal | InvalidLength | Overrun

  /** struct kvs_rec; kvs_cnt is the common length of the three arrays. */
  datatype Rec = Rec(name: string, defunct: bool, inx: nat,
                     states: seq<KeyState>, keys: seq<string>, values: seq<string>)

  predicate Aligned(r: Rec) { |r.states| == |r.keys| == |r.values| }

  /** What a record holds, entry by entry. */
  function Entries(r: Rec): (es: Store)
    requires Aligned(r)
    ensures |es| == |r.keys| && forall i :: 0 <= i < |es| ==> es[i] == Entry(r.keys[i], r.values[i], r.states[i])
  {
    seq(|r.keys|, i requires 0 <= i < |r.keys| => Entry(r.keys[i], r.values[i], r.states[i]))
  }

  /** A record as its callers know it. */
  datatype Space = Space(name: string, defunct: bool, inx: nat, store: Store)

  function SpaceOf(r: Rec): Space
    requires Aligned(r)
  {
    Space(r.name, r.defunct, r.inx, Entries(r))
  }

  // ----- what the operations do to the spaces

  function FirstNamed(ss: seq<Space>, name: string): (i: nat)
    ensures i <= |ss| && (i < |ss| ==> ss[i].name == name) && forall j :: 0 <= j < i ==> ss[j].name != name
  {
    if ss == [] || ss[0].name == name then 0 else 1 + FirstNamed(ss[1..], name)
  }

  predicate LiveNamed(s: Space, name: string) { !s.defunct && s.name == name }

  function FirstLive(ss: seq<Space>, name: string): (i: nat)
    ensures i <= |ss| && (i < |ss| ==> LiveNamed(ss[i], name)) && forall j :: 0 <= j < i ==> !LiveNamed(ss[j], name)
  {
    if ss == [] || LiveNamed(ss[0], name) then 0 else 1 + FirstLive(ss[1..], name)
  }

  /** _kvs_put: into the first space of that name, defunct or not. */
  function PutSpace(ss: seq<Space>, name: string, kv: KV, local: bool, noDup: bool): (r: seq<Space>)
    ensures |r| == |ss|
  {
    var i := FirstNamed(ss, name);
    if i == |ss| then ss else ss[i := ss[i].(store := Put(ss[i].store, kv.key, kv.value, local, noDup))]
  }

  function PutKVs(ss: seq<Space>, name: string, kvs: seq<KV>, noDup: bool): (r: seq<Space>)
    ensures |r| == |ss|
    decreases |kvs|
  {
    if kvs == [] then ss else PutKVs(PutSpace(ss, name, kvs[0], false, noDup), name, kvs[1..], noDup)
  }

  function PutComms(ss: seq<Space>, comms: seq<Comm>, noDup: bool): (r: seq<Space>)
    ensures |r| == |ss|
    decreases |comms|
  {
    if comms == [] then ss else PutComms(PutKVs(ss, comms[0].name, comms[0].kvs, noDup), comms[1..], noDup)
  }

  function DisableAll(ss: seq<Space>): (r: seq<Space>)
    ensures |r| == |ss| && forall i :: 0 <= i < |ss| ==> r[i] == ss[i].(store := DisableLocal(ss[i].store))
  {
    seq(|ss|, i requires 0 <= i < |ss| => ss[i].(store := DisableLocal(ss[i].store)))
  }

  /** What a commit does to a space: defunct ones are left alone. */
  function CompactSpace(s: Space): Space { if s.defunct then s else s.(store := Compact(s.store)) }

  /** What a commit sends: the pairs that are not global, of every live space with any. */
  function CommitMessage(ss: seq<Space>): seq<Comm> {
    if ss == [] then []
    else
      (if ss[0].defunct || Committed(ss[0].store) == [] then [] else [Comm(ss[0].name, Committed(ss[0].store))])
      + CommitMessage(ss[1..])
  }

  /** A commit sends a part for every live space with pairs of its own, and no other. */
  lemma {:induction false} CommitMessageHas(ss: seq<Space>, c: Comm)
    ensures c in CommitMessage(ss) <==>
            exists s :: s in ss && !s.defunct && s.name == c.name && c.kvs == Committed(s.store) && c.kvs != []
  {
    hide Committed;
    if ss != [] {
      CommitMessageHas(ss[1..], c);
      assert forall s :: s in ss <==> s == ss[0] || s in ss[1..];
    }
  }

  /** The parts come in the order of the spaces. */
  lemma {:induction false} CommitMessageConcat(ss: seq<Space>, ts: seq<Space>)
    ensures CommitMessage(ss + ts) == CommitMessage(ss) + CommitMessage(ts)
  {
    hide Committed;
    if ss == [] {
      assert ss + ts == ts;
    } else {
      assert (ss + ts)[1..] == ss[1..] + ts;
      CommitMessageConcat(ss[1..], ts);
    }
  }

  /** Pairs for a space this process does not have. */
  predicate Unknown(ss: seq<Space>, comm: Comm) { comm.kvs != [] && FirstNamed(ss, comm.name) == |ss| }

  predicate AnyUnknown(ss: seq<Space>, comms: seq<Comm>) {
    exists i :: 0 <= i < |comms| && Unknown(ss, comms[i])
  }

  // ----- the operations on one record

  /** Lines 1151-1205: replace the value of an existing key, or append. */
  method PutInRecord(r: Rec, key: string, value: string, local: bool, noDup: bool) returns (t: Rec)
    requires Aligned(r)
    ensures Aligned(t) && SpaceOf(t) == SpaceOf(r).(store := Put(Entries(r), key, value, local, noDup))
  {
    hide Find;
    var j := 0;
    if !noDup {
      while j < |r.keys|
        invariant 0 <= j <= |r.keys| && forall i :: 0 <= i < j ==> r.keys[i] != key
      {
        if r.keys[j] == key {
          FindIs(Entries(r), key, j);
          t := r.(states := if local then r.states[j := Local] else r.states, values := r.values[j := value]);
          return;
        }
        j := j + 1;
      }
      FindIs(Entries(r), key, j);
    }
    var state := if local then Local else Global;
    t := r.(states := r.states + [state], values := r.values + [value], keys := r.keys + [key]);
  }

  /** _kvs_swap: the same exchange in all three arrays. */
  method SwapInRecord(r: Rec, i: nat, j: nat) returns (t: Rec)
    requires Aligned(r) && i < |r.keys| && j < |r.keys|
    ensures Aligned(t) && SpaceOf(t) == SpaceOf(r).(store := Swap(Entries(r), i, j))
  {
    t := r.(states := r.states[i := r.states[j]][j := r.states[i]]);
    t := t.(keys := t.keys[i := t.keys[j]][j := t.keys[i]]);
    t := t.(values := t.values[i := t.values[j]][j := t.values[i]]);
  }

  /** Lines 1271-1279: the pairs to send move to the front, and are counted. */
  method CompactRecord(r: Rec) returns (t: Rec, localPairs: nat)
    requires Aligned(r)
    ensures Aligned(t) && SpaceOf(t) == SpaceOf(r).(store := Compact(Entries(r)))
    ensures localPairs <= |t.keys| && Entries(t)[..localPairs] == NonGlobal(Entries(r))
  {
    hide NonGlobal, Swap, Entries;
    t, localPairs := r, 0;
    ghost var n := |r.keys|;
    for j := 0 to |r.keys|
      invariant Aligned(t) && |t.keys| == n && SpaceOf(t) == SpaceOf(r).(store := Entries(t))
      invariant Partitioned(Entries(t), j, localPairs)
      invariant CompactFrom(Entries(t), j, localPairs) == Compact(Entries(r))
      invariant NonGlobal(Entries(t)) == NonGlobal(Entries(r))
    {
      if t.states[j] != Global {
        PartitionTurn(Entries(t), j, localPairs);
        if localPairs != j {
          t := SwapInRecord(t, j, localPairs);
        } else {
          SwapSame(Entries(t), j);
        }
        localPairs := localPairs + 1;
      }
    }
    PartitionSplit(Entries(t), n, localPairs);
    NonGlobalNone(Entries(t)[n..]);
    assert Entries(t)[..localPairs] + [] == Entries(t)[..localPairs];
  }

  lemma SwapSame(es: Store, j: nat)
    requires j < |es|
    ensures Swap(es, j, j) == es
  {
  }

  // ----- iteration

  /** The first entry from index i on that iteration shows, or the length. */
  function NextVisible(es: Store, i: nat): (j: nat)
    requires i <= |es|
    ensures i <= j <= |es| && (j < |es| ==> es[j].state != Disabled)
    ensures forall t :: i <= t < j ==> es[t].state == Disabled
    decreases |es| - i
  {
    if i == |es| || es[i].state != Disabled then i else NextVisible(es, i + 1)
  }

  datatype Step = Step(rc: Rc, key: string, value: string, spaces: seq<Space>)

  function SetInx(ss: seq<Space>, i: nat, inx: nat): (r: seq<Space>)
    requires i < |ss|
    ensures |r| == |ss|
  {
    ss[i := ss[i].(inx := inx)]
  }

  /** PMI_KVS_Iter_first from record index i on. Its inner loop is guarded by the record
      index instead of the entry index: a record whose index is not below its count is
      passed over, and one that shows no entry is read past its end. */
  function IterFirst(ss: seq<Space>, name: string, i: nat): Step
    requires i <= |ss|
    decreases |ss| - i
  {
    if i == |ss| then Step(InvalidKvs, "", "", ss)
    else if !LiveNamed(ss[i], name) then IterFirst(ss, name, i + 1)
    else
      var es := ss[i].store;
      var t := SetInx(ss, i, 0);
      if es == [] then Step(Success, "", "", t)
      else if i >= |es| then IterFirst(t, name, i + 1)
      else
        var j := NextVisible(es, 0);
        if j == |es| then Step(Overrun, "", "", t)
        else Step(Success, es[j].key, es[j].value, SetInx(ss, i, j % UINT16))
  }

  /** PMI_KVS_Iter_next from record index i on. */
  function IterNext(ss: seq<Space>, name: string, i: nat): Step
    requires i <= |ss|
    decreases |ss| - i
  {
    if i == |ss| then Step(InvalidKvs, "", "", ss)
    else if !LiveNamed(ss[i], name) then IterNext(ss, name, i + 1)
    else
      var es := ss[i].store;
      var inx := (ss[i].inx + 1) % UINT16;
      var t := SetInx(ss, i, inx);
      if inx >= |es| then Step(Success, "", "", t)
      else
        var j := NextVisible(es, inx);
        if j < |es| then Step(Success, es[j].key, es[j].value, SetInx(ss, i, j % UINT16))
        else IterNext(t, name, i + 1)
  }

  /** The space at index i is the only live one of that name. */
  predicate OnlyLive(ss: seq<Space>, name: string, i: nat) {
    i < |ss| && forall j :: 0 <= j < |ss| ==> (LiveNamed(ss[j], name) <==> j == i)
  }

  lemma {:induction false} IterSkips(ss: seq<Space>, name: string, i: nat, from: nat)
    requires OnlyLive(ss, name, i) && from <= i
    ensures IterFirst(ss, name, from) == IterFirst(ss, name, i) && IterNext(ss, name, from) == IterNext(ss, name, i)
    decreases i - from
  {
    hide NextVisible;
    if from < i { IterSkips(ss, name, i, from + 1); }
  }

  lemma {:induction false} IterRunsOut(ss: seq<Space>, name: string, from: nat)
    requires from <= |ss| && forall j :: from <= j < |ss| ==> !LiveNamed(ss[j], name)
    ensures IterFirst(ss, name, from) == Step(InvalidKvs, "", "", ss)
    ensures IterNext(ss, name, from) == Step(InvalidKvs, "", "", ss)
    decreases |ss| - from
  {
    hide NextVisible;
    if from < |ss| { IterRunsOut(ss, name, from + 1); }
  }

  /** The call that starts an iteration ends at this record: a live one of the name that is
      empty, or whose index is below its count. */
  predicate Decides(ss: seq<Space>, name: string, i: nat) {
    i < |ss| && LiveNamed(ss[i], name) && (ss[i].store == [] || i < |ss[i].store|)
  }

  /** How a call that ends at record i ends, or what happens when it ends at none. */
  predicate Decided(r: Step, ss: seq<Space>, i: nat)
    requires i <= |ss|
  {
    if i == |ss| then r.rc == InvalidKvs && r.key == r.value == ""
    else
      var es := ss[i].store;
      var j := NextVisible(es, 0);
      if es == [] then r.rc == Success && r.key == r.value == ""
      else if j == |es| then r.rc == Overrun
      else r.rc == Success && r.key == es[j].key && r.value == es[j].value
  }

  lemma {:induction false} IterFirstFrom(ss: seq<Space>, name: string, from: nat, i: nat)
    requires from <= i <= |ss| && (i < |ss| ==> Decides(ss, name, i))
    requires forall j :: from <= j < i ==> !Decides(ss, name, j)
    ensures Decided(IterFirst(ss, name, from), ss, i)
    decreases |ss| - from
  {
    hide NextVisible, IterFirst;
    IterFirstHere(ss, name, from);
    if from < i {
      assert !Decides(ss, name, from);
      if LiveNamed(ss[from], name) {
        var t := SetInx(ss, from, 0);
        assert forall j :: from < j <= |ss| ==> Decides(t, name, j) == Decides(ss, name, j);
        IterFirstFrom(t, name, from + 1, i);
        assert i < |ss| ==> t[i].store == ss[i].store;
      } else {
        IterFirstFrom(ss, name, from + 1, i);
      }
    }
  }

  /** Whatever records there are, starting an iteration finds the first visible pair of the
      first record that decides, if it has one: with no visible pair it is the call that
      reads past the record, on an empty record it finds nothing, and with no record that
      decides the space is reported as unknown. */
  lemma IterFirstIff(ss: seq<Space>, name: string, i: nat)
    requires i <= |ss| && (i < |ss| ==> Decides(ss, name, i)) && forall j :: 0 <= j < i ==> !Decides(ss, name, j)
    ensures
      var r := IterFirst(ss, name, 0);
      && Decided(r, ss, i)
      && (r.rc == InvalidKvs <==> i == |ss|)
      && (r.rc == Overrun <==> i < |ss| && ss[i].store != [] && NextVisible(ss[i].store, 0) == |ss[i].store|)
  {
    hide NextVisible, IterFirst;
    IterFirstFrom(ss, name, 0, i);
  }

  /** A concrete case: the second record of a process, with one pair, cannot be iterated. */
  lemma IterFirstMissesSecond()
    ensures
      var ss := [Space("a", false, 0, []), Space("b", false, 0, [Entry("k", "v", Global)])];
      IterFirst(ss, "b", 0).rc == InvalidKvs && Get(ss[1].store, "k") == Some("v")
  {
    var ss := [Space("a", false, 0, []), Space("b", false, 0, [Entry("k", "v", Global)])];
    assert ss[1].store[0].state != Disabled;
    IterFirstIff(ss, "b", 2);
  }

  /** Another: a name that was asked for twice has two records, and the pair of the first is
      passed over for the empty second one. */
  lemma IterFirstLosesPair()
    ensures
      var b := Space("b", false, 0, []);
      var ss := [Space("a", false, 0, []), b.(store := [Entry("k", "v", Global)]), b];
      && IterFirst(ss, "b", 0).rc == Success && IterFirst(ss, "b", 0).key == ""
      && Get(ss[1].store, "k") == Some("v")
  {
    hide IterFirst;
    var b := Space("b", false, 0, []);
    var ss := [Space("a", false, 0, []), b.(store := [Entry("k", "v", Global)]), b];
    IterFirstIff(ss, "b", 2);
  }

  lemma {:induction false} VisibleFrom(es: Store, i: nat)
    requires i <= |es|
    ensures var j := NextVisible(es, i);
            Visible(es[i..]) == if j == |es| then [] else [es[j]] + Visible(es[j + 1..])
    decreases |es| - i
  {
    hide Visible, NextVisible;
    VisibleHere(es, i);
    if i < |es| && es[i].state == Disabled { VisibleFrom(es, i + 1); }
  }

  /** The definitions of Visible and NextVisible, unfolded once. */
  lemma VisibleHere(es: Store, i: nat)
    requires i <= |es|
    ensures i == |es| ==> Visible(es[i..]) == [] && NextVisible(es, i) == i
    ensures i < |es| && es[i].state == Disabled ==>
              Visible(es[i..]) == Visible(es[i + 1..]) && NextVisible(es, i) == NextVisible(es, i + 1)
    ensures i < |es| && es[i].state != Disabled ==>
              Visible(es[i..]) == [es[i]] + Visible(es[i + 1..]) && NextVisible(es, i) == i
  {
    if i < |es| {
      var rest := Visible(es[i + 1..]);
      assert es[i..][0] == es[i] && es[i..][1..] == es[i + 1..] && [] + rest == rest;
    }
  }

  // ----- a barrier as one space sees it

  /** The first space of its name takes exactly the pairs put under that name. */
  lemma {:induction false} PutKVsAt(ss: seq<Space>, name: string, kvs: seq<KV>, noDup: bool, i: nat)
    requires i < |ss| && FirstNamed(ss, ss[i].name) == i
    ensures PutKVs(ss, name, kvs, noDup)[i] ==
      if ss[i].name == name then ss[i].(store := PutAll(ss[i].store, kvs, noDup)) else ss[i]
    decreases |kvs|
  {
    hide FirstNamed, Put;
    if kvs != [] {
      var t := PutSpace(ss, name, kvs[0], false, noDup);
      FirstNamedIs(t, t[i].name, i);
      PutKVsAt(t, name, kvs[1..], noDup, i);
    }
  }

  lemma {:induction false} PutAllConcat(es: Store, kvs: seq<KV>, more: seq<KV>, noDup: bool)
    ensures PutAll(es, kvs + more, noDup) == PutAll(PutAll(es, kvs, noDup), more, noDup)
    decreases |kvs|
  {
    hide Put;
    if kvs == [] {
      assert kvs + more == more;
    } else {
      assert (kvs + more)[1..] == kvs[1..] + more;
      PutAllConcat(Put(es, kvs[0].key, kvs[0].value, false, noDup), kvs[1..], more, noDup);
    }
  }

  lemma {:induction false} PutCommsAt(ss: seq<Space>, comms: seq<Comm>, noDup: bool, i: nat)
    requires i < |ss| && FirstNamed(ss, ss[i].name) == i
    ensures PutComms(ss, comms, noDup)[i] == ss[i].(store := PutAll(ss[i].store, PairsFor(comms, ss[i].name), noDup))
    decreases |comms|
  {
    hide FirstNamed, PutKVs, PutAll;
    var name := ss[i].name;
    if comms == [] {
      PutAllNone(ss[i].store, noDup);
    } else {
      var t := PutKVs(ss, comms[0].name, comms[0].kvs, noDup);
      PutKVsAt(ss, comms[0].name, comms[0].kvs, noDup, i);
      PutKVsNames(ss, comms[0].name, comms[0].kvs, noDup);
      SameNamesFirst(t, ss, name);
      PutCommsAt(t, comms[1..], noDup, i);
      PutAllConcat(ss[i].store, comms[0].kvs, PairsFor(comms[1..], name), noDup);
      assert [] + PairsFor(comms[1..], name) == PairsFor(comms[1..], name);
    }
  }

  lemma PutAllNone(es: Store, noDup: bool)
    ensures PutAll(es, [], noDup) == es
  {
  }

  /** What PMI_Barrier does to the first space of its name: local copies are disabled and
      the pairs of the reply for that name are put, in order. */
  lemma BarrierOnSpace(ss: seq<Space>, comms: seq<Comm>, noDup: bool, i: nat)
    requires i < |ss| && FirstNamed(ss, ss[i].name) == i
    ensures PutComms(DisableAll(ss), comms, noDup)[i] ==
      ss[i].(store := Deliver(ss[i].store, PairsFor(comms, ss[i].name), noDup))
  {
    hide FirstNamed, PutComms, PutAll, DisableLocal;
    DisableNames(ss);
    SameNamesFirst(DisableAll(ss), ss, ss[i].name);
    PutCommsAt(DisableAll(ss), comms, noDup, i);
  }

  // ----- the process

  predicate AllAligned(rs: seq<Rec>) { forall i :: 0 <= i < |rs| ==> Aligned(rs[i]) }

  function SpacesOf(rs: seq<Rec>): (ss: seq<Space>)
    requires AllAligned(rs)
    ensures |ss| == |rs| && forall i :: 0 <= i < |rs| ==> ss[i] == SpaceOf(rs[i])
  {
    seq(|rs|, i requires 0 <= i < |rs| => SpaceOf(rs[i]))
  }

  lemma SpacesUpdate(rs: seq<Rec>, i: nat, r: Rec)
    requires AllAligned(rs) && i < |rs| && Aligned(r)
    ensures AllAligned(rs[i := r]) && SpacesOf(rs[i := r]) == SpacesOf(rs)[i := SpaceOf(r)]
  {
    hide SpaceOf;
  }

  lemma FirstNamedIs(ss: seq<Space>, name: string, i: nat)
    requires i <= |ss| && (i < |ss| ==> ss[i].name == name) && forall j :: 0 <= j < i ==> ss[j].name != name
    ensures FirstNamed(ss, name) == i
  {
  }

  lemma FirstLiveIs(ss: seq<Space>, name: string, i: nat)
    requires i <= |ss| && (i < |ss| ==> LiveNamed(ss[i], name)) && forall j :: 0 <= j < i ==> !LiveNamed(ss[j], name)
    ensures FirstLive(ss, name) == i
  {
  }

  lemma NewSpace(r: Rec)
    requires r.keys == [] && r.values == [] && r.states == []
    ensures SpaceOf(r) == Space(r.name, r.defunct, r.inx, [])
  {
  }

  predicate SameNames(ss: seq<Space>, ts: seq<Space>) {
    |ss| == |ts| && forall i :: 0 <= i < |ss| ==> ss[i].name == ts[i].name
  }

  lemma SameNamesFirst(ss: seq<Space>, ts: seq<Space>, name: string)
    requires SameNames(ss, ts)
    ensures FirstNamed(ss, name) == FirstNamed(ts, name)
  {
    hide FirstNamed;
    FirstNamedIs(ss, name, FirstNamed(ts, name));
  }

  lemma PutSpaceNames(ss: seq<Space>, name: string, kv: KV, local: bool, noDup: bool)
    ensures SameNames(PutSpace(ss, name, kv, local, noDup), ss)
  {
    hide FirstNamed, Put;
  }

  lemma {:induction false} PutKVsNames(ss: seq<Space>, name: string, kvs: seq<KV>, noDup: bool)
    ensures SameNames(PutKVs(ss, name, kvs, noDup), ss)
    decreases |kvs|
  {
    hide PutSpace;
    if kvs != [] {
      PutSpaceNames(ss, name, kvs[0], false, noDup);
      PutKVsNames(PutSpace(ss, name, kvs[0], false, noDup), name, kvs[1..], noDup);
    }
  }

  lemma DisableNames(ss: seq<Space>)
    ensures SameNames(DisableAll(ss), ss)
  {
    hide DisableLocal;
  }

  lemma AnyUnknownNext(ss: seq<Space>, comms: seq<Comm>, i: nat)
    requires i < |comms|
    ensures AnyUnknown(ss, comms[..i + 1]) <==> AnyUnknown(ss, comms[..i]) || Unknown(ss, comms[i])
  {
    hide Unknown;
    var a, b := comms[..i], comms[..i + 1];
    if AnyUnknown(ss, b) && !Unknown(ss, comms[i]) {
      var j :| 0 <= j < |b| && Unknown(ss, b[j]);
      assert Unknown(ss, a[j]);
    }
    if AnyUnknown(ss, a) {
      var j :| 0 <= j < |a| && Unknown(ss, a[j]);
      assert Unknown(ss, b[j]);
    }
    if Unknown(ss, comms[i]) { assert Unknown(ss, b[i]); }
  }

  lemma PutKVsNext(ss: seq<Space>, comm: Comm, j: nat, noDup: bool)
    requires j < |comm.kvs|
    ensures PutKVs(ss, comm.name, comm.kvs[j..], noDup) ==
      PutKVs(PutSpace(ss, comm.name, comm.kvs[j], false, noDup), comm.name, comm.kvs[j + 1..], noDup)
  {
    hide PutSpace;
    assert comm.kvs[j..][1..] == comm.kvs[j + 1..];
  }

  lemma PutKVsDone(ss: seq<Space>, name: string, kvs: seq<KV>, noDup: bool)
    requires kvs == []
    ensures PutKVs(ss, name, kvs, noDup) == ss
  {
  }

  lemma PutCommsNext(ss: seq<Space>, comms: seq<Comm>, i: nat, noDup: bool)
    requires i < |comms|
    ensures PutComms(ss, comms[i..], noDup) ==
      PutComms(PutKVs(ss, comms[i].name, comms[i].kvs, noDup), comms[i + 1..], noDup)
  {
    hide PutKVs;
    assert comms[i..][1..] == comms[i + 1..];
  }

  lemma PutCommsDone(ss: seq<Space>, comms: seq<Comm>, noDup: bool)
    requires comms == []
    ensures PutComms(ss, comms, noDup) == ss
  {
  }

  lemma MessageEnds(ss: seq<Space>, i: nat)
    requires i == 0 || i == |ss|
    ensures i == 0 ==> [] + CommitMessage(ss[i..]) == CommitMessage(ss)
    ensures i == |ss| ==> CommitMessage(ss[i..]) == []
  {
    hide Committed;
    if i == 0 { assert ss[0..] == ss; }
  }

  /** What the turn for record i adds to the message. */
  lemma MessageNext(sent: seq<Comm>, ss: seq<Space>, i: nat)
    requires i < |ss|
    ensures
      var c := Committed(ss[i].store);
      sent + CommitMessage(ss[i..]) ==
        (sent + if ss[i].defunct || c == [] then [] else [Comm(ss[i].name, c)]) + CommitMessage(ss[i + 1..])
    ensures |Committed(ss[i].store)| == |NonGlobal(ss[i].store)|
  {
    hide NonGlobal;
    assert ss[i..][1..] == ss[i + 1..];
  }

  /** The inner loop of _kvs_disable_local_keys. */
  method DisableInRecord(r: Rec) returns (t: Rec)
    requires Aligned(r)
    ensures Aligned(t) && SpaceOf(t) == SpaceOf(r).(store := DisableLocal(Entries(r)))
  {
    var states := r.states;
    for j := 0 to |r.keys|
      invariant |states| == |r.states|
      invariant forall i :: 0 <= i < j ==> states[i] == if r.states[i] == Local then Disabled else r.states[i]
      invariant forall i :: j <= i < |states| ==> states[i] == r.states[i]
    {
      if states[j] == Local { states := states[j := Disabled]; }
    }
    t := r.(states := states);
  }

  /** An int where C wants a size_t. */
  function AsSize(n: int): int { if n < 0 then SIZE_MODULUS + n else n }

  /** What a call leaves in the caller's buffer: its code, and the text if any was copied. */
  datatype Copy = Copy(rc: Rc, text: Option<string>)

  /** Lines 1391-1397: the value into a buffer of the given length. The comparison is one
      of unsigned numbers, and a value that fills its own 1024 bytes has no NUL to stop
      strlen. */
  function CopyOut(v: string, length: int): Copy {
    if |v| >= MAX_VAL_LEN then Copy(Overrun, None)
    else if |v| > AsSize(length - 1) then Copy(InvalidLength, None)
    else if length < 0 then Copy(Overrun, None)
    else Copy(Success, if length == 0 then None else Some(v))
  }

  /** A buffer that is too short is refused exactly when its length is at least 1 and the
      value is terminated; the value is copied exactly when it is and fits. */
  lemma ShortBufferRefusedIff(v: string, length: int)
    requires -INT_MAX <= length <= INT_MAX
    ensures |v| >= length ==> (CopyOut(v, length).rc == InvalidLength <==> length >= 1 && |v| < MAX_VAL_LEN)
    ensures CopyOut(v, length) == Copy(Success, Some(v)) <==> |v| < length && |v| < MAX_VAL_LEN
  {
  }

  /** A length of 0 is a success that copies nothing. */
  lemma EmptyBufferAccepted()
    ensures CopyOut("v", 0) == Copy(Success, None)
  {
  }

  /** Lines 1387-1400 of PMI_KVS_Get. */
  method FindInRecord(r: Rec, key: string, length: int) returns (c: Copy)
    requires Aligned(r)
    ensures c == match Get(Entries(r), key) case None => Copy(InvalidKey, None) case Some(v) => CopyOut(v, length)
  {
    hide Find;
    for j := 0 to |r.keys|
      invariant forall i :: 0 <= i < j ==> r.keys[i] != key
    {
      if r.keys[j] == key {
        FindIs(Entries(r), key, j);
        return CopyOut(r.values[j], length);
      }
    }
    FindIs(Entries(r), key, |r.keys|);
    return Copy(InvalidKey, None);
  }

  /** strncpy of a text into a buffer of n bytes. */
  function Cut(t: string, n: nat): (r: string)
    ensures r <= t && |r| <= n && (|r| == |t| || |r| == n)
  {
    if |t| <= n then t else t[..n]
  }

  /** The scan for an entry that is not disabled. */
  method FindVisible(r: Rec, from: nat) returns (j: nat)
    requires Aligned(r) && from <= |r.keys|
    ensures j == NextVisible(Entries(r), from)
  {
    j := from;
    while j < |r.keys| && r.states[j] == Disabled
      invariant from <= j <= |r.keys| && NextVisible(Entries(r), j) == NextVisible(Entries(r), from)
    {
      j := j + 1;
    }
  }

  lemma IterFirstHere(ss: seq<Space>, name: string, i: nat)
    requires i <= |ss|
    ensures IterFirst(ss, name, i) ==
      if i == |ss| then Step(InvalidKvs, "", "", ss)
      else if !LiveNamed(ss[i], name) then IterFirst(ss, name, i + 1)
      else
        var es := ss[i].store;
        if es == [] then Step(Success, "", "", SetInx(ss, i, 0))
        else if i >= |es| then IterFirst(SetInx(ss, i, 0), name, i + 1)
        else
          var j := NextVisible(es, 0);
          if j == |es| then Step(Overrun, "", "", SetInx(ss, i, 0))
          else Step(Success, es[j].key, es[j].value, SetInx(ss, i, j % UINT16))
  {
    hide NextVisible;
  }

  lemma IterNextHere(ss: seq<Space>, name: string, i: nat)
    requires i <= |ss|
    ensures IterNext(ss, name, i) ==
      if i == |ss| then Step(InvalidKvs, "", "", ss)
      else if !LiveNamed(ss[i], name) then IterNext(ss, name, i + 1)
      else
        var es := ss[i].store;
        var inx := (ss[i].inx + 1) % UINT16;
        if inx >= |es| then Step(Success, "", "", SetInx(ss, i, inx))
        else
          var j := NextVisible(es, inx);
          if j < |es| then Step(Success, es[j].key, es[j].value, SetInx(ss, i, j % UINT16))
          else IterNext(SetInx(ss, i, inx), name, i + 1)
  {
    hide NextVisible;
  }

  lemma LiveRecord(rs: seq<Rec>, name: string, i: nat)
    requires AllAligned(rs) && OnlyLive(SpacesOf(rs), name, i)
    ensures forall j :: 0 <= j < |rs| && LiveNamed(SpaceOf(rs[j]), name) ==> j == i
    ensures SpacesOf(rs)[i] == SpaceOf(rs[i]) && |SpacesOf(rs)[i].store| == |rs[i].keys|
    ensures Entries(rs[i]) == SpacesOf(rs)[i].store
  {
    hide Entries;
  }

  lemma OnlyLiveSet(ss: seq<Space>, name: string, i: nat, inx: nat)
    requires OnlyLive(ss, name, i)
    ensures OnlyLive(SetInx(ss, i, inx), name, i) && SetInx(ss, i, inx)[i] == ss[i].(inx := inx)
  {
  }

  /** Keys that end an iteration only when they should, and texts the buffers can take. */
  predicate AllShort(es: Store, keyLen: nat, valLen: nat) {
    forall j :: 0 <= j < |es| ==> 0 < |es[j].key| <= keyLen && |es[j].value| <= valLen
  }

  lemma ShortEntry(es: Store, j: nat, keyLen: nat, valLen: nat)
    requires j < |es| && AllShort(es, keyLen, valLen)
    ensures es[j].key != "" && Cut(es[j].key, keyLen) == es[j].key && Cut(es[j].value, valLen) == es[j].value
    ensures Cut("", keyLen) == "" && Cut("", valLen) == ""
  {
  }

  /** Every entry from index 65535 on is hidden, so that the stored index never wraps. */
  predicate NoneBeyond(es: Store) { forall t :: UINT16 - 1 <= t < |es| ==> es[t].state == Disabled }

  /** How an iteration starts: at the first visible pair, on an empty table, or not at all. */
  lemma FirstStep(ss: seq<Space>, name: string, i: nat) returns (j: nat)
    requires OnlyLive(ss, name, i) && NoneBeyond(ss[i].store)
    ensures
      var es, r := ss[i].store, IterFirst(ss, name, 0);
      && |r.spaces| == |ss| && OnlyLive(r.spaces, name, i) && r.spaces[i].store == es && j <= |es|
      && (r.rc == Success <==> es == [] || (i < |es| && Visible(es) != []))
      && (r.rc == Overrun <==> i < |es| && Visible(es) == [])
      && (r.rc == InvalidKvs <==> es != [] && i >= |es|)
      && if r.rc == Success && es != [] then
           && j < |es| && j < UINT16 - 1 && r.key == es[j].key && r.value == es[j].value && r.spaces[i].inx == j
           && Visible(es) == [es[j]] + Visible(es[j + 1..])
         else r.key == r.value == "" && (es == [] ==> Visible(es) == [])
  {
    hide NextVisible, IterFirst, Visible;
    var es := ss[i].store;
    j := NextVisible(es, 0);
    IterSkips(ss, name, i, 0);
    IterFirstHere(ss, name, i);
    VisibleFrom(es, 0);
    assert es[0..] == es;
    OnlyLiveSet(ss, name, i, j);
    OnlyLiveSet(ss, name, i, 0);
    IterRunsOut(SetInx(ss, i, 0), name, i + 1);
  }

  /** Each further call shows the next visible pair, or an empty key when there is none. */
  lemma NextStep(ss: seq<Space>, name: string, i: nat, j: nat) returns (jj: nat)
    requires OnlyLive(ss, name, i) && ss[i].inx == j < |ss[i].store| && j < UINT16 - 1 && NoneBeyond(ss[i].store)
    ensures
      var es, r := ss[i].store, IterNext(ss, name, 0);
      && |r.spaces| == |ss| && OnlyLive(r.spaces, name, i) && r.spaces[i].store == es
      && if Visible(es[j + 1..]) == [] then r.key == ""
         else
           && j < jj < |es| && jj < UINT16 - 1 && r.spaces[i].inx == jj
           && r.key == es[jj].key && r.value == es[jj].value
           && Visible(es[j + 1..]) == [es[jj]] + Visible(es[jj + 1..])
  {
    hide NextVisible, IterNext, Visible;
    var es := ss[i].store;
    IterSkips(ss, name, i, 0);
    IterNextHere(ss, name, i);
    VisibleFrom(es, j + 1);
    OnlyLiveSet(ss, name, i, j + 1);
    jj := if j + 1 < |es| then NextVisible(es, j + 1) else j + 1;
    if j + 1 < |es| {
      OnlyLiveSet(ss, name, i, jj);
      IterRunsOut(SetInx(ss, i, j + 1), name, i + 1);
    } else {
      NextVisibleEnd(es);
    }
  }

  /** How a further call ends, for any stored index: at the end of the table with an empty
      key, with an unknown space when all that is left is hidden, else with the next
      visible pair, whose index it stores. */
  lemma IterNextIff(ss: seq<Space>, name: string, i: nat)
    requires OnlyLive(ss, name, i)
    ensures
      var es, inx, r := ss[i].store, (ss[i].inx + 1) % UINT16, IterNext(ss, name, 0);
      if inx >= |es| then r == Step(Success, "", "", SetInx(ss, i, inx))
      else
        var j := NextVisible(es, inx);
        r == if j == |es| then Step(InvalidKvs, "", "", SetInx(ss, i, inx))
             else Step(Success, es[j].key, es[j].value, SetInx(ss, i, j % UINT16))
  {
    hide NextVisible, IterNext;
    IterSkips(ss, name, i, 0);
    IterNextHere(ss, name, i);
    var inx := (ss[i].inx + 1) % UINT16;
    IterRunsOut(SetInx(ss, i, inx), name, i + 1);
  }

  /** The call that starts an iteration and the n calls after it. */
  function Calls(ss: seq<Space>, name: string, n: nat): Step {
    if n == 0 then IterFirst(ss, name, 0) else IterNext(Calls(ss, name, n - 1).spaces, name, 0)
  }

  /** An iteration that starts comes to its end, which is an empty key, exactly when every
      pair from index 65535 on is hidden: with a visible one the 16-bit index wraps. */
  lemma IterationEndsIff(ss: seq<Space>, name: string, i: nat)
    requires OnlyLive(ss, name, i) && i < |ss[i].store| && Visible(ss[i].store) != []
    requires forall j :: 0 <= j < |ss[i].store| ==> ss[i].store[j].key != ""
    ensures (exists n :: Calls(ss, name, n).key == "") <==> NoneBeyond(ss[i].store)
  {
    hide Visible, Calls, IterFirst;
    var es := ss[i].store;
    if NoneBeyond(es) {
      var j := FirstStep(ss, name, i);
      FirstCall(ss, name);
      var m := Ends(ss, name, i, 0, j, es);
    } else {
      var v :| UINT16 - 1 <= v < |es| && es[v].state != Disabled;
      forall n: nat ensures Calls(ss, name, n).key != "" { Endless(ss, name, i, v, n); }
    }
  }

  lemma FirstCall(ss: seq<Space>, name: string)
    ensures Calls(ss, name, 0) == IterFirst(ss, name, 0)
  {
  }

  lemma {:induction false} Ends(ss: seq<Space>, name: string, i: nat, n: nat, j: nat, es: Store) returns (m: nat)
    requires var t := Calls(ss, name, n).spaces; OnlyLive(t, name, i) && t[i].store == es && t[i].inx == j
    requires j < |es| && j < UINT16 - 1 && NoneBeyond(es)
    ensures Calls(ss, name, m).key == ""
    decreases |es| - j
  {
    hide Visible, IterNext, IterFirst, OnlyLive, NoneBeyond;
    var jj := NextStep(Calls(ss, name, n).spaces, name, i, j);
    m := n + 1;
    if Visible(es[j + 1..]) != [] { m := Ends(ss, name, i, n + 1, jj, es); }
  }

  lemma {:induction false} Endless(ss: seq<Space>, name: string, i: nat, v: nat, n: nat)
    requires OnlyLive(ss, name, i) && i < |ss[i].store|
    requires UINT16 - 1 <= v < |ss[i].store| && ss[i].store[v].state != Disabled
    requires forall j :: 0 <= j < |ss[i].store| ==> ss[i].store[j].key != ""
    ensures
      var r := Calls(ss, name, n);
      r.key != "" && |r.spaces| == |ss| && OnlyLive(r.spaces, name, i) && r.spaces[i].store == ss[i].store
    decreases n
  {
    hide NextVisible, IterFirst, IterNext;
    if n == 0 {
      StaysFirst(ss, name, i, v);
    } else {
      Endless(ss, name, i, v, n - 1);
      StaysNext(Calls(ss, name, n - 1).spaces, name, i, v);
    }
  }

  lemma StaysFirst(ss: seq<Space>, name: string, i: nat, v: nat)
    requires OnlyLive(ss, name, i) && i < |ss[i].store|
    requires v < |ss[i].store| && ss[i].store[v].state != Disabled
    ensures
      var r := IterFirst(ss, name, 0);
      && |r.spaces| == |ss| && OnlyLive(r.spaces, name, i) && r.spaces[i].store == ss[i].store
      && exists j :: 0 <= j < |ss[i].store| && r.key == ss[i].store[j].key
  {
    hide NextVisible, IterFirst;
    var es := ss[i].store;
    var j := NextVisible(es, 0);
    assert j <= v;
    IterSkips(ss, name, i, 0);
    IterFirstHere(ss, name, i);
    OnlyLiveSet(ss, name, i, j % UINT16);
    assert IterFirst(ss, name, 0).key == es[j].key;
  }

  /** A visible pair at index 65535 or beyond is in front of every stored index. */
  lemma StaysNext(ss: seq<Space>, name: string, i: nat, v: nat)
    requires OnlyLive(ss, name, i)
    requires UINT16 - 1 <= v < |ss[i].store| && ss[i].store[v].state != Disabled
    ensures
      var r := IterNext(ss, name, 0);
      && |r.spaces| == |ss| && OnlyLive(r.spaces, name, i) && r.spaces[i].store == ss[i].store
      && exists j :: 0 <= j < |ss[i].store| && r.key == ss[i].store[j].key
  {
    hide NextVisible, IterNext;
    var es := ss[i].store;
    var inx := (ss[i].inx + 1) % UINT16;
    var j := NextVisible(es, inx);
    assert j <= v;
    IterSkips(ss, name, i, 0);
    IterNextHere(ss, name, i);
    OnlyLiveSet(ss, name, i, j % UINT16);
    assert IterNext(ss, name, 0).key == es[j].key;
  }

  /** A space of 65536 pairs is iterated for ever. */
  lemma LargeTableLoops(n: nat)
    ensures
      var es := seq(UINT16, _ => Entry("k", "v", Global));
      Calls([Space("a", false, 0, es)], "a", n).key != ""
  {
    hide Calls;
    var es := seq(UINT16, _ => Entry("k", "v", Global));
    Endless([Space("a", false, 0, es)], "a", 0, UINT16 - 1, n);
  }

  lemma NextVisibleEnd(es: Store)
    ensures NextVisible(es, |es|) == |es|
  {
  }

  lemma KVsFirst(kvs: seq<KV>, e: Entry, rest: Store)
    ensures kvs + KVs([e] + rest) == (kvs + [KV(e.key, e.value)]) + KVs(rest)
  {
    assert KVs([e] + rest) == [KV(e.key, e.value)] + KVs(rest);
  }

  class Process {
    const noDup: bool      // pmi_kvs_no_dup_keys
    const attached: bool   // under srun: a job id or a step id is set
    var init: bool         // pmi_init
    var recs: seq<Rec>     // kvs_recs

    ghost predicate Valid()
      reads this
    {
      AllAligned(recs)
    }

    ghost function Spaces(): seq<Space>
      requires Valid()
      reads this
    {
      SpacesOf(recs)
    }

    constructor (noDup: bool, attached: bool)
      ensures Valid() && Spaces() == [] && this.noDup == noDup && this.attached == attached && init
    {
      this.noDup, this.attached, init, recs := noDup, attached, true, [];
    }

    /** _init_kvs: a fresh, empty space at the end. */
    method InitKvs(name: string)
      requires Valid()
      modifies this
      ensures Valid() && init == old(init) && Spaces() == old(Spaces()) + [Space(name, false, 0, [])]
    {
      hide SpaceOf;
      ghost var before := SpacesOf(recs);
      var r := Rec(name, false, 0, [], [], []);
      recs := recs + [r];
      NewSpace(r);
      assert SpacesOf(recs) == before + [SpaceOf(r)];
    }

    /** _kvs_put. */
    method KvsPut(name: string, key: string, value: string, local: bool) returns (rc: Rc)
      requires Valid()
      modifies this
      ensures Valid() && init == old(init)
      ensures Spaces() == PutSpace(old(Spaces()), name, KV(key, value), local, noDup)
      ensures rc == if FirstNamed(old(Spaces()), name) == |old(Spaces())| then InvalidKvs else Success
    {
      hide FirstNamed, Put, Entries;
      ghost var ss := SpacesOf(recs);
      for i := 0 to |recs|
        invariant Valid() && SpacesOf(recs) == ss && init == old(init)
        invariant forall j :: 0 <= j < i ==> ss[j].name != name
      {
        assert ss[i] == SpaceOf(recs[i]);
        if recs[i].name == name {
          FirstNamedIs(ss, name, i);
          var t := PutInRecord(recs[i], key, value, local, noDup);
          SpacesUpdate(recs, i, t);
          recs := recs[i := t];
          return Success;
        }
      }
      FirstNamedIs(ss, name, |ss|);
      return InvalidKvs;
    }

    /** PMI_KVS_Put. */
    method PutPair(name: string, key: string, value: string) returns (rc: Rc)
      requires Valid()
      modifies this
      ensures Valid() && init == old(init)
      ensures rc == if |name| > MAX_KVSNAME_LEN then InvalidKvs
                    else if |key| > MAX_KEY_LEN then InvalidKey
                    else if |value| > MAX_VAL_LEN then InvalidVal
                    else if FirstNamed(old(Spaces()), name) == |old(Spaces())| then InvalidKvs
                    else Success
      ensures Spaces() == if rc != Success then old(Spaces())
                          else PutSpace(old(Spaces()), name, KV(key, value), true, noDup)
    {
      hide FirstNamed, Put, SpacesOf;
      if |name| > MAX_KVSNAME_LEN { return InvalidKvs; }
      if |key| > MAX_KEY_LEN { return InvalidKey; }
      if |value| > MAX_VAL_LEN { return InvalidVal; }
      rc := KvsPut(name, key, value, true);
    }

    /** PMI_KVS_Commit: all live spaces are compacted and their pairs that are not global
        are sent; sent is what the server gets. */
    method Commit(name: string, rpcOk: bool) returns (rc: Rc, sent: seq<Comm>)
      requires Valid()
      modifies this
      ensures Valid() && init == old(init)
      ensures
        if |name| > MAX_KVSNAME_LEN then rc == InvalidArg && sent == [] && Spaces() == old(Spaces())
        else if !init then rc == Fail && sent == [] && Spaces() == old(Spaces())
        else if !attached then rc == Success && sent == [] && Spaces() == old(Spaces())
        else
          && rc == (if rpcOk then Success else Fail)
          && sent == CommitMessage(old(Spaces()))
          && |Spaces()| == |old(Spaces())|
          && (forall i :: 0 <= i < |Spaces()| ==> Spaces()[i] == CompactSpace(old(Spaces())[i]))
          && forall i :: 0 <= i < |Spaces()| && old(Spaces())[i].defunct ==> Spaces()[i] == old(Spaces())[i]
    {
      hide Compact, NonGlobal, Entries, CommitMessage;
      sent := [];
      if |name| > MAX_KVSNAME_LEN { return InvalidArg, sent; }
      if !init { return Fail, sent; }
      if !attached { return Success, sent; }
      ghost var ss := SpacesOf(recs);
      MessageEnds(ss, 0);
      for i := 0 to |recs|
        invariant Valid() && |recs| == |ss| && init == old(init)
        invariant forall j :: 0 <= j < i ==> SpaceOf(recs[j]) == CompactSpace(ss[j])
        invariant forall j :: i <= j < |recs| ==> SpaceOf(recs[j]) == ss[j]
        invariant sent + CommitMessage(ss[i..]) == CommitMessage(ss)
      {
        MessageNext(sent, ss, i);
        if !recs[i].defunct {
          var t, localPairs := CompactRecord(recs[i]);
          if localPairs != 0 {
            var kvs := KVs(Entries(t)[..localPairs]);
            sent := sent + [Comm(recs[i].name, kvs)];
          }
          recs := recs[i := t];
        }
      }
      MessageEnds(ss, |ss|);
      assert sent + [] == sent;
      rc := if rpcOk then Success else Fail;
    }

    /** PMI_Barrier: the server's reply, if any, is merged in. */
    method Barrier(reply: Option<seq<Comm>>, rpcOk: bool) returns (rc: Rc)
      requires Valid()
      modifies this
      ensures Valid() && init == old(init)
      ensures
        if !init then rc == Fail && Spaces() == old(Spaces())
        else if !attached then rc == Success && Spaces() == old(Spaces())
        else if !rpcOk then rc == Fail && Spaces() == old(Spaces())
        else if reply.None? then rc == Success && Spaces() == old(Spaces())
        else
          && Spaces() == PutComms(DisableAll(old(Spaces())), reply.value, noDup)
          && rc == if AnyUnknown(old(Spaces()), reply.value) then InvalidKvs else Success
    {
      hide PutKVs, PutSpace, DisableAll, SpacesOf, PutComms, FirstNamed;
      rc := Success;
      if !init { return Fail; }
      if !attached { return; }
      if !rpcOk { return Fail; }
      if reply.None? { return; }
      ghost var ss := SpacesOf(recs);
      DisableNames(ss);
      DisableLocalKeys();
      ghost var goal := PutComms(SpacesOf(recs), reply.value, noDup);
      var comms := reply.value;
      assert comms[0..] == comms;
      for i := 0 to |comms|
        invariant Valid() && init && SameNames(SpacesOf(recs), ss)
        invariant PutComms(SpacesOf(recs), comms[i..], noDup) == goal
        invariant rc == if AnyUnknown(ss, comms[..i]) then InvalidKvs else Success
      {
        PutCommsNext(SpacesOf(recs), comms, i, noDup);
        SameNamesFirst(SpacesOf(recs), ss, comms[i].name);
        PutKVsNames(SpacesOf(recs), comms[i].name, comms[i].kvs, noDup);
        AnyUnknownNext(ss, comms, i);
        var k := PutDelivered(comms[i]);
        if k != Success { rc := k; }
      }
      assert comms[..|comms|] == comms;
      PutCommsDone(SpacesOf(recs), comms[|comms|..], noDup);
    }

    /** _kvs_disable_local_keys. */
    method DisableLocalKeys()
      requires Valid()
      modifies this
      ensures Valid() && init == old(init) && Spaces() == DisableAll(old(Spaces()))
    {
      ghost var ss := SpacesOf(recs);
      for i := 0 to |recs|
        invariant Valid() && |recs| == |ss| && init == old(init)
        invariant forall j :: 0 <= j < i ==> SpaceOf(recs[j]) == DisableAll(ss)[j]
        invariant forall j :: i <= j < |recs| ==> SpaceOf(recs[j]) == ss[j]
      {
        var t := DisableInRecord(recs[i]);
        recs := recs[i := t];
      }
    }

    /** Lines 692-701 for one space of the reply. */
    method PutDelivered(comm: Comm) returns (rc: Rc)
      requires Valid()
      modifies this
      ensures Valid() && init == old(init) && Spaces() == PutKVs(old(Spaces()), comm.name, comm.kvs, noDup)
      ensures rc == if Unknown(old(Spaces()), comm) then InvalidKvs else Success
    {
      hide PutSpace, SpacesOf, FirstNamed, PutKVs;
      rc := Success;
      ghost var ss := SpacesOf(recs);
      ghost var goal := PutKVs(SpacesOf(recs), comm.name, comm.kvs, noDup);
      assert comm.kvs[0..] == comm.kvs;
      for j := 0 to |comm.kvs|
        invariant Valid() && init == old(init) && PutKVs(SpacesOf(recs), comm.name, comm.kvs[j..], noDup) == goal
        invariant SameNames(SpacesOf(recs), ss)
        invariant rc == if j > 0 && FirstNamed(ss, comm.name) == |ss| then InvalidKvs else Success
      {
        PutKVsNext(SpacesOf(recs), comm, j, noDup);
        SameNamesFirst(SpacesOf(recs), ss, comm.name);
        PutSpaceNames(SpacesOf(recs), comm.name, comm.kvs[j], false, noDup);
        var k := KvsPut(comm.name, comm.kvs[j].key, comm.kvs[j].value, false);
        if k != Success { rc := k; }
      }
      PutKVsDone(SpacesOf(recs), comm.name, comm.kvs[|comm.kvs|..], noDup);
    }

    /** PMI_KVS_Get. */
    method GetPair(name: string, key: string, length: int) returns (c: Copy)
      requires Valid()
      ensures
        var i := FirstLive(Spaces(), name);
        c == if |name| > MAX_KVSNAME_LEN then Copy(InvalidKvs, None)
             else if |key| > MAX_KEY_LEN then Copy(InvalidKey, None)
             else if i == |Spaces()| then Copy(InvalidKvs, None)
             else
               match Get(Spaces()[i].store, key)
               case None => Copy(InvalidKey, None)
               case Some(v) => CopyOut(v, length)
    {
      hide FirstLive, Find, Entries, CopyOut;
      if |name| > MAX_KVSNAME_LEN { return Copy(InvalidKvs, None); }
      if |key| > MAX_KEY_LEN { return Copy(InvalidKey, None); }
      ghost var ss := SpacesOf(recs);
      for i := 0 to |recs|
        invariant forall j :: 0 <= j < i ==> !LiveNamed(ss[j], name)
      {
        var r := recs[i];
        assert ss[i] == SpaceOf(r);
        if !r.defunct && r.name == name {
          FirstLiveIs(ss, name, i);
          c := FindInRecord(r, key, length);
          return;
        }
      }
      FirstLiveIs(ss, name, |ss|);
      return Copy(InvalidKvs, None);
    }

    /** A step of the iteration as it reaches the caller's buffers. */
    ghost predicate Stepped(goal: Step, rc: Rc, key: string, keyLen: nat, value: string, valLen: nat)
      requires Valid()
      reads this
    {
      rc == goal.rc && key == Cut(goal.key, keyLen) && value == Cut(goal.value, valLen) && Spaces() == goal.spaces
    }

    /** PMI_KVS_Iter_first. */
    method IterateFirst(name: string, keyLen: nat, valLen: nat) returns (rc: Rc, key: string, value: string)
      requires Valid()
      modifies this
      ensures Valid() && this.init == old(this.init)
      ensures if |name| > MAX_KVSNAME_LEN then rc == InvalidKvs && key == value == "" && Spaces() == old(Spaces())
              else Stepped(IterFirst(old(Spaces()), name, 0), rc, key, keyLen, value, valLen)
    {
      hide NextVisible, Entries, IterFirst;
      key, value := "", "";
      if |name| > MAX_KVSNAME_LEN { return InvalidKvs, key, value; }
      ghost var goal := IterFirst(SpacesOf(recs), name, 0);
      for i := 0 to |recs|
        invariant Valid() && init == old(init) && |recs| == |old(recs)| && IterFirst(SpacesOf(recs), name, i) == goal
      {
        var r := recs[i];
        IterFirstHere(SpacesOf(recs), name, i);
        if r.defunct || r.name != name { continue; }
        SpacesUpdate(recs, i, r.(inx := 0));
        recs := recs[i := r.(inx := 0)];
        assert Entries(r.(inx := 0)) == Entries(r);
        if |r.keys| == 0 { return Success, key, value; }
        if i < |r.keys| {
          var j := FindVisible(r, 0);
          if j == |r.keys| { return Overrun, key, value; } // the loop goes on behind the arrays
          SpacesUpdate(recs, i, r.(inx := j % UINT16));
          assert Entries(r.(inx := j % UINT16)) == Entries(r);
          recs := recs[i := r.(inx := j % UINT16)];
          return Success, Cut(r.keys[j], keyLen), Cut(r.values[j], valLen);
        }
      }
      IterFirstHere(SpacesOf(recs), name, |recs|);
      return InvalidKvs, key, value;
    }

    /** PMI_KVS_Iter_next. */
    method IterateNext(name: string, keyLen: nat, valLen: nat) returns (rc: Rc, key: string, value: string)
      requires Valid()
      modifies this
      ensures Valid() && this.init == old(this.init)
      ensures if |name| > MAX_KVSNAME_LEN then rc == InvalidKvs && key == value == "" && Spaces() == old(Spaces())
              else Stepped(IterNext(old(Spaces()), name, 0), rc, key, keyLen, value, valLen)
    {
      hide NextVisible, Entries, IterNext;
      key, value := "", "";
      if |name| > MAX_KVSNAME_LEN { return InvalidKvs, key, value; }
      ghost var goal := IterNext(SpacesOf(recs), name, 0);
      for i := 0 to |recs|
        invariant Valid() && init == old(init) && |recs| == |old(recs)| && IterNext(SpacesOf(recs), name, i) == goal
      {
        var r := recs[i];
        IterNextHere(SpacesOf(recs), name, i);
        if r.defunct || r.name != name { continue; }
        var inx := (r.inx + 1) % UINT16;
        SpacesUpdate(recs, i, r.(inx := inx));
        recs := recs[i := r.(inx := inx)];
        assert Entries(r.(inx := inx)) == Entries(r);
        if inx >= |r.keys| { return Success, key, value; }
        var j := FindVisible(r, inx);
        if j < |r.keys| {
          SpacesUpdate(recs, i, r.(inx := j % UINT16));
          assert Entries(r.(inx := j % UINT16)) == Entries(r);
          recs := recs[i := r.(inx := j % UINT16)];
          return Success, Cut(r.keys[j], keyLen), Cut(r.values[j], valLen);
        }
      }
      IterNextHere(SpacesOf(recs), name, |recs|);
      return InvalidKvs, key, value;
    }

    /** The loop every caller of the iterator runs: until an empty key comes back. When the
        iteration starts it yields the visible pairs of the space, each once and in order;
        it starts on an empty table, and on any other exactly as IterFirstIff says. By
        IterationEndsIff the loop ends on no other table that it starts on. */
    method IterateAll(name: string, keyLen: nat, valLen: nat, ghost i: nat) returns (rc: Rc, kvs: seq<KV>)
      requires Valid() && |name| <= MAX_KVSNAME_LEN && OnlyLive(Spaces(), name, i)
      requires NoneBeyond(Spaces()[i].store) && AllShort(Spaces()[i].store, keyLen, valLen)
      modifies this
      ensures Valid()
      ensures
        var es := old(Spaces())[i].store;
        && (rc == Success <==> es == [] || (i < |es| && Visible(es) != []))
        && (rc == Overrun <==> i < |es| && Visible(es) == [])
        && (rc == InvalidKvs <==> es != [] && i >= |es|)
        && kvs == if rc == Success then KVs(Visible(es)) else []
    {
      hide NextVisible, Visible, IterFirst, IterNext, SpacesOf, Entries, AllShort;
      ghost var es := SpacesOf(recs)[i].store;
      LiveRecord(recs, name, i);
      ghost var j := FirstStep(SpacesOf(recs), name, i);
      var key, value;
      rc, key, value := IterateFirst(name, keyLen, valLen);
      kvs := [];
      if j < |es| { ShortEntry(es, j, keyLen, valLen); }
      while key != ""
        invariant Valid() && OnlyLive(SpacesOf(recs), name, i) && SpacesOf(recs)[i].store == es
        invariant key != "" ==> j < |es| && j < UINT16 - 1 && SpacesOf(recs)[i].inx == j
        invariant key != "" ==> KV(key, value) == KV(es[j].key, es[j].value)
        invariant rc == Success ==>
                    kvs + KVs(if key == "" then [] else [es[j]] + Visible(es[j + 1..])) == KVs(Visible(es))
        invariant rc != Success ==> key == "" && kvs == []
        decreases if key == "" then 0 else 1 + |es| - j
      {
        ghost var jj := NextStep(SpacesOf(recs), name, i, j);
        KVsFirst(kvs, es[j], Visible(es[j + 1..]));
        kvs := kvs + [KV(key, value)];
        var k;
        k, key, value := IterateNext(name, keyLen, valLen);
        j := jj;
        if j < |es| { ShortEntry(es, j, keyLen, valLen); }
      }
      assert KVs([]) == [] && kvs + [] == kvs;
    }

    /** A fresh space through its first barrier: whatever is put and committed before it,
        and whatever other spaces there are, an iteration that starts shows exactly the
        pairs the reply holds for the space, in order. When it starts depends on the number
        of spaces before, of puts and of pairs in the reply. */
    method FirstRound(name: string, ops: seq<Op>, reply: seq<Comm>, keyLen: nat, valLen: nat)
      returns (rc: Rc, kvs: seq<KV>)
      requires Valid() && noDup && attached && init && |name| <= MAX_KVSNAME_LEN
      requires forall j :: 0 <= j < |Spaces()| ==> Spaces()[j].name != name
      requires MAX_KEY_LEN <= keyLen && MAX_VAL_LEN <= valLen && Puts(ops) + |PairsFor(reply, name)| < UINT16
      requires RoundOps(ops) && forall i :: 0 <= i < |PairsFor(reply, name)| ==> ShortPair(PairsFor(reply, name)[i])
      modifies this
      ensures
        var got := PairsFor(reply, name);
        var size := Puts(ops) + |got|;
        && rc == (if size == 0 then Success else if |old(Spaces())| >= size then InvalidKvs
                  else if got == [] then Overrun else Success)
        && kvs == if rc == Success then got else []
    {
      hide Compact, DisableLocal, PutAll, Put, PairsFor, SpacesOf, Visible, ShortPair, AllShort, RunOps, Puts;
      hide PutComms, DisableAll, PutSpace, FirstNamed, CompactSpace, OnlyLive, NoneBeyond, RoundOps;
      ghost var n := |SpacesOf(recs)|;
      InitKvs(name);
      StartRound(ops);
      for i := 0 to |ops|
        invariant Valid() && init && InRound(SpacesOf(recs), n, name, RunOps(ops[..i], true))
      {
        RoundNext(SpacesOf(recs), n, ops, i, name);
        match ops[i]
        case OpPut(key, value) =>
          var r := PutPair(name, key, value);
        case OpCommit =>
          ghost var before := SpacesOf(recs);
          var r, sent := Commit(name, true);
          RoundCommits(before, SpacesOf(recs), n, name, RunOps(ops[..i], true));
      }
      RoundEnds(SpacesOf(recs), n, ops, name, reply, keyLen, valLen);
      var r := Barrier(Some(reply), true);
      rc, kvs := IterateAll(name, keyLen, valLen, n);
    }
  }

  /** A put that is not committed, and a barrier that brings nothing: the iteration then
      reads past the record. */
  method HiddenTableOverruns(noDup: bool) returns (rc: Rc)
    ensures rc == Overrun
  {
    hide SpacesOf, PutSpace, PutComms, DisableAll, IterFirst, FirstNamed;
    HiddenTable(noDup);
    var p := new Process(noDup, true);
    p.InitKvs("a");
    assert p.Spaces() == [Space("a", false, 0, [])];
    var r := p.PutPair("a", "k", "v");
    r := p.Barrier(Some([]), true);
    var key, value;
    rc, key, value := p.IterateFirst("a", MAX_KEY_LEN, MAX_VAL_LEN);
  }

  lemma HiddenTable(noDup: bool)
    ensures
      var ss := [Space("a", false, 0, [])];
      var ts := PutSpace(ss, "a", KV("k", "v"), true, noDup);
      FirstNamed(ss, "a") == 0 && IterFirst(PutComms(DisableAll(ts), [], noDup), "a", 0).rc == Overrun
  {
    hide IterFirst;
    var ss := [Space("a", false, 0, [])];
    var ts := PutSpace(ss, "a", KV("k", "v"), true, noDup);
    var e := Entry("k", "v", Local);
    assert Find([], "k") == 0 && [] + [e] == [e];
    assert Put([], "k", "v", true, noDup) == [e];
    assert FirstNamed(ss, "a") == 0 && ss[0].store == [];
    assert ts == [Space("a", false, 0, [e])];
    var us := PutComms(DisableAll(ts), [], noDup);
    assert us[0].store[0].state == Disabled && |us[0].store| == 1;
    assert Decides(us, "a", 0);
    IterFirstIff(us, "a", 0);
  }

  predicate ShortPair(kv: KV) { 0 < |kv.key| <= MAX_KEY_LEN && |kv.value| <= MAX_VAL_LEN }

  predicate RoundOps(ops: seq<Op>) {
    forall i :: 0 <= i < |ops| ==> ops[i].OpCommit? || (ops[i].OpPut? && ShortPair(KV(ops[i].key, ops[i].value)))
  }

  function Puts(ops: seq<Op>): nat {
    if ops == [] then 0 else Puts(ops[..|ops| - 1]) + if ops[|ops| - 1].OpPut? then 1 else 0
  }

  /** The last space is the only one of its name and holds these entries. */
  predicate InRound(ss: seq<Space>, n: nat, name: string, es: Store) {
    |ss| == n + 1 && ss[n] == Space(name, false, 0, es) && forall j :: 0 <= j < n ==> ss[j].name != name
  }

  lemma StartRound(ops: seq<Op>)
    ensures RunOps(ops[..0], true) == []
  {
  }

  /** One operation on the last space. */
  lemma RoundNext(ss: seq<Space>, n: nat, ops: seq<Op>, i: nat, name: string)
    requires i < |ops| && RoundOps(ops) && InRound(ss, n, name, RunOps(ops[..i], true))
    ensures ops[i].OpCommit? || ops[i].OpPut?
    ensures ops[i].OpCommit? ==> RunOps(ops[..i + 1], true) == Compact(RunOps(ops[..i], true))
    ensures ops[i].OpPut? ==>
              && FirstNamed(ss, name) == n && |ops[i].key| <= MAX_KEY_LEN && |ops[i].value| <= MAX_VAL_LEN
              && InRound(PutSpace(ss, name, KV(ops[i].key, ops[i].value), true, true), n, name,
                         RunOps(ops[..i + 1], true))
  {
    hide Compact, Put, FirstNamed;
    assert ops[..i + 1][..i] == ops[..i];
    FirstNamedIs(ss, name, n);
  }

  lemma RoundCommits(ss: seq<Space>, ts: seq<Space>, n: nat, name: string, es: Store)
    requires InRound(ss, n, name, es) && |ts| == |ss|
    requires forall i :: 0 <= i < |ts| ==> ts[i] == CompactSpace(ss[i])
    ensures InRound(ts, n, name, Compact(es))
  {
    hide Compact;
  }

  lemma {:induction false} PutCommsNames(ss: seq<Space>, comms: seq<Comm>, noDup: bool)
    ensures SameNames(PutComms(ss, comms, noDup), ss)
    decreases |comms|
  {
    hide PutKVs;
    if comms != [] {
      PutKVsNames(ss, comms[0].name, comms[0].kvs, noDup);
      PutCommsNames(PutKVs(ss, comms[0].name, comms[0].kvs, noDup), comms[1..], noDup);
    }
  }

  lemma RoundEnds(ss: seq<Space>, n: nat, ops: seq<Op>, name: string, reply: seq<Comm>, keyLen: nat, valLen: nat)
    requires InRound(ss, n, name, RunOps(ops[..|ops|], true)) && RoundOps(ops)
    requires MAX_KEY_LEN <= keyLen && MAX_VAL_LEN <= valLen && Puts(ops) + |PairsFor(reply, name)| < UINT16
    requires forall i :: 0 <= i < |PairsFor(reply, name)| ==> ShortPair(PairsFor(reply, name)[i])
    ensures
      var kvs, ts := PairsFor(reply, name), PutComms(DisableAll(ss), reply, true);
      && OnlyLive(ts, name, n) && KVs(Visible(ts[n].store)) == kvs && |ts[n].store| == Puts(ops) + |kvs|
      && NoneBeyond(ts[n].store) && AllShort(ts[n].store, keyLen, valLen)
  {
    hide PutAll, DisableLocal, DisableAll, PutComms, Visible, PairsFor, GlobalEntries, RunOps, ShortPair, FirstNamed;
    hide Puts, AllShort;
    var kvs, before := PairsFor(reply, name), RunOps(ops, true);
    assert ops[..|ops|] == ops;
    FirstNamedIs(ss, name, n);
    BarrierOnSpace(ss, reply, true, n);
    DisableNames(ss);
    PutCommsNames(DisableAll(ss), reply, true);
    FreshBarrierVisible(ops, kvs);
    RoundDelivered(ops, kvs);
    RoundSize(ops);
    DeliverAppends(DisableLocal(before), kvs);
    RoundShort(before, kvs, keyLen, valLen);
  }

  lemma RoundDelivered(ops: seq<Op>, kvs: seq<KV>)
    ensures RunOps(ops + [OpDeliver(kvs)], true) == Deliver(RunOps(ops, true), kvs, true)
  {
    hide Deliver;
    var all := ops + [OpDeliver(kvs)];
    assert all[..|all| - 1] == ops;
  }

  predicate ShortEntries(es: Store) { forall e :: e in multiset(es) ==> ShortPair(KV(e.key, e.value)) }

  lemma {:induction false} RoundSize(ops: seq<Op>)
    requires RoundOps(ops)
    ensures |RunOps(ops, true)| == Puts(ops) && ShortEntries(RunOps(ops, true))
  {
    hide Compact, ShortPair;
    if ops != [] {
      var before := ops[..|ops| - 1];
      RoundSize(before);
      CompactSpec(RunOps(before, true));
    }
  }

  lemma RoundShort(es: Store, kvs: seq<KV>, keyLen: nat, valLen: nat)
    requires MAX_KEY_LEN <= keyLen && MAX_VAL_LEN <= valLen && ShortEntries(es)
    requires forall i :: 0 <= i < |kvs| ==> ShortPair(kvs[i])
    ensures AllShort(DisableLocal(es) + GlobalEntries(kvs), keyLen, valLen)
  {
    hide DisableLocal, GlobalEntries;
    var r := DisableLocal(es) + GlobalEntries(kvs);
    forall j | 0 <= j < |r| ensures ShortPair(KV(r[j].key, r[j].value)) {
      if j < |es| {
        assert es[j] in multiset(es) && r[j] == Disable(es[j]);
      } else {
        assert r[j] == GlobalEntries(kvs)[j - |es|];
      }
    }
  }
}

/** One keyval space of contribs/pmi/pmi.c as a sequence of entries: what put, commit,
    barrier delivery, get and iteration do to it. */
module PmiStore {
  import opened CText

  /** KVS_KEY_STATE_GLOBAL, _LOCAL and _DISABLED. */
  datatype KeyState = Global | Local | Disabled

  datatype Entry = Entry(key: string, value: string, state: KeyState)

  /** A key and its value as they travel between processes. */
  datatype KV = KV(key: string, value: string)

  /** The pairs of one space in a message to or from the server (struct kvs_comm). */
  datatype Comm = Comm(name: string, kvs: seq<KV>)

  type Store = seq<Entry>

  // ----- the operations

  /** The first entry with key k, or the length of the store. */
  function Find(es: Store, k: string): (j: nat)
    ensures j <= |es| && (j < |es| ==> es[j].key == k) && forall i :: 0 <= i < j ==> es[i].key != k
  {
    if es == [] || es[0].key == k then 0 else 1 + Find(es[1..], k)
  }

  /** _kvs_put on one record. Without duplicate checking the entry is always appended;
      with it an existing key gets the new value, and becomes local if put locally. */
  function Put(es: Store, k: string, v: string, local: bool, noDup: bool): Store {
    var state := if local then Local else Global;
    var j := Find(es, k);
    if noDup || j == |es| then es + [Entry(k, v, state)]
    else es[j := Entry(k, v, if local then Local else es[j].state)]
  }

  function Disable(e: Entry): Entry { if e.state == Local then e.(state := Disabled) else e }

  /** _kvs_disable_local_keys on one record. */
  function DisableLocal(es: Store): (r: Store)
    ensures |r| == |es| && forall i :: 0 <= i < |es| ==> r[i] == Disable(es[i])
  {
    seq(|es|, i requires 0 <= i < |es| => Disable(es[i]))
  }

  /** The barrier's put loop on one record. */
  function PutAll(es: Store, kvs: seq<KV>, noDup: bool): Store
    decreases |kvs|
  {
    if kvs == [] then es else PutAll(Put(es, kvs[0].key, kvs[0].value, false, noDup), kvs[1..], noDup)
  }

  /** What a barrier that delivers kvs does to one record. */
  function Deliver(es: Store, kvs: seq<KV>, noDup: bool): Store {
    PutAll(DisableLocal(es), kvs, noDup)
  }

  function Swap(es: Store, i: nat, j: nat): (r: Store)
    requires i < |es| && j < |es|
    ensures |r| == |es|
  {
    es[i := es[j]][j := es[i]]
  }

  /** The partition loop of PMI_KVS_Commit from index j on, with n entries moved so far. */
  function CompactFrom(es: Store, j: nat, n: nat): (r: Store)
    requires n <= j <= |es|
    ensures |r| == |es|
    decreases |es| - j
  {
    if j == |es| then es
    else if es[j].state == Global then CompactFrom(es, j + 1, n)
    else CompactFrom(Swap(es, j, n), j + 1, n + 1)
  }

  function Compact(es: Store): Store { CompactFrom(es, 0, 0) }

  function NonGlobal(es: Store): Store {
    if es == [] then [] else (if es[0].state == Global then [] else [es[0]]) + NonGlobal(es[1..])
  }

  function KVs(es: Store): (r: seq<KV>)
    ensures |r| == |es| && forall i :: 0 <= i < |es| ==> r[i] == KV(es[i].key, es[i].value)
  {
    seq(|es|, i requires 0 <= i < |es| => KV(es[i].key, es[i].value))
  }

  /** The pairs a commit sends. */
  function Committed(es: Store): seq<KV> { KVs(NonGlobal(es)) }

  /** PMI_KVS_Get on one record. */
  function Get(es: Store, k: string): Option<string> {
    var j := Find(es, k);
    if j < |es| then Some(es[j].value) else None
  }

  // ----- messages of several spaces

  /** The pairs a message holds for one space. */
  function PairsFor(comms: seq<Comm>, name: string): seq<KV> {
    if comms == [] then []
    else (if comms[0].name == name then comms[0].kvs else []) + PairsFor(comms[1..], name)
  }

  lemma {:induction false} PairsForConcat(cs: seq<Comm>, ds: seq<Comm>, name: string)
    ensures PairsFor(cs + ds, name) == PairsFor(cs, name) + PairsFor(ds, name)
  {
    if cs == [] {
      assert cs + ds == ds;
    } else {
      assert (cs + ds)[1..] == cs[1..] + ds;
      PairsForConcat(cs[1..], ds, name);
    }
  }

  /** They are exactly the pairs of the parts with that name. */
  lemma {:induction false} PairsForHas(cs: seq<Comm>, name: string, kv: KV)
    ensures kv in PairsFor(cs, name) <==> exists c :: c in cs && c.name == name && kv in c.kvs
  {
    if cs != [] {
      PairsForHas(cs[1..], name, kv);
      assert forall c :: c in cs <==> c == cs[0] || c in cs[1..];
    }
  }

  // ----- commit keeps everything and sends exactly the pairs that are not global

  lemma {:induction false} NonGlobalConcat(es: Store, fs: Store)
    ensures NonGlobal(es + fs) == NonGlobal(es) + NonGlobal(fs)
  {
    if es == [] {
      assert es + fs == fs;
    } else {
      assert (es + fs)[1..] == es[1..] + fs;
      NonGlobalConcat(es[1..], fs);
    }
  }

  lemma {:induction false} NonGlobalNone(es: Store)
    requires forall i :: 0 <= i < |es| ==> es[i].state == Global
    ensures NonGlobal(es) == []
  {
    if es != [] { NonGlobalNone(es[1..]); }
  }

  lemma {:induction false} NonGlobalAll(es: Store)
    requires forall i :: 0 <= i < |es| ==> es[i].state != Global
    ensures NonGlobal(es) == es
  {
    if es != [] { NonGlobalAll(es[1..]); }
  }

  lemma SwapMultiset(es: Store, i: nat, j: nat)
    requires i < |es| && j < |es|
    ensures multiset(Swap(es, i, j)) == multiset(es)
  {
  }

  /** The state of the partition loop: n entries to send in front, then global ones. */
  predicate Partitioned(es: Store, j: nat, n: nat) {
    && n <= j <= |es|
    && (forall i :: 0 <= i < n ==> es[i].state != Global)
    && (forall i :: n <= i < j ==> es[i].state == Global)
  }

  lemma PartitionTurn(es: Store, j: nat, n: nat)
    requires Partitioned(es, j, n) && j < |es| && es[j].state != Global
    ensures Partitioned(Swap(es, j, n), j + 1, n + 1) && NonGlobal(Swap(es, j, n)) == NonGlobal(es)
  {
    hide NonGlobal, Swap;
    var t := Swap(es, j, n);
    SwapParts(es, j, n);
    PartitionSplit(es, j, n);
    PartitionSplit(t, j + 1, n + 1);
    NonGlobalFirst(es[j..]);
    assert es[j..][1..] == es[j + 1..];
    assert es[..n] + ([es[j]] + NonGlobal(es[j + 1..])) == (es[..n] + [es[j]]) + NonGlobal(es[j + 1..]);
  }

  lemma SwapParts(es: Store, j: nat, n: nat)
    requires Partitioned(es, j, n) && j < |es| && es[j].state != Global
    ensures Partitioned(Swap(es, j, n), j + 1, n + 1)
    ensures Swap(es, j, n)[..n + 1] == es[..n] + [es[j]] && Swap(es, j, n)[j + 1..] == es[j + 1..]
  {
  }

  lemma NonGlobalFirst(es: Store)
    requires es != [] && es[0].state != Global
    ensures NonGlobal(es) == [es[0]] + NonGlobal(es[1..])
  {
  }

  lemma PartitionSplit(es: Store, j: nat, n: nat)
    requires Partitioned(es, j, n)
    ensures NonGlobal(es) == es[..n] + NonGlobal(es[j..])
  {
    hide NonGlobal;
    assert es == es[..n] + (es[n..j] + es[j..]);
    NonGlobalConcat(es[..n], es[n..j] + es[j..]);
    NonGlobalConcat(es[n..j], es[j..]);
    NonGlobalAll(es[..n]);
    NonGlobalNone(es[n..j]);
    assert [] + NonGlobal(es[j..]) == NonGlobal(es[j..]);
  }

  lemma {:induction false} CompactFromSpec(es: Store, j: nat, n: nat)
    requires Partitioned(es, j, n)
    ensures
      var r, m := CompactFrom(es, j, n), |NonGlobal(es)|;
      && multiset(r) == multiset(es) && m <= |r|
      && r[..m] == NonGlobal(es) && forall i :: m <= i < |r| ==> r[i].state == Global
    decreases |es| - j
  {
    hide NonGlobal, Swap;
    if j == |es| {
      PartitionSplit(es, j, n);
      NonGlobalNone(es[j..]);
      assert es[..n] + [] == es[..n];
    } else if es[j].state == Global {
      CompactFromSpec(es, j + 1, n);
    } else {
      PartitionTurn(es, j, n);
      SwapMultiset(es, j, n);
      CompactFromSpec(Swap(es, j, n), j + 1, n + 1);
    }
  }

  /** Committing permutes the entries, keys, values and states together; the pairs that
      are not global come first, in their original order, and only global ones follow. */
  lemma CompactSpec(es: Store)
    ensures
      var r, m := Compact(es), |NonGlobal(es)|;
      && multiset(r) == multiset(es) && m <= |r| == |es|
      && r[..m] == NonGlobal(es) && forall i :: m <= i < |r| ==> r[i].state == Global
  {
    CompactFromSpec(es, 0, 0);
  }

  // ----- which pairs a store holds

  predicate Holds(es: Store, k: string, v: string) {
    exists i :: 0 <= i < |es| && es[i].key == k && es[i].value == v
  }

  /** Held in an entry that a commit will send. */
  predicate Owns(es: Store, k: string, v: string) {
    exists i :: 0 <= i < |es| && es[i].key == k && es[i].value == v && es[i].state != Global
  }

  predicate Carries(kvs: seq<KV>, k: string, v: string) { KV(k, v) in kvs }

  /** All copies of key k have value v. */
  predicate OnlyValue(es: Store, k: string, v: string) {
    forall i :: 0 <= i < |es| && es[i].key == k ==> es[i].value == v
  }

  lemma HoldsIsMember(es: Store, k: string, v: string)
    ensures Holds(es, k, v) <==> exists st :: Entry(k, v, st) in multiset(es)
    ensures Owns(es, k, v) <==> exists st :: st != Global && Entry(k, v, st) in multiset(es)
  {
    if Holds(es, k, v) {
      var i :| 0 <= i < |es| && es[i].key == k && es[i].value == v;
      assert Entry(k, v, es[i].state) in multiset(es);
    }
    if Owns(es, k, v) {
      var i :| 0 <= i < |es| && es[i].key == k && es[i].value == v && es[i].state != Global;
      assert Entry(k, v, es[i].state) in multiset(es);
    }
    if st :| Entry(k, v, st) in multiset(es) {
      assert Entry(k, v, st) in es;
    }
    if st :| st != Global && Entry(k, v, st) in multiset(es) {
      assert Entry(k, v, st) in es;
    }
  }

  lemma CompactHolds(es: Store, k: string, v: string)
    ensures Holds(Compact(es), k, v) <==> Holds(es, k, v)
    ensures Owns(Compact(es), k, v) <==> Owns(es, k, v)
  {
    hide Compact, Holds, Owns;
    CompactSpec(es);
    HoldsIsMember(es, k, v);
    HoldsIsMember(Compact(es), k, v);
  }

  lemma {:induction false} CommittedCarries(es: Store, k: string, v: string)
    ensures Carries(Committed(es), k, v) <==> Owns(es, k, v)
  {
    if es != [] {
      CommittedCarries(es[1..], k, v);
      var ns := NonGlobal(es[1..]);
      assert es == [es[0]] + es[1..];
      if es[0].state != Global {
        assert KVs(NonGlobal(es)) == [KV(es[0].key, es[0].value)] + KVs(ns);
      } else {
        assert NonGlobal(es) == ns;
      }
      if Owns(es, k, v) && !Owns(es[1..], k, v) {
        var i :| 0 <= i < |es| && es[i].key == k && es[i].value == v && es[i].state != Global;
        assert i == 0;
      }
    }
  }

  lemma DisableHolds(es: Store, k: string, v: string)
    ensures Holds(DisableLocal(es), k, v) <==> Holds(es, k, v)
    ensures Owns(DisableLocal(es), k, v) <==> Owns(es, k, v)
  {
    var r := DisableLocal(es);
    if Holds(r, k, v) {
      var i :| 0 <= i < |r| && r[i].key == k && r[i].value == v;
      assert es[i].key == k;
    }
    if Holds(es, k, v) {
      var i :| 0 <= i < |es| && es[i].key == k && es[i].value == v;
      assert r[i].key == k;
    }
    if Owns(r, k, v) {
      var i :| 0 <= i < |r| && r[i].key == k && r[i].value == v && r[i].state != Global;
      assert es[i].key == k;
    }
    if Owns(es, k, v) {
      var i :| 0 <= i < |es| && es[i].key == k && es[i].value == v && es[i].state != Global;
      assert r[i].key == k;
    }
  }

  /** Putting a pair whose key has no other value adds that pair and nothing else. */
  lemma PutHolds(es: Store, k: string, v: string, local: bool, noDup: bool, k': string, v': string)
    requires OnlyValue(es, k, v)
    ensures Holds(Put(es, k, v, local, noDup), k', v') <==> Holds(es, k', v') || (k' == k && v' == v)
    ensures Owns(Put(es, k, v, local, noDup), k', v') <==> Owns(es, k', v') || (local && k' == k && v' == v)
  {
    hide Find;
    var r := Put(es, k, v, local, noDup);
    var j := Find(es, k);
    var at := if noDup || j == |es| then |es| else j;
    assert |es| <= |r| && at < |r| && r[at].key == k && r[at].value == v;
    assert forall i :: 0 <= i < |es| && i != at ==> r[i] == es[i];
    assert at < |es| ==> es[at].key == k && es[at].value == v && (es[at].state != Global ==> r[at].state != Global);
    PutForward(es, r, at, k', v');
    PutBackward(es, r, at, k', v');
  }

  lemma PutForward(es: Store, r: Store, at: nat, k': string, v': string)
    requires |es| <= |r| && at < |r| && forall i :: 0 <= i < |es| && i != at ==> r[i] == es[i]
    requires at < |es| ==> es[at].key == r[at].key && es[at].value == r[at].value
    requires at < |es| ==> (es[at].state != Global ==> r[at].state != Global)
    ensures Holds(es, k', v') ==> Holds(r, k', v')
    ensures Owns(es, k', v') ==> Owns(r, k', v')
    ensures Holds(r, r[at].key, r[at].value)
    ensures r[at].state != Global ==> Owns(r, r[at].key, r[at].value)
  {
    if Holds(es, k', v') {
      var i :| 0 <= i < |es| && es[i].key == k' && es[i].value == v';
      assert r[i].key == k';
    }
    if Owns(es, k', v') {
      var i :| 0 <= i < |es| && es[i].key == k' && es[i].value == v' && es[i].state != Global;
      assert r[i].key == k';
    }
  }

  lemma PutBackward(es: Store, r: Store, at: nat, k': string, v': string)
    requires if at < |es| then |r| == |es| else |r| == |es| + 1 && at == |es|
    requires forall i :: 0 <= i < |es| && i != at ==> r[i] == es[i]
    ensures Holds(r, k', v') ==> Holds(es, k', v') || (r[at].key == k' && r[at].value == v')
    ensures Owns(r, k', v') ==> Owns(es, k', v') || (r[at].key == k' && r[at].value == v' && r[at].state != Global)
  {
    if Holds(r, k', v') {
      var i :| 0 <= i < |r| && r[i].key == k' && r[i].value == v';
      if i != at { assert es[i].key == k'; }
    }
    if Owns(r, k', v') {
      var i :| 0 <= i < |r| && r[i].key == k' && r[i].value == v' && r[i].state != Global;
      if i != at { assert es[i].key == k'; }
    }
  }

  /** One value per key across the store and the pairs to deliver. */
  ghost predicate Consistent(es: Store, kvs: seq<KV>) {
    && (forall kv :: kv in kvs ==> OnlyValue(es, kv.key, kv.value))
    && forall i, j :: 0 <= i < |kvs| && 0 <= j < |kvs| && kvs[i].key == kvs[j].key ==> kvs[i].value == kvs[j].value
  }

  lemma ConsistentFirst(es: Store, kvs: seq<KV>)
    requires kvs != [] && Consistent(es, kvs)
    ensures OnlyValue(es, kvs[0].key, kvs[0].value)
  {
  }

  lemma PutConsistent(es: Store, kvs: seq<KV>, noDup: bool)
    requires kvs != [] && Consistent(es, kvs)
    ensures Consistent(Put(es, kvs[0].key, kvs[0].value, false, noDup), kvs[1..])
  {
    hide Find;
    var r := Put(es, kvs[0].key, kvs[0].value, false, noDup);
    forall kv | kv in kvs[1..] ensures OnlyValue(r, kv.key, kv.value) {
      assert kv in kvs && OnlyValue(es, kv.key, kv.value);
    }
  }

  lemma {:induction false} PutAllHolds(es: Store, kvs: seq<KV>, noDup: bool, k: string, v: string)
    requires Consistent(es, kvs)
    ensures Holds(PutAll(es, kvs, noDup), k, v) <==> Holds(es, k, v) || Carries(kvs, k, v)
    ensures Owns(PutAll(es, kvs, noDup), k, v) <==> Owns(es, k, v)
    decreases |kvs|
  {
    hide Put, Holds, Owns, Consistent, OnlyValue;
    if kvs != [] {
      ConsistentFirst(es, kvs);
      PutHolds(es, kvs[0].key, kvs[0].value, false, noDup, k, v);
      PutConsistent(es, kvs, noDup);
      PutAllHolds(Put(es, kvs[0].key, kvs[0].value, false, noDup), kvs[1..], noDup, k, v);
      assert kvs == [kvs[0]] + kvs[1..];
    }
  }

  /** A delivery adds exactly the delivered pairs and keeps what a commit will send. */
  lemma DeliverHolds(es: Store, kvs: seq<KV>, noDup: bool, k: string, v: string)
    requires Consistent(es, kvs)
    ensures Holds(Deliver(es, kvs, noDup), k, v) <==> Holds(es, k, v) || Carries(kvs, k, v)
    ensures Owns(Deliver(es, kvs, noDup), k, v) <==> Owns(es, k, v)
  {
    hide PutAll, Holds, Owns;
    assert Consistent(DisableLocal(es), kvs);
    DisableHolds(es, k, v);
    PutAllHolds(DisableLocal(es), kvs, noDup, k, v);
  }

  // ----- get

  lemma GetFindsHeld(es: Store, k: string, v: string)
    ensures Get(es, k) == Some(v) ==> Holds(es, k, v)
    ensures Holds(es, k, v) && OnlyValue(es, k, v) ==> Get(es, k) == Some(v)
  {
    hide Find;
    var j := Find(es, k);
    if Holds(es, k, v) {
      var i :| 0 <= i < |es| && es[i].key == k && es[i].value == v;
      assert j <= i;
    }
  }

  lemma OnlyValueHolds(es: Store, k: string, v: string)
    ensures OnlyValue(es, k, v) <==> forall w :: Holds(es, k, w) ==> w == v
  {
    if forall w :: Holds(es, k, w) ==> w == v {
      forall i | 0 <= i < |es| && es[i].key == k ensures es[i].value == v {
        assert Holds(es, k, es[i].value);
      }
    }
  }

  lemma CompactOnly(es: Store, k: string, v: string)
    ensures OnlyValue(Compact(es), k, v) <==> OnlyValue(es, k, v)
  {
    hide Compact, Holds, OnlyValue;
    OnlyValueHolds(es, k, v);
    OnlyValueHolds(Compact(es), k, v);
    forall w ensures Holds(Compact(es), k, w) <==> Holds(es, k, w) { CompactHolds(es, k, w); }
  }

  /** A key that has one value keeps it in a commit, whatever the other keys have. */
  lemma CompactKeepsGet(es: Store, k: string, v: string)
    requires OnlyValue(es, k, v)
    ensures Get(Compact(es), k) == Get(es, k)
  {
    hide Compact, Holds, OnlyValue, Get;
    CompactOnly(es, k, v);
    OnlyGet(es, k, v);
    OnlyGet(Compact(es), k, v);
    CompactHolds(es, k, v);
  }

  lemma OnlyGet(es: Store, k: string, v: string)
    requires OnlyValue(es, k, v)
    ensures Get(es, k) == if Holds(es, k, v) then Some(v) else None
  {
    hide Holds, Find;
    GetFindsHeld(es, k, v);
    if Get(es, k).Some? { GetFindsHeld(es, k, Get(es, k).value); }
  }

  // ----- what a commit does to the order, and so to get

  /** A block of global entries that gives its first one to its end. */
  function Rotate(gs: Store): (r: Store)
    ensures |r| == |gs|
  {
    if gs == [] then [] else gs[1..] + [gs[0]]
  }

  /** The global entries after the partition loop: those of es join the block gs in order,
      and each entry to send that passes it turns the block by one. */
  function Turned(gs: Store, es: Store): Store
    decreases |es|
  {
    if es == [] then gs
    else if es[0].state == Global then Turned(gs + [es[0]], es[1..])
    else Turned(Rotate(gs), es[1..])
  }

  /** The partition loop from any state of it. */
  lemma {:induction false} CompactFromIs(es: Store, j: nat, n: nat)
    requires n <= j <= |es|
    ensures CompactFrom(es, j, n) == es[..n] + NonGlobal(es[j..]) + Turned(es[n..j], es[j..])
    decreases |es| - j
  {
    hide Rotate, Swap, NonGlobal, Turned;
    PartitionUnfold(es, j, n);
    if j == |es| {
      assert es == es[..n] + [] + es[n..j];
    } else if es[j].state == Global {
      CompactFromIs(es, j + 1, n);
    } else {
      var t := Swap(es, j, n);
      CompactFromIs(t, j + 1, n + 1);
      SwapTurns(es, j, n);
      var ns := NonGlobal(es[j + 1..]);
      assert (es[..n] + [es[j]]) + ns == es[..n] + ([es[j]] + ns);
    }
  }

  lemma PartitionUnfold(es: Store, j: nat, n: nat)
    requires n <= j <= |es|
    ensures j == |es| ==> NonGlobal(es[j..]) == [] && Turned(es[n..j], es[j..]) == es[n..j]
    ensures j < |es| && es[j].state == Global ==>
              && NonGlobal(es[j..]) == NonGlobal(es[j + 1..])
              && Turned(es[n..j], es[j..]) == Turned(es[n..j + 1], es[j + 1..])
    ensures j < |es| && es[j].state != Global ==>
              && NonGlobal(es[j..]) == [es[j]] + NonGlobal(es[j + 1..])
              && Turned(es[n..j], es[j..]) == Turned(Rotate(es[n..j]), es[j + 1..])
  {
    hide Rotate;
    if j < |es| {
      assert es[j..][0] == es[j] && es[j..][1..] == es[j + 1..];
      assert es[n..j] + [es[j]] == es[n..j + 1];
      assert [] + NonGlobal(es[j + 1..]) == NonGlobal(es[j + 1..]);
    }
  }

  lemma SwapTurns(es: Store, j: nat, n: nat)
    requires n <= j < |es|
    ensures
      var t := Swap(es, j, n);
      t[..n + 1] == es[..n] + [es[j]] && t[n + 1..j + 1] == Rotate(es[n..j]) && t[j + 1..] == es[j + 1..]
  {
  }

  lemma CompactIs(es: Store)
    ensures Compact(es) == NonGlobal(es) + Turned([], es)
  {
    hide CompactFrom, NonGlobal, Turned;
    CompactFromIs(es, 0, 0);
    assert es[0..] == es && es[..0] == [] && es[0..0] == [] && [] + NonGlobal(es) == NonGlobal(es);
  }

  predicate HasKey(es: Store, k: string) { exists i :: 0 <= i < |es| && es[i].key == k }

  lemma GetConcat(es: Store, fs: Store, k: string)
    ensures Get(es + fs, k) == if HasKey(es, k) then Get(es, k) else Get(fs, k)
  {
    hide Find;
    var j := Find(es, k);
    if HasKey(es, k) {
      assert j < |es|;
      FindIs(es + fs, k, j);
    } else {
      assert j == |es|;
      FindIs(es + fs, k, |es| + Find(fs, k));
    }
  }

  /** A commit leaves get on a key alone exactly when: for a key with a copy to send, the
      first such copy has the value of the first copy; for any other key, the first of the
      turned global entries with that key does. */
  lemma CompactKeepsGetIff(es: Store, k: string)
    ensures Get(Compact(es), k) == Get(es, k) <==>
              Get(if HasKey(NonGlobal(es), k) then NonGlobal(es) else Turned([], es), k) == Get(es, k)
  {
    hide Compact, NonGlobal, Turned, Get, HasKey;
    CompactIs(es);
    GetConcat(NonGlobal(es), Turned([], es), k);
  }

  /** A key put again after a barrier: the local copy moves in front of the delivered one. */
  lemma CompactCanChangeGet()
    ensures
      var es := RunOps([OpDeliver([KV("k", "old")]), OpPut("k", "new")], true);
      Get(es, "k") == Some("old") && Get(Compact(es), "k") == Some("new")
  {
    hide Compact, RunOps, Turned, NonGlobal, Find;
    var g, e := Entry("k", "old", Global), Entry("k", "new", Local);
    SampleDelivery([KV("k", "old")], [g], "k", "new");
    assert [g] + [e] == [g, e];
    CompactIs([g, e]);
    SampleOne(g, e);
    FindIs([e] + Turned([], [g, e]), "k", 0);
    FindIs([g, e], "k", 0);
  }

  /** A key with two delivered values: putting some other key turns them around. */
  lemma CompactCanTurnGet()
    ensures
      var es := RunOps([OpDeliver([KV("k", "a"), KV("k", "b")]), OpPut("x", "c")], true);
      Get(es, "k") == Some("a") && Get(Compact(es), "k") == Some("b")
  {
    hide Compact, RunOps, Turned, NonGlobal, Find;
    var g, h, e := Entry("k", "a", Global), Entry("k", "b", Global), Entry("x", "c", Local);
    SampleDelivery([KV("k", "a"), KV("k", "b")], [g, h], "x", "c");
    assert [g, h] + [e] == [g, h, e];
    CompactIs([g, h, e]);
    SampleTurn(g, h, e);
    assert [e] + [h, g] == [e, h, g];
    FindIs([e, h, g], "k", 1);
    FindIs([g, h, e], "k", 0);
  }

  lemma SampleOne(g: Entry, e: Entry)
    requires g.state == Global && e.state == Local
    ensures NonGlobal([g, e]) == [e]
  {
    assert [g, e][1..] == [e] && [e][1..] == [];
    assert NonGlobal([e]) == [e] + NonGlobal([]);
  }

  lemma SampleTurn(g: Entry, h: Entry, e: Entry)
    requires g.state == h.state == Global && e.state == Local
    ensures NonGlobal([g, h, e]) == [e] && Turned([], [g, h, e]) == [h, g]
  {
    hide Rotate;
    assert [g, h, e][1..] == [h, e] && [h, e][1..] == [e] && [e][1..] == [];
    assert NonGlobal([e]) == [e] && NonGlobal([h, e]) == [e];
    assert [] + [g] == [g] && [g] + [h] == [g, h];
    SampleRotate(g, h);
    assert Turned([g, h], [e]) == Turned([h, g], []) == [h, g];
    assert Turned([g], [h, e]) == Turned([g, h], [e]);
  }

  lemma SampleRotate(g: Entry, h: Entry)
    ensures Rotate([g, h]) == [h, g]
  {
  }

  function GlobalEntries(kvs: seq<KV>): (r: Store)
    ensures |r| == |kvs| && forall i :: 0 <= i < |kvs| ==> r[i] == Entry(kvs[i].key, kvs[i].value, Global)
  {
    seq(|kvs|, i requires 0 <= i < |kvs| => Entry(kvs[i].key, kvs[i].value, Global))
  }

  lemma SampleDelivery(kvs: seq<KV>, gs: Store, k: string, v: string)
    requires gs == GlobalEntries(kvs)
    ensures RunOps([OpDeliver(kvs), OpPut(k, v)], true) == gs + [Entry(k, v, Local)]
  {
    hide PutAll, GlobalEntries, Find;
    var ops := [OpDeliver(kvs), OpPut(k, v)];
    assert ops[..1] == [OpDeliver(kvs)] && [OpDeliver(kvs)][..0] == [];
    assert DisableLocal([]) == [];
    DeliverAppends([], kvs);
    assert [] + gs == gs;
    assert RunOps([OpDeliver(kvs)], true) == gs;
  }

  lemma {:induction false} DeliverAppends(es: Store, kvs: seq<KV>)
    ensures PutAll(es, kvs, true) == es + GlobalEntries(kvs)
    decreases |kvs|
  {
    hide Find, GlobalEntries;
    if kvs != [] {
      var e := Entry(kvs[0].key, kvs[0].value, Global);
      DeliverAppends(es + [e], kvs[1..]);
      assert GlobalEntries(kvs) == [e] + GlobalEntries(kvs[1..]);
    }
  }

  // ----- with duplicate checking the store is a finite map

  predicate Distinct(es: Store) {
    forall i, j :: 0 <= i < j < |es| ==> es[i].key != es[j].key
  }

  /** After a put the key has the value put; no other key is affected. */
  lemma PutGet(es: Store, k: string, v: string, local: bool, k': string)
    ensures Get(Put(es, k, v, local, false), k') == if k' == k then Some(v) else Get(es, k')
    ensures Distinct(es) ==> Distinct(Put(es, k, v, local, false))
  {
    hide Find;
    var r := Put(es, k, v, local, false);
    var j := Find(es, k);
    FindIs(r, k', if k' == k then j else if Find(es, k') == |es| then |r| else Find(es, k'));
  }

  lemma FindIs(es: Store, k: string, j: nat)
    requires j <= |es| && (j < |es| ==> es[j].key == k) && forall i :: 0 <= i < j ==> es[i].key != k
    ensures Find(es, k) == j
  {
  }

  lemma {:induction false} CompactDistinct(es: Store, j: nat, n: nat)
    requires Distinct(es) && n <= j <= |es|
    ensures Distinct(CompactFrom(es, j, n))
    decreases |es| - j
  {
    if j < |es| {
      if es[j].state == Global {
        CompactDistinct(es, j + 1, n);
      } else {
        CompactDistinct(Swap(es, j, n), j + 1, n + 1);
      }
    }
  }

  datatype Op = OpPut(key: string, value: string) | OpDeliver(kvs: seq<KV>) | OpCommit

  function Apply(es: Store, op: Op, noDup: bool): Store {
    match op
    case OpPut(k, v) => Put(es, k, v, true, noDup)
    case OpDeliver(kvs) => Deliver(es, kvs, noDup)
    case OpCommit => Compact(es)
  }

  function RunOps(ops: seq<Op>, noDup: bool): Store {
    if ops == [] then [] else Apply(RunOps(ops[..|ops| - 1], noDup), ops[|ops| - 1], noDup)
  }

  function MapPutAll(m: map<string, string>, kvs: seq<KV>): map<string, string>
    decreases |kvs|
  {
    if kvs == [] then m else MapPutAll(m[kvs[0].key := kvs[0].value], kvs[1..])
  }

  /** The same operations on a finite map: the value last written wins. */
  function MapRun(ops: seq<Op>): map<string, string> {
    if ops == [] then map[]
    else
      var m := MapRun(ops[..|ops| - 1]);
      match ops[|ops| - 1]
      case OpPut(k, v) => m[k := v]
      case OpDeliver(kvs) => MapPutAll(m, kvs)
      case OpCommit => m
  }

  ghost predicate Refines(es: Store, m: map<string, string>) {
    Distinct(es) && forall k :: Get(es, k) == if k in m then Some(m[k]) else None
  }

  lemma {:induction false} PutAllRefines(es: Store, m: map<string, string>, kvs: seq<KV>)
    requires Refines(es, m)
    ensures Refines(PutAll(es, kvs, false), MapPutAll(m, kvs))
    decreases |kvs|
  {
    hide Get, Put, Distinct;
    if kvs != [] {
      var k, v := kvs[0].key, kvs[0].value;
      forall k' ensures Get(Put(es, k, v, false, false), k') == if k' == k then Some(v) else Get(es, k') {
        PutGet(es, k, v, false, k');
      }
      PutGet(es, k, v, false, k);
      PutAllRefines(Put(es, k, v, false, false), m[k := v], kvs[1..]);
    }
  }

  lemma DisableRefines(es: Store, m: map<string, string>)
    requires Refines(es, m)
    ensures Refines(DisableLocal(es), m)
  {
    hide Find;
    var r := DisableLocal(es);
    forall k ensures Get(r, k) == Get(es, k) { FindIs(r, k, Find(es, k)); }
  }

  lemma CompactRefines(es: Store, m: map<string, string>)
    requires Refines(es, m)
    ensures Refines(Compact(es), m)
  {
    hide Get;
    CompactDistinct(es, 0, 0);
    forall k ensures Get(Compact(es), k) == Get(es, k) {
      var v := DistinctOnly(es, k);
      CompactKeepsGet(es, k, v);
    }
  }

  lemma DistinctOnly(es: Store, k: string) returns (v: string)
    requires Distinct(es)
    ensures OnlyValue(es, k, v)
  {
    var j := Find(es, k);
    v := if j < |es| then es[j].value else "";
  }

  /** With duplicate checking on, any sequence of puts, barrier deliveries and commits
      leaves the keys pairwise distinct and get returns the value last written. */
  lemma {:induction false} DupModeRefinesMap(ops: seq<Op>)
    ensures Refines(RunOps(ops, false), MapRun(ops))
  {
    hide Get, Compact, Put, Distinct, Refines;
    if ops == [] {
      EmptyRefines();
    } else {
      var before := ops[..|ops| - 1];
      var es, m := RunOps(before, false), MapRun(before);
      DupModeRefinesMap(before);
      match ops[|ops| - 1]
      case OpPut(k, v) => PutRefines(es, m, k, v);
      case OpDeliver(kvs) =>
        DisableRefines(es, m);
        PutAllRefines(DisableLocal(es), m, kvs);
      case OpCommit => CompactRefines(es, m);
    }
  }

  lemma EmptyRefines()
    ensures Refines([], map[])
  {
  }

  lemma PutRefines(es: Store, m: map<string, string>, k: string, v: string)
    requires Refines(es, m)
    ensures Refines(Put(es, k, v, true, false), m[k := v])
  {
    hide Get, Put, Distinct;
    PutGet(es, k, v, true, k);
    forall k' ensures Get(Put(es, k, v, true, false), k') == if k' == k then Some(v) else Get(es, k') {
      PutGet(es, k, v, true, k');
    }
  }

  // ----- what iteration shows with duplicate checking

  function StateOf(es: Store, k: string): Option<KeyState> {
    var j := Find(es, k);
    if j < |es| then Some(es[j].state) else None
  }

  lemma PutState(es: Store, k: string, v: string, local: bool, k': string)
    ensures StateOf(Put(es, k, v, local, false), k') ==
            if k' != k then StateOf(es, k')
            else if local then Some(Local)
            else if StateOf(es, k).None? then Some(Global) else StateOf(es, k)
  {
    hide Find;
    var r := Put(es, k, v, local, false);
    FindIs(r, k', if k' == k then Find(es, k) else if Find(es, k') == |es| then |r| else Find(es, k'));
  }

  predicate Mentions(kvs: seq<KV>, k: string) { exists i :: 0 <= i < |kvs| && kvs[i].key == k }

  /** Delivered pairs leave the state of the keys that are there alone. */
  lemma {:induction false} PutAllState(es: Store, kvs: seq<KV>, k: string)
    ensures StateOf(PutAll(es, kvs, false), k) ==
            if StateOf(es, k).Some? then StateOf(es, k) else if Mentions(kvs, k) then Some(Global) else None
    decreases |kvs|
  {
    hide StateOf, Put;
    if kvs != [] {
      var kv := kvs[0];
      PutState(es, kv.key, kv.value, false, k);
      PutAllState(Put(es, kv.key, kv.value, false, false), kvs[1..], k);
      assert Mentions(kvs, k) <==> kv.key == k || Mentions(kvs[1..], k) by {
        if Mentions(kvs[1..], k) {
          var i :| 0 <= i < |kvs| - 1 && kvs[1..][i].key == k;
          assert kvs[i + 1].key == k;
        }
        if Mentions(kvs, k) && kv.key != k {
          var i :| 0 <= i < |kvs| && kvs[i].key == k;
          assert kvs[1..][i - 1].key == k;
        }
      }
    }
  }

  lemma DisableState(es: Store, k: string)
    ensures StateOf(DisableLocal(es), k) == if StateOf(es, k) == Some(Local) then Some(Disabled) else StateOf(es, k)
  {
    hide Find;
    FindIs(DisableLocal(es), k, Find(es, k));
  }

  lemma CompactState(es: Store, k: string)
    requires Distinct(es)
    ensures StateOf(Compact(es), k) == StateOf(es, k)
  {
    hide Find, Compact, CompactFrom;
    var r := Compact(es);
    CompactSpec(es);
    assert Distinct(r) by { CompactKeepsDistinct(es); }
    if Find(es, k) < |es| {
      assert es[Find(es, k)] in multiset(r);
      var i :| 0 <= i < |r| && r[i] == es[Find(es, k)];
      FindIs(r, k, i);
    } else {
      forall i | 0 <= i < |r| ensures r[i].key != k { assert r[i] in multiset(es); }
    }
  }

  lemma CompactKeepsDistinct(es: Store)
    requires Distinct(es)
    ensures Distinct(Compact(es))
  {
    CompactDistinct(es, 0, 0);
  }

  /** The key was put by this process. */
  predicate EverPut(ops: seq<Op>, k: string) {
    ops != [] && ((ops[|ops| - 1].OpPut? && ops[|ops| - 1].key == k) || EverPut(ops[..|ops| - 1], k))
  }

  /** It was put since the last barrier. */
  predicate PutSince(ops: seq<Op>, k: string) {
    ops != [] && !ops[|ops| - 1].OpDeliver? &&
    ((ops[|ops| - 1].OpPut? && ops[|ops| - 1].key == k) || PutSince(ops[..|ops| - 1], k))
  }

  /** It was delivered at some barrier. */
  predicate EverDelivered(ops: seq<Op>, k: string) {
    ops != [] &&
    ((ops[|ops| - 1].OpDeliver? && Mentions(ops[|ops| - 1].kvs, k)) || EverDelivered(ops[..|ops| - 1], k))
  }

  /** With duplicate checking, after any puts, commits and barriers: a key is local when it
      was put since the last barrier, disabled when it was ever put otherwise, even if it was
      delivered since, and global when it was only delivered. */
  lemma {:induction false} DupModeState(ops: seq<Op>, k: string)
    ensures StateOf(RunOps(ops, false), k) ==
            if PutSince(ops, k) then Some(Local)
            else if EverPut(ops, k) then Some(Disabled)
            else if EverDelivered(ops, k) then Some(Global) else None
    ensures PutSince(ops, k) ==> EverPut(ops, k)
  {
    hide StateOf, Put, Compact, DisableLocal, PutAll, Mentions;
    if ops == [] {
      NoState(k);
    } else {
      var before := ops[..|ops| - 1];
      var es := RunOps(before, false);
      DupModeState(before, k);
      match ops[|ops| - 1]
      case OpPut(key, v) => PutState(es, key, v, true, k);
      case OpDeliver(kvs) =>
        DisableState(es, k);
        PutAllState(DisableLocal(es), kvs, k);
      case OpCommit =>
        DupModeRefinesMap(before);
        CompactState(es, k);
    }
  }

  lemma NoState(k: string)
    ensures StateOf([], k) == None
  {
  }

  predicate ShownKey(es: Store, k: string) { exists i :: 0 <= i < |es| && es[i].key == k && es[i].state != Disabled }

  /** So iteration shows a key exactly when it was put since the last barrier, or delivered
      and never put by this process. */
  lemma DupModeShownIff(ops: seq<Op>, k: string)
    ensures ShownKey(RunOps(ops, false), k) <==>
            PutSince(ops, k) || (EverDelivered(ops, k) && !EverPut(ops, k))
  {
    hide RunOps, EverPut, PutSince, EverDelivered, Find;
    DupModeState(ops, k);
    DupModeRefinesMap(ops);
    var es := RunOps(ops, false);
    var j := Find(es, k);
    if ShownKey(es, k) {
      var i :| 0 <= i < |es| && es[i].key == k && es[i].state != Disabled;
      assert i == j;
    } else if j < |es| {
      assert es[j].state == Disabled;
    }
  }

  /** A process that puts a key is not shown it after the barrier that delivers it. */
  lemma DupModeHidesOwn(k: string, v: string)
    ensures !ShownKey(RunOps([OpPut(k, v), OpCommit, OpDeliver([KV(k, v)])], false), k)
  {
    hide RunOps, ShownKey;
    var ops := [OpPut(k, v), OpCommit, OpDeliver([KV(k, v)])];
    DupModeShownIff(ops, k);
    assert ops[..2] == [OpPut(k, v), OpCommit] && ops[..2][..1] == [OpPut(k, v)];
    assert EverPut(ops[..2][..1], k);
    assert EverPut(ops[..2], k) && EverPut(ops, k);
  }

  // ----- what iteration shows in the default mode

  /** The entries iteration returns: all but the disabled local copies. */
  function Visible(es: Store): Store {
    if es == [] then [] else (if es[0].state == Disabled then [] else [es[0]]) + Visible(es[1..])
  }

  lemma {:induction false} VisibleConcat(es: Store, fs: Store)
    ensures Visible(es + fs) == Visible(es) + Visible(fs)
  {
    if es == [] {
      assert es + fs == fs;
    } else {
      assert (es + fs)[1..] == es[1..] + fs;
      VisibleConcat(es[1..], fs);
    }
  }

  lemma {:induction false} VisibleNone(es: Store)
    requires forall i :: 0 <= i < |es| ==> es[i].state == Disabled
    ensures Visible(es) == []
  {
    if es != [] { VisibleNone(es[1..]); }
  }

  lemma {:induction false} PutAllVisible(es: Store, kvs: seq<KV>)
    ensures KVs(Visible(PutAll(es, kvs, true))) == KVs(Visible(es)) + kvs
    decreases |kvs|
  {
    hide Find;
    if kvs != [] {
      var e := Entry(kvs[0].key, kvs[0].value, Global);
      PutAllVisible(es + [e], kvs[1..]);
      VisibleConcat(es, [e]);
      assert Visible([e]) == [e];
      assert KVs(Visible(es) + [e]) == KVs(Visible(es)) + [kvs[0]];
      assert kvs == [kvs[0]] + kvs[1..];
    }
  }

  lemma {:induction false} AllLocal(ops: seq<Op>)
    requires forall i :: 0 <= i < |ops| ==> !ops[i].OpDeliver?
    ensures forall e :: e in multiset(RunOps(ops, true)) ==> e.state == Local
  {
    hide Compact;
    if ops != [] {
      var es := RunOps(ops[..|ops| - 1], true);
      AllLocal(ops[..|ops| - 1]);
      CompactSpec(es);
    }
  }

  /** Default mode, fresh record: after any puts and commits and one barrier, exactly the
      delivered pairs are visible, each as often and in the order it was delivered. */
  lemma FreshBarrierVisible(ops: seq<Op>, kvs: seq<KV>)
    requires forall i :: 0 <= i < |ops| ==> !ops[i].OpDeliver?
    ensures KVs(Visible(RunOps(ops + [OpDeliver(kvs)], true))) == kvs
  {
    hide Visible;
    var es := RunOps(ops, true);
    var all := ops + [OpDeliver(kvs)];
    assert all[..|all| - 1] == ops;
    AllLocal(ops);
    forall i | 0 <= i < |es| ensures es[i].state == Local { assert es[i] in multiset(es); }
    VisibleNone(DisableLocal(es));
    PutAllVisible(DisableLocal(es), kvs);
    assert KVs([]) == [];
  }
}

/** contribs/pmi2/pmi2_api.c: writing a command into a buffer and sending it in pieces,
    receiving a frame in pieces, counting its pairs, and parsing it in place. */
module Pmi2Api {
  import opened CText
  import opened Pmi2Format

  /** The bytes in flight on a connection. How many bytes one call moves is up to the
      system: any non-empty part of what is asked for and there. */
  class Channel {
    const flaky: bool  // whether a read or a write can also fail
    var data: string

    method Read(max: nat) returns (chunk: string)
      modifies this
      ensures chunk + data == old(data) && |chunk| <= max
      ensures max > 0 && old(data) != [] ==> |chunk| > 0
    {
      if max == 0 || data == [] { return []; }
      var k :| 1 <= k <= |data| && k <= max;
      chunk := data[..k];
      data := data[k..];
    }

    /** A read that fails takes nothing. */
    method ReadOrFail(max: nat) returns (failed: bool, chunk: string)
      modifies this
      ensures chunk + data == old(data) && |chunk| <= max
      ensures failed ==> flaky && chunk == []
      ensures !failed && max > 0 && old(data) != [] ==> |chunk| > 0
    {
      failed := *;
      failed := failed && flaky;
      chunk := [];
      if !failed { chunk := Read(max); }
    }

    method Write(bytes: string) returns (n: nat)
      requires bytes != []
      modifies this
      ensures 1 <= n <= |bytes| && data == old(data) + bytes[..n]
    {
      n :| 1 <= n <= |bytes|;
      data := data + bytes[..n];
    }

    /** A write that fails appends nothing. */
    method WriteOrFail(bytes: string) returns (failed: bool, n: nat)
      requires bytes != []
      modifies this
      ensures n <= |bytes| && data == old(data) + bytes[..n]
      ensures if failed then flaky && n == 0 else n > 0
    {
      failed := *;
      failed := failed && flaky;
      n := 0;
      if !failed { n := Write(bytes); }
    }
  }

  // ----- reading

  /** The loops at 1398-1408 and 1419-1429: fill the first len bytes of the buffer. */
  method ReadExactly(ch: Channel, buf: array<char>, len: nat) returns (ok: bool)
    requires len <= buf.Length
    modifies ch, buf
    ensures ok ==> 0 < len <= |old(ch.data)|
    ensures !ok ==> len == 0 || |old(ch.data)| < len || ch.flaky
    ensures ok ==> buf[..len] == old(ch.data)[..len] && ch.data == old(ch.data)[len..]
    ensures buf[len..] == old(buf[len..])
  {
    var offset := 0;
    ghost var all := ch.data;
    while true
      invariant 0 <= offset <= len && (offset > 0 ==> offset < len)
      invariant buf[..offset] + ch.data == all
      invariant buf[len..] == old(buf[len..])
      decreases len - offset
    {
      ghost var before := buf[..offset];
      var failed, chunk := ch.ReadOrFail(len - offset);
      if failed || |chunk| == 0 { return false; }
      forall i | 0 <= i < |chunk| { buf[offset + i] := chunk[i]; }
      offset := offset + |chunk|;
      assert buf[..offset] == before + chunk;
      if offset >= len { break; }
    }
    return true;
  }

  /** Lines 1433-1451: the counting pass. */
  method CountPass(buf: array<char>, cmdLen: nat) returns (num: nat)
    requires cmdLen + 1 == buf.Length && buf[cmdLen] == '\0'
    ensures num == CountPairs(buf[..cmdLen])
  {
    ghost var body := buf[..cmdLen];
    var c, remaining: int := 0, cmdLen;
    num := 0;
    while remaining > 0
      invariant 0 <= c <= cmdLen + 1 && remaining == cmdLen - c
      invariant num + (if c <= cmdLen then CountPairs(body[c..]) else 0) == CountPairs(body)
      decreases remaining
    {
      ghost var start := c;
      while remaining != 0 && buf[c] != ';'
        invariant start <= c <= cmdLen && remaining == cmdLen - c
        invariant c < cmdLen ==> CountPairs(body[c..]) == CountPairs(body[start..])
        invariant c == cmdLen ==> CountPairs(body[start..]) == 1
        decreases remaining
      {
        assert body[c..][1..] == body[c + 1..];
        remaining := remaining - 1;
        c := c + 1;
      }
      if buf[c] == ';' && buf[c + 1] == ';' {
        assert body[c..][2..] == body[c + 2..];
        remaining := remaining - 2;
        c := c + 2;
      } else {
        if c < cmdLen { assert body[c..][1..] == body[c + 1..]; }
        num := num + 1;
        remaining := remaining - 1;
        c := c + 1;
      }
    }
  }

  /** Lines 1274-1277: the position of the '=' that ends the key. */
  method FindKeyEnd(buf: array<char>, c: nat, cmdLen: nat) returns (p: nat)
    requires c <= cmdLen < buf.Length
    ensures c <= p <= cmdLen && p - c == IndexOf(buf[c..cmdLen], '=')
  {
    ghost var s := buf[c..cmdLen];
    p := c;
    while p < cmdLen && buf[p] != '='
      invariant c <= p <= cmdLen && forall j :: 0 <= j < p - c ==> s[j] != '='
    {
      p := p + 1;
    }
    IndexIs(s, '=', p - c);
  }

  lemma IndexIs(s: string, c: char, e: nat)
    requires e <= |s| && (forall j :: 0 <= j < e ==> s[j] != c) && (e < |s| ==> s[e] == c)
    ensures IndexOf(s, c) == e
  {
  }

  /** What un-escaping from position p of the body yields. */
  ghost function ScanFrom(orig: string, p: nat, cmdLen: nat): Scan
    requires p <= cmdLen <= |orig|
  {
    ScanValue(orig[p..cmdLen])
  }

  /** With out taken so far, the rest of the value is still to come from position p. */
  ghost predicate Underway(orig: string, val: nat, p: nat, cmdLen: nat, out: string)
    requires val <= cmdLen <= |orig| && p <= cmdLen
  {
    ScanFrom(orig, val, cmdLen) == Scan(out + ScanFrom(orig, p, cmdLen).value, ScanFrom(orig, p, cmdLen).rest)
  }

  lemma UnderwayStart(orig: string, val: nat, cmdLen: nat)
    requires val <= cmdLen <= |orig|
    ensures Underway(orig, val, val, cmdLen, [])
  {
    hide ScanFrom;
    assert [] + ScanFrom(orig, val, cmdLen).value == ScanFrom(orig, val, cmdLen).value;
  }

  lemma UnderwayPlain(orig: string, val: nat, p: nat, cmdLen: nat, out: string)
    requires val <= cmdLen <= |orig| && p < cmdLen && orig[p] != ';' && Underway(orig, val, p, cmdLen, out)
    ensures Underway(orig, val, p + 1, cmdLen, out + [orig[p]])
  {
    hide ScanValue;
    var u := orig[p + 1..cmdLen];
    assert orig[p..cmdLen] == [orig[p]] + u;
    ScanPlain(orig[p], u);
    assert out + ([orig[p]] + ScanValue(u).value) == (out + [orig[p]]) + ScanValue(u).value;
  }

  lemma UnderwayDoubled(orig: string, val: nat, p: nat, cmdLen: nat, out: string)
    requires val <= cmdLen < |orig| && p < cmdLen && orig[cmdLen] == '\0' && Underway(orig, val, p, cmdLen, out)
    requires orig[p] == ';' && orig[p + 1] == ';'
    ensures p + 2 <= cmdLen && Underway(orig, val, p + 2, cmdLen, out + [';'])
  {
    hide ScanValue;
    var u := orig[p + 2..cmdLen];
    assert orig[p..cmdLen] == ";;" + u;
    ScanDoubled(u);
    assert out + ([';'] + ScanValue(u).value) == (out + [';']) + ScanValue(u).value;
  }

  lemma UnderwayStop(orig: string, val: nat, p: nat, cmdLen: nat, out: string)
    requires val <= cmdLen < |orig| && p <= cmdLen && Underway(orig, val, p, cmdLen, out)
    requires p == cmdLen || (orig[p] == ';' && orig[p + 1] != ';')
    ensures ScanFrom(orig, val, cmdLen) == Scan(out, orig[p..cmdLen])
  {
    hide ScanValue;
    ScanStop(orig[p..cmdLen]);
    assert out + [] == out;
  }

  /** Lines 1287-1300: drops the second ';' of every pair, reading at p and writing at d
      in the same buffer. The write position never overtakes the read position. */
  method UnescapeInPlace(buf: array<char>, val: nat, cmdLen: nat) returns (d: nat, p: nat)
    requires val <= cmdLen && cmdLen + 1 == buf.Length && buf[cmdLen] == '\0'
    modifies buf
    ensures val <= d <= p <= cmdLen
    ensures forall i :: 0 <= i < val || p <= i < buf.Length ==> buf[i] == old(buf[i])
    ensures ScanFrom(old(buf[..]), val, cmdLen) == Scan(buf[val..d], old(buf[..])[p..cmdLen])
  {
    hide ScanFrom, Underway;
    ghost var orig := buf[..];
    ghost var out: string := [];
    d, p := val, val;
    UnderwayStart(orig, val, cmdLen);
    while p < cmdLen
      invariant val <= d <= p <= cmdLen && |out| == d - val && Underway(orig, val, p, cmdLen, out)
      invariant forall i :: 0 <= i < val || p <= i < buf.Length ==> buf[i] == orig[i]
      invariant forall i :: 0 <= i < |out| ==> buf[val + i] == out[i]
    {
      if buf[p] == ';' {
        if buf[p + 1] != ';' { break; }
        UnderwayDoubled(orig, val, p, cmdLen, out);
        p := p + 1;
      } else {
        UnderwayPlain(orig, val, p, cmdLen, out);
      }
      out := out + [buf[p]];
      buf[d] := buf[p];
      d, p := d + 1, p + 1;
    }
    UnderwayStop(orig, val, p, cmdLen, out);
    assert buf[val..d] == out;
  }

  /** parse_keyval: takes one "key=value;" from position c, ends the key with NUL and
      un-escapes the value in place. Nothing from the new position on is overwritten. */
  method ParseKeyvalInPlace(buf: array<char>, c: nat, cmdLen: nat)
    returns (ok: bool, keyLen: nat, val: nat, vallen: nat, next: nat)
    requires c <= cmdLen && cmdLen + 1 == buf.Length && buf[cmdLen] == '\0'
    modifies buf
    ensures ok == ParseKeyval(old(buf[c..cmdLen])).Keyval?
    ensures ok ==>
      var r := ParseKeyval(old(buf[c..cmdLen]));
      && c + keyLen < val && val + vallen < next <= cmdLen
      && buf[c..c + keyLen] == r.key && buf[val..val + vallen] == r.value
      && buf[next..cmdLen] == r.rest
      && buf[next..] == old(buf[next..])
  {
    hide ParseKeyval, ScanFrom, IndexOf;
    ghost var orig := buf[..];
    assert buf[c..cmdLen] == orig[c..cmdLen];
    ok, keyLen, val, vallen, next := false, 0, c, 0, c;
    var e := FindKeyEnd(buf, c, cmdLen);
    if e == cmdLen || e - c > MAX_KEYLEN { KeyvalParts(orig, buf[..], c, e, cmdLen); return; }
    buf[e] := '\0';
    val := e + 1;
    KeyvalParts(orig, buf[..], c, e, cmdLen);
    ghost var marked := buf[..];
    var d, p := UnescapeInPlace(buf, val, cmdLen);
    ghost var value := buf[val..d];
    assert marked[p..cmdLen] == orig[p..cmdLen];
    if p == cmdLen || d - val > MAX_VALLEN { return; }
    buf[p] := '\0';
    ok, keyLen, vallen, next := true, e - c, d - val, p + 1;
    KeyvalDone(orig, buf[..], c, e, d, p, cmdLen, value);
  }

  /** The parts of a parsed pair, read off the buffer with its '=' overwritten. */
  lemma KeyvalParts(orig: string, marked: string, c: nat, e: nat, cmdLen: nat)
    requires c <= e <= cmdLen < |orig| && |marked| == |orig| && e - c == IndexOf(orig[c..cmdLen], '=')
    requires forall i :: 0 <= i < |orig| && i != e ==> marked[i] == orig[i]
    ensures ParseKeyval(orig[c..cmdLen]) ==
      if e == cmdLen || e - c > MAX_KEYLEN then BadKeyval
      else
        var v := ScanFrom(marked, e + 1, cmdLen);
        if v.rest == [] || |v.value| > MAX_VALLEN then BadKeyval else Keyval(orig[c..e], v.value, v.rest[1..])
  {
    hide ScanValue, IndexOf;
    var s := orig[c..cmdLen];
    if e < cmdLen { assert s[e - c + 1..] == marked[e + 1..cmdLen]; }
    assert s[..e - c] == orig[c..e];
  }

  /** Where the parts of the pair are in the final buffer. */
  lemma KeyvalDone(orig: string, fin: string, c: nat, e: nat, d: nat, p: nat, cmdLen: nat, value: string)
    requires c <= e < d <= p < cmdLen < |orig| == |fin| && |value| == d - (e + 1)
    requires forall i :: c <= i < e ==> fin[i] == orig[i]
    requires forall i :: 0 <= i < |value| ==> fin[e + 1 + i] == value[i]
    requires forall i :: p < i < |orig| ==> fin[i] == orig[i]
    ensures fin[c..e] == orig[c..e] && fin[e + 1..d] == value
    ensures fin[p + 1..cmdLen] == orig[p..cmdLen][1..] && fin[p + 1..] == orig[p + 1..]
  {
  }

  /** What a search through the slots ends with: Unset when it comes to a slot that was
      never filled. */
  datatype Lookup = Found(value: string) | Missing | Unset

  /** The search has passed the first i slots: they are filled, with other keys. */
  predicate Passed(slots: seq<Option<Pair>>, i: nat, key: string) {
    i <= |slots| && forall j :: 0 <= j < i ==> slots[j].Some? && !SameKey(key, slots[j].value.key)
  }

  /** The first i slots are filled, with keys that are not this one. */
  predicate Others(slots: seq<Option<Pair>>, i: nat, key: string) {
    i <= |slots| && forall j :: 0 <= j < i ==> slots[j].Some? && slots[j].value.key != key
  }

  lemma PassedShort(slots: seq<Option<Pair>>, key: string)
    ensures |key| < MAX_KEYLEN ==> forall i :: 0 <= i <= |slots| ==> Passed(slots, i, key) == Others(slots, i, key)
  {
    hide SameKey;
    if |key| < MAX_KEYLEN {
      forall j | 0 <= j < |slots| && slots[j].Some?
        ensures SameKey(key, slots[j].value.key) <==> key == slots[j].value.key
      {
        SameKeyShort(key, slots[j].value.key);
      }
    }
  }

  /** getval: the value of the first pair with the key. */
  method GetVal(pairs: array<Option<Pair>>, npairs: nat, key: string) returns (r: Lookup)
    requires npairs <= pairs.Length
    ensures r.Missing? <==> Passed(pairs[..], npairs, key)
    ensures r.Unset? <==> exists i :: 0 <= i < npairs && Passed(pairs[..], i, key) && pairs[i].None?
    ensures r.Found? ==> exists i :: 0 <= i < npairs && Passed(pairs[..], i, key) && pairs[i].Some?
                                    && SameKey(key, pairs[i].value.key) && pairs[i].value.value == r.value
    ensures |key| < MAX_KEYLEN ==> (r.Missing? <==> Others(pairs[..], npairs, key))
    ensures |key| < MAX_KEYLEN && r.Found? ==>
              exists i :: 0 <= i < npairs && Others(pairs[..], i, key) && pairs[i] == Some(Pair(key, r.value))
  {
    hide SameKey;
    PassedShort(pairs[..], key);
    for i := 0 to npairs
      invariant Passed(pairs[..], i, key)
    {
      if pairs[i].None? { return Unset; }
      if SameKey(key, pairs[i].value.key) {
        if |key| < MAX_KEYLEN { SameKeyShort(key, pairs[i].value.key); }
        return Found(pairs[i].value.value);
      }
    }
    return Missing;
  }

  /** Lines 1453-1483: the command name and the pairs of a body that holds num pairs by
      the count. No pair is ever stored beyond the array sized by the count. */
  method ParsePass(buf: array<char>, cmdLen: nat, num: nat)
    returns (ok: bool, name: string, pairs: array<Option<Pair>>)
    requires cmdLen + 1 == buf.Length && buf[cmdLen] == '\0' && num == CountPairs(buf[..cmdLen])
    modifies buf
    ensures fresh(pairs) && ok == ParseBody(old(buf[..cmdLen])).Some?
    ensures ok ==>
              var c := ParseBody(old(buf[..cmdLen])).value;
              name == c.name && 1 + |c.pairs| <= num && pairs[..] == Slots(c.pairs, num - 1)
  {
    hide ParseKeyval, ParsePairs, CountPairs, CString, Slots, EvenRuns;
    ghost var body := buf[..cmdLen];
    assert buf[0..cmdLen] == body;
    ok, name := false, [];
    pairs := new Option<Pair>[0];
    CountKeyval(body);
    var good, keyLen, val, vallen, c := ParseKeyvalInPlace(buf, 0, cmdLen);
    if !good { return; }
    if CString(buf[0..keyLen]) != "cmd" { return; }
    name := buf[val..val + vallen];
    pairs := new Option<Pair>[num - 1](_ => None);
    var index := 0;
    ghost var left, done: seq<Pair> := buf[c..cmdLen], [];
    PrependNone(ParsePairs(left));
    while c < cmdLen
      invariant c <= cmdLen && buf[cmdLen] == '\0'
      invariant index + CountPairs(buf[c..cmdLen]) <= num - 1 == pairs.Length
      invariant index == |done| && pairs[..] == Slots(done, num - 1)
      invariant ParsePairs(left) == Prepend(done, ParsePairs(buf[c..cmdLen]))
      decreases cmdLen - c
    {
      ghost var s := buf[c..cmdLen];
      CountKeyval(s);
      ParseOne(s);
      var start := c;
      good, keyLen, val, vallen, c := ParseKeyvalInPlace(buf, start, cmdLen);
      if !good { return; }
      var pair := Pair(CString(buf[start..start + keyLen]), buf[val..val + vallen]);
      pairs[index] := Some(pair);
      index := index + 1;
      PrependOne(done, pair, ParsePairs(buf[c..cmdLen]));
      done := done + [pair];
    }
    ParseNone(buf[c..cmdLen]);
    assert done + [] == done;
    ok := true;
  }

  ghost function Prepend(ps: seq<Pair>, r: Option<seq<Pair>>): Option<seq<Pair>> {
    if r.None? then None else Some(ps + r.value)
  }

  lemma PrependNone(r: Option<seq<Pair>>)
    ensures Prepend([], r) == r
  {
    if r.Some? { assert [] + r.value == r.value; }
  }

  lemma PrependOne(ps: seq<Pair>, p: Pair, r: Option<seq<Pair>>)
    ensures Prepend(ps, Prepend([p], r)) == Prepend(ps + [p], r)
  {
    if r.Some? { assert ps + ([p] + r.value) == ps + [p] + r.value; }
  }

  lemma ParseOne(s: string)
    requires s != []
    ensures ParsePairs(s) ==
      match ParseKeyval(s)
      case BadKeyval => None
      case Keyval(k, v, r) => Prepend([Pair(CString(k), v)], ParsePairs(r))
  {
    hide ParseKeyval;
  }

  lemma ParseNone(s: string)
    requires s == []
    ensures ParsePairs(s) == Some([])
  {
  }

  function Filled(slots: seq<Option<Pair>>): (ps: seq<Pair>)
    requires forall i :: 0 <= i < |slots| ==> slots[i].Some?
    ensures |ps| == |slots| && forall i :: 0 <= i < |slots| ==> slots[i] == Some(ps[i])
  {
    seq(|slots|, i requires 0 <= i < |slots| => slots[i].value)
  }

  /** A search that does not find its key passes every filled slot, and comes to an empty
      one when there are more slots than pairs. */
  lemma SearchSlots(ps: seq<Pair>, num: nat, key: string)
    requires |ps| <= num
    ensures Passed(Slots(ps, num), num, key) <==> |ps| == num && !HasKey(ps, key)
    ensures (exists i :: 0 <= i < num && Passed(Slots(ps, num), i, key) && Slots(ps, num)[i].None?) <==>
              |ps| < num && !HasKey(ps, key)
  {
    hide SameKey, Slots;
    var slots := Slots(ps, num);
    if |ps| < num && !HasKey(ps, key) { assert Passed(slots, |ps|, key) && slots[|ps|].None?; }
    if |ps| < num { assert slots[|ps|].None?; }
    forall i | 0 <= i <= num && Passed(slots, i, key) && i >= |ps| ensures !HasKey(ps, key) {
      assert forall j :: 0 <= j < |ps| ==> slots[j] == Some(ps[j]);
    }
  }

  /** One turn of PMIi_ReadCommand: one frame, however the bytes arrive. */
  method ReadOne(ch: Channel) returns (r: ReadResult)
    modifies ch
    ensures r == ReadFrame(old(ch.data)) || (r == Failed && ch.flaky)
    ensures r.Received? || r.Rerouted? ==> ch.data == r.rest
  {
    hide ReadBody, Atoi;
    var lenStr := new char[COMMANDLEN_SIZE + 1](_ => '\0');
    var ok := ReadExactly(ch, lenStr, COMMANDLEN_SIZE);
    if !ok { return Failed; }
    var cmdLen := Atoi(lenStr[..COMMANDLEN_SIZE]);
    if cmdLen < 0 { return Undefined; }
    var buf := new char[cmdLen + 1](_ => '\0');
    assert buf[cmdLen] == '\0';
    label Body:
    ok := ReadExactly(ch, buf, cmdLen);
    if !ok { return Failed; }
    assert buf[cmdLen] == buf[cmdLen..][0] == old@Body(buf[cmdLen..])[0];
    r := TakeBody(buf, cmdLen, ch.data);
  }

  /** Lines 1433-1487: a body in the buffer, with rest behind it in the stream. */
  method TakeBody(buf: array<char>, cmdLen: nat, rest: string) returns (r: ReadResult)
    requires cmdLen + 1 == buf.Length && buf[cmdLen] == '\0'
    modifies buf
    ensures r == ReadBody(old(buf[..cmdLen]), rest)
  {
    hide ParseBody, CountPairs, HasKey, Slots, Passed, FirstValue;
    var num := CountPass(buf, cmdLen);
    ghost var c := ParseBody(buf[..cmdLen]);
    var ok, name, pairs := ParsePass(buf, cmdLen, num);
    if !ok { return Failed; }
    var nPairs := num - 1;
    SearchSlots(c.value.pairs, nPairs, "thrid");
    assert pairs.Length == |pairs[..]| == nPairs;
    var thrid := GetVal(pairs, nPairs, "thrid");
    if thrid.Found? {
      FoundIsFirst(c.value.pairs, nPairs, "thrid", thrid.value);
      return Rerouted(thrid.value, name, pairs[..], rest);
    }
    if thrid.Unset? { return Undefined; }
    r := Received(Command(name, Filled(pairs[..])), rest);
    assert Filled(pairs[..]) == c.value.pairs;
  }

  /** What a search through the slots finds is the value of the first pair with the key. */
  lemma FoundIsFirst(ps: seq<Pair>, num: nat, key: string, value: string)
    requires |ps| <= num
    requires exists i :: 0 <= i < num && Passed(Slots(ps, num), i, key) && Slots(ps, num)[i].Some?
                          && SameKey(key, Slots(ps, num)[i].value.key) && Slots(ps, num)[i].value.value == value
    ensures HasKey(ps, key) && FirstValue(ps, key) == value
  {
    hide SameKey, FirstValue, Slots;
    var slots := Slots(ps, num);
    var i :| 0 <= i < num && Passed(slots, i, key) && slots[i].Some?
             && SameKey(key, slots[i].value.key) && slots[i].value.value == value;
    assert i < |ps| && slots[i] == Some(ps[i]);
    forall j | 0 <= j < i ensures !SameKey(key, ps[j].key) { assert slots[j] == Some(ps[j]); }
    FirstIs(ps, key, i);
  }

  lemma {:induction false} FirstIs(ps: seq<Pair>, key: string, i: nat)
    requires i < |ps| && SameKey(key, ps[i].key) && forall j :: 0 <= j < i ==> !SameKey(key, ps[j].key)
    ensures HasKey(ps, key) && FirstValue(ps, key) == ps[i].value
    decreases |ps|
  {
    hide SameKey;
    if i > 0 {
      assert forall j :: 0 <= j < |ps| - 1 ==> ps[1..][j] == ps[j + 1];
      FirstIs(ps[1..], key, i - 1);
    }
  }

  /** PMIi_ReadCommand for request me: frames are read and handed to the requests they name
      until this one is complete. A failed read ends it early, with nothing handed out
      that should not be. */
  method ReadCommand(ch: Channel, me: nat, target: string -> Option<nat>) returns (log: seq<Delivery>, end: End)
    modifies ch
    ensures
      var all := ReadUntil(old(ch.data), me, target);
      if log == all.log && end == all.end then end == Complete ==> ch.data == all.rest
      else ch.flaky && end == Error && log <= all.log
  {
    hide ReadFrame, ReadUntil;
    ghost var all := ReadUntil(ch.data, me, target);
    log := [];
    assert [] + all.log == all.log;
    while true
      invariant Leads(log, ReadUntil(ch.data, me, target), all)
      decreases |ch.data|
    {
      ghost var s := ch.data;
      UntilUnfold(s, me, target);
      var r := ReadOne(ch);
      match r
      case Failed =>
        return log, Error;
      case Undefined =>
        return log, Unknown;
      case Received(c, _) =>
        return log + [Delivery(me, c.name, Slots(c.pairs, |c.pairs|))], Complete;
      case Rerouted(v, name, slots, _) =>
        var q := target(v);
        if q == None { return log, Unknown; }
        var d := Delivery(q.value, name, slots);
        LeadsOn(log, d, ReadUntil(s, me, target), ReadUntil(ch.data, me, target), all);
        log := log + [d];
        if q.value == me { return log, Complete; }
    }
  }

  /** What was handed out and what would come next make up the whole session. */
  ghost predicate Leads(log: seq<Delivery>, next: Session, all: Session) {
    log + next.log == all.log && next.end == all.end && next.rest == all.rest
  }

  lemma LeadsOn(log: seq<Delivery>, d: Delivery, next: Session, more: Session, all: Session)
    requires Leads(log, next, all)
    ensures next == more.(log := [d] + more.log) ==> Leads(log + [d], more, all)
    ensures next.log == [d] ==> log + [d] == all.log
  {
    assert log + ([d] + more.log) == (log + [d]) + more.log;
  }

  lemma UntilUnfold(s: string, me: nat, target: string -> Option<nat>)
    ensures
      var r, all := ReadFrame(s), ReadUntil(s, me, target);
      && (r.Failed? ==> all == Session([], Error, s))
      && (r.Undefined? ==> all == Session([], Unknown, s))
      && (r.Received? ==> all == Session([Handed(me, r.command)], Complete, r.rest))
      && (r.Rerouted? && target(r.thrid).None? ==> all == Session([], Unknown, s))
      && (r.Rerouted? && target(r.thrid).Some? ==>
            var d := Delivery(target(r.thrid).value, r.name, r.slots);
            var more := ReadUntil(r.rest, me, target);
            all == if d.request == me then Session([d], Complete, r.rest) else more.(log := [d] + more.log))
  {
    hide ReadFrame;
  }

  // ----- writing

  /** Overrun: the loop that writes values, which does not look at the room left, or the
      final NUL leaves the buffer. Broken: a write to the channel failed. */
  datatype WriteResult = Sent | CmdTooLong | NoRoom | KeyTooLong | ValueTooLong | Overrun | Broken

  /** How the pair loop ends when `room` bytes of the buffer are left. */
  function PairsOutcome(ps: seq<Pair>, room: int): WriteResult {
    if ps == [] then if room < 1 then Overrun else Sent
    else if |ps[0].key| > MAX_KEYLEN then KeyTooLong
    else if |ps[0].key| + 1 >= room then NoRoom
    else if |ps[0].value| > MAX_VALLEN then ValueTooLong
    else if |EncodePair(ps[0])| > room then Overrun
    else PairsOutcome(ps[1..], room - |EncodePair(ps[0])|)
  }

  const BODY_ROOM := MAX_COMMAND_LEN - COMMANDLEN_SIZE

  function PairsRoom(c: Command): int { BODY_ROOM - (|c.name| + 5) }

  function WriteOutcome(c: Command): WriteResult {
    if |c.name| > MAX_VALLEN then CmdTooLong else PairsOutcome(c.pairs, PairsRoom(c))
  }

  lemma {:induction false} PairsSentIff(ps: seq<Pair>, room: int)
    ensures PairsOutcome(ps, room) == Sent <==>
      |EncodePairs(ps)| < room && forall p :: p in ps ==> WithinLimits(p)
    decreases |ps|
  {
    hide Escape;
    if ps != [] {
      PairsSentIff(ps[1..], room - |EncodePair(ps[0])|);
      assert ps[0] in ps && forall p :: p in ps <==> p == ps[0] || p in ps[1..];
    }
  }

  /** The checks made on the way let a command through, inside the buffer, exactly when
      the whole command fits the limits. */
  lemma SentIffFits(c: Command)
    ensures WriteOutcome(c) == Sent <==> Fits(c)
  {
    hide EncodePairs, PairsOutcome;
    if |c.name| <= MAX_VALLEN { PairsSentIff(c.pairs, PairsRoom(c)); }
  }

  /** The checks pass for the first i pairs: each is within the limits, and its key has
      room behind the pairs before it. */
  ghost predicate Reached(ps: seq<Pair>, i: nat, room: int) {
    && i <= |ps|
    && forall j :: 0 <= j < i ==> WithinLimits(ps[j]) && |EncodePairs(ps[..j])| + |ps[j].key| + 1 < room
  }

  /** The first i pairs, all of which pass the checks, are longer than the room, counting
      one byte for the final NUL when they are all. */
  ghost predicate TooLong(ps: seq<Pair>, i: nat, room: int) {
    Reached(ps, i, room) && |EncodePairs(ps[..i])| + (if i == |ps| then 1 else 0) > room
  }

  /** The writer leaves its buffer exactly when some of the leading pairs pass all checks
      and are too long together. */
  lemma {:induction false} OverrunIff(ps: seq<Pair>, room: int)
    requires room >= 0
    ensures PairsOutcome(ps, room) == Overrun <==> exists i :: 0 <= i <= |ps| && TooLong(ps, i, room)
    decreases |ps|
  {
    hide EncodePair, TooLong, Reached;
    NoneReached(ps, room);
    if ps != [] {
      var size := |EncodePair(ps[0])|;
      if WithinLimits(ps[0]) && |ps[0].key| + 1 < room {
        if size > room {
          OneReached(ps, room);
        } else {
          var more, left := ps[1..], room - size;
          OverrunIff(more, left);
          forall i | 0 < i <= |ps| ensures TooLong(ps, i, room) == TooLong(more, i - 1, left) {
            TooLongNext(ps, i - 1, room);
          }
          forall i | 0 <= i <= |ps| && TooLong(ps, i, room) ensures PairsOutcome(ps, room) == Overrun {
            assert TooLong(more, i - 1, left);
          }
          if PairsOutcome(more, left) == Overrun {
            var i :| 0 <= i <= |more| && TooLong(more, i, left);
            assert TooLong(ps, i + 1, room);
          }
        }
      } else {
        forall i | 0 <= i <= |ps| ensures !TooLong(ps, i, room) { NotReached(ps, i, room); }
      }
    }
  }

  lemma NoneReached(ps: seq<Pair>, room: int)
    requires room >= 0
    ensures TooLong(ps, 0, room) <==> ps == [] && room < 1
  {
    assert ps[..0] == [];
  }

  lemma OneReached(ps: seq<Pair>, room: int)
    requires ps != [] && WithinLimits(ps[0]) && |ps[0].key| + 1 < room && |EncodePair(ps[0])| > room
    ensures TooLong(ps, 1, room)
  {
    hide EncodePair;
    assert ps[..0] == [] && ps[..1] == [ps[0]] && [ps[0]][1..] == [];
    assert EncodePairs([ps[0]]) == EncodePair(ps[0]) + [];
  }

  lemma NotReached(ps: seq<Pair>, i: nat, room: int)
    requires ps != [] && room >= 0 && !(WithinLimits(ps[0]) && |ps[0].key| + 1 < room)
    ensures !TooLong(ps, i, room)
  {
    assert ps[..0] == [];
  }

  lemma TooLongNext(ps: seq<Pair>, i: nat, room: int)
    requires i < |ps| && WithinLimits(ps[0]) && |ps[0].key| + 1 < room
    ensures TooLong(ps, i + 1, room) == TooLong(ps[1..], i, room - |EncodePair(ps[0])|)
  {
    hide EncodePair, WithinLimits;
    var size := |EncodePair(ps[0])|;
    forall j | 0 <= j <= i ensures |EncodePairs(ps[..j + 1])| == size + |EncodePairs(ps[1..][..j])| {
      assert ps[..j + 1][1..] == ps[1..][..j];
    }
    assert ps[..0] == [];
    if Reached(ps, i + 1, room) {
      forall j | 0 <= j < i
        ensures WithinLimits(ps[1..][j]) && |EncodePairs(ps[1..][..j])| + |ps[1..][j].key| + 1 < room - size
      {
        assert ps[1..][j] == ps[j + 1] && WithinLimits(ps[j + 1]);
      }
    }
    if Reached(ps[1..], i, room - size) {
      forall j | 0 <= j < i + 1
        ensures WithinLimits(ps[j]) && |EncodePairs(ps[..j])| + |ps[j].key| + 1 < room
      {
        if j > 0 { assert ps[1..][j - 1] == ps[j] && WithinLimits(ps[1..][j - 1]); }
      }
    }
  }

  /** Which check refuses a command: at the first pair that does not pass, the length of
      the key, then the room for it, then the length of the value. */
  lemma {:induction false} OutcomeAt(ps: seq<Pair>, room: int, i: nat)
    requires i < |ps| && Reached(ps, i, room) && |EncodePairs(ps[..i])| <= room
    ensures
      var p, used := ps[i], |EncodePairs(ps[..i])|;
      && (|p.key| > MAX_KEYLEN ==> PairsOutcome(ps, room) == KeyTooLong)
      && (|p.key| <= MAX_KEYLEN && used + |p.key| + 1 >= room ==> PairsOutcome(ps, room) == NoRoom)
      && (|p.key| <= MAX_KEYLEN && used + |p.key| + 1 < room && |p.value| > MAX_VALLEN ==>
            PairsOutcome(ps, room) == ValueTooLong)
    decreases |ps|
  {
    hide EncodePair, Reached;
    assert ps[..0] == [];
    if i > 0 {
      ReachedTail(ps, i, room);
      OutcomeAt(ps[1..], room - |EncodePair(ps[0])|, i - 1);
    }
  }

  lemma ReachedTail(ps: seq<Pair>, i: nat, room: int)
    requires 0 < i <= |ps| && Reached(ps, i, room) && |EncodePairs(ps[..i])| <= room
    ensures WithinLimits(ps[0]) && |ps[0].key| + 1 < room && |EncodePair(ps[0])| <= room
    ensures Reached(ps[1..], i - 1, room - |EncodePair(ps[0])|)
    ensures |EncodePairs(ps[1..][..i - 1])| == |EncodePairs(ps[..i])| - |EncodePair(ps[0])|
  {
    hide EncodePair, WithinLimits;
    var size := |EncodePair(ps[0])|;
    forall j | 0 <= j < i ensures |EncodePairs(ps[..j + 1])| == size + |EncodePairs(ps[1..][..j])| {
      assert ps[..j + 1][1..] == ps[1..][..j];
    }
    assert ps[..0] == [] && WithinLimits(ps[0]);
    forall j | 0 <= j < i - 1
      ensures WithinLimits(ps[1..][j]) && |EncodePairs(ps[1..][..j])| + |ps[1..][j].key| + 1 < room - size
    {
      assert ps[1..][j] == ps[j + 1] && WithinLimits(ps[j + 1]);
    }
  }

  /** 32 values of 1024 semicolons pass every check and do not fit the buffer. */
  lemma ValuesOverrun()
    ensures
      var p := Pair("k", seq(MAX_VALLEN, _ => ';'));
      WriteOutcome(Command("put", seq(32, _ => p))) == Overrun
  {
    hide EncodePair, EncodePairs, PairsOutcome, TooLong;
    var p := Pair("k", seq(MAX_VALLEN, _ => ';'));
    var ps := seq(32, _ => p);
    SampleLength(p.value);
    forall i | 0 <= i <= 32 ensures |EncodePairs(ps[..i])| == 2051 * i {
      SampleLengths(p, ps[..i]);
    }
    var room := PairsRoom(Command("put", ps));
    assert room == 65522;
    assert Reached(ps, 32, room);
    TooLongAt(ps, 32, room);
    OverrunIff(ps, room);
  }

  lemma TooLongAt(ps: seq<Pair>, i: nat, room: int)
    requires Reached(ps, i, room) && |EncodePairs(ps[..i])| > room
    ensures TooLong(ps, i, room)
  {
  }

  lemma SampleLength(v: string)
    requires |v| == MAX_VALLEN && forall i :: 0 <= i < |v| ==> v[i] == ';'
    ensures |EncodePair(Pair("k", v))| == 2051
  {
    hide Escape;
    AllDoubled(v);
  }

  lemma {:induction false} AllDoubled(v: string)
    requires forall i :: 0 <= i < |v| ==> v[i] == ';'
    ensures |Escape(v)| == 2 * |v|
  {
    if v != [] { AllDoubled(v[1..]); }
  }

  lemma {:induction false} SampleLengths(p: Pair, ps: seq<Pair>)
    requires |EncodePair(p)| == 2051 && forall i :: 0 <= i < |ps| ==> ps[i] == p
    ensures |EncodePairs(ps)| == 2051 * |ps|
  {
    hide EncodePair;
    if ps != [] { SampleLengths(p, ps[1..]); }
  }

  /** snprintf of a text that has room: the text at the write position. */
  method PutString(buf: array<char>, at: nat, s: string) returns (next: nat)
    requires at + |s| <= buf.Length
    modifies buf
    ensures next == at + |s| && buf[at..next] == s
    ensures forall i :: 0 <= i < at || next <= i < buf.Length ==> buf[i] == old(buf[i])
  {
    forall i | 0 <= i < |s| { buf[at + i] := s[i]; }
    next := at + |s|;
  }

  /** Lines 1617-1626: the value with every ';' doubled. */
  method PutEscaped(buf: array<char>, at: nat, v: string) returns (next: nat)
    requires at + |Escape(v)| <= buf.Length
    modifies buf
    ensures next == at + |Escape(v)| && buf[at..next] == Escape(v)
    ensures forall i :: 0 <= i < at || next <= i < buf.Length ==> buf[i] == old(buf[i])
  {
    hide Escape;
    next := at;
    ghost var out: string := [];
    EscapeNone();
    for i := 0 to |v|
      invariant next == at + |out| && out == Escape(v[..i]) && |out| <= |Escape(v)| <= buf.Length - at
      invariant forall j :: 0 <= j < |out| ==> buf[at + j] == out[j]
      invariant forall j :: 0 <= j < at || at + |Escape(v)| <= j < buf.Length ==> buf[j] == old(buf[j])
    {
      EscapeNext(v, i);
      if v[i] == ';' {
        buf[next] := ';';
        next := next + 1;
      }
      buf[next] := v[i];
      next := next + 1;
      out := out + if v[i] == ';' then ";;" else [v[i]];
    }
    assert v[..|v|] == v;
    assert buf[at..next] == out;
  }

  lemma EscapeNone()
    ensures Escape([]) == []
  {
  }

  lemma {:induction false} EscapeConcat(v: string, w: string)
    ensures Escape(v + w) == Escape(v) + Escape(w)
    decreases |v|
  {
    if v == [] {
      assert v + w == w;
    } else {
      assert (v + w)[1..] == v[1..] + w;
      EscapeConcat(v[1..], w);
    }
  }

  lemma EscapeNext(v: string, i: nat)
    requires i < |v|
    ensures Escape(v[..i + 1]) == Escape(v[..i]) + (if v[i] == ';' then ";;" else [v[i]])
    ensures |Escape(v[..i + 1])| <= |Escape(v)|
  {
    assert v[..i + 1] == v[..i] + [v[i]];
    assert v == v[..i + 1] + v[i + 1..];
    EscapeConcat(v[..i], [v[i]]);
    EscapeConcat(v[..i + 1], v[i + 1..]);
    assert Escape([v[i]]) == if v[i] == ';' then ";;" else [v[i]];
  }

  lemma {:induction false} EncodePairsConcat(ps: seq<Pair>, qs: seq<Pair>)
    ensures EncodePairs(ps + qs) == EncodePairs(ps) + EncodePairs(qs)
    decreases |ps|
  {
    hide EncodePair;
    if ps == [] {
      assert ps + qs == qs;
    } else {
      assert (ps + qs)[1..] == ps[1..] + qs;
      EncodePairsConcat(ps[1..], qs);
    }
  }

  lemma EncodePairsNext(ps: seq<Pair>, i: nat)
    requires i < |ps|
    ensures EncodePairs(ps[..i + 1]) == EncodePairs(ps[..i]) + EncodePair(ps[i])
  {
    hide EncodePair;
    assert ps[..i + 1] == ps[..i] + [ps[i]];
    EncodePairsConcat(ps[..i], [ps[i]]);
    assert EncodePairs([ps[i]]) == EncodePair(ps[i]) + [];
  }

  /** Lines 1608-1631: one pair at the write position. */
  method PutPair(buf: array<char>, at: nat, p: Pair) returns (next: nat)
    requires at + |EncodePair(p)| <= buf.Length
    modifies buf
    ensures next == at + |EncodePair(p)| && buf[at..next] == EncodePair(p)
    ensures forall i :: 0 <= i < at ==> buf[i] == old(buf[i])
  {
    hide Escape;
    var c := PutString(buf, at, p.key + "=");
    var d := PutEscaped(buf, c, p.value);
    buf[d] := ';';
    next := d + 1;
    assert buf[at..c] == p.key + "=" && buf[c..d] == Escape(p.value);
    assert buf[at..next] == buf[at..c] + buf[c..d] + [buf[d]];
  }

  /** The buffer holds this text from the end of the length field on. */
  predicate BodyIs(buf: string, text: string) {
    COMMANDLEN_SIZE + |text| <= |buf| && forall i :: 0 <= i < |text| ==> buf[COMMANDLEN_SIZE + i] == text[i]
  }

  lemma BodyGrows(was: string, now: string, text: string, more: string)
    requires |was| == |now| && BodyIs(was, text) && COMMANDLEN_SIZE + |text| + |more| <= |now|
    requires now[COMMANDLEN_SIZE + |text|..COMMANDLEN_SIZE + |text| + |more|] == more
    requires forall i :: 0 <= i < COMMANDLEN_SIZE + |text| ==> now[i] == was[i]
    ensures BodyIs(now, text + more)
  {
    var at := COMMANDLEN_SIZE + |text|;
    forall i | |text| <= i < |text| + |more| ensures now[COMMANDLEN_SIZE + i] == (text + more)[i] {
      assert now[COMMANDLEN_SIZE + i] == now[at..at + |more|][i - |text|];
    }
  }

  /** Lines 1591-1632: the body after the length field, or the first limit it breaks. */
  method PutBody(buf: array<char>, name: string, pairs: seq<Pair>) returns (r: WriteResult, c: nat)
    requires |name| <= MAX_VALLEN && buf.Length == MAX_COMMAND_LEN
    modifies buf
    ensures r == WriteOutcome(Command(name, pairs))
    ensures r == Sent ==> c == COMMANDLEN_SIZE + |Body(Command(name, pairs))| < MAX_COMMAND_LEN
    ensures r == Sent ==> BodyIs(buf[..], Body(Command(name, pairs)))
    ensures forall j :: 0 <= j < COMMANDLEN_SIZE ==> buf[j] == old(buf[j])
  {
    hide EncodePair, EncodePairs, PairsOutcome, BodyIs, BodyText, Body, WriteOutcome;
    NothingWritten(buf[..]);
    ghost var was := buf[..];
    c := PutString(buf, COMMANDLEN_SIZE, "cmd=" + name + ";");
    BodyStart(was, buf[..], name, pairs);
    for i := 0 to |pairs|
      invariant c == COMMANDLEN_SIZE + |BodyText(name, pairs, i)| <= MAX_COMMAND_LEN
      invariant BodyIs(buf[..], BodyText(name, pairs, i))
      invariant forall j :: 0 <= j < COMMANDLEN_SIZE ==> buf[j] == old(buf[j])
      invariant PairsOutcome(pairs[i..], MAX_COMMAND_LEN - c) == WriteOutcome(Command(name, pairs))
    {
      var p := pairs[i];
      PairTurn(pairs, i, MAX_COMMAND_LEN - c);
      if |p.key| > MAX_KEYLEN { return KeyTooLong, c; }
      if |p.key| + 1 >= MAX_COMMAND_LEN - c { return NoRoom, c; }
      if |p.value| > MAX_VALLEN { return ValueTooLong, c; }
      if |EncodePair(p)| > MAX_COMMAND_LEN - c { return Overrun, c; } // the value loop would not stop here
      was := buf[..];
      c := PutPair(buf, c, p);
      BodyGrows(was, buf[..], BodyText(name, pairs, i), EncodePair(p));
      BodyNext(name, pairs, i);
    }
    LastTurn(pairs[|pairs|..], MAX_COMMAND_LEN - c);
    BodyEnd(name, pairs);
    r := if c == MAX_COMMAND_LEN then Overrun else Sent;
  }

  /** The body up to its first i pairs. */
  function BodyText(name: string, pairs: seq<Pair>, i: nat): string
    requires i <= |pairs|
  {
    Body(Command(name, pairs[..i]))
  }

  lemma BodyStart(was: string, now: string, name: string, pairs: seq<Pair>)
    requires |name| <= MAX_VALLEN && |was| == |now| == MAX_COMMAND_LEN && BodyIs(was, [])
    requires now[COMMANDLEN_SIZE..COMMANDLEN_SIZE + 5 + |name|] == "cmd=" + name + ";"
    ensures |BodyText(name, pairs, 0)| == 5 + |name| && BodyIs(now, BodyText(name, pairs, 0))
    ensures PairsOutcome(pairs[0..], BODY_ROOM - (5 + |name|)) == WriteOutcome(Command(name, pairs))
  {
    hide PairsOutcome;
    assert pairs[..0] == [] && pairs[0..] == pairs;
    var text := "cmd=" + name + ";";
    assert text + EncodePairs([]) == text == BodyText(name, pairs, 0);
    forall i | 0 <= i < |text| ensures now[COMMANDLEN_SIZE + i] == text[i] {
      assert now[COMMANDLEN_SIZE + i] == now[COMMANDLEN_SIZE..COMMANDLEN_SIZE + |text|][i];
    }
  }

  lemma BodyNext(name: string, pairs: seq<Pair>, i: nat)
    requires i < |pairs|
    ensures BodyText(name, pairs, i + 1) == BodyText(name, pairs, i) + EncodePair(pairs[i])
  {
    hide EncodePair, EncodePairs;
    EncodePairsNext(pairs, i);
  }

  lemma BodyEnd(name: string, pairs: seq<Pair>)
    ensures BodyText(name, pairs, |pairs|) == Body(Command(name, pairs))
  {
    assert pairs[..|pairs|] == pairs;
  }

  /** PMIi_WriteSimpleCommand up to the write loop: the frame in the buffer, or the first
      limit that the command breaks. */
  method BuildFrame(name: string, pairs: seq<Pair>) returns (r: WriteResult, buf: array<char>, total: nat)
    ensures fresh(buf) && total <= buf.Length
    ensures r == WriteOutcome(Command(name, pairs))
    ensures r == Sent ==> Fits(Command(name, pairs)) && buf[..total] == Frame(Command(name, pairs))
  {
    hide Body, PairsOutcome, Fits, BodyIs, Decimal;
    buf := new char[MAX_COMMAND_LEN](i => ' ');
    total := 0;
    if |name| > MAX_VALLEN { return CmdTooLong, buf, total; }
    var c;
    r, c := PutBody(buf, name, pairs);
    if r != Sent { return; }
    ghost var cmd := Command(name, pairs);
    SentIffFits(cmd);
    var cmdLen := c - COMMANDLEN_SIZE;
    FitsHeader(cmdLen);
    ghost var was := buf[..];
    var digits := PutString(buf, 0, Decimal(cmdLen));
    total := c;
    WholeFrame(was, buf[..], cmdLen, Body(cmd));
  }

  lemma NothingWritten(buf: string)
    requires |buf| >= COMMANDLEN_SIZE
    ensures BodyIs(buf, [])
  {
  }

  /** The length printed over the blanks in front of the body makes the frame. */
  lemma WholeFrame(was: string, now: string, len: nat, text: string)
    requires |was| == |now| && BodyIs(was, text) && |Decimal(len)| <= COMMANDLEN_SIZE
    requires forall i :: 0 <= i < COMMANDLEN_SIZE ==> was[i] == ' '
    requires now[0..|Decimal(len)|] == Decimal(len) && forall i :: |Decimal(len)| <= i < |now| ==> now[i] == was[i]
    ensures now[..COMMANDLEN_SIZE + |text|] == Header(len) + text
  {
    hide Decimal;
    var d := Decimal(len);
    assert forall i :: 0 <= i < |d| ==> now[i] == now[0..|d|][i];
  }

  lemma PairTurn(pairs: seq<Pair>, i: nat, room: int)
    requires i < |pairs|
    ensures PairsOutcome(pairs[i..], room) ==
      if |pairs[i].key| > MAX_KEYLEN then KeyTooLong
      else if |pairs[i].key| + 1 >= room then NoRoom
      else if |pairs[i].value| > MAX_VALLEN then ValueTooLong
      else if |EncodePair(pairs[i])| > room then Overrun
      else PairsOutcome(pairs[i + 1..], room - |EncodePair(pairs[i])|)
  {
    hide EncodePair;
    assert pairs[i..][1..] == pairs[i + 1..];
  }

  lemma LastTurn(ps: seq<Pair>, room: int)
    requires ps == []
    ensures PairsOutcome(ps, room) == if room < 1 then Overrun else Sent
  {
  }

  /** PMIi_WriteSimpleCommand: the whole frame reaches the channel, in any number of
      pieces, or nothing does; a failed write leaves the beginning of the frame there. */
  method WriteSimpleCommand(ch: Channel, name: string, pairs: seq<Pair>) returns (r: WriteResult)
    modifies ch
    ensures if r == Broken then ch.flaky && WriteOutcome(Command(name, pairs)) == Sent
            else r == WriteOutcome(Command(name, pairs))
    ensures r == Sent || r == Broken ==> Fits(Command(name, pairs))
    ensures r == Sent ==> ch.data == old(ch.data) + Frame(Command(name, pairs))
    ensures r == Broken ==>
              var frame := Frame(Command(name, pairs));
              exists k :: 0 <= k < |frame| && ch.data == old(ch.data) + frame[..k]
    ensures r != Sent && r != Broken && r != Overrun ==> ch.data == old(ch.data)
  {
    hide Frame, Fits, WriteOutcome;
    var buf, total;
    r, buf, total := BuildFrame(name, pairs);
    if r != Sent { NotBroken(Command(name, pairs)); return; }
    FrameNonEmpty(Command(name, pairs));
    var offset := 0;
    ghost var frame := buf[..total];
    while true
      invariant 0 <= offset < total
      invariant buf[..total] == frame && ch.data == old(ch.data) + frame[..offset]
      decreases total - offset
    {
      var failed, n := ch.WriteOrFail(buf[offset..total]);
      if failed { return Broken; }
      assert frame[..offset] + buf[offset..total][..n] == frame[..offset + n];
      offset := offset + n;
      if offset >= total { break; }
    }
    assert frame[..total] == frame;
  }

  lemma NotBroken(c: Command)
    ensures WriteOutcome(c) != Broken
  {
    hide PairsOutcome;
    if |c.name| <= MAX_VALLEN { PairsNotBroken(c.pairs, PairsRoom(c)); }
  }

  lemma {:induction false} PairsNotBroken(ps: seq<Pair>, room: int)
    ensures PairsOutcome(ps, room) != Broken
    decreases |ps|
  {
    hide EncodePair;
    if ps != [] { PairsNotBroken(ps[1..], room - |EncodePair(ps[0])|); }
  }

  lemma FrameNonEmpty(c: Command)
    requires Fits(c)
    ensures |Frame(c)| > 0
  {
  }

  // ----- both ends together

  /** Any commands sent one after the other arrive as they are and in order, however the
      system splits the writes and the reads, and no byte of what follows is taken. By
      ReadWrittenFramesIff no other commands do. */
  method SendAndReceive(ch: Channel, cs: seq<Command>, me: nat, target: string -> Option<nat>)
    returns (got: seq<Command>)
    requires ch.data == [] && !ch.flaky && forall c :: c in cs ==> Fits(c) && Carried(c)
    modifies ch
    ensures got == cs && ch.data == []
  {
    hide Frame, Fits, WriteOutcome, Carried, ReadUntil;
    assert Frames(cs[..0]) == [];
    for i := 0 to |cs|
      invariant ch.data == Frames(cs[..i])
    {
      SentIffFits(cs[i]);
      FramesNext(cs, i);
      var r := WriteSimpleCommand(ch, cs[i].name, cs[i].pairs);
      assert cs[i] == Command(cs[i].name, cs[i].pairs);
    }
    assert cs[..|cs|] == cs[0..] == cs;
    got := [];
    for i := 0 to |cs|
      invariant got == cs[..i] && ch.data == Frames(cs[i..])
    {
      assert cs[i..][0] == cs[i] && cs[i..][1..] == cs[i + 1..];
      SessionEnds(cs[i], me, target, Frames(cs[i + 1..]));
      var log, end := ReadCommand(ch, me, target);
      FilledWhole(cs[i].pairs);
      got := got + [Command(log[0].name, Filled(log[0].slots))];
    }
  }

  lemma FilledWhole(ps: seq<Pair>)
    ensures forall i :: 0 <= i < |ps| ==> Slots(ps, |ps|)[i].Some?
    ensures Filled(Slots(ps, |ps|)) == ps
  {
  }

  lemma {:induction false} FramesAppend(cs: seq<Command>, c: Command)
    requires Fits(c) && forall d :: d in cs ==> Fits(d)
    ensures Frames(cs + [c]) == Frames(cs) + Frame(c)
    decreases |cs|
  {
    hide Frame, Fits;
    if cs == [] {
      assert cs + [c] == [c];
    } else {
      assert (cs + [c])[1..] == cs[1..] + [c];
      FramesAppend(cs[1..], c);
    }
  }

  lemma FramesNext(cs: seq<Command>, i: nat)
    requires i < |cs| && forall d :: d in cs ==> Fits(d)
    ensures Frames(cs[..i + 1]) == Frames(cs[..i]) + Frame(cs[i])
  {
    hide Frame, Fits;
    assert cs[..i + 1] == cs[..i] + [cs[i]];
    FramesAppend(cs[..i], cs[i]);
  }
}

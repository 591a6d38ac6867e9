/** PMI2_Job_Spawn in contribs/pmi2/pmi2_api.c: a nested spawn request is flattened into
    one list of pairs whose length is computed beforehand. */
module Pmi2Spawn {
  import opened CText
  import opened Pmi2Format

  datatype Subcmd = Subcmd(cmd: string, maxprocs: int, args: seq<string>, info: seq<Pair>)

  /** hasInfo tells whether info_keyval_sizes was given; without it there is no info. */
  datatype Request = Request(preput: seq<Pair>, hasInfo: bool, cmds: seq<Subcmd>)

  predicate Valid(r: Request) {
    !r.hasInfo ==> forall c :: c in r.cmds ==> c.info == []
  }

  // ----- flattening

  function KeyvalPairs(k: string, v: string, kvs: seq<Pair>, i: nat): (ps: seq<Pair>)
    requires i <= |kvs|
    ensures |ps| == 2 * (|kvs| - i)
    decreases |kvs| - i
  {
    if i == |kvs| then []
    else [Pair(k + Decimal(i), kvs[i].key), Pair(v + Decimal(i), kvs[i].value)] + KeyvalPairs(k, v, kvs, i + 1)
  }

  function ArgPairs(args: seq<string>, i: nat): (ps: seq<Pair>)
    requires i <= |args|
    ensures |ps| == |args| - i
    decreases |args| - i
  {
    if i == |args| then [] else [Pair("argv" + Decimal(i), args[i])] + ArgPairs(args, i + 1)
  }

  function InfoPairs(info: seq<Pair>): seq<Pair> {
    [Pair("infokeycount", Signed(|info|))] + KeyvalPairs("infokey", "infoval", info, 0)
  }

  function SubcmdHead(c: Subcmd): seq<Pair> {
    [Pair("subcmd", c.cmd), Pair("maxprocs", Signed(c.maxprocs)), Pair("argc", Signed(|c.args|))]
  }

  function SubcmdPairs(c: Subcmd, hasInfo: bool): seq<Pair> {
    SubcmdHead(c) + (ArgPairs(c.args, 0) + if hasInfo then InfoPairs(c.info) else [])
  }

  function SubcmdsPairs(cs: seq<Subcmd>, hasInfo: bool): seq<Pair> {
    if cs == [] then [] else SubcmdPairs(cs[0], hasInfo) + SubcmdsPairs(cs[1..], hasInfo)
  }

  function RequestHead(r: Request): seq<Pair> {
    [Pair("ncmds", Signed(|r.cmds|)), Pair("preputcount", Signed(|r.preput|))]
  }

  function SpawnPairs(r: Request): seq<Pair> {
    RequestHead(r) + (KeyvalPairs("ppkey", "ppval", r.preput, 0) + SubcmdsPairs(r.cmds, r.hasInfo))
  }

  // ----- the precomputed length

  function SubcmdTotals(cs: seq<Subcmd>, hasInfo: bool): nat {
    if cs == [] then 0
    else |cs[0].args| + (if hasInfo then 1 + 2 * |cs[0].info| else 0) + SubcmdTotals(cs[1..], hasInfo)
  }

  /** Lines 446-455. */
  function TotalPairs(r: Request): nat {
    2 + 3 * |r.cmds| + 2 * |r.preput| + SubcmdTotals(r.cmds, r.hasInfo)
  }

  lemma {:induction false} SubcmdsLength(cs: seq<Subcmd>, hasInfo: bool)
    ensures |SubcmdsPairs(cs, hasInfo)| == 3 * |cs| + SubcmdTotals(cs, hasInfo)
  {
    if cs != [] { SubcmdsLength(cs[1..], hasInfo); }
  }

  /** The length computed beforehand is the number of pairs emitted. */
  lemma TotalIsExact(r: Request)
    ensures |SpawnPairs(r)| == TotalPairs(r)
  {
    SubcmdsLength(r.cmds, r.hasInfo);
  }

  // ----- the receiver in src/plugins/mpi/pmi2/client.c

  /** The key is the prefix followed by the number i, as the receiver compares them. */
  predicate Numbered(key: string, prefix: string, i: int) {
    |prefix| <= |key| && key[..|prefix|] == prefix && Atoi(key[|prefix|..]) == i
  }

  /** Pairs of pairs numbered from i up to n: lines 297-318 and 399-425. */
  function DecodeKeyvals(ps: seq<Pair>, k: string, v: string, i: int, n: int): Option<(seq<Pair>, seq<Pair>)>
    decreases n - i
  {
    if i >= n then Some(([], ps))
    else if |ps| < 2 || !Numbered(ps[0].key, k, i) || !Numbered(ps[1].key, v, i) then None
    else
      match DecodeKeyvals(ps[2..], k, v, i + 1, n)
      case None => None
      case Some((kvs, rest)) => Some(([Pair(ps[0].value, ps[1].value)] + kvs, rest))
  }

  /** Lines 360-370. */
  function DecodeArgs(ps: seq<Pair>, i: int, n: int): Option<(seq<string>, seq<Pair>)>
    decreases n - i
  {
    if i >= n then Some(([], ps))
    else if |ps| < 1 || !Numbered(ps[0].key, "argv", i) then None
    else
      match DecodeArgs(ps[1..], i + 1, n)
      case None => None
      case Some((args, rest)) => Some(([ps[0].value] + args, rest))
  }

  /** The info pairs, if the next pair announces them. */
  function DecodeInfo(ps: seq<Pair>): Option<(bool, seq<Pair>, seq<Pair>)> {
    if ps == [] || ps[0].key != "infokeycount" then Some((false, [], ps))
    else
      match DecodeKeyvals(ps[1..], "infokey", "infoval", 0, Atoi(ps[0].value))
      case None => None
      case Some((info, rest)) => Some((true, info, rest))
  }

  function DecodeSubcmd(ps: seq<Pair>): Option<(bool, Subcmd, seq<Pair>)> {
    if |ps| < 3 || ps[0].key != "subcmd" || ps[1].key != "maxprocs" || ps[2].key != "argc" then None
    else
      match DecodeArgs(ps[3..], 0, Atoi(ps[2].value))
      case None => None
      case Some((args, rest)) =>
        match DecodeInfo(rest)
        case None => None
        case Some((has, info, rest')) => Some((has, Subcmd(ps[0].value, Atoi(ps[1].value), args, info), rest'))
  }

  function DecodeSubcmds(ps: seq<Pair>, n: int): Option<(bool, seq<Subcmd>)>
    decreases n
  {
    if n <= 0 then Some((false, []))
    else
      match DecodeSubcmd(ps)
      case None => None
      case Some((has, c, rest)) =>
        match DecodeSubcmds(rest, n - 1)
        case None => None
        case Some((_, cs)) => Some((has, [c] + cs))
  }

  /** Every key and number is checked. */
  function DecodeSpawn(ps: seq<Pair>): Option<Request> {
    if |ps| < 2 || ps[0].key != "ncmds" || ps[1].key != "preputcount" then None
    else
      match DecodeKeyvals(ps[2..], "ppkey", "ppval", 0, Atoi(ps[1].value))
      case None => None
      case Some((preput, rest)) =>
        match DecodeSubcmds(rest, Atoi(ps[0].value))
        case None => None
        case Some((has, cs)) => Some(Request(preput, has, cs))
  }

  /** client_req_parse_spawn_req: fewer than five pairs are refused at once. */
  function ParseSpawn(ps: seq<Pair>): Option<Request> { if |ps| < 5 then None else DecodeSpawn(ps) }

  /** What the pairs can show: whether info was given is visible only in a subcommand. */
  function Visible(r: Request): Request {
    if r.cmds == [] then r.(hasInfo := false) else r
  }

  // ----- decoding inverts flattening

  lemma AtoiIntText(n: int)
    ensures Atoi(Signed(n)) == n
  {
    hide Atoi, Signed;
    AtoiSigned(n, []);
    assert Signed(n) + [] == Signed(n);
  }

  lemma NumberedDecimal(prefix: string, i: nat)
    ensures Numbered(prefix + Decimal(i), prefix, i)
  {
    hide Decimal, Atoi;
    AtoiDecimal(i, []);
    assert Decimal(i) + [] == Decimal(i) == (prefix + Decimal(i))[|prefix|..];
  }

  lemma {:induction false} DecodeKeyvalPairs(k: string, v: string, kvs: seq<Pair>, i: nat, rest: seq<Pair>)
    requires i <= |kvs|
    ensures DecodeKeyvals(KeyvalPairs(k, v, kvs, i) + rest, k, v, i, |kvs|) == Some((kvs[i..], rest))
    decreases |kvs| - i
  {
    hide Decimal, Numbered;
    var ps := KeyvalPairs(k, v, kvs, i) + rest;
    if i == |kvs| {
      assert ps == rest && kvs[i..] == [];
    } else {
      assert ps[2..] == KeyvalPairs(k, v, kvs, i + 1) + rest;
      NumberedDecimal(k, i);
      NumberedDecimal(v, i);
      DecodeKeyvalPairs(k, v, kvs, i + 1, rest);
      assert kvs[i..] == [Pair(kvs[i].key, kvs[i].value)] + kvs[i + 1..];
    }
  }

  lemma {:induction false} DecodeArgPairs(args: seq<string>, i: nat, rest: seq<Pair>)
    requires i <= |args|
    ensures DecodeArgs(ArgPairs(args, i) + rest, i, |args|) == Some((args[i..], rest))
    decreases |args| - i
  {
    hide Decimal, Numbered;
    var ps := ArgPairs(args, i) + rest;
    if i == |args| {
      assert ps == rest && args[i..] == [];
    } else {
      assert ps[1..] == ArgPairs(args, i + 1) + rest;
      NumberedDecimal("argv", i);
      DecodeArgPairs(args, i + 1, rest);
      assert args[i..] == [args[i]] + args[i + 1..];
    }
  }

  /** What may follow a subcommand: nothing, or the next one. */
  predicate NextSubcmd(rest: seq<Pair>) { rest == [] || rest[0].key == "subcmd" }

  lemma DecodeInfoPairs(info: seq<Pair>, hasInfo: bool, rest: seq<Pair>)
    requires NextSubcmd(rest) && (!hasInfo ==> info == [])
    ensures DecodeInfo((if hasInfo then InfoPairs(info) else []) + rest) == Some((hasInfo, info, rest))
  {
    hide DecodeKeyvals, KeyvalPairs, Atoi, Signed;
    if hasInfo {
      var ps := InfoPairs(info) + rest;
      assert ps[1..] == KeyvalPairs("infokey", "infoval", info, 0) + rest;
      AtoiIntText(|info|);
      DecodeKeyvalPairs("infokey", "infoval", info, 0, rest);
      assert info[0..] == info;
    } else {
      assert [] + rest == rest;
    }
  }

  lemma DecodeSubcmdPairs(c: Subcmd, hasInfo: bool, rest: seq<Pair>)
    requires NextSubcmd(rest) && (!hasInfo ==> c.info == [])
    ensures DecodeSubcmd(SubcmdPairs(c, hasInfo) + rest) == Some((hasInfo, c, rest))
  {
    hide DecodeArgs, ArgPairs, DecodeInfo, InfoPairs, Atoi, Signed;
    var tail := (if hasInfo then InfoPairs(c.info) else []) + rest;
    var ps := SubcmdPairs(c, hasInfo) + rest;
    assert ps[..3] == SubcmdHead(c);
    assert ps[3..] == ArgPairs(c.args, 0) + tail;
    AtoiIntText(|c.args|);
    AtoiIntText(c.maxprocs);
    DecodeArgPairs(c.args, 0, tail);
    assert c.args[0..] == c.args;
    DecodeInfoPairs(c.info, hasInfo, rest);
  }

  lemma {:induction false} DecodeSubcmdsPairs(cs: seq<Subcmd>, hasInfo: bool)
    requires !hasInfo ==> forall c :: c in cs ==> c.info == []
    ensures DecodeSubcmds(SubcmdsPairs(cs, hasInfo), |cs|) == Some((hasInfo && cs != [], cs))
  {
    hide DecodeSubcmd;
    if cs != [] {
      assert NextSubcmd(SubcmdsPairs(cs[1..], hasInfo));
      DecodeSubcmdPairs(cs[0], hasInfo, SubcmdsPairs(cs[1..], hasInfo));
      DecodeSubcmdsPairs(cs[1..], hasInfo);
      assert cs == [cs[0]] + cs[1..];
    }
  }

  /** Checking every key and following the counts recovers the nested request, all that the
      pairs can show of it. */
  lemma DecodeSpawnPairs(r: Request)
    requires Valid(r)
    ensures DecodeSpawn(SpawnPairs(r)) == Some(Visible(r))
  {
    hide DecodeKeyvals, KeyvalPairs, DecodeSubcmds, SubcmdsPairs, Atoi, Signed;
    var ps, tail := SpawnPairs(r), SubcmdsPairs(r.cmds, r.hasInfo);
    assert ps[..2] == RequestHead(r);
    assert ps[2..] == KeyvalPairs("ppkey", "ppval", r.preput, 0) + tail;
    AtoiIntText(|r.preput|);
    AtoiIntText(|r.cmds|);
    DecodeKeyvalPairs("ppkey", "ppval", r.preput, 0, tail);
    assert r.preput[0..] == r.preput;
    DecodeSubcmdsPairs(r.cmds, r.hasInfo);
  }

  /** The receiver gets the request back exactly when it has a command, or at least two
      pairs to put beforehand; it refuses the others. */
  lemma ParseSpawnIff(r: Request)
    requires Valid(r)
    ensures ParseSpawn(SpawnPairs(r)) == Some(Visible(r)) <==> r.cmds != [] || |r.preput| >= 2
    ensures ParseSpawn(SpawnPairs(r)) == None <==> r.cmds == [] && |r.preput| < 2
  {
    hide SpawnPairs, DecodeSpawn;
    DecodeSpawnPairs(r);
    TotalIsExact(r);
  }

  /** The pairs of one request, written out. */
  lemma SampleSpawn()
    ensures SpawnPairs(Request([Pair("a", "b")], true, [Subcmd("a.out", 4, ["x"], [Pair("i", "j")])])) ==
            [Pair("ncmds", "1"), Pair("preputcount", "1"), Pair("ppkey0", "a"), Pair("ppval0", "b"),
             Pair("subcmd", "a.out"), Pair("maxprocs", "4"), Pair("argc", "1"), Pair("argv0", "x"),
             Pair("infokeycount", "1"), Pair("infokey0", "i"), Pair("infoval0", "j")]
  {
    hide Decimal;
    SampleNumbers();
    var c := Subcmd("a.out", 4, ["x"], [Pair("i", "j")]);
    SampleSubcmd(c);
    assert [c][1..] == [];
    assert SubcmdsPairs([c], true) == SubcmdPairs(c, true) + [] == SubcmdPairs(c, true);
    SampleKeyvals("ppkey", "ppval", "a", "b");
    assert "ppkey" + "0" == "ppkey0" && "ppval" + "0" == "ppval0";
  }

  lemma SampleNumbers()
    ensures Decimal(0) == "0" && Decimal(1) == "1" && Decimal(4) == "4"
  {
  }

  lemma SampleKeyvals(k: string, v: string, key: string, value: string)
    ensures KeyvalPairs(k, v, [Pair(key, value)], 0) == [Pair(k + "0", key), Pair(v + "0", value)]
  {
    hide Decimal;
    SampleNumbers();
    assert KeyvalPairs(k, v, [Pair(key, value)], 1) == [];
  }

  lemma SampleSubcmd(c: Subcmd)
    requires c == Subcmd("a.out", 4, ["x"], [Pair("i", "j")])
    ensures SubcmdPairs(c, true) ==
            [Pair("subcmd", "a.out"), Pair("maxprocs", "4"), Pair("argc", "1"), Pair("argv0", "x"),
             Pair("infokeycount", "1"), Pair("infokey0", "i"), Pair("infoval0", "j")]
  {
    hide Decimal, KeyvalPairs;
    SampleNumbers();
    SampleKeyvals("infokey", "infoval", "i", "j");
    assert "infokey" + "0" == "infokey0" && "infoval" + "0" == "infoval0" && "argv" + "0" == "argv0";
    assert ArgPairs(["x"], 1) == [] && ArgPairs(["x"], 0) == [Pair("argv0", "x")];
  }

  /** Two requests give the same pairs exactly when they agree in all but an info flag
      without subcommands. */
  lemma SpawnPairsDistinguish(r: Request, s: Request)
    requires Valid(r) && Valid(s)
    ensures SpawnPairs(r) == SpawnPairs(s) <==> Visible(r) == Visible(s)
  {
    hide SpawnPairs, DecodeSpawn;
    DecodeSpawnPairs(r);
    DecodeSpawnPairs(s);
    VisiblePairs(r);
    VisiblePairs(s);
  }

  lemma VisiblePairs(r: Request)
    ensures SpawnPairs(Visible(r)) == SpawnPairs(r)
  {
  }

  /** Dropping the flag is a real loss: these two requests cannot be told apart. */
  lemma InfoFlagLost()
    ensures Valid(Request([], true, [])) && Valid(Request([], false, []))
    ensures SpawnPairs(Request([], true, [])) == SpawnPairs(Request([], false, []))
  {
  }

  // ----- filling the array

  method PutPair(arr: array<Pair>, n: nat, p: Pair) returns (next: nat)
    requires n < arr.Length
    modifies arr
    ensures next == n + 1 && arr[..next] == old(arr[..n]) + [p]
  {
    arr[n] := p;
    next := n + 1;
    assert arr[..next] == arr[..n] + [p];
  }

  /** Lines 468-471 and 487-490. */
  method PutKeyvals(arr: array<Pair>, n: nat, k: string, v: string, kvs: seq<Pair>) returns (next: nat)
    requires n + 2 * |kvs| <= arr.Length
    modifies arr
    ensures next == n + 2 * |kvs| && arr[..next] == old(arr[..n]) + KeyvalPairs(k, v, kvs, 0)
  {
    hide Decimal;
    next := n;
    ghost var goal := arr[..n] + KeyvalPairs(k, v, kvs, 0);
    for i := 0 to |kvs|
      invariant next == n + 2 * i && arr[..next] + KeyvalPairs(k, v, kvs, i) == goal
    {
      ghost var before := arr[..next];
      next := PutPair(arr, next, Pair(k + Decimal(i), kvs[i].key));
      next := PutPair(arr, next, Pair(v + Decimal(i), kvs[i].value));
      assert arr[..next] == before + [Pair(k + Decimal(i), kvs[i].key), Pair(v + Decimal(i), kvs[i].value)];
    }
    assert arr[..next] + [] == arr[..next];
  }

  /** Lines 481-483. */
  method PutArgs(arr: array<Pair>, n: nat, args: seq<string>) returns (next: nat)
    requires n + |args| <= arr.Length
    modifies arr
    ensures next == n + |args| && arr[..next] == old(arr[..n]) + ArgPairs(args, 0)
  {
    hide Decimal;
    next := n;
    ghost var goal := arr[..n] + ArgPairs(args, 0);
    for i := 0 to |args|
      invariant next == n + i && arr[..next] + ArgPairs(args, i) == goal
    {
      ghost var before := arr[..next];
      next := PutPair(arr, next, Pair("argv" + Decimal(i), args[i]));
      assert arr[..next] == before + [Pair("argv" + Decimal(i), args[i])];
    }
    assert arr[..next] + [] == arr[..next];
  }

  /** Lines 477-480. */
  method PutHead(arr: array<Pair>, n: nat, c: Subcmd) returns (next: nat)
    requires n + 3 <= arr.Length
    modifies arr
    ensures next == n + 3 && arr[..next] == old(arr[..n]) + SubcmdHead(c)
  {
    hide Signed;
    ghost var before := arr[..n];
    next := PutPair(arr, n, Pair("subcmd", c.cmd));
    next := PutPair(arr, next, Pair("maxprocs", Signed(c.maxprocs)));
    next := PutPair(arr, next, Pair("argc", Signed(|c.args|)));
    assert arr[..next] == before + SubcmdHead(c);
  }

  /** Lines 485-491. */
  method PutInfo(arr: array<Pair>, n: nat, info: seq<Pair>, hasInfo: bool) returns (next: nat)
    requires n + |if hasInfo then InfoPairs(info) else []| <= arr.Length
    modifies arr
    ensures next == n + |if hasInfo then InfoPairs(info) else []|
    ensures arr[..next] == old(arr[..n]) + if hasInfo then InfoPairs(info) else []
  {
    hide KeyvalPairs, Signed;
    next := n;
    if hasInfo {
      ghost var before := arr[..n];
      next := PutPair(arr, next, Pair("infokeycount", Signed(|info|)));
      next := PutKeyvals(arr, next, "infokey", "infoval", info);
      assert arr[..next] == before + InfoPairs(info);
    } else {
      assert arr[..n] + [] == arr[..n];
    }
  }

  /** Lines 477-491. */
  method PutSubcmd(arr: array<Pair>, n: nat, c: Subcmd, hasInfo: bool) returns (next: nat)
    requires n + |SubcmdPairs(c, hasInfo)| <= arr.Length
    modifies arr
    ensures next == n + |SubcmdPairs(c, hasInfo)| && arr[..next] == old(arr[..n]) + SubcmdPairs(c, hasInfo)
  {
    hide ArgPairs, InfoPairs;
    ghost var before := arr[..n];
    ghost var head, args, info := SubcmdHead(c), ArgPairs(c.args, 0), if hasInfo then InfoPairs(c.info) else [];
    next := PutHead(arr, n, c);
    next := PutArgs(arr, next, c.args);
    next := PutInfo(arr, next, c.info, hasInfo);
    assert before + head + args + info == before + (head + (args + info));
  }

  method PutRequestHead(arr: array<Pair>, r: Request) returns (next: nat)
    requires 2 <= arr.Length
    modifies arr
    ensures next == 2 && arr[..next] == RequestHead(r)
  {
    hide Signed;
    next := PutPair(arr, 0, Pair("ncmds", Signed(|r.cmds|)));
    next := PutPair(arr, next, Pair("preputcount", Signed(|r.preput|)));
    assert arr[..next] == RequestHead(r);
  }

  /** Lines 446-495: the array sized by the precomputed total ends up filled exactly. */
  method BuildSpawnPairs(r: Request) returns (arr: array<Pair>)
    ensures fresh(arr) && arr.Length == TotalPairs(r) && arr[..] == SpawnPairs(r)
  {
    hide KeyvalPairs, SubcmdPairs, RequestHead, TotalPairs, SubcmdsPairs, SpawnPairs;
    TotalIsExact(r);
    TotalParts(r);
    arr := new Pair[TotalPairs(r)];
    var n: nat := PutRequestHead(arr, r);
    n := PutKeyvals(arr, n, "ppkey", "ppval", r.preput);
    SpawnStart(r);
    for i := 0 to |r.cmds|
      invariant n <= arr.Length && arr[..n] + SubcmdsPairs(r.cmds[i..], r.hasInfo) == SpawnPairs(r)
    {
      SubcmdsTurn(r.cmds, i, r.hasInfo, arr[..n], SpawnPairs(r));
      n := PutSubcmd(arr, n, r.cmds[i], r.hasInfo);
    }
    SubcmdsFirst(r.cmds[|r.cmds|..], r.hasInfo);
    assert arr[..n] + [] == arr[..n];
    assert n == arr.Length;
  }

  lemma SpawnStart(r: Request)
    ensures SpawnPairs(r) ==
            RequestHead(r) + KeyvalPairs("ppkey", "ppval", r.preput, 0) + SubcmdsPairs(r.cmds[0..], r.hasInfo)
  {
    hide KeyvalPairs, RequestHead, SubcmdsPairs;
    assert r.cmds[0..] == r.cmds;
  }

  /** One command more in the array is one command less to come. */
  lemma SubcmdsTurn(cs: seq<Subcmd>, i: nat, hasInfo: bool, before: seq<Pair>, goal: seq<Pair>)
    requires i < |cs| && before + SubcmdsPairs(cs[i..], hasInfo) == goal
    ensures |before| + |SubcmdPairs(cs[i], hasInfo)| <= |goal|
    ensures before + SubcmdPairs(cs[i], hasInfo) + SubcmdsPairs(cs[i + 1..], hasInfo) == goal
  {
    hide SubcmdPairs, SubcmdsPairs;
    SubcmdsFirst(cs[i..], hasInfo);
    assert cs[i..][1..] == cs[i + 1..];
  }

  lemma SubcmdsFirst(cs: seq<Subcmd>, hasInfo: bool)
    ensures SubcmdsPairs(cs, hasInfo) ==
            if cs == [] then [] else SubcmdPairs(cs[0], hasInfo) + SubcmdsPairs(cs[1..], hasInfo)
  {
  }

  lemma TotalParts(r: Request)
    ensures TotalPairs(r) == 2 + 2 * |r.preput| + |SubcmdsPairs(r.cmds, r.hasInfo)|
  {
    SubcmdsLength(r.cmds, r.hasInfo);
  }

  // ----- over the wire

  /** Every key of a spawn request can be sent, and none is the routing key. */
  predicate Sendable(k: string) { '=' !in k && ';' !in k && '\0' !in k && k != [] && k[0] != 't' }

  predicate AllSendable(ps: seq<Pair>) { forall i :: 0 <= i < |ps| ==> Sendable(ps[i].key) }

  lemma IndexedSendable(prefix: string, i: nat)
    requires Sendable(prefix)
    ensures Sendable(prefix + Decimal(i))
  {
    hide Decimal;
    var d := Decimal(i);
    assert forall j :: 0 <= j < |d| ==> IsDigit(d[j]);
  }

  lemma {:induction false} KeyvalsSendable(k: string, v: string, kvs: seq<Pair>, i: nat)
    requires i <= |kvs| && Sendable(k) && Sendable(v)
    ensures AllSendable(KeyvalPairs(k, v, kvs, i))
    decreases |kvs| - i
  {
    hide Decimal, Sendable;
    if i < |kvs| {
      IndexedSendable(k, i);
      IndexedSendable(v, i);
      KeyvalsSendable(k, v, kvs, i + 1);
    }
  }

  lemma {:induction false} ArgsSendable(args: seq<string>, i: nat)
    requires i <= |args|
    ensures AllSendable(ArgPairs(args, i))
    decreases |args| - i
  {
    hide Decimal;
    if i < |args| {
      IndexedSendable("argv", i);
      ArgsSendable(args, i + 1);
    }
  }

  lemma ConcatSendable(ps: seq<Pair>, qs: seq<Pair>)
    requires AllSendable(ps) && AllSendable(qs)
    ensures AllSendable(ps + qs)
  {
  }

  lemma HeadsSendable(c: Subcmd)
    ensures AllSendable(SubcmdHead(c)) && AllSendable([Pair("infokeycount", Signed(|c.info|))])
  {
    hide Signed;
  }

  lemma InfoSendable(c: Subcmd, hasInfo: bool)
    ensures AllSendable(if hasInfo then InfoPairs(c.info) else [])
  {
    hide KeyvalPairs, Signed, AllSendable;
    NoneSendable();
    HeadsSendable(c);
    KeyvalsSendable("infokey", "infoval", c.info, 0);
    ConcatSendable([Pair("infokeycount", Signed(|c.info|))], KeyvalPairs("infokey", "infoval", c.info, 0));
  }

  lemma NoneSendable()
    ensures AllSendable([])
  {
  }

  lemma SubcmdSendable(c: Subcmd, hasInfo: bool)
    ensures AllSendable(SubcmdPairs(c, hasInfo))
  {
    hide ArgPairs, InfoPairs, SubcmdHead, AllSendable;
    HeadsSendable(c);
    ArgsSendable(c.args, 0);
    InfoSendable(c, hasInfo);
    ConcatSendable(ArgPairs(c.args, 0), if hasInfo then InfoPairs(c.info) else []);
    ConcatSendable(SubcmdHead(c), ArgPairs(c.args, 0) + if hasInfo then InfoPairs(c.info) else []);
  }

  lemma {:induction false} SubcmdsSendable(cs: seq<Subcmd>, hasInfo: bool)
    ensures AllSendable(SubcmdsPairs(cs, hasInfo))
  {
    hide SubcmdPairs, Sendable;
    if cs != [] {
      SubcmdSendable(cs[0], hasInfo);
      SubcmdsSendable(cs[1..], hasInfo);
      ConcatSendable(SubcmdPairs(cs[0], hasInfo), SubcmdsPairs(cs[1..], hasInfo));
    }
  }

  /** A spawn request within the length limits crosses the wire: the frame is read back
      with nothing of what follows it, and its pairs decode to the request. */
  lemma SpawnOverTheWire(r: Request, rest: string)
    requires Valid(r) && Fits(Command("spawn", SpawnPairs(r)))
    ensures
      var c := Command("spawn", SpawnPairs(r));
      && ReadFrame(Frame(c) + rest) == Received(c, rest)
      && DecodeSpawn(c.pairs) == Some(Visible(r)) && (r.cmds != [] ==> ParseSpawn(c.pairs) == Some(r))
  {
    hide Decimal, KeyvalPairs, SubcmdsPairs, Signed, ReadFrame, Frame, Fits, DecodeSpawn, GoodKey, EvenRuns;
    KeyvalsSendable("ppkey", "ppval", r.preput, 0);
    SubcmdsSendable(r.cmds, r.hasInfo);
    var c := Command("spawn", SpawnPairs(r));
    assert AllSendable(c.pairs);
    forall p | p in c.pairs ensures GoodKey(p.key) && EvenRuns(p.key) && !SameKey("thrid", p.key) {
      SendableIsGood(p.key);
    }
    DecodeSpawnPairs(r);
    ParseSpawnIff(r);
    ReadWrittenFrameIff(c, rest);
  }

  lemma SendableIsGood(k: string)
    requires Sendable(k)
    ensures GoodKey(k) && EvenRuns(k) && !SameKey("thrid", k)
  {
    NoRuns(k);
  }

  lemma {:induction false} NoRuns(k: string)
    requires ';' !in k
    ensures EvenRuns(k)
  {
    if k != [] { NoRuns(k[1..]); }
  }
}

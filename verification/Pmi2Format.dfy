/** The PMI-2 wire format of contribs/pmi2/pmi2_api.c as functions on byte strings: what a
    frame looks like, what parsing it means, and why parsing inverts writing. A byte is a
    char; NUL is '\0'. */
module Pmi2Format {
  import opened CText

  const MAX_KEYLEN := 64          // PMI2_MAX_KEYLEN
  const MAX_VALLEN := 1024        // PMI2_MAX_VALLEN
  const COMMANDLEN_SIZE := 6      // PMII_COMMANDLEN_SIZE
  const MAX_COMMAND_LEN := 65536  // PMII_MAX_COMMAND_LEN

  datatype Pair = Pair(key: string, value: string)
  datatype Command = Command(name: string, pairs: seq<Pair>)

  // ----- writing

  /** The value with every ';' doubled. */
  function Escape(v: string): string {
    if v == [] then [] else (if v[0] == ';' then ";;" else [v[0]]) + Escape(v[1..])
  }

  function EncodePair(p: Pair): string { p.key + "=" + Escape(p.value) + ";" }

  function EncodePairs(ps: seq<Pair>): string {
    if ps == [] then [] else EncodePair(ps[0]) + EncodePairs(ps[1..])
  }

  function Body(c: Command): string { "cmd=" + c.name + ";" + EncodePairs(c.pairs) }

  function Spaces(n: nat): (s: string)
    ensures |s| == n && forall i :: 0 <= i < n ==> s[i] == ' '
  {
    seq(n, _ => ' ')
  }

  /** The length field: the decimal length, padded with blanks to six characters. */
  function Header(len: nat): (s: string)
    requires |Decimal(len)| <= COMMANDLEN_SIZE
    ensures |s| == COMMANDLEN_SIZE
  {
    Decimal(len) + Spaces(COMMANDLEN_SIZE - |Decimal(len)|)
  }

  /** Lengths that fit the wire limits, with room for the final NUL in the buffer. */
  predicate Fits(c: Command) {
    && |c.name| <= MAX_VALLEN
    && (forall p :: p in c.pairs ==> |p.key| <= MAX_KEYLEN && |p.value| <= MAX_VALLEN)
    && COMMANDLEN_SIZE + |Body(c)| < MAX_COMMAND_LEN
  }

  lemma FitsHeader(len: nat)
    requires COMMANDLEN_SIZE + len < MAX_COMMAND_LEN
    ensures |Decimal(len)| < COMMANDLEN_SIZE
  {
    assert Pow10(5) == 100000;
    DecimalLength(len, 5);
  }

  /** The bytes of one command on the wire. */
  function Frame(c: Command): string
    requires Fits(c)
  {
    FitsHeader(|Body(c)|);
    Header(|Body(c)|) + Body(c)
  }

  // ----- reading

  datatype Scan = Scan(value: string, rest: string)

  /** Un-escapes a value up to the ';' that ends it; the rest starts with that ';' or is
      empty when there is none. */
  function ScanValue(s: string): (r: Scan)
    ensures |r.rest| <= |s|
  {
    if s == [] then Scan([], [])
    else if s[0] == ';' then
      if |s| > 1 && s[1] == ';' then
        var r := ScanValue(s[2..]);
        Scan([';'] + r.value, r.rest)
      else Scan([], s)
    else
      var r := ScanValue(s[1..]);
      Scan([s[0]] + r.value, r.rest)
  }

  datatype Keyval = BadKeyval | Keyval(key: string, value: string, rest: string)

  /** One "key=value;" from the front of s. */
  function ParseKeyval(s: string): (r: Keyval)
    ensures r.Keyval? ==> |r.rest| < |s|
  {
    var e := IndexOf(s, '=');
    if e == |s| || e > MAX_KEYLEN then BadKeyval
    else
      var v := ScanValue(s[e + 1..]);
      if v.rest == [] || |v.value| > MAX_VALLEN then BadKeyval
      else Keyval(s[..e], v.value, v.rest[1..])
  }

  function ParsePairs(s: string): Option<seq<Pair>>
    decreases |s|
  {
    if s == [] then Some([])
    else
      match ParseKeyval(s)
      case BadKeyval => None
      case Keyval(k, v, r) =>
        match ParsePairs(r)
        case None => None
        case Some(ps) => Some([Pair(CString(k), v)] + ps)
  }

  /** The whole body: the pair "cmd" first, then the others. */
  function ParseBody(s: string): Option<Command> {
    match ParseKeyval(s)
    case BadKeyval => None
    case Keyval(k, v, r) =>
      if CString(k) != "cmd" then None
      else
        match ParsePairs(r)
        case None => None
        case Some(ps) => Some(Command(v, ps))
  }

  /** The counting pass over a body: single ';' end a pair, as does a missing last one. */
  function CountPairs(s: string): nat
    decreases |s|
  {
    if s == [] then 0
    else if s[0] != ';' then if |s| == 1 then 1 else CountPairs(s[1..])
    else if |s| > 1 && s[1] == ';' then CountPairs(s[2..])
    else 1 + CountPairs(s[1..])
  }

  /** Undefined is what C leaves undefined: a negative length, which the reader takes for
      the size of its buffer, or a look at a slot that was counted and never filled. */
  datatype ReadResult =
    | Failed
    | Undefined
    | Rerouted(thrid: string, name: string, slots: seq<Option<Pair>>, rest: string)
    | Received(command: Command, rest: string)

  /** `strncmp(a, b, PMI2_MAX_KEYLEN) == 0` on texts without NUL. */
  predicate SameKey(a: string, b: string) {
    if |a| < MAX_KEYLEN || |b| < MAX_KEYLEN then a == b else a[..MAX_KEYLEN] == b[..MAX_KEYLEN]
  }

  predicate HasKey(ps: seq<Pair>, k: string) { exists i :: 0 <= i < |ps| && SameKey(k, ps[i].key) }

  /** The value of the first pair with the key. */
  function FirstValue(ps: seq<Pair>, k: string): string
    requires HasKey(ps, k)
  {
    if SameKey(k, ps[0].key) then ps[0].value
    else
      assert HasKey(ps[1..], k) by {
        var i :| 0 <= i < |ps| && SameKey(k, ps[i].key);
        assert SameKey(k, ps[1..][i - 1].key);
      }
      FirstValue(ps[1..], k)
  }

  /** num slots of which the first hold these pairs. */
  function Slots(ps: seq<Pair>, num: nat): (r: seq<Option<Pair>>)
    ensures |r| == num && forall i :: 0 <= i < num ==> r[i] == if i < |ps| then Some(ps[i]) else None
  {
    seq(num, i requires i >= 0 => if i < |ps| then Some(ps[i]) else None)
  }

  /** One frame from the front of a byte stream. */
  function ReadFrame(s: string): (r: ReadResult)
    ensures r.Received? || r.Rerouted? ==> |r.rest| < |s|
  {
    if |s| < COMMANDLEN_SIZE then Failed
    else
      var len := Atoi(s[..COMMANDLEN_SIZE]);
      var t := s[COMMANDLEN_SIZE..];
      if len < 0 then Undefined
      else if len == 0 || |t| < len then Failed
      else ReadBody(t[..len], t[len..])
  }

  /** A whole body. A pair named thrid sends the command to the waiting request it names,
      with as many slots as were counted; when there is none, the search for it goes
      through every slot that was counted. */
  function ReadBody(body: string, rest: string): (r: ReadResult)
    ensures r.Received? || r.Rerouted? ==> r.rest == rest
  {
    match ParseBody(body)
    case None => Failed
    case Some(c) =>
      var num := CountPairs(body);
      assert num >= 1 by { CountKeyval(body); }
      if HasKey(c.pairs, "thrid") then
        Rerouted(FirstValue(c.pairs, "thrid"), c.name, Slots(c.pairs, num - 1), rest)
      else if num != 1 + |c.pairs| then Undefined
      else Received(c, rest)
  }

  // ----- parsing inverts writing

  /** Keys the format can carry: no '=' or NUL, and no ';' at the front. */
  predicate GoodKey(k: string) { '=' !in k && '\0' !in k && Boundary(k) }

  /** Commands the format can carry. */
  predicate Parseable(c: Command) {
    ';' !in c.name && forall p :: p in c.pairs ==> GoodKey(p.key)
  }

  /** What may follow an encoded value: the end of the body, or a byte that is not ';'. */
  predicate Boundary(t: string) { t == [] || t[0] != ';' }

  lemma ScanDoubled(u: string)
    ensures ScanValue(";;" + u) == Scan([';'] + ScanValue(u).value, ScanValue(u).rest)
  {
    assert (";;" + u)[2..] == u;
  }

  lemma ScanPlain(c: char, u: string)
    requires c != ';'
    ensures ScanValue([c] + u) == Scan([c] + ScanValue(u).value, ScanValue(u).rest)
  {
    assert ([c] + u)[1..] == u;
  }

  lemma EscapeUnfold(v: string, t: string)
    ensures v == [] ==> Escape(v) + t == t
    ensures v != [] ==> Escape(v) + t == (if v[0] == ';' then ";;" else [v[0]]) + (Escape(v[1..]) + t)
  {
  }

  lemma {:induction false} ScanEscape(v: string, t: string)
    requires Boundary(t)
    ensures ScanValue(Escape(v) + (";" + t)) == Scan(v, ";" + t)
    decreases |v|
  {
    hide ScanValue, Escape;
    EscapeUnfold(v, ";" + t);
    if v == [] {
      ScanEnd(t);
    } else {
      ScanEscape(v[1..], t);
      var u := Escape(v[1..]) + (";" + t);
      ScanDoubled(u);
      if v[0] != ';' { ScanPlain(v[0], u); }
      assert [v[0]] + v[1..] == v;
    }
  }

  lemma ScanEnd(t: string)
    requires Boundary(t)
    ensures ScanValue(";" + t) == Scan([], ";" + t)
  {
  }

  lemma ParseEncodedPair(p: Pair, t: string)
    requires '=' !in p.key && |p.key| <= MAX_KEYLEN && |p.value| <= MAX_VALLEN && Boundary(t)
    ensures ParseKeyval(EncodePair(p) + t) == Keyval(p.key, p.value, t)
  {
    hide ScanValue, IndexOf, Escape;
    var w := Escape(p.value) + (";" + t);
    var s := EncodePair(p) + t;
    assert s == p.key + ['='] + w;
    IndexOfFirst(p.key, '=', w);
    assert s[|p.key| + 1..] == w && s[..|p.key|] == p.key;
    ScanEscape(p.value, t);
    assert (";" + t)[1..] == t;
  }

  lemma EncodedBoundary(ps: seq<Pair>)
    requires forall p :: p in ps ==> GoodKey(p.key)
    ensures Boundary(EncodePairs(ps))
  {
    if ps != [] && ps[0].key != [] {
      assert ps[0].key[0] in ps[0].key;
      assert EncodePairs(ps)[0] == ps[0].key[0];
    }
  }

  lemma {:induction false} ParseEncodedPairs(ps: seq<Pair>)
    requires forall p :: p in ps ==> GoodKey(p.key) && |p.key| <= MAX_KEYLEN && |p.value| <= MAX_VALLEN
    ensures ParsePairs(EncodePairs(ps)) == Some(ps)
    decreases |ps|
  {
    hide ParseKeyval, CString, EncodePair;
    if ps != [] {
      EncodedBoundary(ps[1..]);
      ParseEncodedPair(ps[0], EncodePairs(ps[1..]));
      CStringClean(ps[0].key);
      ParseEncodedPairs(ps[1..]);
      assert EncodePairs(ps) != [];
      assert ps == [ps[0]] + ps[1..];
    }
  }

  lemma {:induction false} EscapeClean(v: string)
    requires ';' !in v
    ensures Escape(v) == v
  {
    if v != [] { EscapeClean(v[1..]); }
  }

  /** Parsing the body of such a command gives back its name and its pairs in order. */
  lemma ParseWrittenBody(c: Command)
    requires Parseable(c) && Fits(c)
    ensures ParseBody(Body(c)) == Some(c)
  {
    hide ParseKeyval, ParsePairs, CString, Escape;
    var t := EncodePairs(c.pairs);
    var p := Pair("cmd", c.name);
    EscapeClean(c.name);
    assert Body(c) == EncodePair(p) + t;
    EncodedBoundary(c.pairs);
    ParseEncodedPair(p, t);
    CStringClean("cmd");
    ParseEncodedPairs(c.pairs);
  }

  lemma ScanStop(s: string)
    requires s == [] || (s[0] == ';' && Boundary(s[1..]))
    ensures ScanValue(s) == Scan([], s)
  {
  }

  /** Scanning takes exactly the escaped form of the value it returns. */
  lemma {:induction false} ScanIsEscape(s: string)
    ensures s == Escape(ScanValue(s).value) + ScanValue(s).rest
    decreases |s|
  {
    hide ScanValue, Escape;
    if s == [] || (s[0] == ';' && Boundary(s[1..])) {
      ScanStop(s);
      EscapeUnfold([], s);
    } else {
      var n := if s[0] == ';' then 2 else 1;
      var u := s[n..];
      var r := ScanValue(u);
      assert s == (if n == 2 then ";;" else [s[0]]) + u;
      ScanDoubled(u);
      if n == 1 { ScanPlain(s[0], u); }
      ScanIsEscape(u);
      EscapeUnfold([s[0]] + r.value, r.rest);
      assert ([s[0]] + r.value)[1..] == r.value;
    }
  }

  lemma {:induction false} ScanBoundary(s: string)
    ensures ScanValue(s).rest != [] ==> ScanValue(s).rest[0] == ';' && Boundary(ScanValue(s).rest[1..])
    decreases |s|
  {
    if |s| > 1 && s[0] == ';' && s[1] == ';' {
      ScanBoundary(s[2..]);
    } else if s != [] && s[0] != ';' {
      ScanBoundary(s[1..]);
    }
  }

  /** What one parsed pair says about the bytes it came from. */
  lemma ParsedKeyval(s: string)
    requires ParseKeyval(s).Keyval?
    ensures var r := ParseKeyval(s); s == r.key + ("=" + (Escape(r.value) + (";" + r.rest)))
    ensures '=' !in ParseKeyval(s).key && Boundary(ParseKeyval(s).rest)
  {
    hide ScanValue, Escape, IndexOf;
    var e := IndexOf(s, '=');
    var v := ScanValue(s[e + 1..]);
    ScanIsEscape(s[e + 1..]);
    ScanBoundary(s[e + 1..]);
    assert v.rest == ";" + v.rest[1..];
    assert s == s[..e] + ("=" + s[e + 1..]);
  }

  /** Parsed pairs have good keys, apart from the front of the first one, and their
      encoding is no longer than the bytes they came from. */
  lemma {:induction false} ParsedPairs(s: string, ps: seq<Pair>)
    requires ParsePairs(s) == Some(ps) && Boundary(s)
    ensures |EncodePairs(ps)| <= |s|
    ensures forall p :: p in ps ==> GoodKey(p.key)
    decreases |s|
  {
    hide ParseKeyval, Escape, CString;
    if s != [] {
      var r := ParseKeyval(s);
      ParsedKeyval(s);
      CStringNoNul(r.key);
      var k := CString(r.key);
      assert k != [] ==> k[0] == r.key[0] == s[0];
      assert '=' !in k;
      ParsedPairs(r.rest, ps[1..]);
      assert ps == [Pair(k, r.value)] + ps[1..];
      assert |EncodePair(ps[0])| <= |r.key| + 2 + |Escape(r.value)|;
    }
  }

  function Semicolons(s: string): nat {
    if s == [] then 0 else (if s[0] == ';' then 1 else 0) + Semicolons(s[1..])
  }

  lemma {:induction false} EscapeLength(v: string)
    ensures |Escape(v)| == |v| + Semicolons(v)
    ensures Semicolons(v) == 0 <==> ';' !in v
  {
    if v != [] {
      EscapeLength(v[1..]);
      assert v == [v[0]] + v[1..];
    }
  }

  lemma BodyKey(c: Command)
    ensures ParseKeyval(Body(c)).Keyval? ==> ParseKeyval(Body(c)).key == "cmd"
    ensures |Body(c)| == 5 + |c.name| + |EncodePairs(c.pairs)|
  {
    hide EncodePairs, IndexOf, ScanValue;
    var t := c.name + ";" + EncodePairs(c.pairs);
    assert Body(c) == "cmd" + ['='] + t;
    IndexOfFirst("cmd", '=', t);
    assert Body(c)[..3] == "cmd";
  }

  lemma ParsedIsParseable(c: Command)
    requires ParseBody(Body(c)) == Some(c)
    ensures Parseable(c)
  {
    hide ParsePairs, CString, Escape, EncodePairs, Semicolons, GoodKey, ParseKeyval, Body, Boundary;
    var r := ParseKeyval(Body(c));
    ParsedKeyval(Body(c));
    ParsedPairs(r.rest, c.pairs);
    BodyKey(c);
    EscapeLength(c.name);
  }

  /** A body within the limits parses back to its command exactly when the command's name
      has no ';' and no key holds '=' or NUL or starts with ';'. */
  lemma ParseWrittenBodyIff(c: Command)
    requires Fits(c)
    ensures ParseBody(Body(c)) == Some(c) <==> Parseable(c)
  {
    if Parseable(c) { ParseWrittenBody(c); }
    if ParseBody(Body(c)) == Some(c) { ParsedIsParseable(c); }
  }

  /** A key with an '=' in it comes back cut there. */
  lemma EqualsInKeyLost()
    ensures
      var c := Command("put", [Pair("a=b", "c")]);
      Fits(c) && ParseBody(Body(c)) != Some(c)
  {
    var c := Command("put", [Pair("a=b", "c")]);
    assert Escape("c") == "c" && c.pairs[0] == Pair("a=b", "c") && c.pairs[0].key[1] == '=';
    assert |EncodePairs(c.pairs)| == 6;
    assert forall p :: p in c.pairs ==> p == c.pairs[0];
    if ParseBody(Body(c)) == Some(c) { ParsedIsParseable(c); }
  }

  // ----- the counting pass

  lemma {:induction false} CountValue(s: string)
    ensures ScanValue(s).rest != [] ==> CountPairs(s) == 1 + CountPairs(ScanValue(s).rest[1..])
    decreases |s|
  {
    if |s| > 1 && s[0] == ';' && s[1] == ';' {
      CountValue(s[2..]);
    } else if s != [] && s[0] != ';' {
      CountValue(s[1..]);
    }
  }

  /** Every ';' of the text is doubled. */
  predicate EvenRuns(k: string) {
    k == [] ||
    if k[0] != ';' then EvenRuns(k[1..]) else |k| > 1 && k[1] == ';' && EvenRuns(k[2..])
  }

  /** Such texts are exactly the escaped ones. */
  lemma EvenRunsEscaped(k: string)
    ensures EvenRuns(k) <==> exists v :: Escape(v) == k
  {
    hide EvenRuns, Escape;
    if EvenRuns(k) {
      var v := EvenUnescape(k);
    }
    forall v | Escape(v) == k ensures EvenRuns(k) { EscapeEven(v); }
  }

  lemma {:induction false} EvenUnescape(k: string) returns (v: string)
    requires EvenRuns(k)
    ensures Escape(v) == k
    decreases |k|
  {
    if k == [] {
      v := [];
    } else {
      var t := EvenUnescape(if k[0] == ';' then k[2..] else k[1..]);
      v := [k[0]] + t;
      assert v[1..] == t;
    }
  }

  lemma {:induction false} EscapeEven(v: string)
    ensures EvenRuns(Escape(v))
  {
    if v != [] {
      EscapeEven(v[1..]);
      var t := Escape(v[1..]);
      assert (";;" + t)[2..] == t && ([v[0]] + t)[1..] == t;
    }
  }

  /** Skipping a key leaves the count alone exactly when all its ';' are doubled; a key can
      only add to it. */
  lemma {:induction false} CountKey(s: string, e: nat)
    requires e < |s| && s[e] != ';'
    ensures CountPairs(s) >= CountPairs(s[e..])
    ensures CountPairs(s) == CountPairs(s[e..]) <==> EvenRuns(s[..e])
    decreases |s|
  {
    if e > 0 {
      if s[0] == ';' && s[1] == ';' {
        assert s[2..][e - 2..] == s[e..] && s[2..][..e - 2] == s[..e][2..];
        CountKey(s[2..], e - 2);
      } else {
        assert s[1..][e - 1..] == s[e..] && s[1..][..e - 1] == s[..e][1..];
        CountKey(s[1..], e - 1);
      }
    }
  }

  /** Every pair the parser takes from the front was counted. */
  lemma CountKeyval(s: string)
    ensures match ParseKeyval(s)
            case BadKeyval => true
            case Keyval(k, v, r) =>
              && CountPairs(s) >= 1 + CountPairs(r)
              && (CountPairs(s) == 1 + CountPairs(r) <==> EvenRuns(k))
  {
    hide ScanValue, CountPairs, EvenRuns;
    var e := IndexOf(s, '=');
    if e < |s| {
      CountKey(s, e);
      assert s[e..][1..] == s[e + 1..];
      if e + 1 < |s| { CountStep(s[e..]); }
      CountValue(s[e + 1..]);
    }
  }

  lemma CountStep(s: string)
    requires |s| > 1 && s[0] != ';'
    ensures CountPairs(s) == CountPairs(s[1..])
  {
  }

  /** For any body at all, the parse loop stores no more pairs than were counted. */
  lemma {:induction false} CountBoundsPairs(s: string)
    ensures ParsePairs(s).Some? ==> |ParsePairs(s).value| <= CountPairs(s)
    decreases |s|
  {
    hide ParseKeyval, CountPairs, CString, EvenRuns;
    if s != [] && ParseKeyval(s).Keyval? {
      CountKeyval(s);
      CountBoundsPairs(ParseKeyval(s).rest);
    }
  }

  predicate EvenKeys(ps: seq<Pair>) { forall p :: p in ps ==> EvenRuns(p.key) }

  lemma {:induction false} CountEncodedPairs(ps: seq<Pair>)
    requires forall p :: p in ps ==> GoodKey(p.key) && |p.key| <= MAX_KEYLEN && |p.value| <= MAX_VALLEN
    ensures CountPairs(EncodePairs(ps)) >= |ps|
    ensures CountPairs(EncodePairs(ps)) == |ps| <==> EvenKeys(ps)
    decreases |ps|
  {
    hide ParseKeyval, EncodePair, EvenRuns;
    if ps != [] {
      EncodedBoundary(ps[1..]);
      ParseEncodedPair(ps[0], EncodePairs(ps[1..]));
      CountKeyval(EncodePairs(ps));
      CountEncodedPairs(ps[1..]);
      assert ps == [ps[0]] + ps[1..];
    }
  }

  /** On a written body the counting pass finds the command and exactly its pairs if and
      only if every ';' in a key is doubled. */
  lemma CountWrittenBody(c: Command)
    requires Parseable(c) && Fits(c)
    ensures CountPairs(Body(c)) == 1 + |c.pairs| <==> EvenKeys(c.pairs)
  {
    hide ParseKeyval, CountPairs, Escape, EvenKeys;
    var t := EncodePairs(c.pairs);
    var p := Pair("cmd", c.name);
    EscapeClean(c.name);
    assert Body(c) == EncodePair(p) + t;
    EncodedBoundary(c.pairs);
    ParseEncodedPair(p, t);
    CountKeyval(Body(c));
    CountEncodedPairs(c.pairs);
  }

  // ----- whole frames

  /** Commands that survive the wire. */
  predicate Carried(c: Command) { Parseable(c) && EvenKeys(c.pairs) && !HasKey(c.pairs, "thrid") }

  /** The reader finds the body and the rest of a written frame. */
  lemma ReadFrameBody(c: Command, rest: string)
    requires Fits(c)
    ensures ReadFrame(Frame(c) + rest) == ReadBody(Body(c), rest)
  {
    hide ReadBody, Body, Fits, Decimal, Atoi;
    FrameShape(c);
    var s, b := Frame(c) + rest, Body(c);
    FitsHeader(|b|);
    assert s[..COMMANDLEN_SIZE] == Header(|b|);
    AtoiDecimal(|b|, Spaces(COMMANDLEN_SIZE - |Decimal(|b|)|));
    var t := s[COMMANDLEN_SIZE..];
    assert t == b + rest;
    assert t[..|b|] == b && t[|b|..] == rest;
  }

  lemma FrameShape(c: Command)
    requires Fits(c)
    ensures 0 < |Body(c)| && COMMANDLEN_SIZE + |Body(c)| < MAX_COMMAND_LEN
  {
  }

  /** A written command is received as it is, and exactly the bytes behind its frame are
      left, if and only if its name has no ';', no key holds '=' or NUL, starts with ';' or
      holds a ';' that is not doubled, and no key is thrid. */
  lemma ReadWrittenFrameIff(c: Command, rest: string)
    requires Fits(c)
    ensures ReadFrame(Frame(c) + rest) == Received(c, rest) <==> Carried(c)
  {
    hide Fits, Parseable, EvenKeys, HasKey, ReadFrame, Frame, Body, ParseBody, CountPairs;
    ReadFrameBody(c, rest);
    ParseWrittenBodyIff(c);
    if Parseable(c) { CountWrittenBody(c); }
  }

  /** A key with a single ';' parses, but one slot too many is counted for it. */
  lemma SemicolonKeyUndefined(rest: string)
    ensures
      var c := Command("put", [Pair("a;b", "c")]);
      Fits(c) && ParseBody(Body(c)) == Some(c) && ReadFrame(Frame(c) + rest) == Undefined
  {
    hide ReadFrame, Frame, ParseBody, CountPairs;
    var c := Command("put", [Pair("a;b", "c")]);
    var p := c.pairs[0];
    assert Escape("c") == "c" && p == Pair("a;b", "c") && |EncodePairs(c.pairs)| == 6;
    assert forall q :: q in c.pairs ==> q == p;
    assert p.key[1..] == ";b" && !EvenRuns(p.key);
    assert p in c.pairs && !EvenKeys(c.pairs);
    ParseWrittenBody(c);
    CountWrittenBody(c);
    ReadFrameBody(c, rest);
  }

  // ----- streams of frames

  function Frames(cs: seq<Command>): string
    requires forall c :: c in cs ==> Fits(c)
  {
    if cs == [] then [] else Frame(cs[0]) + Frames(cs[1..])
  }

  /** The first n commands of a stream, in order, and what is left of it. */
  function ReadFrames(s: string, n: nat): Option<(seq<Command>, string)> {
    if n == 0 then Some(([], s))
    else
      match ReadFrame(s)
      case Received(c, r) =>
        (match ReadFrames(r, n - 1)
         case None => None
         case Some((cs, t)) => Some(([c] + cs, t)))
      case _ => None
  }

  predicate AllCarried(cs: seq<Command>) { forall i :: 0 <= i < |cs| ==> Carried(cs[i]) }

  /** Successive reads return exactly the written commands and consume no later byte, if
      and only if each command survives the wire by itself. */
  lemma {:induction false} ReadWrittenFramesIff(cs: seq<Command>, rest: string)
    requires forall c :: c in cs ==> Fits(c)
    ensures ReadFrames(Frames(cs) + rest, |cs|) == Some((cs, rest)) <==> AllCarried(cs)
    decreases |cs|
  {
    hide ReadFrame, ReadFrames, Frame, Fits, Carried;
    if cs == [] {
      assert Frames(cs) + rest == rest;
      NothingRead(rest);
    } else {
      var more := Frames(cs[1..]) + rest;
      assert Frames(cs) + rest == Frame(cs[0]) + more;
      ReadWrittenFrameIff(cs[0], more);
      ReceivedRest(cs[0], more);
      ReadWrittenFramesIff(cs[1..], rest);
      FirstRead(Frame(cs[0]) + more, cs, more, rest);
    }
  }

  lemma NothingRead(s: string)
    ensures ReadFrames(s, 0) == Some(([], s))
  {
  }

  /** The first read decides about the first command, the others about the rest. */
  lemma FirstRead(s: string, cs: seq<Command>, more: string, rest: string)
    requires cs != [] && (ReadFrame(s).Received? ==> ReadFrame(s).rest == more)
    ensures ReadFrames(s, |cs|) == Some((cs, rest)) <==>
              ReadFrame(s) == Received(cs[0], more) && ReadFrames(more, |cs| - 1) == Some((cs[1..], rest))
  {
    hide ReadFrame;
    assert cs == [cs[0]] + cs[1..];
    if ReadFrames(s, |cs|) == Some((cs, rest)) {
      var r := ReadFrames(more, |cs| - 1).value;
      assert ([ReadFrame(s).command] + r.0)[1..] == r.0;
    }
  }

  /** Whatever is received from a written frame, the bytes behind the frame are left. */
  lemma ReceivedRest(c: Command, rest: string)
    requires Fits(c)
    ensures var r := ReadFrame(Frame(c) + rest); r.Received? ==> r.rest == rest
  {
    hide ReadFrame, Frame, Fits, Body, ReadBody;
    ReadFrameBody(c, rest);
  }

  // ----- a reader among several waiting requests

  /** What a waiting request gets: its command's name and the slots for its pairs. */
  datatype Delivery = Delivery(request: nat, name: string, slots: seq<Option<Pair>>)

  datatype End = Complete | Error | Unknown

  /** The commands a reader hands out until its own request is complete, how it ends, and
      what is left of the stream. */
  datatype Session = Session(log: seq<Delivery>, end: End, rest: string)

  /** All of PMIi_ReadCommand for request me. target gives the request that the text of a
      thrid names; one that names none is not told apart from one that does. */
  function ReadUntil(s: string, me: nat, target: string -> Option<nat>): Session
    decreases |s|
  {
    match ReadFrame(s)
    case Failed => Session([], Error, s)
    case Undefined => Session([], Unknown, s)
    case Received(c, rest) => Session([Delivery(me, c.name, Slots(c.pairs, |c.pairs|))], Complete, rest)
    case Rerouted(v, name, slots, rest) =>
      match target(v)
      case None => Session([], Unknown, s)
      case Some(q) =>
        var d := Delivery(q, name, slots);
        if q == me then Session([d], Complete, rest)
        else
          var more := ReadUntil(rest, me, target);
          more.(log := [d] + more.log)
  }

  /** A command for request q that survives the wire but for its routing. */
  predicate Addressed(c: Command, q: nat, target: string -> Option<nat>) {
    && Fits(c) && Parseable(c) && EvenKeys(c.pairs)
    && HasKey(c.pairs, "thrid") && target(FirstValue(c.pairs, "thrid")) == Some(q)
  }

  function Handed(q: nat, c: Command): Delivery { Delivery(q, c.name, Slots(c.pairs, |c.pairs|)) }

  lemma ReadAddressed(c: Command, q: nat, target: string -> Option<nat>, rest: string)
    requires Addressed(c, q, target)
    ensures ReadFrame(Frame(c) + rest) ==
            Rerouted(FirstValue(c.pairs, "thrid"), c.name, Slots(c.pairs, |c.pairs|), rest)
  {
    hide Fits, Parseable, EvenKeys, HasKey, ReadFrame, Frame, Body, ParseBody, CountPairs, FirstValue, Slots;
    ReadFrameBody(c, rest);
    ParseWrittenBody(c);
    CountWrittenBody(c);
  }

  function AllHanded(cs: seq<Command>, qs: seq<nat>): (r: seq<Delivery>)
    requires |cs| == |qs|
    ensures |r| == |cs| && forall i :: 0 <= i < |cs| ==> r[i] == Handed(qs[i], cs[i])
  {
    seq(|cs|, i requires 0 <= i < |cs| => Handed(qs[i], cs[i]))
  }

  /** A reader hands every command written for another request to that request, whole and
      in order, and stops behind its own: one that names it, or none. */
  lemma {:induction false} SessionWritten(cs: seq<Command>, qs: seq<nat>, mine: Command,
                                          me: nat, target: string -> Option<nat>, rest: string)
    requires |cs| == |qs| && forall i :: 0 <= i < |cs| ==> Addressed(cs[i], qs[i], target) && qs[i] != me
    requires Fits(mine) && (Carried(mine) || Addressed(mine, me, target)) && forall c :: c in cs ==> Fits(c)
    ensures ReadUntil(Frames(cs) + (Frame(mine) + rest), me, target) ==
            Session(AllHanded(cs, qs) + [Handed(me, mine)], Complete, rest)
    decreases |cs|
  {
    hide ReadFrame, Frame, Carried, FirstValue, Slots, AllHanded, Addressed, ReadUntil;
    if cs == [] {
      assert Frames(cs) + (Frame(mine) + rest) == Frame(mine) + rest;
      SessionEnds(mine, me, target, rest);
      assert AllHanded(cs, qs) + [Handed(me, mine)] == [Handed(me, mine)];
    } else {
      var more := Frames(cs[1..]) + (Frame(mine) + rest);
      assert Frames(cs) + (Frame(mine) + rest) == Frame(cs[0]) + more;
      SessionGoesOn(cs[0], qs[0], me, target, more);
      SessionWritten(cs[1..], qs[1..], mine, me, target, rest);
      assert AllHanded(cs, qs) == [Handed(qs[0], cs[0])] + AllHanded(cs[1..], qs[1..]);
      assert [Handed(qs[0], cs[0])] + (AllHanded(cs[1..], qs[1..]) + [Handed(me, mine)]) ==
             AllHanded(cs, qs) + [Handed(me, mine)];
    }
  }

  lemma SessionEnds(mine: Command, me: nat, target: string -> Option<nat>, rest: string)
    requires Fits(mine) && (Carried(mine) || Addressed(mine, me, target))
    ensures ReadUntil(Frame(mine) + rest, me, target) == Session([Handed(me, mine)], Complete, rest)
  {
    hide ReadFrame, Frame, Fits, Parseable, EvenKeys, HasKey, FirstValue, Slots;
    if Addressed(mine, me, target) {
      ReadAddressed(mine, me, target, rest);
    } else {
      ReadWrittenFrameIff(mine, rest);
    }
  }

  lemma SessionGoesOn(c: Command, q: nat, me: nat, target: string -> Option<nat>, rest: string)
    requires Addressed(c, q, target) && q != me
    ensures
      var more := ReadUntil(rest, me, target);
      Fits(c) && ReadUntil(Frame(c) + rest, me, target) == more.(log := [Handed(q, c)] + more.log)
  {
    hide ReadFrame, Frame, Fits, Parseable, EvenKeys, HasKey, FirstValue, Slots;
    ReadAddressed(c, q, target, rest);
  }

  // ----- what the scanners compute, in their own terms

  predicate SameAt(a: string, b: string, i: nat) {
    (i < |a| <==> i < |b|) && (i < |a| && i < |b| ==> a[i] == b[i])
  }

  /** strncmp of C strings: the same bytes up to the end of both or the limit. */
  lemma SameKeyIff(a: string, b: string)
    ensures SameKey(a, b) <==> forall i :: 0 <= i < MAX_KEYLEN ==> SameAt(a, b, i)
  {
    if forall i :: 0 <= i < MAX_KEYLEN ==> SameAt(a, b, i) {
      assert |a| < MAX_KEYLEN ==> SameAt(a, b, |a|);
      assert |b| < MAX_KEYLEN ==> SameAt(a, b, |b|);
      forall i | 0 <= i < MAX_KEYLEN && i < |a| && i < |b| ensures a[i] == b[i] { assert SameAt(a, b, i); }
      if |a| < MAX_KEYLEN || |b| < MAX_KEYLEN {
        assert a == b;
      } else {
        assert a[..MAX_KEYLEN] == b[..MAX_KEYLEN];
      }
    }
    if SameKey(a, b) {
      forall i | 0 <= i < MAX_KEYLEN ensures SameAt(a, b, i) {
        if a != b { assert a[..MAX_KEYLEN][i] == b[..MAX_KEYLEN][i]; }
      }
    }
  }

  /** For a key below the limit, and all that the library looks up are, it is equality. */
  lemma SameKeyShort(k: string, x: string)
    requires |k| < MAX_KEYLEN
    ensures SameKey(k, x) <==> k == x
  {
  }

  lemma HasKeyIff(ps: seq<Pair>, k: string)
    requires |k| < MAX_KEYLEN
    ensures HasKey(ps, k) <==> exists p :: p in ps && p.key == k
  {
    hide SameKey;
    if HasKey(ps, k) {
      var i :| 0 <= i < |ps| && SameKey(k, ps[i].key);
      SameKeyShort(k, ps[i].key);
      assert ps[i] in ps;
    }
    forall p | p in ps && p.key == k ensures HasKey(ps, k) {
      var i :| 0 <= i < |ps| && ps[i] == p;
      SameKeyShort(k, ps[i].key);
    }
  }

  /** One pair is taken from a text exactly when the text is the pair, written, and a rest
      that does not begin with ';', and the pair is within the limits. */
  lemma KeyvalIff(s: string, k: string, v: string, r: string)
    ensures ParseKeyval(s) == Keyval(k, v, r) <==>
            && s == k + ("=" + (Escape(v) + (";" + r))) && Boundary(r)
            && '=' !in k && |k| <= MAX_KEYLEN && |v| <= MAX_VALLEN
  {
    hide ParseKeyval, Escape, Boundary, EncodePair;
    if ParseKeyval(s) == Keyval(k, v, r) {
      ParsedKeyval(s);
      ParsedLimits(s);
    }
    if s == k + ("=" + (Escape(v) + (";" + r))) && Boundary(r)
       && '=' !in k && |k| <= MAX_KEYLEN && |v| <= MAX_VALLEN {
      ParseEncodedPair(Pair(k, v), r);
      PairThen(Pair(k, v), r);
    }
  }

  lemma ParsedLimits(s: string)
    requires ParseKeyval(s).Keyval?
    ensures |ParseKeyval(s).key| <= MAX_KEYLEN && |ParseKeyval(s).value| <= MAX_VALLEN
  {
    hide ScanValue, IndexOf;
  }

  lemma PairThen(p: Pair, t: string)
    ensures EncodePair(p) + t == p.key + ("=" + (Escape(p.value) + (";" + t)))
  {
    hide Escape;
  }

  predicate WithinLimits(p: Pair) { |p.key| <= MAX_KEYLEN && |p.value| <= MAX_VALLEN }

  predicate AllWritable(ps: seq<Pair>) { forall i :: 0 <= i < |ps| ==> GoodKey(ps[i].key) && WithinLimits(ps[i]) }

  /** A text without NUL is parsed to pairs exactly when it is those pairs, written. */
  lemma {:induction false} ParsePairsIff(s: string, ps: seq<Pair>)
    requires '\0' !in s && Boundary(s)
    ensures ParsePairs(s) == Some(ps) <==> s == EncodePairs(ps) && AllWritable(ps)
    decreases |s|
  {
    hide ParseKeyval, Escape, EncodePairs, ParsePairs, AllWritable, Boundary;
    if s == EncodePairs(ps) && AllWritable(ps) { ParseWritable(ps); }
    if ParsePairs(s) == Some(ps) {
      ParseFirst(s, ps);
      if s != [] {
        var r := ParseKeyval(s);
        KeyvalIff(s, r.key, r.value, r.rest);
        PairThen(ps[0], r.rest);
        TailClean(s, r.key, r.rest);
        CStringClean(r.key);
        ParsePairsIff(r.rest, ps[1..]);
        WritableFirst(s, ps);
      }
    }
  }

  lemma ParseWritable(ps: seq<Pair>)
    requires AllWritable(ps)
    ensures ParsePairs(EncodePairs(ps)) == Some(ps)
  {
    hide ParsePairs, EncodePairs, GoodKey;
    forall p | p in ps ensures GoodKey(p.key) && |p.key| <= MAX_KEYLEN && |p.value| <= MAX_VALLEN {
      var i :| 0 <= i < |ps| && ps[i] == p;
    }
    ParseEncodedPairs(ps);
  }

  lemma ParseFirst(s: string, ps: seq<Pair>)
    requires ParsePairs(s) == Some(ps)
    ensures s == [] ==> ps == [] && EncodePairs(ps) == [] && AllWritable(ps)
    ensures s != [] ==>
              && ParseKeyval(s).Keyval? && ps != [] && ParsePairs(ParseKeyval(s).rest) == Some(ps[1..])
              && ps[0] == Pair(CString(ParseKeyval(s).key), ParseKeyval(s).value)
  {
    hide ParseKeyval, CString;
  }

  lemma TailClean(s: string, k: string, r: string)
    requires '\0' !in s && |k| + |r| <= |s| && s[..|k|] == k && s[|s| - |r|..] == r
    ensures '\0' !in k && '\0' !in r
  {
    assert forall i :: 0 <= i < |k| ==> k[i] == s[i];
    assert forall i :: 0 <= i < |r| ==> r[i] == s[|s| - |r| + i];
  }

  lemma WritableFirst(s: string, ps: seq<Pair>)
    requires ps != [] && Boundary(s) && s == EncodePair(ps[0]) + EncodePairs(ps[1..])
    requires '=' !in ps[0].key && '\0' !in ps[0].key && WithinLimits(ps[0]) && AllWritable(ps[1..])
    ensures s == EncodePairs(ps) && AllWritable(ps)
  {
    hide EncodePair, GoodKey, WithinLimits;
    FirstGood(ps[0], s, EncodePairs(ps[1..]));
    forall i | 0 <= i < |ps| ensures GoodKey(ps[i].key) && WithinLimits(ps[i]) {
      if i > 0 { assert ps[1..][i - 1] == ps[i]; }
    }
  }

  lemma FirstGood(p: Pair, s: string, t: string)
    requires Boundary(s) && s == EncodePair(p) + t && '=' !in p.key && '\0' !in p.key
    ensures GoodKey(p.key)
  {
    hide Escape;
    assert p.key != [] ==> p.key[0] == s[0];
  }

  /** A body without NUL is a command exactly when it is the pair cmd and the command's
      pairs, written. */
  lemma ParseBodyIff(s: string, c: Command)
    requires '\0' !in s
    ensures ParseBody(s) == Some(c) <==>
            s == "cmd" + ("=" + (Escape(c.name) + (";" + EncodePairs(c.pairs)))) &&
            |c.name| <= MAX_VALLEN && AllWritable(c.pairs)
  {
    hide ParseKeyval, ParsePairs, Escape, EncodePairs, AllWritable;
    var t := EncodePairs(c.pairs);
    if ParseBody(s) == Some(c) {
      var r := ParseKeyval(s);
      KeyvalIff(s, r.key, r.value, r.rest);
      TailClean(s, r.key, r.rest);
      CStringClean(r.key);
      ParsePairsIff(r.rest, c.pairs);
    }
    if s == "cmd" + ("=" + (Escape(c.name) + (";" + t))) && |c.name| <= MAX_VALLEN && AllWritable(c.pairs) {
      WritableBoundary(c.pairs);
      KeyvalIff(s, "cmd", c.name, t);
      TailClean(s, "cmd", t);
      CStringClean("cmd");
      ParsePairsIff(t, c.pairs);
    }
  }

  lemma WritableBoundary(ps: seq<Pair>)
    requires AllWritable(ps)
    ensures Boundary(EncodePairs(ps))
  {
    hide EncodePairs, GoodKey, WithinLimits;
    forall p | p in ps ensures GoodKey(p.key) {
      var i :| 0 <= i < |ps| && ps[i] == p;
    }
    EncodedBoundary(ps);
  }

  /** The counting pass, by the first ';' of a text: a single one ends a pair, a double one
      does not, and a text without any is one pair unless it is empty. */
  lemma {:induction false} CountLaws(k: string, t: string)
    requires ';' !in k
    ensures CountPairs(k) == if k == [] then 0 else 1
    ensures Boundary(t) ==> CountPairs(k + (";" + t)) == 1 + CountPairs(t)
    ensures CountPairs(k + (";;" + t)) == CountPairs(t)
  {
    if k == [] {
      assert k + (";" + t) == ";" + t && (";" + t)[1..] == t;
      assert k + (";;" + t) == ";;" + t && (";;" + t)[2..] == t;
    } else {
      CountLaws(k[1..], t);
      assert (k + (";" + t))[1..] == k[1..] + (";" + t);
      assert (k + (";;" + t))[1..] == k[1..] + (";;" + t);
    }
  }

  /** What the length in the header decides: below 0 it is used as a size all the same, 0 or
      more than there is fails, and else it is the length of the body. */
  lemma ReadFrameLength(n: int, t: string)
    requires |Signed(n)| <= COMMANDLEN_SIZE
    ensures
      var s := Signed(n) + Spaces(COMMANDLEN_SIZE - |Signed(n)|) + t;
      ReadFrame(s) == if n < 0 then Undefined else if n == 0 || |t| < n then Failed else ReadBody(t[..n], t[n..])
  {
    hide ReadBody, Signed, Atoi;
    var pad := Spaces(COMMANDLEN_SIZE - |Signed(n)|);
    var s := Signed(n) + pad + t;
    assert s[..COMMANDLEN_SIZE] == Signed(n) + pad && s[COMMANDLEN_SIZE..] == t;
    AtoiSigned(n, pad);
  }

  /** A frame that has not arrived in full is not read. */
  lemma TruncatedFrameFails(c: Command, n: nat)
    requires Fits(c) && n < |Frame(c)|
    ensures ReadFrame(Frame(c)[..n]) == Failed
  {
    hide ReadBody, Body, Fits, Decimal, Atoi;
    FrameShape(c);
    var s, b := Frame(c)[..n], Body(c);
    FitsHeader(|b|);
    if n >= COMMANDLEN_SIZE {
      assert s[..COMMANDLEN_SIZE] == Header(|b|);
      AtoiDecimal(|b|, Spaces(COMMANDLEN_SIZE - |Decimal(|b|)|));
    }
  }

  /** The bytes of one command, written out. */
  lemma SampleFrame()
    ensures
      var c := Command("put", [Pair("a", "b;c")]);
      Fits(c) && Frame(c) == "15    cmd=put;a=b;;c;"
  {
    hide Decimal, Body;
    SampleBody();
    SampleNumber();
    var c := Command("put", [Pair("a", "b;c")]);
    assert forall p :: p in c.pairs ==> p == c.pairs[0];
    assert Spaces(4) == "    ";
  }

  lemma SampleBody()
    ensures Body(Command("put", [Pair("a", "b;c")])) == "cmd=put;a=b;;c;"
  {
    hide Escape, EncodePair;
    SamplePair();
    var ps := [Pair("a", "b;c")];
    assert ps[1..] == [] && EncodePairs([]) == [];
    assert EncodePairs(ps) == "a=b;;c;" + [] == "a=b;;c;";
  }

  lemma SamplePair()
    ensures EncodePair(Pair("a", "b;c")) == "a=b;;c;"
  {
    hide Escape;
    SampleEscape();
  }

  lemma SampleEscape()
    ensures Escape("b;c") == "b;;c"
  {
    assert "b;c"[1..] == ";c" && ";c"[1..] == "c" && "c"[1..] == "";
    assert Escape("c") == "c" && Escape(";c") == ";;c";
  }

  lemma SampleNumber()
    ensures Decimal(15) == "15"
  {
    assert Decimal(1) == "1" && DigitChar(5) == '5';
  }
}

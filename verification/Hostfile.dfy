/** slurm_read_hostfile in src/api/allocate.c: a hostfile of comma-separated names, each
    with an optional repeat count, expanded up to a number of hosts. */
module Hostfile {
  import opened CText

  // ----- one line

  /** strtok with the delimiter ',': the non-empty pieces between commas. */
  function Tokens(s: string): seq<string>
    decreases |s|
  {
    if s == [] then []
    else
      var e := IndexOf(s, ',');
      (if e == 0 then [] else [s[..e]]) + if e < |s| then Tokens(s[e + 1..]) else []
  }

  function Repeat(h: string, n: nat): (r: seq<string>)
    ensures |r| == n && forall i :: 0 <= i < n ==> r[i] == h
  {
    seq(n, _ => h)
  }

  /** The repeat count after an asterisk; 0 when there is none or it is not a number. */
  function Count(tok: string): int {
    var a := IndexOf(tok, '*');
    if a < |tok| then Atoi(tok[a + 1..]) else 0
  }

  /** The hosts of one token: name*count stands for count copies of name. */
  function ExpandToken(tok: string): seq<string> {
    var n := Count(tok);
    if n != 0 then Repeat(tok[..IndexOf(tok, '*')], if n > 0 then n else 0) else [tok]
  }

  function ExpandTokens(ts: seq<string>): seq<string> {
    if ts == [] then [] else ExpandToken(ts[0]) + ExpandTokens(ts[1..])
  }

  /** Tokens do not cross a comma: splitting at any comma splits the tokens, and a text
      without one is a token, unless it is empty. */
  lemma {:induction false} TokensSplit(a: string, b: string)
    ensures Tokens(a + ("," + b)) == Tokens(a) + Tokens(b)
    ensures ',' !in a ==> Tokens(a) == if a == [] then [] else [a]
    decreases |a|
  {
    hide IndexOf, Tokens;
    TokensFirst(a);
    TokensFirst(a + ("," + b));
    IndexOfPrefix(a, b);
    var s, e := a + ("," + b), IndexOf(a, ',');
    if e == |a| {
      assert a[..e] == a && s[..e] == a && s[e + 1..] == b;
      assert Tokens(a) == Piece(a) + [] == Piece(a);
    } else {
      assert s[e + 1..] == a[e + 1..] + ("," + b) && s[..e] == a[..e] && a[e] == ',';
      TokensSplit(a[e + 1..], b);
      var t, u, w := Piece(a[..e]), Tokens(a[e + 1..]), Tokens(b);
      assert t + (u + w) == (t + u) + w;
    }
  }

  function Piece(t: string): seq<string> { if t == [] then [] else [t] }

  lemma IndexOfPrefix(a: string, b: string)
    ensures IndexOf(a + ("," + b), ',') == IndexOf(a, ',')
  {
    hide IndexOf;
    var s, e := a + ("," + b), IndexOf(a, ',');
    assert s[e] == ',';
    assert forall j :: 0 <= j < e ==> s[j] == a[j];
  }

  lemma TokensFirst(s: string)
    ensures
      var e := IndexOf(s, ',');
      Tokens(s) == Piece(s[..e]) + if e < |s| then Tokens(s[e + 1..]) else []
  {
    hide IndexOf;
    if s == [] { assert Tokens(s) == []; }
  }

  /** What a token stands for: name*n is n copies of the name, none of them when n is
      negative; when n is 0 or no number, or without '*', it is the token itself. */
  lemma ExpandTokenIs(name: string, n: int, rest: string)
    requires '*' !in name && (rest == [] || !IsDigit(rest[0]))
    ensures
      var tok := name + ("*" + (Signed(n) + rest));
      ExpandToken(tok) == if n > 0 then Repeat(name, n) else if n < 0 then [] else [tok]
    ensures ExpandToken(name) == [name]
    ensures Atoi(rest) == 0 ==> ExpandToken(name + ("*" + rest)) == [name + ("*" + rest)]
  {
    hide IndexOf, Atoi, Decimal;
    CountIs(name, Signed(n) + rest);
    CountIs(name, rest);
    AtoiSigned(n, rest);
    assert IndexOf(name, '*') == |name|;
  }

  lemma CountIs(name: string, rest: string)
    requires '*' !in name
    ensures
      var tok := name + ("*" + rest);
      IndexOf(tok, '*') == |name| && tok[..|name|] == name && Count(tok) == Atoi(rest)
  {
    hide IndexOf, Atoi;
    var tok := name + ("*" + rest);
    assert tok[|name|] == '*' && tok[|name| + 1..] == rest;
    assert forall j :: 0 <= j < |name| ==> tok[j] == name[j];
  }

  predicate IsAlnum(c: char) { '0' <= c <= '9' || 'a' <= c <= 'z' || 'A' <= c <= 'Z' }

  /** The letters and digits of the C locale: the ends of their ranges, and no neighbours. */
  lemma AlnumEnds()
    ensures IsAlnum('0') && IsAlnum('9') && IsAlnum('a') && IsAlnum('z') && IsAlnum('A') && IsAlnum('Z')
    ensures !IsAlnum('/') && !IsAlnum(':') && !IsAlnum('`') && !IsAlnum('{') && !IsAlnum('@') && !IsAlnum('[')
  {
  }

  predicate BadLine(line: string) { line != "" && !IsAlnum(line[0]) }

  // ----- the whole file

  /** All hosts of the lines before the first bad one. */
  function ExpandLines(lines: seq<string>): seq<string> {
    if lines == [] || BadLine(lines[0]) then [] else ExpandTokens(Tokens(lines[0])) + ExpandLines(lines[1..])
  }

  /** The hosts of a file are those of its lines in order, up to a bad line. */
  lemma {:induction false} ExpandLinesConcat(ls: seq<string>, ms: seq<string>)
    ensures ExpandLines(ls + ms) == ExpandLines(ls) + if AnyBad(ls) then [] else ExpandLines(ms)
    ensures forall l :: ExpandLines([l]) == if BadLine(l) then [] else ExpandTokens(Tokens(l))
  {
    hide ExpandTokens, Tokens, BadLine;
    forall l ensures ExpandLines([l]) == if BadLine(l) then [] else ExpandTokens(Tokens(l)) {
      assert [l][1..] == [];
    }
    if ls == [] {
      assert ls + ms == ms;
    } else {
      assert (ls + ms)[1..] == ls[1..] + ms;
      ExpandLinesConcat(ls[1..], ms);
      assert AnyBad(ls) <==> BadLine(ls[0]) || AnyBad(ls[1..]) by {
        if AnyBad(ls[1..]) {
          var i :| 0 <= i < |ls| - 1 && BadLine(ls[1..][i]);
          assert BadLine(ls[i + 1]);
        }
        if AnyBad(ls) && !BadLine(ls[0]) {
          var i :| 0 <= i < |ls| && BadLine(ls[i]);
          assert BadLine(ls[1..][i - 1]);
        }
      }
    }
  }

  lemma {:induction false} ExpandTokensConcat(ts: seq<string>, us: seq<string>)
    ensures ExpandTokens(ts + us) == ExpandTokens(ts) + ExpandTokens(us)
  {
    hide ExpandToken;
    if ts == [] {
      assert ts + us == us;
    } else {
      assert (ts + us)[1..] == ts[1..] + us;
      ExpandTokensConcat(ts[1..], us);
    }
  }

  predicate AnyBad(lines: seq<string>) { exists i :: 0 <= i < |lines| && BadLine(lines[i]) }

  function Min(a: int, b: int): int { if a < b then a else b }

  /** The first n of a list, or all of it. */
  function First(s: seq<string>, n: nat): (r: seq<string>)
    ensures r <= s && |r| <= n && (|r| == |s| || |r| == n)
  {
    if |s| < n then s else s[..n]
  }

  // ----- a limit that is not positive

  /** The tokens without a repeat count. */
  function Plain(ts: seq<string>): seq<string> {
    if ts == [] then [] else (if Count(ts[0]) == 0 then [ts[0]] else []) + Plain(ts[1..])
  }

  function PlainLines(lines: seq<string>): seq<string> {
    if lines == [] || BadLine(lines[0]) then [] else Plain(Tokens(lines[0])) + PlainLines(lines[1..])
  }

  predicate RepeatedHead(ts: seq<string>) { ts != [] && Count(ts[0]) != 0 }

  /** The first token of the file has a repeat count. */
  predicate FirstRepeated(lines: seq<string>) {
    lines != [] && if lines[0] == "" then FirstRepeated(lines[1..]) else RepeatedHead(Tokens(lines[0]))
  }

  /** The hosts that slurm_read_hostfile takes from a file. No limit (NO_VAL) gives every
      host; a positive one exactly that many, or nothing when the file has fewer; for the
      others, and --nodefile passes 0, there is never room for a repeated host. */
  function Hosts(lines: seq<string>, limit: Option<int>): Option<seq<string>> {
    match limit
    case None => if AnyBad(lines) || ExpandLines(lines) == [] then None else Some(ExpandLines(lines))
    case Some(n) =>
      if n >= 1 then if |ExpandLines(lines)| >= n then Some(ExpandLines(lines)[..n]) else None
      else if AnyBad(lines) || PlainLines(lines) == [] || (n == 0 && FirstRepeated(lines)) then None
      else Some(PlainLines(lines))
  }

  /** The hosts of one line on top of those read so far. */
  function LineHosts(ts: seq<string>, limit: Option<int>, before: seq<string>): seq<string> {
    match limit
    case None => before + ExpandTokens(ts)
    case Some(n) =>
      if n >= 1 then First(before + ExpandTokens(ts), n)
      else if n == 0 && before == [] && RepeatedHead(ts) then []
      else before + Plain(ts)
  }

  // ----- the size of the buffer for the result

  /** What is left of a number in a 32-bit int. */
  function Wrap(x: int): (r: int)
    ensures -0x8000_0000 <= r < 0x8000_0000 && (x - r) % 0x1_0000_0000 == 0
  {
    (x + 0x8000_0000) % 0x1_0000_0000 - 0x8000_0000
  }

  lemma WrapAdd(a: int, b: int)
    ensures Wrap(Wrap(a) + b) == Wrap(a + b)
  {
  }

  function Name(tok: string): string { tok[..IndexOf(tok, '*')] }

  /** The bytes total_file_len gets for one token: as many names as it repeats, or as there
      is room for, which can be less than none. */
  function TokenBytes(tok: string, limit: Option<int>, have: nat): int {
    var n := Count(tok);
    if n == 0 then 0 else |Name(tok)| * if limit.None? then n else Min(n, limit.value - have)
  }

  predicate Reached(limit: Option<int>, hosts: seq<string>) { limit == Some(|hosts|) }

  function LineBytes(ts: seq<string>, limit: Option<int>, before: seq<string>): int
    decreases |ts|
  {
    if ts == [] then 0
    else
      var now := LineHosts([ts[0]], limit, before);
      TokenBytes(ts[0], limit, |before|) + if Reached(limit, now) then 0 else LineBytes(ts[1..], limit, now)
  }

  /** The bytes of the lines read and of their tokens, up to the limit or a bad line. */
  function FileBytes(lines: seq<string>, limit: Option<int>, before: seq<string>): int
    decreases |lines|
  {
    if lines == [] || BadLine(lines[0]) then 0
    else if lines[0] == "" then FileBytes(lines[1..], limit, before)
    else
      var ts := Tokens(lines[0]);
      var now := LineHosts(ts, limit, before);
      |lines[0]| + LineBytes(ts, limit, before) + if Reached(limit, now) then 0 else FileBytes(lines[1..], limit, now)
  }

  function Size(lines: seq<string>, limit: Option<int>): int { Wrap(FileBytes(lines, limit, []) + 1024) }

  /** What slurm_read_hostfile gives for a file: the hosts, when their ranged text, of
      width(hosts) bytes and a NUL, has room in the buffer. A negative size is more than
      malloc can give. */
  function Outcome(lines: seq<string>, limit: Option<int>, width: seq<string> -> nat): Option<seq<string>> {
    match Hosts(lines, limit)
    case None => None
    case Some(hs) => if width(hs) < Size(lines, limit) then Some(hs) else None
  }

  // ----- a limit of 0 against no limit

  predicate SomePositive(ts: seq<string>) { ts != [] && (Count(ts[0]) > 0 || SomePositive(ts[1..])) }

  predicate AnyPositive(lines: seq<string>) {
    lines != [] && (SomePositive(Tokens(lines[0])) || AnyPositive(lines[1..]))
  }

  lemma {:induction false} PlainExpands(ts: seq<string>)
    ensures !SomePositive(ts) ==> Plain(ts) == ExpandTokens(ts)
    ensures |Plain(ts)| <= |ExpandTokens(ts)|
    ensures SomePositive(ts) ==> |Plain(ts)| < |ExpandTokens(ts)|
  {
    hide IndexOf, Atoi;
    if ts != [] { PlainExpands(ts[1..]); }
  }

  lemma {:induction false} PlainLinesExpand(lines: seq<string>)
    requires !AnyBad(lines)
    ensures !AnyPositive(lines) ==> PlainLines(lines) == ExpandLines(lines)
    ensures |PlainLines(lines)| <= |ExpandLines(lines)|
    ensures AnyPositive(lines) ==> |PlainLines(lines)| < |ExpandLines(lines)|
  {
    hide Tokens, Plain, ExpandTokens, SomePositive, BadLine;
    if lines != [] {
      assert !BadLine(lines[0]);
      assert !AnyBad(lines[1..]) by {
        assert forall i :: 0 <= i < |lines| - 1 ==> lines[1..][i] == lines[i + 1];
      }
      PlainExpands(Tokens(lines[0]));
      PlainLinesExpand(lines[1..]);
    }
  }

  /** A limit of 0 gives the same as no limit exactly when there is a bad line, or when
      both or neither get past the checks on the number of hosts and the size of their
      text, and, if they do, no token has a positive repeat count. */
  lemma ZeroLimitIff(lines: seq<string>, width: seq<string> -> nat)
    ensures
      var zero := PlainLines(lines) != [] && !FirstRepeated(lines) && width(PlainLines(lines)) < Size(lines, Some(0));
      var all := ExpandLines(lines) != [] && width(ExpandLines(lines)) < Size(lines, None);
      Outcome(lines, Some(0), width) == Outcome(lines, None, width) <==>
        AnyBad(lines) || ((zero <==> all) && (zero ==> !AnyPositive(lines)))
  {
    hide PlainLines, ExpandLines, AnyPositive, FirstRepeated, AnyBad, Size;
    if !AnyBad(lines) { PlainLinesExpand(lines); }
  }

  predicate NoneNegative(ts: seq<string>) { forall i :: 0 <= i < |ts| ==> Count(ts[i]) >= 0 }

  predicate NoNegative(lines: seq<string>) { forall i :: 0 <= i < |lines| ==> NoneNegative(Tokens(lines[i])) }

  /** Without negative counts and with a limit that is not one of the odd ones, the size
      only grows. */
  lemma {:induction false} FileBytesGrow(lines: seq<string>, limit: Option<int>, before: seq<string>)
    requires NoNegative(lines) && Room(limit, before) && (limit.Some? ==> limit.value >= 1)
    ensures FileBytes(lines, limit, before) >= 0
    decreases |lines|
  {
    hide Tokens, LineHosts, LineBytes, NoneNegative, BadLine;
    if lines != [] {
      assert NoNegative(lines[1..]);
      var ts := Tokens(lines[0]);
      LineBytesGrow(ts, limit, before);
      LineRoom(ts, limit, before);
      if lines[0] == "" {
        FileBytesGrow(lines[1..], limit, before);
      } else if !Reached(limit, LineHosts(ts, limit, before)) {
        FileBytesGrow(lines[1..], limit, LineHosts(ts, limit, before));
      }
    }
  }

  /** So a file is then never lost to a size that is negative or below 1024, short of two
      thousand million bytes. */
  lemma SizeGrows(lines: seq<string>, limit: Option<int>)
    requires NoNegative(lines) && (limit.Some? ==> limit.value >= 1)
    ensures FileBytes(lines, limit, []) + 1024 < 0x8000_0000 ==>
              Size(lines, limit) == FileBytes(lines, limit, []) + 1024 >= 1024
  {
    hide FileBytes, NoNegative;
    FileBytesGrow(lines, limit, []);
  }

  lemma {:induction false} LineBytesGrow(ts: seq<string>, limit: Option<int>, before: seq<string>)
    requires NoneNegative(ts) && Room(limit, before) && (limit.Some? ==> limit.value >= 1)
    ensures LineBytes(ts, limit, before) >= 0
    decreases |ts|
  {
    hide Count, LineHosts, TokenBytes;
    if ts != [] {
      var now := LineHosts([ts[0]], limit, before);
      TokenBytesGrow(ts[0], limit, |before|);
      LineRoom([ts[0]], limit, before);
      if !Reached(limit, now) { LineBytesGrow(ts[1..], limit, now); }
    }
  }

  lemma TokenBytesGrow(tok: string, limit: Option<int>, have: nat)
    requires Count(tok) >= 0 && (limit.Some? ==> have <= limit.value)
    ensures TokenBytes(tok, limit, have) >= 0
  {
    hide Count, IndexOf;
    var copies := if limit.None? then Count(tok) else Min(Count(tok), limit.value - have);
    Times(|Name(tok)|, copies);
  }

  lemma {:induction false} Times(a: nat, b: nat)
    ensures a * b >= 0
  {
  }

  lemma LineRoom(ts: seq<string>, limit: Option<int>, before: seq<string>)
    requires Room(limit, before) && (limit.Some? ==> limit.value >= 1)
    ensures !Reached(limit, LineHosts(ts, limit, before)) ==> Room(limit, LineHosts(ts, limit, before))
  {
    hide ExpandTokens, Plain;
  }

  predicate NoneRepeated(ts: seq<string>) { forall i :: 0 <= i < |ts| ==> Count(ts[i]) == 0 }

  predicate NoRepeats(lines: seq<string>) { forall i :: 0 <= i < |lines| ==> NoneRepeated(Tokens(lines[i])) }

  /** A file without negative counts that can be read without a limit is read alike with a
      limit of 0 exactly when it has no repeat count at all. */
  lemma ZeroLimitPlainIff(lines: seq<string>, width: seq<string> -> nat)
    requires NoNegative(lines)
    ensures Outcome(lines, None, width).Some? ==>
              (Outcome(lines, Some(0), width) == Outcome(lines, None, width) <==> NoRepeats(lines))
  {
    hide PlainLines, ExpandLines, AnyPositive, FirstRepeated, AnyBad, Size, NoRepeats, NoNegative;
    ZeroLimitIff(lines, width);
    if !AnyBad(lines) { PlainLinesExpand(lines); }
    PositiveIff(lines);
    if NoRepeats(lines) {
      NotRepeated(lines);
      SameSize(lines);
    }
  }

  lemma {:induction false} PositiveIff(lines: seq<string>)
    requires NoNegative(lines)
    ensures AnyPositive(lines) <==> !NoRepeats(lines)
  {
    hide Tokens, NoneNegative, NoneRepeated, SomePositive;
    if lines != [] {
      assert NoNegative(lines[1..]);
      PositiveIff(lines[1..]);
      SomePositiveIff(Tokens(lines[0]));
      assert NoRepeats(lines) <==> NoneRepeated(Tokens(lines[0])) && NoRepeats(lines[1..]) by {
        if NoneRepeated(Tokens(lines[0])) && NoRepeats(lines[1..]) {
          forall i | 0 <= i < |lines| ensures NoneRepeated(Tokens(lines[i])) {
            if i > 0 { assert lines[1..][i - 1] == lines[i]; }
          }
        }
      }
    }
  }

  lemma {:induction false} SomePositiveIff(ts: seq<string>)
    requires NoneNegative(ts)
    ensures SomePositive(ts) <==> !NoneRepeated(ts)
  {
    hide Count;
    if ts != [] {
      SomePositiveIff(ts[1..]);
      assert ts == [ts[0]] + ts[1..];
      if NoneRepeated(ts[1..]) && Count(ts[0]) == 0 {
        forall i | 0 <= i < |ts| ensures Count(ts[i]) == 0 {
          if i > 0 { assert ts[1..][i - 1] == ts[i]; }
        }
      }
    }
  }

  lemma {:induction false} NotRepeated(lines: seq<string>)
    requires NoRepeats(lines)
    ensures !FirstRepeated(lines)
  {
    hide Tokens, Count;
    if lines != [] {
      assert NoRepeats(lines[1..]);
      NotRepeated(lines[1..]);
      assert NoneRepeated(Tokens(lines[0]));
    }
  }

  lemma SameSize(lines: seq<string>)
    requires NoRepeats(lines)
    ensures Size(lines, Some(0)) == Size(lines, None)
  {
    hide FileBytes, NoRepeats, Wrap;
    SameFileBytes(lines, Some(0), []);
    SameFileBytes(lines, None, []);
  }

  /** Without repeat counts the size is that of the lines, whatever the limit. */
  lemma {:induction false} SameFileBytes(lines: seq<string>, limit: Option<int>, before: seq<string>)
    requires NoRepeats(lines) && (limit.Some? ==> limit.value == 0)
    ensures FileBytes(lines, limit, before) == LinesLength(lines)
    decreases |lines|
  {
    hide Tokens, LineHosts, LineBytes, NoneRepeated, BadLine, IsAlnum;
    if lines != [] {
      assert NoRepeats(lines[1..]);
      var ts := Tokens(lines[0]);
      if lines[0] == "" {
        SameFileBytes(lines[1..], limit, before);
      } else if !BadLine(lines[0]) {
        assert NoneRepeated(ts);
        SomeToken(lines[0]);
        PlainLine(ts, limit, before);
        SameFileBytes(lines[1..], limit, LineHosts(ts, limit, before));
      }
    }
  }

  /** The bytes of the lines before the first bad one. */
  function LinesLength(lines: seq<string>): nat {
    if lines == [] || BadLine(lines[0]) then 0 else |lines[0]| + LinesLength(lines[1..])
  }

  lemma {:induction false} PlainLine(ts: seq<string>, limit: Option<int>, before: seq<string>)
    requires NoneRepeated(ts) && (limit.Some? ==> limit.value == 0)
    ensures LineBytes(ts, limit, before) == 0
    ensures ts != [] ==> !Reached(limit, LineHosts(ts, limit, before))
    decreases |ts|
  {
    hide Count, ExpandTokens, ExpandToken;
    if ts != [] {
      OneToken(ts[0]);
      PlainLine(ts[1..], limit, LineHosts([ts[0]], limit, before));
    }
  }

  // ----- files on which the two differ

  /** With a limit of 0 the file "a,b*2" has one host instead of three. */
  lemma ZeroLimitDropsRepeats(width: seq<string> -> nat)
    requires width(["a"]) < 1028 && width(["a", "b", "b"]) < 1031
    ensures Outcome(["a,b*2"], Some(0), width) == Some(["a"])
    ensures Outcome(["a,b*2"], None, width) == Some(["a", "b", "b"])
  {
    hide Hosts, Size;
    SampleHosts();
    SampleSizes();
  }

  lemma SampleHosts()
    ensures Hosts(["a,b*2"], Some(0)) == Some(["a"]) && Hosts(["a,b*2"], None) == Some(["a", "b", "b"])
  {
    hide IndexOf, Atoi, Tokens, Count, ExpandTokens, Plain;
    SampleTokens();
    SampleLine();
    assert ["a,b*2"][1..] == [];
    assert ExpandLines(["a,b*2"]) == ["a", "b", "b"] + [] == ["a", "b", "b"];
    assert PlainLines(["a,b*2"]) == ["a"] + [] == ["a"];
  }

  lemma SampleLine()
    ensures ExpandTokens(["a", "b*2"]) == ["a", "b", "b"] && Plain(["a", "b*2"]) == ["a"]
  {
    hide IndexOf, Atoi, Count, ExpandToken;
    SampleTokens();
    assert ["a", "b*2"][1..] == ["b*2"] && ["b*2"][1..] == [];
    assert ExpandTokens(["b*2"]) == ["b", "b"] && Plain(["b*2"]) == [];
  }

  lemma SampleSizes()
    ensures Size(["a,b*2"], Some(0)) == 1028 && Size(["a,b*2"], None) == 1031
  {
    hide IndexOf, Atoi, Tokens, Count, LineHosts, LineBytes;
    SampleTokens();
    SampleBytes();
    assert ["a,b*2"][1..] == [];
  }

  lemma SampleBytes()
    ensures LineBytes(["a", "b*2"], Some(0), []) == -1 && LineBytes(["a", "b*2"], None, []) == 2
  {
    hide IndexOf, Atoi, Tokens, Count, ExpandToken;
    SampleTokens();
    OneToken("a");
    assert ["a", "b*2"][1..] == ["b*2"] && ["b*2"][1..] == [] && [] + ["a"] == ["a"];
    assert LineHosts(["a"], Some(0), []) == ["a"] && LineHosts(["a"], None, []) == ["a"];
    assert TokenBytes("b*2", Some(0), 1) == -1 && TokenBytes("b*2", None, 1) == 2;
    assert LineBytes(["b*2"], Some(0), ["a"]) == -1 && LineBytes(["b*2"], None, ["a"]) == 2;
  }

  lemma SampleTokens()
    ensures Tokens("a,b*2") == ["a", "b*2"] && ExpandToken("a") == ["a"] && ExpandToken("b*2") == ["b", "b"]
    ensures Count("a") == 0 && Count("b*2") == 2 && Name("b*2") == "b"
  {
    assert IndexOf("a,b*2", ',') == 1 && "a,b*2"[..1] == "a" && "a,b*2"[2..] == "b*2" && "b*2"[..3] == "b*2";
    assert IndexOf("b*2", ',') == 3 && IndexOf("b*2", '*') == 1 && "b*2"[2..] == "2" && "b*2"[..1] == "b";
    assert IndexOf("a", '*') == 1 && "2"[1..] == "";
    assert Atoi("2") == 2;
  }

  /** k lines with the plain host "n", and one more. */
  function LongFile(k: nat, last: string): seq<string> { Repeat("n", k) + [last] }

  /** Many plain hosts and then one repeated name of eight bytes: with a limit of 0 that
      name takes eight bytes off the size for each plain host, whatever its count is, and
      the file is lost. So it is also where the count is negative and adds no host. */
  lemma ZeroLimitLosesFile(k: nat, width: seq<string> -> nat)
    requires 148 <= k <= 1000000 && width(Repeat("n", k)) < 1024
    ensures
      var lines := LongFile(k, "longname*2");
      Hosts(lines, Some(0)) == Some(Repeat("n", k)) && Outcome(lines, Some(0), width) == None
    ensures
      var lines := LongFile(k, "longname*-1");
      Outcome(lines, Some(0), width) == None && Outcome(lines, None, width) == Some(Repeat("n", k))
  {
    hide IndexOf, Atoi, Tokens, Count, ExpandToken, LongFile, FileBytes, ExpandLines, PlainLines, FirstRepeated, AnyBad;
    SampleTail();
    LongBytes(k, "longname*2", Some(0), []);
    LongBytes(k, "longname*-1", Some(0), []);
    LongBytes(k, "longname*-1", None, []);
    LongHosts(k, "longname*2");
    LongHosts(k, "longname*-1");
    assert Repeat("n", k) != [];
  }

  predicate Tail(last: string) {
    Tokens(last) == [last] && Count(last) != 0 && |Name(last)| == 8 && last != "" && !BadLine(last)
  }

  lemma SampleTail()
    ensures Tail("longname*2") && Count("longname*2") == 2 && |"longname*2"| == 10
    ensures Tail("longname*-1") && Count("longname*-1") == -1 && |"longname*-1"| == 11
  {
    hide IndexOf, Atoi;
    SampleCounts();
    TailIs("longname*2");
    TailIs("longname*-1");
  }

  lemma SampleCounts()
    ensures Atoi("2") == 2 && Atoi("-1") == -1
  {
    assert "2"[1..] == "" && "-1"[1..] == "1" && "1"[1..] == "";
    assert DigitsValue("1", 0) == DigitsValue("", 1) == 1;
    assert DigitsValue("2", 0) == DigitsValue("", 2) == 2;
  }

  lemma TailIs(last: string)
    requires |last| > 9 && last[8] == '*' && Atoi(last[9..]) != 0 && ',' !in last && IsAlnum(last[0])
    requires forall i :: 0 <= i < 8 ==> last[i] != '*'
    ensures Tail(last) && Count(last) == Atoi(last[9..])
  {
    hide Atoi, IndexOf;
    assert IndexOf(last, '*') == 8 && IndexOf(last, ',') == |last|;
    assert last[..|last|] == last;
  }

  lemma PlainN()
    ensures Tokens("n") == ["n"] && Count("n") == 0 && !BadLine("n") && ExpandToken("n") == ["n"]
  {
    assert IndexOf("n", ',') == 1 && IndexOf("n", '*') == 1 && "n"[..1] == "n";
  }

  lemma {:induction false} LongBytes(k: nat, last: string, limit: Option<int>, before: seq<string>)
    requires Tail(last) && |before| + k >= 1 && (limit.Some? ==> limit.value == 0)
    ensures FileBytes(LongFile(k, last), limit, before) ==
            k + |last| + 8 * if limit.None? then Count(last) else Min(Count(last), 0 - (|before| + k))
    decreases k
  {
    hide IndexOf, Atoi, Tokens, Count, ExpandToken, BadLine, Name;
    if k == 0 {
      assert LongFile(0, last) == [last] && [last][1..] == [];
      assert LineBytes([last], limit, before) == TokenBytes(last, limit, |before|);
    } else {
      PlainN();
      OneToken("n");
      assert LongFile(k, last)[1..] == LongFile(k - 1, last) && LongFile(k, last)[0] == "n";
      assert LineHosts(["n"], limit, before) == before + ["n"];
      assert ["n"][1..] == [] && LineBytes(["n"], limit, before) == 0;
      LongBytes(k - 1, last, limit, before + ["n"]);
    }
  }

  lemma {:induction false} LongHosts(k: nat, last: string)
    requires Tail(last)
    ensures !AnyBad(LongFile(k, last)) && PlainLines(LongFile(k, last)) == Repeat("n", k)
    ensures Count(last) < 0 ==> ExpandLines(LongFile(k, last)) == Repeat("n", k)
    ensures k >= 1 ==> !FirstRepeated(LongFile(k, last))
    decreases k
  {
    hide IndexOf, Atoi, Tokens, Count, BadLine;
    PlainN();
    OneToken("n");
    OneToken(last);
    if k == 0 {
      assert LongFile(0, last) == [last] && [last][1..] == [];
      assert Repeat("n", 0) == [];
    } else {
      LongHosts(k - 1, last);
      assert LongFile(k, last)[1..] == LongFile(k - 1, last) && LongFile(k, last)[0] == "n";
      assert Repeat("n", k) == ["n"] + Repeat("n", k - 1);
    }
  }

  // ----- the code

  predicate Room(limit: Option<int>, hosts: seq<string>) {
    limit.Some? && limit.value >= 1 ==> |hosts| < limit.value
  }

  /** Lines 1334-1362: the hosts of one line and their bytes. */
  method ReadLine(line: string, limit: Option<int>, before: seq<string>, had: int)
    returns (hosts: seq<string>, total: int)
    requires Room(limit, before)
    ensures hosts == LineHosts(Tokens(line), limit, before)
    ensures Wrap(total) == Wrap(had + LineBytes(Tokens(line), limit, before))
  {
    hide Tokens, ExpandToken, LineHosts, RepeatedHead, LineBytes, Wrap, TokenBytes;
    var ts := Tokens(line);
    hosts, total := before, had;
    LineStart(ts, limit, before);
    for k := 0 to |ts|
      invariant Room(limit, hosts)
      invariant LineHosts(ts[k..], limit, hosts) == LineHosts(ts, limit, before)
      invariant Wrap(total + LineBytes(ts[k..], limit, hosts)) == Wrap(had + LineBytes(ts, limit, before))
    {
      ghost var was, sum := hosts, total;
      hosts, total := PushToken(ts[k], limit, hosts, total);
      LineTurn(ts, k, limit, was, hosts);
      BytesTurn(ts, k, limit, was, sum, total);
      if limit.Some? && |hosts| == limit.value { return; }
    }
    LineEnd(ts[|ts|..], limit, hosts);
  }

  lemma LineStart(ts: seq<string>, limit: Option<int>, before: seq<string>)
    ensures LineHosts(ts[0..], limit, before) == LineHosts(ts, limit, before)
    ensures LineBytes(ts[0..], limit, before) == LineBytes(ts, limit, before)
  {
    assert ts[0..] == ts;
  }

  lemma LineEnd(ts: seq<string>, limit: Option<int>, hosts: seq<string>)
    requires ts == [] && Room(limit, hosts)
    ensures LineHosts(ts, limit, hosts) == hosts && LineBytes(ts, limit, hosts) == 0
  {
    assert hosts + [] == hosts;
  }

  /** One token: either the limit is met and the line is done, or the rest remains. */
  lemma LineTurn(all: seq<string>, k: nat, limit: Option<int>, was: seq<string>, now: seq<string>)
    requires k < |all| && Room(limit, was) && now == LineHosts([all[k]], limit, was)
    ensures Reached(limit, now) ==> LineHosts(all[k..], limit, was) == now
    ensures !Reached(limit, now) ==>
              Room(limit, now) && LineHosts(all[k + 1..], limit, now) == LineHosts(all[k..], limit, was)
  {
    hide Count, ExpandToken;
    var ts := all[k..];
    assert ts[1..] == all[k + 1..];
    OneToken(ts[0]);
    var e, p, x, y := ExpandTokens(ts[1..]), Plain(ts[1..]), ExpandTokens([ts[0]]), Plain([ts[0]]);
    assert ExpandTokens(ts) == x + e && Plain(ts) == y + p;
    assert was + (x + e) == (was + x) + e && was + (y + p) == (was + y) + p;
  }

  lemma BytesTurn(all: seq<string>, k: nat, limit: Option<int>, was: seq<string>, had: int, total: int)
    requires k < |all| && Wrap(total) == Wrap(had + TokenBytes(all[k], limit, |was|))
    ensures
      var now := LineHosts([all[k]], limit, was);
      var rest := if Reached(limit, now) then 0 else LineBytes(all[k + 1..], limit, now);
      Wrap(total + rest) == Wrap(had + LineBytes(all[k..], limit, was))
  {
    hide TokenBytes, LineHosts, Wrap;
    assert all[k..][1..] == all[k + 1..];
    var now := LineHosts([all[k]], limit, was);
    var rest := if Reached(limit, now) then 0 else LineBytes(all[k + 1..], limit, now);
    WrapAdd(total, rest);
    WrapAdd(had + TokenBytes(all[k], limit, |was|), rest);
  }

  /** Lines 1336-1353: the copies of one token, cut to the room that is left. */
  method PushToken(tok: string, limit: Option<int>, before: seq<string>, had: int)
    returns (hosts: seq<string>, total: int)
    requires Room(limit, before)
    ensures hosts == LineHosts([tok], limit, before)
    ensures Wrap(total) == Wrap(had + TokenBytes(tok, limit, |before|))
  {
    hide IndexOf, Atoi, ExpandTokens, Plain, Wrap;
    OneToken(tok);
    var i := Count(tok);
    hosts, total := before, had;
    if i != 0 {
      var name := Name(tok);
      if limit.Some? { i := Min(i, limit.value - |hosts|); }
      total := Wrap(total + |name| * i);
      WrapAdd(had + |name| * i, 0);
      var j := 0;
      while j < i
        invariant 0 <= j && (i >= 0 ==> j <= i) && (i < 0 ==> j == 0)
        invariant hosts == before + Repeat(name, j)
      {
        hosts := hosts + [name];
        j := j + 1;
      }
      assert i >= 0 ==> j == i;
    } else {
      hosts := hosts + [tok];
    }
  }

  lemma OneToken(tok: string)
    ensures ExpandTokens([tok]) == ExpandToken(tok)
    ensures Plain([tok]) == if Count(tok) == 0 then [tok] else []
  {
    hide Count;
    assert [tok][1..] == [] && ExpandToken(tok) + [] == ExpandToken(tok);
  }

  /** What is read and what remains make up the file, and no bad line was passed. */
  ghost predicate Underway(lines: seq<string>, k: nat, limit: Option<int>, hosts: seq<string>)
    requires k <= |lines|
  {
    && Room(limit, hosts)
    && (forall i :: 0 <= i < k ==> !BadLine(lines[i]))
    && if limit.None? || limit.value >= 1 then hosts + ExpandLines(lines[k..]) == ExpandLines(lines)
       else
         && hosts + PlainLines(lines[k..]) == PlainLines(lines)
         && (limit.value == 0 ==> FirstRepeated(lines) == (hosts == [] && FirstRepeated(lines[k..])))
  }

  /** Lines 1377-1396: what becomes of the hosts read and the bytes counted. */
  function Finish(hosts: seq<string>, limit: Option<int>, total: int, width: seq<string> -> nat): Option<seq<string>> {
    if hosts == [] || (limit.Some? && |hosts| < limit.value) then None
    else if width(hosts) < Wrap(total + 1024) then Some(hosts)
    else None
  }

  const NO_VAL := -2  // (int) NO_VAL

  /** The limit that the parameter n stands for. */
  function Limit(n: int): Option<int> { if n == NO_VAL then None else Some(n) }

  /** slurm_read_hostfile for lines shorter than the buffer without '#' or '\'; width gives
      the length of the ranged text of a host list. */
  method ReadHostfile(lines: seq<string>, n: int, width: seq<string> -> nat) returns (r: Option<seq<string>>)
    ensures r == Outcome(lines, Limit(n), width)
  {
    hide ExpandLines, PlainLines, FirstRepeated, ExpandTokens, Plain, Tokens, Underway, LineHosts, AnyBad, Hosts;
    hide FileBytes, LineBytes, Wrap;
    var limit := Limit(n);
    var hosts: seq<string>, total := [], 0;
    FileStart(lines, limit);
    for k := 0 to |lines|
      invariant Underway(lines, k, limit, hosts)
      invariant Wrap(total + FileBytes(lines[k..], limit, hosts)) == Wrap(FileBytes(lines, limit, []))
    {
      BytesNext(lines, k, limit, hosts);
      if lines[k] == "" {
        SkipLine(lines, k, limit, hosts);
        continue;
      }
      if !IsAlnum(lines[k][0]) {
        StopLine(lines, k, limit, hosts);
        return None;
      }
      FileRoom(lines, k, limit, hosts);
      ghost var was, sum := hosts, total;
      total := Wrap(total + |lines[k]|);
      ghost var mid := total;
      hosts, total := ReadLine(lines[k], limit, hosts, total);
      TakeLine(lines, k, limit, was, hosts);
      ghost var rest := if Reached(limit, hosts) then 0 else FileBytes(lines[k + 1..], limit, hosts);
      WrapThree(sum, |lines[k]|, mid, LineBytes(Tokens(lines[k]), limit, was), total, rest);
      if limit.Some? && |hosts| == limit.value {
        WrapSame(total, FileBytes(lines, limit, []), 1024);
        return Finish(hosts, limit, total, width);
      }
    }
    FileEnd(lines, limit, hosts);
    WrapSame(total, FileBytes(lines, limit, []), 1024);
    return Finish(hosts, limit, total, width);
  }

  lemma WrapSame(a: int, b: int, c: int)
    requires Wrap(a) == Wrap(b)
    ensures Wrap(a + c) == Wrap(b + c)
  {
    hide Wrap;
    WrapAdd(a, c);
    WrapAdd(b, c);
  }

  lemma WrapThree(sum: int, a: int, mid: int, b: int, total: int, rest: int)
    requires mid == Wrap(sum + a) && Wrap(total) == Wrap(mid + b)
    ensures Wrap(total + rest) == Wrap(sum + (a + b + rest))
  {
    hide Wrap;
    WrapAdd(sum + a, 0);
    WrapSame(mid, sum + a, b);
    WrapSame(total, sum + a + b, rest);
  }

  lemma BytesNext(lines: seq<string>, k: nat, limit: Option<int>, hosts: seq<string>)
    requires k < |lines|
    ensures FileBytes(lines[k..], limit, hosts) ==
            if BadLine(lines[k]) then 0
            else if lines[k] == "" then FileBytes(lines[k + 1..], limit, hosts)
            else
              var ts := Tokens(lines[k]);
              var now := LineHosts(ts, limit, hosts);
              var rest := if Reached(limit, now) then 0 else FileBytes(lines[k + 1..], limit, now);
              |lines[k]| + LineBytes(ts, limit, hosts) + rest
  {
    hide BadLine, Tokens, LineHosts, LineBytes, IsAlnum;
    assert lines[k..][1..] == lines[k + 1..];
  }

  lemma FileStart(lines: seq<string>, limit: Option<int>)
    ensures Underway(lines, 0, limit, []) && lines[0..] == lines
  {
    hide ExpandLines, PlainLines, FirstRepeated;
    assert lines[0..] == lines;
  }

  lemma FileRoom(lines: seq<string>, k: nat, limit: Option<int>, hosts: seq<string>)
    requires k <= |lines| && Underway(lines, k, limit, hosts)
    ensures Room(limit, hosts)
  {
  }

  /** The definitions over the lines, unfolded once at line k. */
  lemma FileNext(lines: seq<string>, k: nat)
    requires k < |lines| && !BadLine(lines[k])
    ensures ExpandLines(lines[k..]) == ExpandTokens(Tokens(lines[k])) + ExpandLines(lines[k + 1..])
    ensures PlainLines(lines[k..]) == Plain(Tokens(lines[k])) + PlainLines(lines[k + 1..])
    ensures FirstRepeated(lines[k..]) ==
            if lines[k] == "" then FirstRepeated(lines[k + 1..]) else RepeatedHead(Tokens(lines[k]))
  {
    hide ExpandTokens, Plain, Tokens, BadLine, RepeatedHead;
    assert lines[k..][1..] == lines[k + 1..];
  }

  lemma SkipLine(lines: seq<string>, k: nat, limit: Option<int>, hosts: seq<string>)
    requires k < |lines| && lines[k] == "" && Underway(lines, k, limit, hosts)
    ensures Underway(lines, k + 1, limit, hosts)
  {
    hide ExpandLines, PlainLines, FirstRepeated;
    EmptyLine();
    FileNext(lines, k);
    assert [] + ExpandLines(lines[k + 1..]) == ExpandLines(lines[k + 1..]);
    assert [] + PlainLines(lines[k + 1..]) == PlainLines(lines[k + 1..]);
  }

  lemma EmptyLine()
    ensures Tokens("") == [] && ExpandTokens([]) == [] && Plain([]) == [] && !BadLine("")
  {
  }

  lemma StopLine(lines: seq<string>, k: nat, limit: Option<int>, hosts: seq<string>)
    requires k < |lines| && BadLine(lines[k]) && Underway(lines, k, limit, hosts)
    ensures Hosts(lines, limit) == None
  {
    hide PlainLines, FirstRepeated, ExpandTokens, Tokens, BadLine;
    assert ExpandLines(lines[k..]) == [] && hosts + [] == hosts;
  }

  /** A line that begins with a letter or digit has a token. */
  lemma SomeToken(line: string)
    requires line != "" && !BadLine(line)
    ensures Tokens(line) != []
  {
    assert line[0] != ',';
  }

  lemma PlainHead(ts: seq<string>)
    requires ts != []
    ensures Plain(ts) == [] ==> RepeatedHead(ts)
  {
  }

  lemma TakeLine(lines: seq<string>, k: nat, limit: Option<int>, was: seq<string>, now: seq<string>)
    requires k < |lines| && lines[k] != "" && !BadLine(lines[k]) && Underway(lines, k, limit, was)
    requires now == LineHosts(Tokens(lines[k]), limit, was)
    ensures if limit.Some? && |now| == limit.value
            then Hosts(lines, limit) == if now == [] then None else Some(now)
            else Underway(lines, k + 1, limit, now)
  {
    hide ExpandLines, PlainLines, FirstRepeated, ExpandTokens, Plain, Tokens, BadLine, RepeatedHead, AnyBad;
    FileNext(lines, k);
    SomeToken(lines[k]);
    var ts := Tokens(lines[k]);
    PlainHead(ts);
    var here, rest := ExpandTokens(ts), ExpandLines(lines[k + 1..]);
    assert was + (here + rest) == (was + here) + rest;
    var plain, more := Plain(ts), PlainLines(lines[k + 1..]);
    assert was + (plain + more) == (was + plain) + more;
    if limit.Some? && limit.value >= 1 && |was + here| >= limit.value {
      assert now == ExpandLines(lines)[..limit.value];
    }
  }

  lemma FileEnd(lines: seq<string>, limit: Option<int>, hosts: seq<string>)
    requires Underway(lines, |lines|, limit, hosts)
    ensures Hosts(lines, limit) ==
            if |hosts| == 0 || (limit.Some? && |hosts| < limit.value) then None else Some(hosts)
    ensures FileBytes(lines[|lines|..], limit, hosts) == 0
  {
    hide ExpandTokens, Plain, Tokens, BadLine;
    assert hosts + [] == hosts;
  }
}

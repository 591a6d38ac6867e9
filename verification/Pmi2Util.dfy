/** PMI2U_readline in contribs/pmi2/pmi2_util.c: lines from a byte stream through a buffer
    that keeps unread bytes from one call to the next. */
module Pmi2Util {
  import opened Pmi2Api

  const MAX_READLINE := 1024

  /** The line a call with this limit returns: up to a newline, to limit - 1 bytes, or to
      the end of the stream, whichever comes first. */
  function Line(s: string, maxlen: nat): string
    decreases maxlen
  {
    if maxlen <= 1 || s == [] then []
    else if s[0] == '\n' then "\n"
    else [s[0]] + Line(s[1..], maxlen - 1)
  }

  /** The line is the shortest prefix that ends in a newline, holds maxlen - 1 bytes, or
      is all there is. */
  lemma {:induction false} LineIsShortest(s: string, maxlen: nat)
    ensures
      var l := Line(s, maxlen);
      && l <= s && |l| <= (if maxlen == 0 then 0 else maxlen - 1)
      && (l == s || |l| + 1 >= maxlen || (l != [] && l[|l| - 1] == '\n'))
      && forall i :: 0 <= i < |l| - 1 ==> l[i] != '\n'
    decreases maxlen
  {
    if !(maxlen <= 1 || s == [] || s[0] == '\n') {
      LineIsShortest(s[1..], maxlen - 1);
      assert s == [s[0]] + s[1..];
    }
  }

  /** All lines of a stream, read until a call returns nothing. */
  function Lines(s: string, maxlen: nat): seq<string>
    requires maxlen >= 2
    decreases |s|
  {
    if s == [] then []
    else
      LineIsShortest(s, maxlen);
      [Line(s, maxlen)] + Lines(s[|Line(s, maxlen)|..], maxlen)
  }

  function Concat(ls: seq<string>): string {
    if ls == [] then [] else ls[0] + Concat(ls[1..])
  }

  /** Putting all lines together gives the stream back. */
  lemma {:induction false} LinesMakeStream(s: string, maxlen: nat)
    requires maxlen >= 2
    ensures Concat(Lines(s, maxlen)) == s
    decreases |s|
  {
    if s != [] {
      var l := Line(s, maxlen);
      LineIsShortest(s, maxlen);
      LinesMakeStream(s[|l|..], maxlen);
      assert s == l + s[|l|..];
    }
  }

  datatype Got = More | Eof | Error

  class LineReader {
    const fd: Channel
    const readbuf: array<char>
    var nextChar: nat
    var lastChar: nat  // one past the last unread byte

    ghost predicate Valid()
      reads this
    {
      nextChar <= lastChar < readbuf.Length == MAX_READLINE
    }

    /** Everything not yet returned: the buffered bytes, then the stream. */
    ghost function Pending(): string
      requires Valid()
      reads this, readbuf, fd
    {
      readbuf[nextChar..lastChar] + fd.data
    }

    constructor (fd: Channel)
      ensures Valid() && fresh(readbuf) && this.fd == fd && Pending() == fd.data
    {
      this.fd := fd;
      readbuf := new char[MAX_READLINE];
      nextChar, lastChar := 0, 0;
    }

    /** Lines 69-89: get more bytes when none are left. */
    method Fill() returns (got: Got)
      requires Valid() && nextChar == lastChar
      modifies this, readbuf, fd
      ensures Valid() && Pending() == old(Pending())
      ensures got == More ==> nextChar < lastChar
      ensures got == Eof ==> Pending() == []
      ensures got == Error ==> fd.flaky
    {
      var failed, chunk := fd.ReadOrFail(readbuf.Length - 1);
      if failed { return Error; }
      if |chunk| == 0 { return Eof; }
      forall i | 0 <= i < |chunk| { readbuf[i] := chunk[i]; }
      nextChar, lastChar := 0, |chunk|;
      readbuf[lastChar] := '\0';
      assert readbuf[nextChar..lastChar] == chunk;
      got := More;
    }

    /** Lines 69-91: the next byte, the end of the stream or an error. */
    method NextByte() returns (got: Got, ch: char)
      requires Valid()
      modifies this, readbuf, fd
      ensures Valid()
      ensures got == More ==> old(Pending()) == [ch] + Pending()
      ensures got != More ==> Pending() == old(Pending())
      ensures got == Eof ==> Pending() == []
      ensures got == Error ==> fd.flaky
    {
      got, ch := More, '\0';
      if nextChar == lastChar {
        got := Fill();
        if got != More { return; }
      }
      ghost var rest := Pending();
      ch := readbuf[nextChar];
      nextChar := nextChar + 1;
      assert rest == [ch] + Pending();
    }

    /** The next line, whatever sizes the reads underneath had. A read that fails before the
        first byte gives -1, and later the line so far; no byte is lost either way. */
    method ReadLine(buf: array<char>, maxlen: nat) returns (n: int)
      requires Valid() && 1 <= buf.Length && maxlen <= buf.Length && buf != readbuf
      modifies this, readbuf, fd, buf
      ensures Valid() && -1 <= n < buf.Length
      ensures n == -1 ==> fd.flaky && Pending() == old(Pending()) && buf[0] == '\0'
      ensures n >= 0 ==> buf[..n] + Pending() == old(Pending()) && buf[n] == '\0'
      ensures n >= 0 ==> buf[..n] == Line(old(Pending()), maxlen) ||
                         (fd.flaky && 0 < n && buf[..n] <= Line(old(Pending()), maxlen))
    {
      hide Line, Valid, Pending, Taken;
      ghost var all := Pending();
      ghost var out: string := [];
      var curlen, got, ch := 1, More, '\0';
      TakenNone(all, maxlen);
      while curlen < maxlen && ch != '\n'
        invariant Valid() && |out| == curlen - 1 && curlen <= buf.Length && got == More
        invariant forall i :: 0 <= i < |out| ==> buf[i] == out[i]
        invariant if ch == '\n' then out + Pending() == all && out == Line(all, maxlen)
                  else Taken(out, Pending(), all, maxlen)
        decreases maxlen - curlen
      {
        ghost var rest := Pending();
        var next;
        got, next := NextByte();
        if got != More { break; }
        TakenNext(out, rest, next, Pending(), all, maxlen);
        ch := next;
        buf[curlen - 1] := ch;
        curlen := curlen + 1;
        out := out + [ch];
      }
      if ch != '\n' { TakenSome(out, Pending(), all, maxlen); }
      buf[curlen - 1] := '\0';
      assert buf[..curlen - 1] == out;
      n := if got == Error && curlen == 1 then -1 else curlen - 1;
    }

    /** Calling until nothing is returned yields all lines, and so the whole stream. */
    method ReadAllLines(buf: array<char>, maxlen: nat) returns (ls: seq<string>)
      requires Valid() && 2 <= maxlen <= buf.Length && buf != readbuf && !fd.flaky
      modifies this, readbuf, fd, buf
      ensures Valid() && ls == Lines(old(Pending()), maxlen) && Concat(ls) == old(Pending())
    {
      hide Valid, Pending, Line, Lines;
      ghost var all := Pending();
      LinesMakeStream(all, maxlen);
      ls := [];
      while true
        invariant Valid() && ls + Lines(Pending(), maxlen) == Lines(all, maxlen)
        decreases |Pending()|
      {
        ghost var rest := Pending();
        var n := ReadLine(buf, maxlen);
        LinesFirst(rest, maxlen, buf[..n], Pending());
        if n == 0 { break; }
        assert (ls + [buf[..n]]) + Lines(Pending(), maxlen) == ls + Lines(rest, maxlen);
        ls := ls + [buf[..n]];
      }
      assert ls + [] == ls;
    }
  }

  lemma LinesFirst(s: string, maxlen: nat, line: string, rest: string)
    requires maxlen >= 2 && line == Line(s, maxlen) && line + rest == s
    ensures line == [] ==> Lines(s, maxlen) == []
    ensures line != [] ==> Lines(s, maxlen) == [line] + Lines(rest, maxlen)
  {
    assert s[|line|..] == rest;
  }

  /** out is what the line holds so far, rest what is pending. */
  ghost predicate Taken(out: string, rest: string, all: string, maxlen: nat) {
    && |out| <= maxlen && out + rest == all
    && out + Line(rest, maxlen - |out|) == Line(all, maxlen)
  }

  lemma TakenNone(all: string, maxlen: nat)
    ensures Taken([], all, all, maxlen)
  {
    hide Line;
    assert [] + all == all && [] + Line(all, maxlen) == Line(all, maxlen);
  }

  lemma TakenNext(out: string, rest: string, ch: char, after: string, all: string, maxlen: nat)
    requires Taken(out, rest, all, maxlen) && rest == [ch] + after && |out| + 1 < maxlen
    ensures (out + [ch]) + after == all
    ensures if ch == '\n' then out + [ch] == Line(all, maxlen) else Taken(out + [ch], after, all, maxlen)
  {
    hide Line;
    var left := maxlen - |out|;
    assert rest[0] == ch && rest[1..] == after;
    LineUnfold(rest, left);
    assert out + ([ch] + Line(after, left - 1)) == (out + [ch]) + Line(after, left - 1);
  }

  lemma TakenSome(out: string, rest: string, all: string, maxlen: nat)
    requires Taken(out, rest, all, maxlen)
    ensures out + rest == all && out <= Line(all, maxlen)
    ensures rest == [] || |out| + 1 >= maxlen ==> out == Line(all, maxlen)
  {
    hide Line;
    LineUnfold(rest, maxlen - |out|);
    assert out + [] == out;
  }

  lemma LineUnfold(s: string, maxlen: nat)
    ensures Line(s, maxlen) ==
      if maxlen <= 1 || s == [] then [] else if s[0] == '\n' then "\n" else [s[0]] + Line(s[1..], maxlen - 1)
  {
  }
}

/** C strings and numbers: what atoi, strchr and `%d` do, on byte strings. A byte is a
    char; NUL is '\0'. */
module CText {

  datatype Option<+T> = None | Some(value: T)

  // ----- decimal numbers

  predicate IsDigit(c: char) { '0' <= c <= '9' }

  function DigitValue(c: char): nat
    requires IsDigit(c)
  {
    c as int - '0' as int
  }

  function DigitChar(d: nat): (c: char)
    requires d < 10
    ensures IsDigit(c) && DigitValue(c) == d
  {
    ('0' as int + d) as char
  }

  /** `%d` of a non-negative number. */
  function Decimal(n: nat): (s: string)
    ensures |s| > 0 && forall i :: 0 <= i < |s| ==> IsDigit(s[i])
  {
    if n < 10 then [DigitChar(n)] else Decimal(n / 10) + [DigitChar(n % 10)]
  }

  /** The leading digits of s appended to the number acc, as strtol reads them. */
  function DigitsValue(s: string, acc: nat): nat {
    if s == [] || !IsDigit(s[0]) then acc else DigitsValue(s[1..], 10 * acc + DigitValue(s[0]))
  }

  predicate IsSpace(c: char) { c == ' ' || '\t' <= c <= '\r' }

  /** The C function `atoi`. */
  function Atoi(s: string): int {
    if s == [] then 0
    else if IsSpace(s[0]) then Atoi(s[1..])
    else if s[0] == '-' then 0 - DigitsValue(s[1..], 0)
    else if s[0] == '+' then DigitsValue(s[1..], 0)
    else DigitsValue(s, 0)
  }

  lemma {:induction false} DigitsValueAppend(s: string, c: char, t: string, acc: nat)
    requires forall i :: 0 <= i < |s| ==> IsDigit(s[i])
    requires IsDigit(c) && (t == [] || !IsDigit(t[0]))
    ensures DigitsValue(s + [c] + t, acc) == 10 * DigitsValue(s, acc) + DigitValue(c)
    decreases |s|
  {
    var u := s + [c] + t;
    if s == [] {
      assert u == [c] + t;
      assert u[1..] == t;
    } else {
      assert u[1..] == s[1..] + [c] + t;
      DigitsValueAppend(s[1..], c, t, 10 * acc + DigitValue(s[0]));
    }
  }

  /** Reading back a printed number, whatever non-digit follows it. */
  lemma {:induction false} DecimalValue(n: nat, t: string)
    requires t == [] || !IsDigit(t[0])
    ensures DigitsValue(Decimal(n) + t, 0) == n
    decreases n
  {
    if n < 10 {
      DigitsValueAppend([], DigitChar(n), t, 0);
      assert [] + [DigitChar(n)] + t == Decimal(n) + t;
    } else {
      DigitsValueAppend(Decimal(n / 10), DigitChar(n % 10), t, 0);
      DecimalValue(n / 10, []);
      assert Decimal(n / 10) + [] == Decimal(n / 10);
    }
  }

  lemma AtoiDecimal(n: nat, t: string)
    requires t == [] || !IsDigit(t[0])
    ensures Atoi(Decimal(n) + t) == n
  {
    DecimalValue(n, t);
    assert IsDigit((Decimal(n) + t)[0]);
  }

  lemma {:induction false} DecimalLength(n: nat, k: nat)
    requires k >= 1 && n < Pow10(k)
    ensures |Decimal(n)| <= k
    decreases k
  {
    if n >= 10 { DecimalLength(n / 10, k - 1); }
  }

  function Pow10(k: nat): nat { if k == 0 then 1 else 10 * Pow10(k - 1) }

  // ----- searching

  /** The text before the first NUL, as strlen and strncmp see it. */
  function CString(s: string): string {
    if s == [] || s[0] == '\0' then [] else [s[0]] + CString(s[1..])
  }

  function IndexOf(s: string, c: char): (i: nat)
    ensures i <= |s| && (i < |s| ==> s[i] == c) && forall j :: 0 <= j < i ==> s[j] != c
  {
    if s == [] || s[0] == c then 0 else 1 + IndexOf(s[1..], c)
  }

  lemma {:induction false} CStringClean(s: string)
    requires '\0' !in s
    ensures CString(s) == s
  {
    if s != [] { CStringClean(s[1..]); }
  }

  lemma {:induction false} IndexOfFirst(s: string, c: char, t: string)
    requires c !in s
    ensures IndexOf(s + [c] + t, c) == |s|
  {
    var u := s + [c] + t;
    assert u[|s|] == c;
    assert forall j :: 0 <= j < |s| ==> u[j] == s[j];
  }

  lemma {:induction false} CStringNoNul(s: string)
    ensures '\0' !in CString(s) && CString(s) <= s
  {
    if s != [] && s[0] != '\0' { CStringNoNul(s[1..]); }
  }

  // ----- what atoi reads

  /** `%d` of any int. */
  function Signed(n: int): string { if n < 0 then "-" + Decimal(-n) else Decimal(n) }

  /** White space, a sign, digits, and nothing of what follows them. */
  lemma AtoiIs(space: string, n: int, rest: string)
    requires (forall i :: 0 <= i < |space| ==> IsSpace(space[i])) && (rest == [] || !IsDigit(rest[0]))
    ensures Atoi(space + (Signed(n) + rest)) == n
    ensures n >= 0 ==> Atoi(space + ("+" + (Decimal(n) + rest))) == n
  {
    hide Decimal, Atoi, Signed;
    AtoiSpace(space, Signed(n) + rest);
    AtoiSigned(n, rest);
    if n >= 0 {
      AtoiSpace(space, "+" + (Decimal(n) + rest));
      AtoiPlus(n, rest);
    }
  }

  lemma {:induction false} AtoiSpace(space: string, s: string)
    requires forall i :: 0 <= i < |space| ==> IsSpace(space[i])
    ensures Atoi(space + s) == Atoi(s)
  {
    hide Atoi, IsSpace;
    if space == [] {
      assert space + s == s;
    } else {
      AtoiSpace(space[1..], s);
      AtoiUnfold(space + s);
      assert (space + s)[1..] == space[1..] + s;
    }
  }

  lemma AtoiUnfold(s: string)
    requires s != []
    ensures Atoi(s) ==
            if IsSpace(s[0]) then Atoi(s[1..])
            else if s[0] == '-' then 0 - DigitsValue(s[1..], 0)
            else if s[0] == '+' then DigitsValue(s[1..], 0)
            else DigitsValue(s, 0)
  {
    hide DigitsValue;
  }

  lemma AtoiSigned(n: int, rest: string)
    requires rest == [] || !IsDigit(rest[0])
    ensures Atoi(Signed(n) + rest) == n
  {
    hide Decimal, DigitsValue, Atoi;
    if n < 0 {
      var s := Signed(n) + rest;
      DecimalValue(-n, rest);
      AtoiUnfold(s);
      assert s[1..] == Decimal(-n) + rest;
    } else {
      AtoiDecimal(n, rest);
    }
  }

  lemma AtoiPlus(n: nat, rest: string)
    requires rest == [] || !IsDigit(rest[0])
    ensures Atoi("+" + (Decimal(n) + rest)) == n
  {
    hide Decimal, DigitsValue, Atoi;
    var s := "+" + (Decimal(n) + rest);
    DecimalValue(n, rest);
    AtoiUnfold(s);
    assert s[1..] == Decimal(n) + rest;
  }

  /** A text that begins with no white space, sign or digit is 0. */
  lemma AtoiNone(s: string)
    requires s == [] || !(IsSpace(s[0]) || s[0] == '-' || s[0] == '+' || IsDigit(s[0]))
    ensures Atoi(s) == 0
  {
  }
}

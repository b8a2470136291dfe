/** The parts of Go's strings and strconv packages that port specifications go through. */
module Strings {
  import opened Wrappers

  function Split(s: string, sep: char): (parts: seq<string>)
    ensures parts != []
  {
    if s == "" then [""]
    else
      var rest := Split(s[1..], sep);
      if s[0] == sep then [""] + rest else [[s[0]] + rest[0]] + rest[1..]
  }

  function Join(parts: seq<string>, sep: char): string {
    if parts == [] then ""
    else if |parts| == 1 then parts[0]
    else parts[0] + [sep] + Join(parts[1..], sep)
  }

  lemma {:induction false} SplitPlain(s: string, sep: char)
    requires sep !in s
    ensures Split(s, sep) == [s]
  {
    if s != "" {
      SplitPlain(s[1..], sep);
      assert [s[0]] + s[1..] == s;
    }
  }

  lemma {:induction false} SplitFirst(s: string, sep: char, rest: string)
    requires sep !in s
    ensures Split(s + [sep] + rest, sep) == [s] + Split(rest, sep)
  {
    var whole := s + [sep] + rest;
    if s == "" {
      assert whole[1..] == rest;
    } else {
      SplitFirst(s[1..], sep, rest);
      assert whole[1..] == s[1..] + [sep] + rest;
      assert [s[0]] + s[1..] == s;
    }
  }

  lemma {:induction false} SplitUndoesJoin(parts: seq<string>, sep: char)
    requires parts != [] && forall i | 0 <= i < |parts| :: sep !in parts[i]
    ensures Split(Join(parts, sep), sep) == parts
  {
    if |parts| == 1 {
      SplitPlain(parts[0], sep);
    } else {
      SplitFirst(parts[0], sep, Join(parts[1..], sep));
      SplitUndoesJoin(parts[1..], sep);
    }
  }

  // unicode.IsSpace.
  predicate IsSpace(c: char) {
    || '\U{0009}' <= c <= '\U{000D}' || c == ' ' || c == '\U{0085}' || c == '\U{00A0}'
    || c == '\U{1680}' || '\U{2000}' <= c <= '\U{200A}'
    || c == '\U{2028}' || c == '\U{2029}' || c == '\U{202F}' || c == '\U{205F}' || c == '\U{3000}'
  }

  lemma SpaceCodes(c: char)
    ensures IsSpace(c) <==>
      var code := c as int;
      || 9 <= code <= 13 || code == 32 || code == 133 || code == 160 || code == 5760
      || 8192 <= code <= 8202 || code == 8232 || code == 8233 || code == 8239 || code == 8287 || code == 12288
  {
  }

  predicate Blank(s: string) {
    forall i | 0 <= i < |s| :: IsSpace(s[i])
  }

  function TrimLeft(s: string): string {
    if s != "" && IsSpace(s[0]) then TrimLeft(s[1..]) else s
  }

  function TrimRight(s: string): string {
    if s != "" && IsSpace(s[|s| - 1]) then TrimRight(s[..|s| - 1]) else s
  }

  function TrimSpace(s: string): string {
    TrimRight(TrimLeft(s))
  }

  lemma {:induction false} TrimLeftPad(pad: string, s: string)
    requires Blank(pad) && (s == "" || !IsSpace(s[0]))
    ensures TrimLeft(pad + s) == s
  {
    if pad == "" {
      assert pad + s == s;
    } else {
      TrimLeftPad(pad[1..], s);
      assert (pad + s)[1..] == pad[1..] + s;
    }
  }

  lemma {:induction false} TrimRightPad(s: string, pad: string)
    requires Blank(pad) && (s == "" || !IsSpace(s[|s| - 1]))
    ensures TrimRight(s + pad) == s
  {
    if pad == "" {
      assert s + pad == s;
    } else {
      TrimRightPad(s, pad[..|pad| - 1]);
      assert (s + pad)[..|s + pad| - 1] == s + pad[..|pad| - 1];
    }
  }

  lemma TrimPadding(left: string, s: string, right: string)
    requires Blank(left) && Blank(right) && s != "" && !IsSpace(s[0]) && !IsSpace(s[|s| - 1])
    ensures TrimSpace(left + s + right) == s
  {
    assert left + s + right == left + (s + right);
    TrimLeftPad(left, s + right);
    TrimRightPad(s, right);
  }

  // ----- strconv.Atoi -------------------------------------------------------------------------

  const MAX_INT64: int := 0x7FFF_FFFF_FFFF_FFFF

  predicate IsDigit(c: char) { '0' <= c <= '9' }

  predicate AllDigits(s: string) {
    forall i | 0 <= i < |s| :: IsDigit(s[i])
  }

  function DigitsValue(s: string): nat
    requires AllDigits(s)
  {
    if s == "" then 0 else DigitsValue(s[..|s| - 1]) * 10 + (s[|s| - 1] as int - '0' as int)
  }

  // An optional sign and at least one digit, in the range of int64; anything else is an error.
  function Atoi(s: string): Option<int> {
    var signed := s != "" && (s[0] == '-' || s[0] == '+');
    var digits := if signed then s[1..] else s;
    if digits == "" || !AllDigits(digits) then None
    else
      var magnitude: int := DigitsValue(digits);
      var n := if signed && s[0] == '-' then -magnitude else magnitude;
      if -MAX_INT64 - 1 <= n <= MAX_INT64 then Some(n) else None
  }

  // fmt's %d for numbers that are not negative.
  function PrintNat(n: nat): string {
    var last := ['0' + (n % 10) as char];
    if n < 10 then last else PrintNat(n / 10) + last
  }

  lemma {:induction false} PrintNatDigits(n: nat)
    ensures PrintNat(n) != "" && AllDigits(PrintNat(n))
    ensures DigitsValue(PrintNat(n)) == n
  {
    var s := PrintNat(n);
    if n >= 10 {
      PrintNatDigits(n / 10);
      assert s[..|s| - 1] == PrintNat(n / 10);
    } else {
      assert s[..|s| - 1] == "";
    }
  }

  // Parsing undoes printing, blanks around the number included.
  lemma AtoiUndoesPrint(left: string, n: nat, right: string)
    requires Blank(left) && Blank(right)
    ensures Atoi(TrimSpace(left + PrintNat(n) + right)) == if n <= MAX_INT64 then Some(n) else None
  {
    PrintNatDigits(n);
    var s := PrintNat(n);
    assert IsDigit(s[0]) && IsDigit(s[|s| - 1]);
    TrimPadding(left, s, right);
  }

  lemma AtoiOfSigned(sign: char, s: string)
    requires (sign == '-' || sign == '+') && s != "" && AllDigits(s)
    ensures var n: int := if sign == '-' then -(DigitsValue(s) as int) else DigitsValue(s);
      Atoi([sign] + s) == if -0x8000_0000_0000_0000 <= n <= 0x7FFF_FFFF_FFFF_FFFF then Some(n) else None
  {
    hide DigitsValue;
    assert ([sign] + s)[1..] == s;
  }

  // A sign is read, and -2^63 is in range.
  lemma AtoiSigned(n: nat)
    ensures Atoi("-" + PrintNat(n)) == if n <= 0x8000_0000_0000_0000 then Some(-(n as int)) else None
    ensures Atoi("+" + PrintNat(n)) == if n <= 0x7FFF_FFFF_FFFF_FFFF then Some(n) else None
  {
    hide PrintNat, DigitsValue, Atoi;
    PrintNatDigits(n);
    AtoiOfSigned('-', PrintNat(n));
    AtoiOfSigned('+', PrintNat(n));
  }

  // Nothing else is a number: no text without a digit, and none with any other character.
  lemma AtoiRejects(s: string, i: nat)
    ensures s == "" || s == "+" || s == "-" ==> Atoi(s) == None
    ensures i < |s| && !('0' <= s[i] <= '9') && (i > 0 || (s[i] != '+' && s[i] != '-')) ==> Atoi(s) == None
  {
    if 0 < i < |s| {
      assert s[1..][i - 1] == s[i];
    }
  }
}

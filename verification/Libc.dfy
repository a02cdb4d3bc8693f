/**
 The string and number routines of lib/libc.c: what they print, and that parsing it back gives the number.
 A C string is the part of a buffer before its first NUL.
 */
module Libc {
  import opened Words
  import opened Bits

  const NUL: char := '\0'
  const INT_MIN: int := -0x8000_0000
  const INT_MAX: int := 0x7FFF_FFFF

  type Int32 = v: int | INT_MIN <= v <= INT_MAX

  /** `buf` holds the C string `s` from index `at` on. */
  ghost predicate CString(buf: seq<char>, at: nat, s: string) {
    at + |s| < |buf| && buf[at..at + |s|] == s && buf[at + |s|] == NUL && NUL !in s
  }

  // ----- strlen and strcmp

  method Strlen(buf: array<char>, at: nat, ghost s: string) returns (n: nat)
    requires CString(buf[..], at, s)
    ensures n == |s|
  {
    n := 0;
    while buf[at + n] != NUL
      invariant n <= |s|
      decreases |s| - n
    {
      CharAt(buf[..], at, s, n);
      n := n + 1;
    }
    CharAt(buf[..], at, s, n);
  }

  /** The value of a `char`, which is signed. */
  function Signed(c: char): int {
    if c as int % 256 < 128 then c as int % 256 else c as int % 256 - 256
  }

  const TAB: char := '\t'

  /** What strcmp looks at in its second argument: everything up to and including the first tab. */
  function Cut(s: string): string {
    if s == [] then [] else if s[0] == TAB then [TAB] else [s[0]] + Cut(s[1..])
  }

  /** The loop of strcmp, on strings without their NULs. */
  function Compare(a: string, b: string): int {
    if a != [] && (b == [] || b[0] != TAB) then
      if b == [] then Signed(a[0])
      else if a[0] != b[0] then Signed(a[0]) - Signed(b[0])
      else Compare(a[1..], b[1..])
    else (if a == [] then 0 else Signed(a[0])) - (if b == [] then 0 else Signed(b[0]))
  }

  method Strcmp(a: array<char>, at: nat, b: string, ghost s: string) returns (r: int)
    requires CString(a[..], at, s) && NUL !in b
    ensures r == Compare(s, b)
  {
    var i := 0;
    while a[at + i] != NUL && (i == |b| || b[i] != TAB)
      invariant i <= |s| && i <= |b|
      invariant Compare(s, b) == Compare(s[i..], b[i..])
      decreases |s| - i
    {
      CharAt(a[..], at, s, i);
      var y := if i == |b| then NUL else b[i];
      if a[at + i] != y {
        return Signed(a[at + i]) - Signed(y);
      }
      assert s[i..][1..] == s[i + 1..] && b[i..][1..] == b[i + 1..];
      i := i + 1;
    }
    CharAt(a[..], at, s, i);
    r := Signed(a[at + i]) - (if i == |b| then Signed(NUL) else Signed(b[i]));
  }

  lemma CharAt(buf: seq<char>, at: nat, s: string, i: nat)
    requires CString(buf, at, s) && i <= |s|
    ensures buf[at + i] == if i < |s| then s[i] else NUL
    ensures buf[at + i] == NUL <==> i == |s|
  {
    if i < |s| {
      assert buf[at..at + |s|][i] == s[i];
      assert s[i] in s;
    }
  }

  /** Every character is a byte, and none is NUL. */
  ghost predicate Bytes(s: string) {
    forall i :: 0 <= i < |s| ==> 0 < s[i] as int < 256
  }

  /**
   strcmp reports equality exactly when the strings agree up to and including the second one's first tab; so it
   tells strings apart for every second argument without a tab, and not beyond.
   */
  lemma {:induction false} CompareZeroIff(a: string, b: string)
    requires Bytes(a) && Bytes(b)
    ensures Compare(a, b) == 0 <==> (if TAB in b then Cut(b) <= a else a == b)
    decreases |a|
  {
    if a != [] && b != [] && b[0] != TAB {
      if a[0] == b[0] {
        CompareZeroIff(a[1..], b[1..]);
        assert a == [a[0]] + a[1..] && b == [b[0]] + b[1..];
      }
    }
  }

  /** What strcmp reads at position `i`: a signed character, or the NUL at the end. */
  function CharValue(s: string, i: nat): int {
    if i >= |s| then 0 else if s[i] as int % 256 < 128 then s[i] as int % 256 else s[i] as int % 256 - 256
  }

  /** The result is the difference at the first position where the strings differ, so its sign tells which is smaller. */
  lemma {:induction false} CompareAtDifference(a: string, b: string, k: nat)
    requires Bytes(a) && Bytes(b) && k <= |a| && k <= |b| && a[..k] == b[..k] && TAB !in b[..k]
    requires CharValue(a, k) != CharValue(b, k)
    ensures Compare(a, b) == CharValue(a, k) - CharValue(b, k)
    decreases k
  {
    if k > 0 {
      assert a[0] == a[..k][0] == b[..k][0] == b[0] && b[0] != TAB;
      assert a[1..][..k - 1] == a[..k][1..] && b[1..][..k - 1] == b[..k][1..];
      CompareAtDifference(a[1..], b[1..], k - 1);
    }
  }

  lemma TabHidesTheRest()
    ensures Compare("\tx", "\ty") == 0
  {
  }

  // ----- itoa

  function Digit(d: nat): char
    requires d < 10
  {
    ('0' as int + d) as char
  }

  /** The digits of a positive number, lowest first, as the first loop of itoa stores them. */
  function DigitsUp(n: nat): string {
    if n == 0 then [] else [Digit(n % 10)] + DigitsUp(n / 10)
  }

  function Reverse(s: string): string {
    if s == [] then [] else Reverse(s[1..]) + [s[0]]
  }

  /** `-value`, which leaves the smallest int as it is (two's complement; C leaves that case undefined). */
  function Negate(v: Int32): Int32 {
    if v == INT_MIN then v else -v
  }

  function Render(value: Int32): string {
    if value == 0 then "0"
    else if value > 0 then Reverse(DigitsUp(value))
    else ['-'] + Reverse(DigitsUp(if Negate(value) > 0 then Negate(value) else 0))
  }

  /** Decimal reading: the value of a string of digits, then of an optionally signed one. */
  function ReadDigits(s: string): Outcome<nat> {
    if s == [] then Done(0) else
      var c := s[|s| - 1];
      if !('0' <= c <= '9') then Panicked else
        match ReadDigits(s[..|s| - 1])
        case Panicked => Panicked
        case Done(n) => Done(10 * n + (c as int - '0' as int))
  }

  function ReadInt(s: string): Outcome<int> {
    if s == [] || s == "-" then Panicked
    else if s[0] == '-' then
      match ReadDigits(s[1..]) case Panicked => Panicked case Done(n) => Done(-(n as int))
    else
      match ReadDigits(s) case Panicked => Panicked case Done(n) => Done(n)
  }

  lemma {:induction false} DigitsReadBack(n: nat)
    ensures ReadDigits(Reverse(DigitsUp(n))) == Done(n)
    ensures n > 0 ==> Reverse(DigitsUp(n)) != [] && '1' <= Reverse(DigitsUp(n))[0] <= '9'
    ensures n == 0 ==> DigitsUp(n) == []
  {
    if n > 0 {
      DigitsReadBack(n / 10);
      var s := Reverse(DigitsUp(n));
      assert DigitsUp(n)[1..] == DigitsUp(n / 10);
      assert s[..|s| - 1] == Reverse(DigitsUp(n / 10)) && s[|s| - 1] == Digit(n % 10);
    }
  }

  /** Reading back what itoa prints gives the number, for every int but the smallest, for which it prints a bare sign. */
  lemma RenderReadBackIff(value: Int32)
    ensures ReadInt(Render(value)) == Done(value) <==> value != INT_MIN
    ensures value != INT_MIN && value != 0 ==> var s := Render(value); var d := if value < 0 then s[1] else s[0]; d != '0'
  {
    if value > 0 {
      DigitsReadBack(value);
    } else if value == INT_MIN {
      assert Render(value) == "-";
    } else if value < 0 {
      DigitsReadBack(-value);
      assert Render(value)[1..] == Reverse(DigitsUp(-value));
    } else {
      assert ReadDigits("0"[..0]) == Done(0);
    }
  }

  /** `DigitsUp` of a number below `10^k` has at most `k` digits. */
  lemma {:induction false} DigitCount(n: nat, k: nat)
    requires n < Pow10(k)
    ensures |DigitsUp(n)| <= k
  {
    if n > 0 {
      DigitCount(n / 10, k - 1);
    }
  }

  function Pow10(k: nat): (p: nat)
    ensures p > 0
  {
    if k == 0 then 1 else 10 * Pow10(k - 1)
  }

  lemma {:induction false} ReverseLength(s: string)
    ensures |Reverse(s)| == |s|
    ensures forall i :: 0 <= i < |s| ==> Reverse(s)[i] == s[|s| - 1 - i]
  {
    if s != [] {
      ReverseLength(s[1..]);
    }
  }

  lemma RenderLength(value: Int32)
    ensures 1 <= |Render(value)| <= 11
  {
    assert Pow10(10) == 10_000_000_000;
    var n := if value > 0 then value else if Negate(value) > 0 then Negate(value) else 0;
    DigitCount(n, 10);
    ReverseLength(DigitsUp(n));
  }

  method Itoa(value: Int32, buf: array<char>)
    requires buf.Length >= 12
    modifies buf
    ensures var s := Render(value);
            |s| < buf.Length && buf[..|s|] == s && buf[|s|] == NUL
    ensures forall m :: |Render(value)| < m < buf.Length ==> buf[m] == old(buf[m])
  {
    RenderLength(value);
    if value == 0 {
      buf[0] := '0';
      buf[1] := NUL;
      return;
    }
    var v, j := value, 0;
    if v < 0 {
      v := Negate(v);
      buf[0] := '-';
      j := 1;
    }
    PutNumber(v, buf, j);
  }

  /** The digits of a number that is no longer negative, from position `j` on, and the final NUL. */
  method PutNumber(v: Int32, buf: array<char>, j: nat)
    requires j <= 1 && buf.Length >= 12
    modifies buf
    ensures var s := Reverse(DigitsUp(if v > 0 then v else 0));
            && j + |s| < buf.Length && buf[j..j + |s|] == s && buf[j + |s|] == NUL && buf[..j] == old(buf[..j])
            && forall m :: j + |s| < m < buf.Length ==> buf[m] == old(buf[m])
  {
    var temp := new char[32];
    var i := PutDigits(v, temp);
    ReverseLength(temp[..i]);
    CopyBack(temp, i, buf, j);
    buf[j + i] := NUL;
  }

  /** The first loop of itoa. */
  method PutDigits(value: Int32, temp: array<char>) returns (i: nat)
    requires temp.Length == 32
    modifies temp
    ensures i <= 10 && temp[..i] == DigitsUp(if value > 0 then value else 0)
  {
    ghost var n := if value > 0 then value else 0;
    assert Pow10(10) == 10_000_000_000;
    DigitCount(n, 10);
    var v := value;
    i := 0;
    while v > 0
      invariant i <= 10 && DigitsUp(n) == temp[..i] + DigitsUp(if v > 0 then v else 0)
    {
      assert DigitsUp(v) == [Digit(v % 10)] + DigitsUp(v / 10);
      temp[i] := Digit(v % 10);
      v := v / 10;
      i := i + 1;
    }
  }

  /** The second loop of itoa. */
  method CopyBack(temp: array<char>, i: nat, buf: array<char>, j: nat)
    requires temp != buf && i <= temp.Length && j + i < buf.Length
    modifies buf
    ensures buf[..j] == old(buf[..j]) && buf[j..j + i] == Reverse(temp[..i])
    ensures forall m :: j + i <= m < buf.Length ==> buf[m] == old(buf[m])
  {
    ReverseLength(temp[..i]);
    var k := i;
    while k > 0
      invariant k <= i
      invariant forall m :: 0 <= m < buf.Length ==>
                  buf[m] == if j <= m < j + (i - k) then temp[i - 1 - (m - j)] else old(buf[m])
    {
      k := k - 1;
      buf[j + (i - 1 - k)] := temp[k];
    }
  }

  // ----- itoa_hex

  function HexDigit(d: nat): char
    requires d < 16
  {
    "0123456789ABCDEF"[d]
  }

  /** The `k` lowest hexadecimal digits of a word, highest first. */
  function HexDigits(v: nat, k: nat): string {
    if k == 0 then [] else HexDigits(v / 16, k - 1) + [HexDigit(v % 16)]
  }

  function ReadHexDigit(c: char): nat {
    if '0' <= c <= '9' then c as int - '0' as int
    else if 'A' <= c <= 'F' then c as int - 'A' as int + 10
    else 0
  }

  function ReadHex(s: string): nat {
    if s == [] then 0 else 16 * ReadHex(s[..|s| - 1]) + ReadHexDigit(s[|s| - 1])
  }

  function Pow16(k: nat): (p: nat)
    ensures p > 0
  {
    if k == 0 then 1 else 16 * Pow16(k - 1)
  }

  lemma HexDigitReadBack(d: nat)
    requires d < 16
    ensures ReadHexDigit(HexDigit(d)) == d
  {
  }

  lemma ReadHexAppend(s: string, d: nat)
    requires d < 16
    ensures ReadHex(s + [HexDigit(d)]) == 16 * ReadHex(s) + d
  {
    assert (s + [HexDigit(d)])[..|s|] == s;
    HexDigitReadBack(d);
  }

  /** Reading back the `k` digits of a number that fits in them gives the number. */
  lemma {:induction false} HexReadBack(v: nat, k: nat)
    requires v < Pow16(k)
    ensures |HexDigits(v, k)| == k && ReadHex(HexDigits(v, k)) == v
  {
    if k > 0 {
      HexReadBack(v / 16, k - 1);
      ReadHexAppend(HexDigits(v / 16, k - 1), v % 16);
    }
  }

  /** All 32 bits of a word come back from the eight digits that itoa_hex prints. */
  lemma WordReadBack(v: Word)
    ensures |HexDigits(v, 8)| == 8 && ReadHex(HexDigits(v, 8)) == v
  {
    assert Pow16(4) == 0x1_0000;
    assert Pow16(8) == WORD_LIMIT;
    HexReadBack(v, 8);
  }

  lemma {:induction false} HexDigitAt(v: nat, k: nat, i: nat)
    requires i < k
    ensures |HexDigits(v, k)| == k && HexDigits(v, k)[i] == HexDigit(Shr(v, 4 * (k - 1 - i)) % 16)
    decreases k
  {
    if i < k - 1 {
      HexDigitAt(v / 16, k - 1, i);
      ShiftAdd(v, 4, 4 * (k - 2 - i));
      Shift4(v);
    } else if k > 1 {
      HexDigitAt(v / 16, k - 1, 0);
    }
  }

  lemma Mask4(w: nat)
    ensures And(w, 0xF) == w % 16
  {
    assert Pow2(4) == 16;
    AndLow(w, 4);
    Shift4(w);
  }

  /** The nibble that the loop of itoa_hex takes at step `i`. */
  lemma NibbleIs(value: Word, i: nat)
    requires i < 8
    ensures And(Shr(value, 28 - i * 4), 0xF) < 16 && |HexDigits(value, 8)| == 8
    ensures HexDigit(And(Shr(value, 28 - i * 4), 0xF)) == HexDigits(value, 8)[i]
  {
    NibbleOf(value, 8, i, 28 - i * 4);
  }

  lemma NibbleOf(value: Word, k: nat, i: nat, shift: nat)
    requires i < k && shift == 4 * (k - 1 - i)
    ensures And(Shr(value, shift), 0xF) < 16 && |HexDigits(value, k)| == k
    ensures HexDigit(And(Shr(value, shift), 0xF)) == HexDigits(value, k)[i]
  {
    HexDigitAt(value, k, i);
    Mask4(Shr(value, shift));
  }

  method ItoaHex(value: Word, buf: array<char>)
    requires buf.Length >= 11
    modifies buf
    ensures buf[..10] == "0x" + HexDigits(value, 8) && buf[10] == NUL && buf[11..] == old(buf[11..])
  {
    buf[0] := '0';
    buf[1] := 'x';
    HexDigitAt(value, 8, 0);
    for i := 0 to 8
      invariant buf[0] == '0' && buf[1] == 'x' && buf[11..] == old(buf[11..])
      invariant |HexDigits(value, 8)| == 8 && forall m :: 0 <= m < i ==> buf[m + 2] == HexDigits(value, 8)[m]
    {
      NibbleIs(value, i);
      var nibble := And(Shr(value, 28 - i * 4), 0xF);
      buf[i + 2] := HexDigit(nibble);
    }
    buf[10] := NUL;
  }
}

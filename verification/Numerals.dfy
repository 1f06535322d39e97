/** Number printing: itoa and the calculator's conversions between its display and its value. */
module Numerals {
  import opened Bits

  const INT_MIN: sint32 := -0x8000_0000

  /** The value a signed 32-bit variable holds after an operation whose exact result is x. */
  function Signed32(x: int): (w: sint32)
    ensures INT_MIN <= x < 0x8000_0000 ==> w == x
  {
    (x + 0x8000_0000) % TWO_32 - 0x8000_0000
  }

  function DigitChar(d: nat): char
    requires d < 16
  {
    if d < 10 then '0' + d as char else 'a' + (d - 10) as char
  }

  predicate IsDigit(c: char, base: nat) {
    ('0' <= c <= '9' && c as int - 48 < base) || ('a' <= c <= 'f' && c as int - 87 < base)
  }

  function DigitValue(c: char): int {
    if 'a' <= c then c as int - 87 else c as int - 48
  }

  /** The digits of n, most significant first. */
  function Numeral(n: nat, base: nat): (s: string)
    requires 2 <= base <= 16
    ensures |s| >= 1
  {
    if n < base then [DigitChar(n)] else Numeral(n / base, base) + [DigitChar(n % base)]
  }

  predicate Digits(s: string, base: nat) {
    forall i :: 0 <= i < |s| ==> IsDigit(s[i], base)
  }

  /** The number a digit string stands for, by place value. */
  function Value(s: string, base: nat): int {
    if s == "" then 0 else base * Value(s[..|s| - 1], base) + DigitValue(s[|s| - 1])
  }

  lemma ValueStep(s: string, c: char, base: nat)
    ensures Value("", base) == 0 && Value(s + [c], base) == base * Value(s, base) + DigitValue(c)
  {
    assert (s + [c])[..|s|] == s;
  }

  lemma DigitLaw(d: nat, base: nat)
    requires d < base <= 16
    ensures IsDigit(DigitChar(d), base) && DigitValue(DigitChar(d)) == d
    ensures DigitChar(d) == '0' ==> d == 0
  {
  }

  lemma DigitBound(c: char, base: nat)
    requires IsDigit(c, base) && base <= 16
    ensures 0 <= DigitValue(c) < base && DigitChar(DigitValue(c)) == c
    ensures c != '0' ==> DigitValue(c) > 0
  {
  }

  lemma DivMod(n: nat, base: nat)
    requires base > 1
    ensures n == base * (n / base) + n % base
    ensures n >= base ==> n / base > 0
  {
  }

  /** s is digits only, has no leading zero, and stands for n. */
  ghost predicate Canonical(s: string, n: nat, base: nat) {
    s != "" && Digits(s, base) && Value(s, base) == n && (s[0] == '0' ==> s == "0" && n == 0)
  }

  lemma OneDigitIsCanonical(n: nat, base: nat)
    requires n < base <= 16
    ensures Canonical([DigitChar(n)], n, base)
  {
    hide DigitChar, DigitValue, IsDigit;
    DigitLaw(n, base);
    ValueStep("", DigitChar(n), base);
    assert "" + [DigitChar(n)] == [DigitChar(n)];
  }

  /** A numeral is digits only, has no leading zero, and stands for its number. */
  lemma {:induction false} NumeralIsCanonical(n: nat, base: nat)
    requires 2 <= base <= 16
    ensures Canonical(Numeral(n, base), n, base)
    decreases n
  {
    hide Canonical, Numeral, DigitChar;
    NumeralUnfolds(n, base);
    if n < base {
      OneDigitIsCanonical(n, base);
    } else {
      NumeralIsCanonical(n / base, base);
      CanonicalStep(Numeral(n / base, base), n, base);
    }
  }

  lemma NumeralUnfolds(n: nat, base: nat)
    requires 2 <= base <= 16
    ensures Numeral(n, base) == if n < base then [DigitChar(n)] else Numeral(n / base, base) + [DigitChar(n % base)]
    ensures n < base ==> n % base == n
  {
    hide DigitChar;
  }

  lemma CanonicalStep(s: string, n: nat, base: nat)
    requires 2 <= base <= 16 && n >= base && Canonical(s, n / base, base)
    ensures Canonical(s + [DigitChar(n % base)], n, base)
  {
    hide DigitChar, DigitValue, IsDigit, Value;
    DivMod(n, base);
    DigitLaw(n % base, base);
    ValueStep(s, DigitChar(n % base), base);
  }

  /** It is the only such string. */
  lemma {:induction false} NumeralIsUnique(s: string, base: nat)
    requires 2 <= base <= 16 && s != "" && Digits(s, base) && (s[0] == '0' ==> s == "0")
    ensures Value(s, base) >= 0 && s == Numeral(Value(s, base), base)
    ensures s != "0" ==> Value(s, base) > 0
    decreases |s|
  {
    hide DigitChar, DigitValue, IsDigit, Numeral, Value;
    var front, c := s[..|s| - 1], s[|s| - 1];
    assert s == front + [c];
    if front == "" {
      assert s == [c];
      DigitIsUnique(c, base);
    } else {
      assert front[0] == s[0] != '0';
      NumeralIsUnique(front, base);
      UniqueStep(front, c, base);
    }
  }

  lemma DigitIsUnique(c: char, base: nat)
    requires 2 <= base <= 16 && IsDigit(c, base)
    ensures Value([c], base) >= 0 && [c] == Numeral(Value([c], base), base)
    ensures [c] != "0" ==> Value([c], base) > 0
  {
    hide DigitChar, DigitValue, IsDigit, Numeral, Value;
    DigitBound(c, base);
    ValueStep("", c, base);
    assert "" + [c] == [c];
    NumeralUnfolds(DigitValue(c), base);
  }

  lemma UniqueStep(front: string, c: char, base: nat)
    requires 2 <= base <= 16 && IsDigit(c, base) && Value(front, base) > 0 && front == Numeral(Value(front, base), base)
    ensures Value(front + [c], base) > 0 && front + [c] == Numeral(Value(front + [c], base), base)
  {
    hide DigitChar, DigitValue, IsDigit, Numeral, Value;
    DigitBound(c, base);
    ValueStep(front, c, base);
    NumeralGrows(Value(front, base), DigitValue(c), base);
  }

  /** One more digit at the end of a numeral. */
  lemma NumeralGrows(v: nat, d: nat, base: nat)
    requires d < base && 2 <= base <= 16 && v > 0
    ensures base * v + d > 0 && Numeral(base * v + d, base) == Numeral(v, base) + [DigitChar(d)]
  {
    hide Numeral, DigitChar;
    ProductGrows(base, v);
    DivModUnique(base * v + d, base, v, d);
    NumeralUnfolds(base * v + d, base);
  }

  lemma ProductGrows(a: nat, v: nat)
    requires v > 0
    ensures a <= a * v
  {
  }

  function Power(base: nat, k: nat): nat {
    if k == 0 then 1 else base * Power(base, k - 1)
  }

  lemma {:induction false} NumeralLength(n: nat, base: nat, k: nat)
    requires 2 <= base <= 16 && k >= 1 && n < Power(base, k)
    ensures |Numeral(n, base)| <= k
    decreases k
  {
    assert Power(base, 1) == base * Power(base, 0);
    if n >= base {
      if k > 1 {
        QuotientBelow(n, base, Power(base, k - 1));
        NumeralLength(n / base, base, k - 1);
      }
    }
  }

  lemma QuotientBelow(n: nat, base: nat, m: nat)
    requires base > 0 && n < base * m
    ensures n / base < m
  {
  }

  // ---- Reversal ----

  function Reverse(s: string): (r: string)
    ensures |r| == |s| && forall k :: 0 <= k < |s| ==> r[k] == s[|s| - 1 - k]
  {
    if s == "" then "" else Reverse(s[1..]) + [s[0]]
  }

  lemma ReverseIs(s: string, r: string)
    requires |r| == |s| && forall k :: 0 <= k < |s| ==> r[k] == s[|s| - 1 - k]
    ensures r == Reverse(s)
  {
    hide Reverse;
  }

  lemma ReverseAppend(s: string, c: char)
    ensures Reverse(s + [c]) == [c] + Reverse(s)
  {
    hide Reverse;
    ReverseIs(s + [c], [c] + Reverse(s));
  }

  /** itoa's swap loop over buf[lo..hi]. */
  method ReverseRange(buf: array<char>, lo: nat, hi: nat)
    requires lo < hi <= buf.Length
    modifies buf
    ensures buf[lo..hi] == Reverse(old(buf[lo..hi]))
    ensures buf[..lo] == old(buf[..lo]) && buf[hi..] == old(buf[hi..])
  {
    hide Reverse, Swapped;
    var p1, p2 := lo, hi - 1;
    NoneSwapped(buf[..], lo, hi);
    while p1 < p2
      invariant lo <= p1 <= hi && p1 + p2 == lo + hi - 1
      invariant Swapped(old(buf[..]), buf[..], lo, hi, p1, p2)
      decreases p2 - p1
    {
      SwapNext(old(buf[..]), buf[..], lo, hi, p1, p2);
      buf[p1], buf[p2] := buf[p2], buf[p1];
      p1, p2 := p1 + 1, p2 - 1;
    }
    AllSwapped(old(buf[..]), buf[..], lo, hi, p1, p2);
  }

  /** The places of s outside p1..p2 have been exchanged end for end within lo..hi, giving t. */
  ghost predicate Swapped(s: string, t: string, lo: nat, hi: nat, p1: int, p2: int)
    requires hi <= |s|
  {
    && |t| == |s|
    && forall k {:trigger t[k]} :: 0 <= k < |s| ==>
         t[k] == if lo <= k < hi && !(p1 <= k <= p2) then s[lo + hi - 1 - k] else s[k]
  }

  lemma NoneSwapped(s: string, lo: nat, hi: nat)
    requires lo < hi <= |s|
    ensures Swapped(s, s, lo, hi, lo, hi - 1)
  {
  }

  lemma SwapNext(s: string, t: string, lo: nat, hi: nat, p1: nat, p2: nat)
    requires hi <= |s| && Swapped(s, t, lo, hi, p1, p2)
    requires lo <= p1 < p2 && p1 + p2 == lo + hi - 1
    ensures Swapped(s, t[p1 := t[p2]][p2 := t[p1]], lo, hi, p1 + 1, p2 - 1)
  {
    var u := t[p1 := t[p2]][p2 := t[p1]];
    assert t[p1] == s[p1] && t[p2] == s[p2];
    forall k | 0 <= k < |s|
      ensures u[k] == if lo <= k < hi && !(p1 + 1 <= k <= p2 - 1) then s[lo + hi - 1 - k] else s[k]
    {
      assert k != p1 && k != p2 ==> u[k] == t[k];
    }
  }

  lemma AllSwapped(s: string, t: string, lo: nat, hi: nat, p1: int, p2: int)
    requires hi <= |s| && Swapped(s, t, lo, hi, p1, p2)
    requires lo <= p1 <= hi && p1 >= p2 && p1 + p2 == lo + hi - 1
    ensures t[lo..hi] == Reverse(s[lo..hi]) && t[..lo] == s[..lo] && t[hi..] == s[hi..]
  {
    hide Reverse;
    var before, after := s[lo..hi], t[lo..hi];
    forall k | 0 <= k < hi - lo ensures after[k] == before[hi - lo - 1 - k] {
      assert after[k] == t[lo + k];
    }
    ReverseIs(before, after);
    assert forall k :: 0 <= k < |s| && (k < lo || hi <= k) ==> t[k] == s[k];
  }

  // ---- itoa ----

  /** The magnitude itoa prints: the absolute value for a negative 'd', otherwise the bit pattern. */
  function Magnitude(base: char, d: sint32): uint32 {
    if base == 'd' && d < 0 then Wrap32(0 - d) else Wrap32(d)
  }

  function Divisor(base: char): nat {
    if base == 'x' then 16 else 10
  }

  function ItoaText(base: char, d: sint32): string {
    (if base == 'd' && d < 0 then "-" else "") + Numeral(Magnitude(base, d), Divisor(base))
  }

  /** buf holds s, NUL-terminated. */
  ghost predicate Holds(buf: array<char>, s: string)
    reads buf
  {
    |s| < buf.Length && buf[..|s|] == s && buf[|s|] == '\0'
  }

  /** itoa's digit loop: the least significant digit first, at least one digit. */
  method PutDigits(buf: array<char>, start: nat, n: nat, divisor: nat) returns (p: nat)
    requires 2 <= divisor <= 16 && start + |Numeral(n, divisor)| < buf.Length
    modifies buf
    ensures p == start + |Numeral(n, divisor)|
    ensures buf[start..p] == Reverse(Numeral(n, divisor)) && buf[..start] == old(buf[..start])
  {
    hide Reverse, DigitChar, Numeral;
    var ud: nat := n;
    p := start;
    var more := true;
    while more
      invariant start <= p < buf.Length && buf[..start] == old(buf[..start])
      invariant Numeral(n, divisor) == (if more then Numeral(ud, divisor) else "") + Reverse(buf[start..p])
      decreases more, ud
    {
      DigitStep(ud, divisor, buf[start..p]);
      ghost var before := buf[start..p];
      buf[p] := DigitChar(ud % divisor);
      p := p + 1;
      assert buf[start..p] == before + [DigitChar(ud % divisor)];
      ud := ud / divisor;
      more := ud != 0;
    }
    ReverseIs(Numeral(n, divisor), buf[start..p]);
  }

  lemma DigitStep(ud: nat, divisor: nat, done: string)
    requires 2 <= divisor <= 16
    ensures 0 <= ud % divisor < divisor && 0 <= ud / divisor && (ud / divisor != 0 ==> ud / divisor < ud)
    ensures Numeral(ud, divisor) + Reverse(done)
         == (if ud / divisor != 0 then Numeral(ud / divisor, divisor) else "")
            + Reverse(done + [DigitChar(ud % divisor)])
  {
    hide Reverse, DigitChar, Numeral;
    DivMod(ud, divisor);
    ReverseAppend(done, DigitChar(ud % divisor));
    DigitSplit(ud, divisor, Reverse(done));
    QuotientShrinks(ud, divisor);
  }

  lemma QuotientShrinks(n: nat, base: nat)
    requires base >= 2
    ensures n / base != 0 ==> n / base < n
  {
    DivMod(n, base);
  }

  lemma DigitSplit(ud: nat, divisor: nat, more: string)
    requires 2 <= divisor <= 16
    ensures Numeral(ud, divisor) + more
         == (if ud / divisor != 0 then Numeral(ud / divisor, divisor) else "") + ([DigitChar(ud % divisor)] + more)
  {
    hide DigitChar, Numeral;
    DivMod(ud, divisor);
    NumeralUnfolds(ud, divisor);
    if ud < divisor {
      assert ud / divisor == 0 && ud % divisor == ud;
    }
  }

  method Itoa(buf: array<char>, base: char, d: sint32)
    requires |ItoaText(base, d)| < buf.Length
    modifies buf
    ensures Holds(buf, ItoaText(base, d))
  {
    hide Numeral, Reverse;
    var p := 0;
    var divisor := 10;
    var ud: uint32 := Wrap32(d);
    if base == 'd' && d < 0 {
      buf[p] := '-';
      p := p + 1;
      ud := Wrap32(0 - d);
    } else if base == 'x' {
      divisor := 16;
    }
    var start := p;
    p := PutMagnitude(buf, start, ud, divisor);
    assert buf[..p] == buf[..start] + buf[start..p];
  }

  method PutMagnitude(buf: array<char>, start: nat, n: nat, divisor: nat) returns (p: nat)
    requires 2 <= divisor <= 16 && start + |Numeral(n, divisor)| < buf.Length
    modifies buf
    ensures p == start + |Numeral(n, divisor)| && buf[..start] == old(buf[..start])
    ensures buf[start..p] == Numeral(n, divisor) && buf[p] == '\0'
  {
    hide Numeral, Reverse;
    p := PutDigits(buf, start, n, divisor);
    buf[p] := '\0';
    ReverseTwice(Numeral(n, divisor));
    ReverseRange(buf, start, p);
    assert buf[p] == buf[p..][0] == '\0';
  }

  lemma ReverseTwice(s: string)
    ensures Reverse(Reverse(s)) == s
  {
    hide Reverse;
    ReverseIs(Reverse(s), s);
  }

  /** The signed number a printed decimal stands for. */
  function SignedValue(s: string): int {
    if s != "" && s[0] == '-' then 0 - Value(s[1..], 10) else Value(s, 10)
  }

  /** Printed as 'd' every number reads back, INT_MIN included; as 'x' its bit pattern does; and there is
      never a leading zero. */
  lemma ItoaReadsBack(d: sint32)
    ensures SignedValue(ItoaText('d', d)) == d
    ensures Value(ItoaText('x', d), 16) == d % TWO_32
    ensures ItoaText('d', d)[0] == '0' ==> d == 0 && ItoaText('d', d) == "0"
    ensures ItoaText('x', d)[0] == '0' ==> d == 0 && ItoaText('x', d) == "0"
  {
    hide Numeral, Magnitude, Value;
    MagnitudeIs(d);
    var n, x := Numeral(Magnitude('d', d), 10), Numeral(Magnitude('x', d), 16);
    NumeralIsCanonical(Magnitude('d', d), 10);
    NumeralIsCanonical(Magnitude('x', d), 16);
    assert ("-" + n)[1..] == n;
    assert IsDigit(n[0], 10);
    assert "" + n == n && "" + x == x;
  }

  lemma MagnitudeIs(d: sint32)
    ensures Magnitude('d', d) as int == (if d < 0 then 0 - d else d) && Magnitude('x', d) == d % TWO_32
    ensures Magnitude('x', d) == 0 <==> d == 0
  {
  }

  // ---- The calculator's display ----

  /** What int_to_str leaves in the display. Negating INT_MIN gives INT_MIN again, which has no
      positive digits to print. */
  function DisplayText(num: sint32): string {
    if num == INT_MIN then "-"
    else if num < 0 then "-" + Numeral(0 - num, 10)
    else Numeral(num, 10)
  }

  method IntToStr(num: sint32, buf: array<char>)
    requires |DisplayText(num)| < buf.Length
    modifies buf
    ensures Holds(buf, DisplayText(num))
  {
    hide Numeral, Reverse;
    if num == 0 {
      ZeroNumeral();
      buf[0] := '0';
      buf[1] := '\0';
      assert buf[..1] == "0";
      return;
    }
    PutSigned(num, buf);
  }

  /** int_to_str past its test for zero. */
  method PutSigned(num: sint32, buf: array<char>)
    requires num != 0 && |DisplayText(num)| < buf.Length
    modifies buf
    ensures Holds(buf, DisplayText(num))
  {
    hide Numeral, Reverse, DisplayText;
    DisplaySplits(num);
    var neg, n := false, num;
    if num < 0 {
      neg, n := true, Signed32(0 - num);
    }
    var tmp, i := TakeDigits(n);
    var pos := 0;
    if neg {
      buf[pos] := '-';
      pos := pos + 1;
    }
    ghost var start := pos;
    pos := PutBack(buf, pos, tmp, i);
    buf[pos] := '\0';
    assert buf[..pos] == buf[..start] + buf[start..pos];
  }

  /** int_to_str's second loop: the digits, last first. */
  method PutBack(buf: array<char>, start: nat, tmp: array<char>, count: nat) returns (pos: nat)
    requires count <= tmp.Length && start + count < buf.Length && buf != tmp
    modifies buf
    ensures pos == start + count
    ensures buf[..start] == old(buf[..start]) && buf[start..pos] == Reverse(tmp[..count])
  {
    hide Reverse;
    var i: nat := count;
    pos := start;
    while i > 0
      invariant i <= count && pos == start + count - i
      invariant buf[..start] == old(buf[..start])
      invariant forall k :: start <= k < pos ==> buf[k] == tmp[count - 1 - (k - start)]
    {
      i := i - 1;
      buf[pos] := tmp[i];
      pos := pos + 1;
    }
    ReverseIs(tmp[..count], buf[start..pos]);
  }

  lemma DisplaySplits(num: sint32)
    requires num != 0
    ensures var n := if num < 0 then Signed32(0 - num) else num;
            DisplayText(num) == (if num < 0 then "-" else "") + (if n > 0 then Numeral(n, 10) else "")
  {
    hide Numeral;
    assert num > 0 ==> "" + Numeral(num, 10) == Numeral(num, 10);
  }

  lemma ZeroNumeral()
    ensures Numeral(0, 10) == "0"
  {
  }

  /** int_to_str's digit loop; its buffer never fills, and a number that is not positive has no digits. */
  method TakeDigits(num: sint32) returns (tmp: array<char>, i: nat)
    ensures fresh(tmp) && i <= tmp.Length
    ensures Reverse(tmp[..i]) == if num > 0 then Numeral(num, 10) else ""
  {
    hide Reverse, DigitChar;
    tmp := new char[16];
    i := 0;
    var n: int := num;
    ghost var text := if num > 0 then Numeral(num, 10) else "";
    TenDigits(num);
    while n > 0 && i < 15
      invariant 0 <= n <= num || n == num <= 0
      invariant i <= 15
      invariant (if n > 0 then Numeral(n, 10) else "") + Reverse(tmp[..i]) == text
      decreases n
    {
      DigitSplit(n, 10, Reverse(tmp[..i]));
      ReverseAppend(tmp[..i], DigitChar(n % 10));
      ghost var before := tmp[..i];
      tmp[i] := '0' + (n % 10) as char;
      i := i + 1;
      assert tmp[..i] == before + [DigitChar(n % 10)] by { Decimal(n % 10); }
      n := n / 10;
    }
  }

  lemma Decimal(d: nat)
    requires d < 10
    ensures DigitChar(d) == '0' + d as char
  {
  }

  lemma TenDigits(num: sint32)
    ensures num > 0 ==> |Numeral(num, 10)| <= 10
  {
    hide Numeral;
    if num > 0 {
      assert Power(10, 5) == 100000;
      assert Power(10, 10) == 10000000000;
      NumeralLength(num, 10, 10);
    }
  }

  /** What parse_display makes of a display: each character counts by its distance from '0'. */
  function Accumulated(s: string): int {
    if s == "" then 0 else 10 * Accumulated(s[..|s| - 1]) + (s[|s| - 1] as int - 48)
  }

  function Parsed(s: string): sint32 {
    if s != "" && s[0] == '-' then Signed32(0 - Accumulated(s[1..])) else Signed32(Accumulated(s))
  }

  /** parse_display, on the display's characters before its NUL. */
  method ParseDisplay(display: array<char>, ghost text: string) returns (value: sint32)
    requires '\0' !in text && Holds(display, text)
    ensures value == Parsed(text)
  {
    hide Signed32, Accumulated, Holds, Parsed;
    var sign: sint32 := 1;
    var i := 0;
    HeldAt(display, text, 0);
    if display[0] == '-' {
      sign := -1;
      i := 1;
    }
    value := ParseDigits(display, i, text);
    SignCounts(text, value, i, sign);
    value := Signed32(value * sign);
  }

  /** parse_display's loop. */
  method ParseDigits(display: array<char>, start: nat, ghost text: string) returns (value: sint32)
    requires '\0' !in text && Holds(display, text) && start <= |text|
    ensures value == Signed32(Accumulated(text[start..]))
  {
    hide Signed32, Accumulated, Holds;
    value := 0;
    var i := start;
    NothingAccumulated();
    assert text[start..start] == "";
    HeldAt(display, text, i);
    while display[i] != '\0'
      invariant start <= i <= |text| < display.Length && display[i] == TextAt(text, i)
      invariant value == Signed32(Accumulated(text[start..i]))
      decreases |text| - i
    {
      AccumulateStep(text[start..i], display[i], value);
      assert text[start..i + 1] == text[start..i] + [text[i]];
      value := Signed32(value * 10 + (display[i] as int - 48));
      i := i + 1;
      HeldAt(display, text, i);
    }
    assert text[start..i] == text[start..];
  }

  /** The character at k of a NUL-terminated string. */
  function TextAt(text: string, k: nat): char {
    if k < |text| then text[k] else '\0'
  }

  lemma HeldAt(display: array<char>, text: string, k: nat)
    requires Holds(display, text) && k <= |text|
    ensures |text| < display.Length && display[k] == TextAt(text, k)
  {
    if k < |text| { assert display[k] == display[..|text|][k]; }
  }

  lemma SignCounts(text: string, value: sint32, start: nat, sign: sint32)
    requires start == (if TextAt(text, 0) == '-' then 1 else 0) && sign == 1 - 2 * start
    requires start <= |text| && value == Signed32(Accumulated(text[start..]))
    ensures Signed32(value * sign) == Parsed(text)
  {
    hide Signed32, Accumulated;
    NegateWraps(Accumulated(text[start..]));
    assert text[0..] == text;
  }

  lemma NothingAccumulated()
    ensures Accumulated("") == 0 && Signed32(0) == 0
  {
  }

  lemma SignedMod(x: int, y: int, q: int)
    requires x == y + q * TWO_32
    ensures Signed32(x) == Signed32(y)
  {
    var a, b := x + 0x8000_0000, y + 0x8000_0000;
    DivModUnique(a, TWO_32, b / TWO_32 + q, b % TWO_32);
  }

  lemma AccumulateStep(s: string, c: char, v: sint32)
    requires v == Signed32(Accumulated(s))
    ensures Signed32(v * 10 + (c as int - 48)) == Signed32(Accumulated(s + [c]))
  {
    assert (s + [c])[..|s|] == s;
    var a := Accumulated(s);
    var q := (a + 0x8000_0000) / TWO_32;
    assert a == v + q * TWO_32;
    SignedMod(10 * a + (c as int - 48), v * 10 + (c as int - 48), 10 * q);
  }

  lemma NegateWraps(a: int)
    ensures Signed32(0 - Signed32(a)) == Signed32(0 - a)
    ensures Signed32(Signed32(a)) == Signed32(a)
  {
    var v, q := Signed32(a), (a + 0x8000_0000) / TWO_32;
    assert a == v + q * TWO_32;
    SignedMod(0 - a, 0 - v, -q);
  }

  lemma {:induction false} DecimalsAccumulate(s: string)
    requires Digits(s, 10)
    ensures Accumulated(s) == Value(s, 10)
    decreases |s|
  {
    if s != "" {
      DecimalsAccumulate(s[..|s| - 1]);
      assert IsDigit(s[|s| - 1], 10);
    }
  }

  lemma NumeralParses(n: nat)
    requires n < 0x8000_0000
    ensures Parsed(Numeral(n, 10)) == n && Parsed("-" + Numeral(n, 10)) == 0 - n
  {
    hide Numeral, Accumulated;
    var s := Numeral(n, 10);
    NumeralIsCanonical(n, 10);
    DecimalsAccumulate(s);
    assert IsDigit(s[0], 10);
    assert ("-" + s)[1..] == s;
  }

  /** Printing a value and reading the display back gives the value, unless it is INT_MIN. */
  lemma DisplayRoundTrip(num: sint32)
    ensures Parsed(DisplayText(num)) == num <==> num != INT_MIN
    ensures Parsed(DisplayText(INT_MIN)) == 0
  {
    hide Numeral, Parsed;
    LoneSign();
    if num != INT_MIN {
      NumeralParses(if num < 0 then 0 - num else num);
    }
  }

  lemma LoneSign()
    ensures Parsed("-") == 0
  {
    assert "-"[1..] == "";
  }
}

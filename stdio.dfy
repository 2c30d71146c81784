/** The bounded formatter of Kernel/stdio.c: printf renders into a local
    buffer of PRINTF_MAX_LENGTH + 1 characters through one appender per
    conversion, each keeping the count within PRINTF_MAX_LENGTH except the
    nil branch of fmt_p, which can take it to 256 or 257. */
module Stdio {

  /** PRINTF_MAX_LENGTH (line 10); the buffer holds one more character
      for the terminating NUL. */
  const MAX: int := 255
  const BUFFER: int := 256

  /** A `const char*` argument: NULL, or the characters before its NUL. */
  datatype Text = Null | Chars(s: seq<char>)

  /** A variadic argument, by the type va_arg reads it as: int (long has
      the same width on this target), long long, a pointer, a string. */
  datatype Arg = Int(i: int) | LongLong(ll: int) | Pointer(addr: int) | Str(text: Text)

  /** A format, read as literal characters and conversions; `longs` counts
      the 'l' width specifiers before the conversion character. */
  datatype Token = Lit(c: char) | Conv(longs: nat, c: char)

  function Min(a: int, b: int): int { if a < b then a else b }

  /** The first `k` characters of `s`, or all of them. */
  function Clip(s: seq<char>, k: nat): (r: seq<char>)
    ensures |r| == Min(|s|, k) && r == s[..|r|]
  {
    if |s| <= k then s else s[..k]
  }

  // ---------------------------------------------------------------------------
  // Hexadecimal digits

  predicate IsLowerDigit(c: char) { '0' <= c <= '9' || 'a' <= c <= 'f' }
  predicate IsUpperDigit(c: char) { '0' <= c <= '9' || 'A' <= c <= 'F' }

  /** Lines 29-32: a nibble as a lowercase digit. */
  function Lower(n: int): (c: char)
    requires 0 <= n < 16
    ensures IsLowerDigit(c) && Nibble(c) == n
  {
    var c := n + '0' as int;
    if c > '9' as int then (c + ('a' as int - '9' as int - 1)) as char else c as char
  }

  /** Lines 357-368: a nibble as an uppercase digit. */
  function Upper(n: int): (c: char)
    requires 0 <= n < 16
    ensures IsUpperDigit(c) && Nibble(c) == n
  {
    var c := n + '0' as int;
    if c > '9' as int then (c + ('A' as int - '9' as int - 1)) as char else c as char
  }

  /** The value of a hexadecimal digit of either case. */
  function Nibble(c: char): (n: int)
    ensures 0 <= n < 16
  {
    if '0' <= c <= '9' then c as int - '0' as int
    else if 'a' <= c <= 'f' then c as int - 'a' as int + 10
    else if 'A' <= c <= 'F' then c as int - 'A' as int + 10
    else 0
  }

  /** The digit value as a 32-bit word. */
  function DigitValue(c: char): bv32
  {
    Nibble(c) as bv32
  }

  /** One more digit below the ones already read. */
  function Shift4(acc: bv32, d: bv32): bv32
  {
    (acc << 4) | d
  }

  /** `val <<= 4` (line 35). */
  function Shl(val: bv32): bv32
  {
    val << 4
  }

  /** Reading hexadecimal digits back, most significant first. */
  function ParseHex(acc: bv32, s: seq<char>): bv32
    decreases |s|
  {
    if s == [] then acc else ParseHex(Shift4(acc, DigitValue(s[0])), s[1..])
  }

  /** The top nibble of a 32-bit value (line 29). */
  function Top(val: bv32): bv32
  {
    (val & 0xF000_0000) >> 28
  }

  /** The top nibble as a number. */
  function TopNibble(val: bv32): (n: int)
    ensures 0 <= n < 16
  {
    assert Top(val) < 16;
    Top(val) as int
  }

  /** The `k` digits the hex32 loop emits from `val`: the top nibble, then
      the rest of the value shifted up by a nibble (lines 27-36). */
  function DigitsOf(val: bv32, k: nat): (r: seq<char>)
    ensures |r| == k
    decreases k
  {
    if k == 0 then [] else [Lower(TopNibble(val))] + DigitsOf(Shl(val), k - 1)
  }

  /** The eight lowercase digits of `v`, most significant first. */
  function HexDigits(v: bv32): (r: seq<char>)
    ensures |r| == 8
  {
    DigitsOf(v, 8)
  }

  lemma {:induction false} LowerDigits(val: bv32, k: nat)
    ensures forall i :: 0 <= i < k ==> IsLowerDigit(DigitsOf(val, k)[i])
    decreases k
  {
    if k > 0 {
      LowerDigits(Shl(val), k - 1);
      assert forall i :: 1 <= i < k ==> DigitsOf(val, k)[i] == DigitsOf(Shl(val), k - 1)[i - 1];
    }
  }

  lemma Unconvert(x: bv32)
    requires x < 16
    ensures (x as int) as bv32 == x
  {
  }

  lemma ParseStep(acc: bv32, val: bv32, k: nat)
    requires k > 0
    ensures ParseHex(acc, DigitsOf(val, k)) == ParseHex(Shift4(acc, Top(val)), DigitsOf(Shl(val), k - 1))
  {
    Unconvert(Top(val));
    assert DigitsOf(val, k)[1..] == DigitsOf(Shl(val), k - 1);
  }

  /** What reading the `k` digits of `val` after `acc` gives, step by step. */
  function Acc(acc: bv32, val: bv32, k: nat): bv32
    decreases k
  {
    if k == 0 then acc else Acc(Shift4(acc, Top(val)), Shl(val), k - 1)
  }

  lemma {:induction false} ParseAcc(acc: bv32, val: bv32, k: nat)
    ensures ParseHex(acc, DigitsOf(val, k)) == Acc(acc, val, k)
    decreases k
  {
    if k > 0 {
      ParseStep(acc, val, k);
      ParseAcc(Shift4(acc, Top(val)), Shl(val), k - 1);
    }
  }

  /** The word the eight nibbles of `v` rebuild, each moved down from the top. */
  function Rebuilt(v: bv32): bv32
  {
    var v1 := Shl(v);
    var v2 := Shl(v1);
    var v3 := Shl(v2);
    var v4 := Shl(v3);
    var v5 := Shl(v4);
    var v6 := Shl(v5);
    var v7 := Shl(v6);
    Shift4(Shift4(Shift4(Shift4(Shift4(Shift4(Shift4(Shift4(0,
      Top(v)), Top(v1)), Top(v2)), Top(v3)), Top(v4)), Top(v5)), Top(v6)), Top(v7))
  }

  lemma Rebuilds(v: bv32)
    ensures Rebuilt(v) == v
  {
  }

  lemma AccEight(v: bv32)
    ensures Acc(0, v, 8) == Rebuilt(v)
  {
  }

  /** The eight digits read back as the value they were made from. */
  lemma HexRoundTrip(v: bv32)
    ensures ParseHex(0, HexDigits(v)) == v
  {
    ParseAcc(0, v, 8);
    AccEight(v);
    Rebuilds(v);
  }

  /** Two's complement of a 32-bit int, as the uint32_t conversion gives. */
  function Word(i: int): bv32
    requires -0x8000_0000 <= i < 0x1_0000_0000
  {
    (if i < 0 then i + 0x1_0000_0000 else i) as bv32
  }

  /** terminal_hex_byte (lines 355-372): the two uppercase digits of a
      byte, high nibble (`byte >> 4`) first, then `byte & 0x0F`. */
  function HexByte(b: int): (r: seq<char>)
    requires 0 <= b < 256
    ensures |r| == 2
  {
    [Upper(b / 16), Upper(b % 16)]
  }

  /** The two digits are uppercase and read back as the byte. */
  lemma HexByteRoundTrip(b: int)
    requires 0 <= b < 256
    ensures 16 * Nibble(HexByte(b)[0]) + Nibble(HexByte(b)[1]) == b
    ensures forall k :: 0 <= k < 2 ==> IsUpperDigit(HexByte(b)[k])
  {
  }

  // ---------------------------------------------------------------------------
  // Decimal digits

  function Pow10(j: nat): (p: nat)
    ensures p >= 1
  {
    if j == 0 then 1 else 10 * Pow10(j - 1)
  }

  /** C division and remainder by a positive divisor, truncating toward
      zero. */
  function CDiv(a: int, b: int): int
    requires b > 0
  {
    if a >= 0 then a / b else -((-a) / b)
  }

  function CRem(a: int, b: int): int
    requires b > 0
  {
    if a >= 0 then a % b else -((-a) % b)
  }

  function Abs(a: int): nat { if a < 0 then -a else a }

  /** A decimal digit as a character (line 158). */
  function DecChar(d: int): char
    requires 0 <= d < 10
  {
    (d + '0' as int) as char
  }

  lemma Split(m: nat, j: nat)
    requires m < Pow10(j + 1)
    ensures 0 <= m / Pow10(j) < 10 && 0 <= m % Pow10(j) < Pow10(j)
    ensures m == (m / Pow10(j)) * Pow10(j) + m % Pow10(j)
  {
    var p := Pow10(j);
    assert Pow10(j + 1) == 10 * p;
    NonNeg(m, p);
    Below(m, p);
  }

  lemma NonNeg(m: int, p: int)
    requires m >= 0 && p > 0
    ensures m / p >= 0 && 0 <= m % p < p && m == (m / p) * p + m % p
  {
  }

  lemma Below(m: int, p: int)
    requires p > 0 && 0 <= m < 10 * p
    ensures m / p < 10
  {
  }

  /** Lines 147-169 on the magnitude: the digits fmt_d emits for the
      significances 10^j down to 1, skipping zeros while `lead` holds
      save the last. */
  function Significant(m: nat, j: int, lead: bool): seq<char>
    requires j >= -1 && m < Pow10(j + 1)
    decreases j + 1
  {
    if j < 0 then []
    else
      Split(m, j);
      var d := m / Pow10(j);
      if d != 0 || !lead || j == 0 then [DecChar(d)] + Significant(m % Pow10(j), j - 1, false)
      else Significant(m % Pow10(j), j - 1, true)
  }

  /** One significance of `Significant`: the digit, if it is written, then
      the lower significances. */
  lemma SignificantStep(m: nat, j: nat, lead: bool)
    requires m < Pow10(j + 1)
    ensures var d := m / Pow10(j);
      var emit := d != 0 || !lead || j == 0;
      && 0 <= d < 10 && m % Pow10(j) < Pow10(j)
      && Significant(m, j, lead) == (if emit then [DecChar(d)] else []) + Significant(m % Pow10(j), j - 1, lead && !emit)
  {
    Split(m, j);
  }

  /** The decimal digits of a magnitude below 10^10, as fmt_d emits them. */
  function Decimal(n: nat): seq<char>
    requires n < 10_000_000_000
  {
    Pow10Values();
    Significant(n, 9, true)
  }

  lemma Pow10Values()
    ensures Pow10(9) == 1_000_000_000 && Pow10(10) == 10_000_000_000
  {
  }

  function DecValue(s: seq<char>): int
  {
    if |s| == 0 then 0 else DecValue(s[..|s| - 1]) * 10 + (s[|s| - 1] as int - '0' as int)
  }

  predicate AllDigits(s: seq<char>)
  {
    forall k :: 0 <= k < |s| ==> '0' <= s[k] <= '9'
  }

  lemma {:induction false} DecValuePrepend(c: char, s: seq<char>)
    ensures DecValue([c] + s) == (c as int - '0' as int) * Pow10(|s|) + DecValue(s)
    decreases |s|
  {
    if |s| > 0 {
      var t := [c] + s;
      assert t[..|t| - 1] == [c] + s[..|s| - 1];
      DecValuePrepend(c, s[..|s| - 1]);
      Distribute(c as int - '0' as int, Pow10(|s| - 1));
    }
  }

  lemma PrependDigit(d: int, rest: seq<char>)
    requires 0 <= d < 10
    ensures DecValue([DecChar(d)] + rest) == d * Pow10(|rest|) + DecValue(rest)
  {
    DecValuePrepend(DecChar(d), rest);
  }

  lemma Distribute(a: int, b: int)
    ensures (a * b) * 10 == a * (10 * b)
  {
  }

  lemma {:induction false} SignificantShape(m: nat, j: int, lead: bool)
    requires j >= -1 && m < Pow10(j + 1)
    ensures AllDigits(Significant(m, j, lead))
    ensures !lead ==> |Significant(m, j, lead)| == j + 1
    ensures lead && j >= 0 ==> |Significant(m, j, lead)| > 0
    decreases j + 1
  {
    if j >= 0 {
      Split(m, j);
      SignificantShape(m % Pow10(j), j - 1, false);
      SignificantShape(m % Pow10(j), j - 1, true);
    }
  }

  lemma {:induction false} SignificantValue(m: nat, j: int, lead: bool)
    requires j >= -1 && m < Pow10(j + 1)
    ensures DecValue(Significant(m, j, lead)) == m
    decreases j + 1
  {
    if j >= 0 {
      Split(m, j);
      var d := m / Pow10(j);
      if d != 0 || !lead || j == 0 {
        SignificantValue(m % Pow10(j), j - 1, false);
        EmitValue(m, j, lead);
      } else {
        SignificantValue(m % Pow10(j), j - 1, true);
      }
    }
  }

  lemma EmitValue(m: nat, j: nat, lead: bool)
    requires m < Pow10(j + 1)
    requires m / Pow10(j) != 0 || !lead || j == 0
    requires DecValue(Significant(m % Pow10(j), j - 1, false)) == m % Pow10(j)
    ensures DecValue(Significant(m, j, lead)) == m
  {
    Split(m, j);
    var rest := Significant(m % Pow10(j), j - 1, false);
    SignificantShape(m % Pow10(j), j - 1, false);
    PrependDigit(m / Pow10(j), rest);
  }

  lemma {:induction false} SignificantLead(m: nat, j: int)
    requires j >= -1 && m < Pow10(j + 1)
    ensures |Significant(m, j, true)| > 1 ==> Significant(m, j, true)[0] != '0'
    decreases j + 1
  {
    if j >= 0 {
      Split(m, j);
      if m / Pow10(j) == 0 && j != 0 {
        SignificantLead(m % Pow10(j), j - 1);
      }
    }
  }

  /** fmt_d's digits are the decimal numeral of the magnitude: they read
      back as it, and only zero itself begins with '0'. */
  lemma DecimalMeaning(n: nat)
    requires n < 10_000_000_000
    ensures DecValue(Decimal(n)) == n && AllDigits(Decimal(n))
    ensures |Decimal(n)| > 0 && (Decimal(n)[0] == '0' ==> Decimal(n) == "0")
  {
    Pow10Values();
    SignificantShape(n, 9, true);
    SignificantValue(n, 9, true);
    SignificantLead(n, 9);
    if Decimal(n)[0] == '0' {
      assert |Decimal(n)| == 1;
      assert Decimal(n) == [Decimal(n)[0]];
    }
  }

  // ---------------------------------------------------------------------------
  // What each appender leaves in the buffer, as text

  /** What every appender keeps: the characters already in the buffer stay,
      and the count stays within PRINTF_MAX_LENGTH. */
  predicate Extends(t: seq<char>, r: seq<char>)
  {
    |t| <= |r| <= MAX && r[..|t|] == t
  }

  /** printf_handle_fmt_hex32 (lines 23-38). */
  function Hex32Text(t: seq<char>, v: bv32): (r: seq<char>)
    requires |t| <= MAX
    ensures Extends(t, r)
  {
    if |t| + 8 <= MAX then t + HexDigits(v) else t
  }

  predicate Int64(ll: int) { -0x8000_0000_0000_0000 <= ll < 0x8000_0000_0000_0000 }

  /** The two's complement of a long long, as an unsigned 64-bit value. */
  function Unsigned64(ll: int): (u: int)
    requires Int64(ll)
    ensures 0 <= u < 0x1_0000_0000_0000_0000 && u % 0x1_0000_0000_0000_0000 == ll % 0x1_0000_0000_0000_0000
  {
    if ll < 0 then ll + 0x1_0000_0000_0000_0000 else ll
  }

  /** `(val >> 32) & 0xFFFFFFFF` (line 103). */
  function High(ll: int): (h: int)
    requires Int64(ll)
    ensures 0 <= h < 0x1_0000_0000
  {
    Unsigned64(ll) / 0x1_0000_0000
  }

  /** `val & 0xFFFFFFFF` (line 104). */
  function Low(ll: int): (l: int)
    requires Int64(ll)
    ensures 0 <= l < 0x1_0000_0000
  {
    Unsigned64(ll) % 0x1_0000_0000
  }

  /** The halves put back together are the long long's 64 bits. */
  lemma HalvesRecombine(ll: int)
    requires Int64(ll)
    ensures High(ll) * 0x1_0000_0000 + Low(ll) == Unsigned64(ll)
    ensures ll >= 0 ==> High(ll) * 0x1_0000_0000 + Low(ll) == ll
  {
  }

  /** printf_handle_fmt_llx (lines 101-105): the high half, then the low
      half, of the two's complement. */
  function LlxText(t: seq<char>, ll: int): (r: seq<char>)
    requires |t| <= MAX && Int64(ll)
    ensures Extends(t, r)
  {
    Hex32Text(Hex32Text(t, High(ll) as bv32), Low(ll) as bv32)
  }

  /** printf_handle_fmt_p (lines 47-67) with the nil guard the code
      evidently means: "nil" only when all three characters fit. */
  function PointerText(t: seq<char>, addr: int): (r: seq<char>)
    requires |t| <= MAX && 0 <= addr < 0x1_0000_0000
    ensures Extends(t, r)
  {
    if addr != 0 then (if |t| + 2 <= MAX then Hex32Text(t + "0x", addr as bv32) else t)
    else if |t| + 3 <= MAX then t + "nil" else t
  }

  /** printf_handle_fmt_p as written: the guard `*pCnt + 3` at line 60 is
      nonzero for every count the buffer can have, so "nil" is always
      appended. */
  function PointerTextAsWritten(t: seq<char>, addr: int): (r: seq<char>)
    requires |t| <= MAX && 0 <= addr < 0x1_0000_0000
    ensures addr != 0 ==> Extends(t, r)
    ensures addr == 0 ==> |r| == |t| + 3 && r[..|t|] == t
  {
    if addr != 0 then (if |t| + 2 <= MAX then Hex32Text(t + "0x", addr as bv32) else t)
    else if |t| + 3 != 0 then t + "nil" else t
  }

  /** printf_handle_fmt_s (lines 114-121). */
  function StringText(t: seq<char>, x: Text): (r: seq<char>)
    requires |t| <= MAX
    ensures Extends(t, r)
  {
    match x
    case Null => t
    case Chars(s) => t + s[..Min(|s|, MAX - |t|)]
  }

  /** printf_handle_fmt_d (lines 130-170): the sign and the numeral,
      clipped where the buffer fills. */
  function DecimalText(t: seq<char>, i: int): (r: seq<char>)
    requires |t| <= MAX && Int32(i)
    ensures Extends(t, r)
  {
    Clip(t + Sign(i) + Decimal(Abs(i)), MAX)
  }

  function Sign(i: int): (s: seq<char>)
    ensures |s| <= 1
  {
    if i < 0 then "-" else ""
  }

  // ---------------------------------------------------------------------------
  // Properties of the appenders

  /** hex32 appends all eight digits when they fit and nothing otherwise. */
  lemma Hex32Appends(t: seq<char>, v: bv32)
    requires |t| <= MAX
    ensures |t| + 8 <= MAX ==> Hex32Text(t, v) == t + HexDigits(v) && ParseHex(0, Hex32Text(t, v)[|t|..]) == v
    ensures |t| + 8 > MAX ==> Hex32Text(t, v) == t
  {
    if |t| + 8 <= MAX {
      assert Hex32Text(t, v)[|t|..] == HexDigits(v);
      HexRoundTrip(v);
    }
  }

  /** llx prints both halves when sixteen digits fit, only the high half
      when just eight do, and nothing otherwise. */
  lemma LlxHalves(t: seq<char>, ll: int)
    requires |t| <= MAX && Int64(ll)
    ensures var hi := HexDigits(High(ll) as bv32);
            var lo := HexDigits(Low(ll) as bv32);
            (|t| + 16 <= MAX ==> LlxText(t, ll) == t + hi + lo)
            && (|t| + 8 <= MAX < |t| + 16 ==> LlxText(t, ll) == t + hi)
            && (MAX < |t| + 8 ==> LlxText(t, ll) == t)
  {
  }

  /** A non-null pointer is "0x" and its eight digits when all fit; "0x"
      alone when only the prefix fits; NULL is "nil" when it fits. */
  lemma PointerCases(t: seq<char>, addr: int)
    requires |t| <= MAX && 0 <= addr < 0x1_0000_0000
    ensures addr != 0 && |t| + 10 <= MAX ==> PointerText(t, addr) == t + "0x" + HexDigits(addr as bv32)
    ensures addr != 0 && |t| + 2 <= MAX < |t| + 10 ==> PointerText(t, addr) == t + "0x"
    ensures addr == 0 && |t| + 3 <= MAX ==> PointerText(t, addr) == t + "nil"
  {
  }

  /** The nil branch as written appends three characters even to a count
      of 254, so the last one lands at index 256, past the buffer, and
      the count passes PRINTF_MAX_LENGTH. */
  lemma NilOverrunsBuffer(t: seq<char>)
    requires |t| == MAX - 1
    ensures |PointerTextAsWritten(t, 0)| == BUFFER + 1
    ensures |PointerText(t, 0)| == MAX - 1
  {
  }

  /** A string is copied up to its end or until the count reaches 255. */
  lemma StringCopied(t: seq<char>, s: seq<char>)
    requires |t| <= MAX
    ensures |StringText(t, Chars(s))| == Min(|t| + |s|, MAX)
    ensures |t| + |s| <= MAX ==> StringText(t, Chars(s)) == t + s
  {
    assert |t| + |s| <= MAX ==> s[..|s|] == s;
  }

  /** The decimal text is the sign and the numeral when they fit; it
      never takes the count past 255. */
  lemma DecimalFits(t: seq<char>, i: int)
    requires |t| <= MAX && Int32(i)
    ensures |t| <= |DecimalText(t, i)| <= MAX && DecimalText(t, i)[..|t|] == t
    ensures |t| + |Sign(i)| + |Decimal(Abs(i))| <= MAX ==>
              DecimalText(t, i) == t + Sign(i) + Decimal(Abs(i)) && DecValue(Decimal(Abs(i))) == Abs(i)
  {
    DecimalMeaning(Abs(i));
  }

  // ---------------------------------------------------------------------------
  // Format strings

  /** Lines 192-205: the index of the conversion character after the
      optional two 'l' width specifiers that start at `p`. */
  function ConvAt(fmt: seq<char>, p: nat): (j: nat)
    ensures p <= j <= p + 2
  {
    var j1 := if p < |fmt| && fmt[p] == 'l' then p + 1 else p;
    if j1 < |fmt| && fmt[j1] == 'l' then j1 + 1 else j1
  }

  /** The tokens of fmt[i..]; Malformed when a '%' has no conversion character
      before the end, where printf would step past the terminator. */
  function Scan(fmt: seq<char>, i: nat): Scanned
    decreases |fmt| - i
  {
    if i >= |fmt| then Wellformed([])
    else if fmt[i] != '%' then
      match Scan(fmt, i + 1)
      case Malformed => Malformed
      case Wellformed(ts) => Wellformed([Lit(fmt[i])] + ts)
    else
      var j := ConvAt(fmt, i + 1);
      if j >= |fmt| then Malformed
      else
        match Scan(fmt, j + 1)
        case Malformed => Malformed
        case Wellformed(ts) => Wellformed([Conv(j - i - 1, fmt[j])] + ts)
  }

  /** The outcome of scanning a format string. */
  datatype Scanned = Malformed | Wellformed(tokens: seq<Token>)

  function Repeat(c: char, n: nat): (r: seq<char>)
    ensures |r| == n && forall k :: 0 <= k < n ==> r[k] == c
  {
    if n == 0 then [] else [c] + Repeat(c, n - 1)
  }

  /** The characters a token stands for. */
  function Spell(ts: seq<Token>): seq<char>
  {
    if ts == [] then []
    else
      match ts[0]
      case Lit(c) => [c] + Spell(ts[1..])
      case Conv(n, c) => "%" + Repeat('l', n) + [c] + Spell(ts[1..])
  }

  /** Scanning loses nothing: the tokens spell the format back. */
  lemma {:induction false} ScanSpells(fmt: seq<char>, i: nat)
    requires i <= |fmt| && Scan(fmt, i).Wellformed?
    ensures Spell(Scan(fmt, i).tokens) == fmt[i..]
    decreases |fmt| - i
  {
    if i < |fmt| {
      var ts := Scan(fmt, i).tokens;
      if fmt[i] != '%' {
        ScanSpells(fmt, i + 1);
        assert ts[1..] == Scan(fmt, i + 1).tokens;
        assert fmt[i..] == [fmt[i]] + fmt[i + 1..];
      } else {
        var j := ConvAt(fmt, i + 1);
        ScanSpells(fmt, j + 1);
        assert ts[1..] == Scan(fmt, j + 1).tokens;
        assert fmt[i + 1..j] == Repeat('l', j - i - 1);
        assert fmt[i..] == "%" + fmt[i + 1..j] + [fmt[j]] + fmt[j + 1..];
      }
    }
  }

  /** A conversion that reads an argument. */
  predicate Takes(tok: Token)
  {
    tok.Conv? && tok.c in "pxXsd"
  }

  predicate Int32(i: int) { -0x8000_0000 <= i < 0x8000_0000 }

  /** The argument has the type the conversion reads with va_arg. */
  predicate Suits(tok: Token, arg: Arg)
    requires Takes(tok)
  {
    match tok.c
    case 'p' => arg.Pointer? && 0 <= arg.addr < 0x1_0000_0000
    case 's' => arg.Str? && (arg.text.Chars? ==> '\0' !in arg.text.s)
    case 'd' => arg.Int? && Int32(arg.i)
    case _ =>
      if tok.longs >= 2 then arg.LongLong? && Int64(arg.ll)
      else arg.Int? && Int32(arg.i)
  }

  /** Every conversion has an argument of its type, in order. */
  predicate Fits(ts: seq<Token>, args: seq<Arg>)
    decreases |ts|
  {
    if ts == [] then true
    else if Takes(ts[0]) then |args| > 0 && Suits(ts[0], args[0]) && Fits(ts[1..], args[1..])
    else Fits(ts[1..], args)
  }

  /** A `%p` directive fed a null pointer: the one conversion whose output
      is not bounded by PRINTF_MAX_LENGTH. */
  predicate NullPointer(tok: Token, args: seq<Arg>)
    requires Takes(tok) ==> |args| > 0
  {
    tok.Conv? && tok.c == 'p' && args[0] == Pointer(0)
  }

  /** One token's output (lines 211-241 and 269-271) and the arguments
      left after it, with printf_handle_fmt_p as written. */
  function Emit(t: seq<char>, tok: Token, args: seq<Arg>): (seq<char>, seq<Arg>)
    requires |t| < MAX
    requires Takes(tok) ==> |args| > 0 && Suits(tok, args[0])
  {
    match tok
    case Lit(c) => (t + [c], args)
    case Conv(n, c) =>
      if c == 'p' then (PointerTextAsWritten(t, args[0].addr), args[1..])
      else if c == 'x' || c == 'X' then
        (if n >= 2 then LlxText(t, args[0].ll) else Hex32Text(t, Word(args[0].i)), args[1..])
      else if c == 's' then (StringText(t, args[0].text), args[1..])
      else if c == 'd' then (DecimalText(t, args[0].i), args[1..])
      else if c == '%' then (t + ['%'], args)
      else (t, args)
  }

  /** A directive keeps what the buffer holds and, except for a null `%p`,
      stays within 255 characters; a null `%p` appends "nil" whatever the
      count. One argument is consumed exactly when the directive converts
      one. */
  lemma EmitBounded(t: seq<char>, tok: Token, args: seq<Arg>)
    requires |t| < MAX
    requires Takes(tok) ==> |args| > 0 && Suits(tok, args[0])
    ensures !NullPointer(tok, args) ==> Extends(t, Emit(t, tok, args).0)
    ensures NullPointer(tok, args) ==> Emit(t, tok, args).0 == t + "nil"
    ensures Emit(t, tok, args).1 == if Takes(tok) then args[1..] else args
  {
    if NullPointer(tok, args) {
      var r := Emit(t, tok, args).0;
      assert |r| == |t| + 3 && r[..|t|] == t;
      assert r[|t|..] == "nil";
      assert r == r[..|t|] + r[|t|..];
    }
  }

  /** printf's output (lines 260-276): the tokens in order, each through
      its appender, stopping once the count reaches 255. */
  function Render(t: seq<char>, ts: seq<Token>, args: seq<Arg>): seq<char>
    requires |t| < MAX && Fits(ts, args)
    decreases |ts|
  {
    if ts == [] then t
    else
      var (t2, rest) := Emit(t, ts[0], args);
      EmitBounded(t, ts[0], args);
      if |t2| >= MAX then t2 else Render(t2, ts[1..], rest)
  }

  /** The rendering keeps what was already there; it passes 255
      characters only by a null `%p` at a count of 253 or 254, which leaves
      "nil" at its end and the count at 256 or 257. */
  lemma {:induction false} RenderBounded(t: seq<char>, ts: seq<Token>, args: seq<Arg>)
    requires |t| < MAX && Fits(ts, args)
    ensures var r := Render(t, ts, args);
            |t| <= |r| <= BUFFER + 1 && r[..|t|] == t
            && (|r| > MAX ==> |r| - 3 >= MAX - 2 && r[|r| - 3..] == "nil")
    decreases |ts|
  {
    if ts != [] {
      EmitBounded(t, ts[0], args);
      var (t2, rest) := Emit(t, ts[0], args);
      if |t2| < MAX {
        RenderBounded(t2, ts[1..], rest);
        var r := Render(t2, ts[1..], rest);
        assert r[..|t|] == r[..|t2|][..|t|];
      } else if |t2| > MAX {
        assert t2[|t2| - 3..] == "nil";
      }
    }
  }

  /** After 253 characters a null `%p` fills the buffer with "nil" and
      ends the walk at count 256: printf then caps the count at 255, which
      leaves "ni" of it in the output. */
  lemma NilClipped(t: seq<char>, rest: seq<Token>, args: seq<Arg>)
    requires |t| == MAX - 2 && Fits(rest, args)
    ensures Fits([Conv(0, 'p')] + rest, [Pointer(0)] + args)
    ensures var r := Render(t, [Conv(0, 'p')] + rest, [Pointer(0)] + args);
            r == t + "nil" && Min(|r|, MAX) == MAX && r[..MAX] == t + "ni"
  {
    assert ([Conv(0, 'p')] + rest)[1..] == rest && ([Pointer(0)] + args)[1..] == args;
    EmitBounded(t, Conv(0, 'p'), [Pointer(0)] + args);
    assert (t + "nil")[..MAX] == t + "ni";
  }

  /** The tokens of a stretch of literal characters. */
  function Lits(s: seq<char>): (r: seq<Token>)
    ensures |r| == |s| && forall k :: 0 <= k < |s| ==> r[k] == Lit(s[k])
  {
    seq(|s|, k requires 0 <= k < |s| => Lit(s[k]))
  }

  lemma {:induction false} PlainScan(fmt: seq<char>, i: nat)
    requires i <= |fmt| && forall k :: i <= k < |fmt| ==> fmt[k] != '%'
    ensures Scan(fmt, i) == Wellformed(Lits(fmt[i..]))
    decreases |fmt| - i
  {
    if i < |fmt| {
      PlainScan(fmt, i + 1);
      assert Lits(fmt[i..]) == [Lit(fmt[i])] + Lits(fmt[i + 1..]);
    }
  }

  lemma {:induction false} PlainRender(t: seq<char>, s: seq<char>, args: seq<Arg>)
    requires |t| < MAX
    ensures Fits(Lits(s), args) && Render(t, Lits(s), args) == Clip(t + s, MAX)
    decreases |s|
  {
    if s != [] {
      assert Lits(s)[1..] == Lits(s[1..]);
      PlainFits(s[1..], args);
      if |t| + 1 < MAX {
        PlainRender(t + [s[0]], s[1..], args);
        assert t + [s[0]] + s[1..] == t + s;
      } else {
        assert Clip(t + s, MAX) == t + [s[0]];
      }
    }
  }

  lemma {:induction false} PlainFits(s: seq<char>, args: seq<Arg>)
    ensures Fits(Lits(s), args)
    decreases |s|
  {
    if s != [] {
      assert Lits(s)[1..] == Lits(s[1..]);
      PlainFits(s[1..], args);
    }
  }

  /** A format without '%' is copied as it is, up to 255 characters. */
  lemma PlainCopied(fmt: seq<char>, args: seq<Arg>)
    requires '%' !in fmt
    ensures Scan(fmt, 0).Wellformed? && Fits(Scan(fmt, 0).tokens, args)
    ensures Render([], Scan(fmt, 0).tokens, args) == Clip(fmt, MAX)
  {
    PlainScan(fmt, 0);
    assert fmt[0..] == fmt;
    PlainRender([], fmt, args);
  }

  /** "%%" prints one '%' and an unknown conversion prints nothing; neither
      consumes an argument. */
  lemma NoArgumentConversions(t: seq<char>, n: nat, c: char, ts: seq<Token>, args: seq<Arg>)
    requires |t| + 1 < MAX && Fits(ts, args) && c !in "pxXsd"
    ensures Fits([Conv(n, c)] + ts, args)
    ensures c == '%' ==> Render(t, [Conv(n, c)] + ts, args) == Render(t + "%", ts, args)
    ensures c != '%' ==> Render(t, [Conv(n, c)] + ts, args) == Render(t, ts, args)
  {
    assert ([Conv(n, c)] + ts)[1..] == ts;
  }

  // ---------------------------------------------------------------------------
  // The appenders over the buffer

  lemma Regroup(b: seq<char>, c: char, rest: seq<char>)
    ensures (b + [c]) + rest == b + ([c] + rest)
  {
  }

  /** `buffer[(*pCnt)++] = c`: one character at the count, which moves past it. */
  method Put(buffer: array<char>, cnt: int, c: char) returns (cnt': int)
    requires 0 <= cnt < buffer.Length
    modifies buffer
    ensures cnt' == cnt + 1 && buffer[..cnt'] == old(buffer[..cnt]) + [c]
    ensures forall k :: cnt' <= k < buffer.Length ==> buffer[k] == old(buffer[k])
  {
    buffer[cnt] := c;
    cnt' := cnt + 1;
    assert buffer[..cnt'] == old(buffer[..cnt]) + [c];
  }

  /** printf_handle_fmt_hex32. */
  method Hex32(buffer: array<char>, cnt: int, v: bv32) returns (cnt': int)
    requires buffer.Length == BUFFER && 0 <= cnt <= MAX
    modifies buffer
    ensures cnt <= cnt' <= MAX && buffer[..cnt'] == Hex32Text(old(buffer[..cnt]), v)
    ensures forall k :: cnt' <= k < buffer.Length ==> buffer[k] == old(buffer[k])
  {
    cnt' := cnt;
    if cnt + 8 <= MAX {
      var val := v;
      for i := 0 to 8
        invariant cnt' == cnt + i
        invariant buffer[..cnt'] + DigitsOf(val, 8 - i) == old(buffer[..cnt]) + HexDigits(v)
        invariant forall k :: cnt' <= k < buffer.Length ==> buffer[k] == old(buffer[k])
      {
        var c := Lower(TopNibble(val));
        ghost var before := buffer[..cnt'];
        ghost var rest := DigitsOf(Shl(val), 8 - (i + 1));
        assert DigitsOf(val, 8 - i) == [c] + rest;
        cnt' := Put(buffer, cnt', c);
        Regroup(before, c, rest);
        val := Shl(val);
      }
    }
  }

  /** printf_handle_fmt_llx. */
  method Llx(buffer: array<char>, cnt: int, ll: int) returns (cnt': int)
    requires buffer.Length == BUFFER && 0 <= cnt <= MAX && Int64(ll)
    modifies buffer
    ensures cnt <= cnt' <= MAX && buffer[..cnt'] == LlxText(old(buffer[..cnt]), ll)
    ensures forall k :: cnt' <= k < buffer.Length ==> buffer[k] == old(buffer[k])
  {
    var mid := Hex32(buffer, cnt, High(ll) as bv32);
    cnt' := Hex32(buffer, mid, Low(ll) as bv32);
  }

  /** printf_handle_fmt_p as written; the nil branch would store past the
      buffer from a count of 254 on. */
  method FmtP(buffer: array<char>, cnt: int, addr: int) returns (cnt': int)
    requires buffer.Length == BUFFER && 0 <= cnt <= MAX && 0 <= addr < 0x1_0000_0000
    requires addr == 0 ==> cnt + 3 <= BUFFER
    modifies buffer
    ensures cnt <= cnt' <= BUFFER && buffer[..cnt'] == PointerTextAsWritten(old(buffer[..cnt]), addr)
    ensures forall k :: cnt' <= k < buffer.Length ==> buffer[k] == old(buffer[k])
  {
    cnt' := cnt;
    if addr != 0 {
      if cnt + 2 <= MAX {
        cnt' := Put(buffer, cnt', '0');
        cnt' := Put(buffer, cnt', 'x');
        assert buffer[..cnt'] == old(buffer[..cnt]) + "0x";
        cnt' := Hex32(buffer, cnt', addr as bv32);
      }
    } else if cnt + 3 != 0 {
      cnt' := Put(buffer, cnt', 'n');
      cnt' := Put(buffer, cnt', 'i');
      cnt' := Put(buffer, cnt', 'l');
      assert buffer[..cnt'] == old(buffer[..cnt]) + "nil";
    }
  }

  /** printf_handle_fmt_s. */
  method FmtS(buffer: array<char>, cnt: int, x: Text) returns (cnt': int)
    requires buffer.Length == BUFFER && 0 <= cnt <= MAX
    requires x.Chars? ==> '\0' !in x.s
    modifies buffer
    ensures cnt <= cnt' <= MAX && buffer[..cnt'] == StringText(old(buffer[..cnt]), x)
    ensures buffer[cnt'..] == old(buffer[cnt'..])
  {
    cnt' := cnt;
    if x.Chars? {
      var s := x.s;
      var k := 0;
      while k < |s| && cnt' < MAX
        invariant 0 <= k <= |s| && cnt' == cnt + k <= MAX
        invariant buffer[..cnt'] == old(buffer[..cnt]) + s[..k]
        invariant forall p :: cnt' <= p < buffer.Length ==> buffer[p] == old(buffer[p])
      {
        assert s[..k + 1] == s[..k] + [s[k]];
        cnt' := Put(buffer, cnt', s[k]);
        k := k + 1;
      }
    }
    assert buffer[cnt'..] == old(buffer[cnt'..]);
  }

  /** The sign fmt_d writes first, then the digits clipped at the end;
      a sign that does not fit ends the conversion. */
  lemma SignThenDigits(t: seq<char>, b: seq<char>, sign: seq<char>, d: seq<char>)
    requires |t| <= MAX && |sign| <= 1
    requires if |sign| == 1 && |t| < MAX then b == t + sign else b == t
    ensures |sign| == 1 && |t| == MAX ==> Clip(t + sign + d, MAX) == t
    ensures |b| <= MAX && (|sign| == 0 || |t| < MAX ==> Clip(b + d, MAX) == Clip(t + sign + d, MAX))
  {
    if |sign| == 1 && |t| == MAX {
      assert (t + sign + d)[..MAX] == t;
    }
    if |sign| == 0 {
      assert sign == [];
      assert t + sign + d == b + d;
    }
  }

  /** printf_handle_fmt_d. */
  method FmtD(buffer: array<char>, cnt: int, i: int) returns (cnt': int)
    requires buffer.Length == BUFFER && 0 <= cnt <= MAX && Int32(i)
    modifies buffer
    ensures cnt <= cnt' <= MAX && buffer[..cnt'] == DecimalText(old(buffer[..cnt]), i)
    ensures forall k :: cnt' <= k < buffer.Length ==> buffer[k] == old(buffer[k])
  {
    ghost var t := buffer[..cnt];
    cnt' := cnt;
    if i < 0 {
      if cnt < MAX {
        cnt' := Put(buffer, cnt', '-');
      } else {
        SignThenDigits(t, t, Sign(i), Decimal(Abs(i)));
        return;
      }
    }
    SignThenDigits(t, buffer[..cnt'], Sign(i), Decimal(Abs(i)));
    cnt' := Digits(buffer, cnt', i);
  }

  lemma ClipPush(b: seq<char>, c: char, rest: seq<char>)
    ensures |b| < MAX ==> Clip((b + [c]) + rest, MAX) == Clip(b + ([c] + rest), MAX)
    ensures |b| == MAX ==> Clip(b + ([c] + rest), MAX) == b
  {
    assert (b + [c]) + rest == b + ([c] + rest);
    if |b| == MAX {
      assert (b + ([c] + rest))[..MAX] == b;
    }
  }

  /** One turn of the significance loop on a value of either sign: the
      digit and the remainder are those of its magnitude. */
  lemma DigitStep(val: int, j: nat)
    requires Abs(val) < Pow10(j + 1)
    ensures Abs(CDiv(val, Pow10(j))) == Abs(val) / Pow10(j) < 10
    ensures Abs(CRem(val, Pow10(j))) == Abs(val) % Pow10(j)
    ensures j > 0 ==> Pow10(j) / 10 == Pow10(j - 1)
  {
    Split(Abs(val), j);
    if val >= 0 {
      NonNeg(val, Pow10(j));
    } else {
      NonNeg(-val, Pow10(j));
    }
  }

  /** One turn of the significance loop as text: the digit it writes, if
      any, moves from the pending significances to the buffer `b`. */
  lemma DigitTurn(val: int, j: nat, lead: bool, b: seq<char>)
    requires Abs(val) < 10 * Pow10(j) && |b| <= MAX
    ensures Abs(CRem(val, Pow10(j))) < Pow10(j) && (j > 0 ==> Pow10(j) / 10 == Pow10(j - 1) && Pow10(j) == 10 * Pow10(j - 1))
    ensures j == 0 ==> CRem(val, Pow10(j)) == 0
    ensures Pow10(j) == 1 <==> j == 0
    ensures var d := Abs(CDiv(val, Pow10(j)));
      var emit := d != 0 || !lead || j == 0;
      var now := Clip(b + Significant(Abs(val), j, lead), MAX);
      && 0 <= d < 10
      && (emit && |b| == MAX ==> now == b)
      && (!emit || |b| < MAX ==>
            now == Clip((if emit then b + [DecChar(d)] else b) + Significant(Abs(CRem(val, Pow10(j))), j - 1, lead && !emit), MAX))
  {
    assert Pow10(j + 1) == 10 * Pow10(j);
    DigitStep(val, j);
    SignificantStep(Abs(val), j, lead);
    if j > 0 {
      assert Pow10(j) == 10 * Pow10(j - 1);
    }
    var d := Abs(CDiv(val, Pow10(j)));
    if d != 0 || !lead || j == 0 {
      ClipPush(b, DecChar(d), Significant(Abs(CRem(val, Pow10(j))), j - 1, false));
    } else {
      assert b + Significant(Abs(val), j, lead) == b + Significant(Abs(CRem(val, Pow10(j))), j - 1, lead);
    }
  }

  /** Lines 147-169: the significance loop. */
  method Digits(buffer: array<char>, cnt: int, i: int) returns (cnt': int)
    requires buffer.Length == BUFFER && 0 <= cnt <= MAX && Int32(i)
    modifies buffer
    ensures cnt <= cnt' <= MAX && buffer[..cnt'] == Clip(old(buffer[..cnt]) + Decimal(Abs(i)), MAX)
    ensures forall k :: cnt' <= k < buffer.Length ==> buffer[k] == old(buffer[k])
  {
    Pow10Values();
    ghost var goal := Clip(old(buffer[..cnt]) + Decimal(Abs(i)), MAX);
    var significance := 1000000000;
    var val := i;
    var leadingZero := true;
    ghost var j: int := 9;
    cnt' := cnt;
    while significance > 0
      invariant -1 <= j <= 9 && significance == (if j >= 0 then Pow10(j) else 0)
      invariant (if j >= 0 then Abs(val) < 10 * Pow10(j) else val == 0) && cnt <= cnt' <= MAX
      invariant Clip(buffer[..cnt'] + Significant(Abs(val), j, leadingZero), MAX) == goal
      invariant forall k :: cnt' <= k < buffer.Length ==> buffer[k] == old(buffer[k])
      decreases j + 1
    {
      assert significance == Pow10(j);
      DigitTurn(val, j, leadingZero, buffer[..cnt']);
      var digit := CDiv(val, significance);
      if digit < 0 {
        digit := -digit;
      }
      if digit != 0 || !leadingZero || significance == 1 {
        leadingZero := false;
        if cnt' < MAX {
          cnt' := Put(buffer, cnt', DecChar(digit));
        } else {
          return;
        }
      }
      val := CRem(val, significance);
      assert significance / 10 == if j >= 1 then Pow10(j - 1) else 0;
      significance := significance / 10;
      j := j - 1;
    }
  }

  /** Lines 190-205 of printf_handle_fmt_spec: up to two 'l' width
      specifiers are skipped; `q` is left at the conversion character. */
  method Widths(fmt: seq<char>, p: nat) returns (q: nat, longs: nat)
    ensures q == ConvAt(fmt, p) && longs == q - p
  {
    q := p;
    if q < |fmt| && fmt[q] == 'l' {
      q := q + 1;
    }
    if q < |fmt| && fmt[q] == 'l' {
      q := q + 1;
    }
    longs := q - p;
  }

  /** Lines 207-241 of printf_handle_fmt_spec: the conversion's appender,
      fed the next argument when the conversion reads one. */
  method Convert(buffer: array<char>, cnt: int, tok: Token, args: seq<Arg>, a: nat)
    returns (cnt': int, a': nat)
    requires buffer.Length == BUFFER && 0 <= cnt < MAX && tok.Conv? && a <= |args|
    requires Takes(tok) ==> a < |args| && Suits(tok, args[a])
    requires NullPointer(tok, args[a..]) ==> cnt + 3 <= BUFFER
    modifies buffer
    ensures a' == if Takes(tok) then a + 1 else a
    ensures cnt <= cnt' <= BUFFER && buffer[..cnt'] == Emit(old(buffer[..cnt]), tok, args[a..]).0
    ensures forall k :: cnt' <= k < buffer.Length ==> buffer[k] == old(buffer[k])
  {
    a' := a;
    cnt' := cnt;
    var c := tok.c;
    if c == 'p' {
      cnt' := FmtP(buffer, cnt, args[a].addr);
      a' := a + 1;
    } else if c == 'X' || c == 'x' {
      if tok.longs >= 2 {
        cnt' := Llx(buffer, cnt, args[a].ll);
      } else {
        cnt' := Hex32(buffer, cnt, Word(args[a].i));
      }
      a' := a + 1;
    } else if c == 's' {
      cnt' := FmtS(buffer, cnt, args[a].text);
      a' := a + 1;
    } else if c == 'd' {
      cnt' := FmtD(buffer, cnt, args[a].i);
      a' := a + 1;
    } else if c == '%' {
      cnt' := Put(buffer, cnt, '%');
    }
  }

  /** One token of printf's format walk (lines 262-272): a literal
      character is copied, a '%' goes through printf_handle_fmt_spec; `p'`
      is left on the last character the token spans. */
  method Step(buffer: array<char>, cnt: int, fmt: seq<char>, p: nat, args: seq<Arg>, a: nat)
    returns (cnt': int, p': nat, a': nat)
    requires buffer.Length == BUFFER && 0 <= cnt < MAX && p < |fmt| && a <= |args|
    requires Scan(fmt, p).Wellformed? && Fits(Scan(fmt, p).tokens, args[a..])
    requires |Render(buffer[..cnt], Scan(fmt, p).tokens, args[a..])| <= BUFFER
    modifies buffer
    ensures p <= p' < |fmt| && a <= a' <= |args| && cnt <= cnt' <= BUFFER && Scan(fmt, p).tokens != []
    ensures Scan(fmt, p' + 1) == Wellformed(Scan(fmt, p).tokens[1..])
    ensures buffer[..cnt'] == Emit(old(buffer[..cnt]), Scan(fmt, p).tokens[0], args[a..]).0
    ensures args[a'..] == Emit(old(buffer[..cnt]), Scan(fmt, p).tokens[0], args[a..]).1
  {
    ghost var ts := Scan(fmt, p).tokens;
    ghost var t := buffer[..cnt];
    if fmt[p] == '%' {
      var longs;
      p', longs := Widths(fmt, p + 1);
      assert ts[0] == Conv(longs, fmt[p']);
      RenderStep(t, ts, args[a..]);
      cnt', a' := Convert(buffer, cnt, Conv(longs, fmt[p']), args, a);
      EmitBounded(t, ts[0], args[a..]);
      assert args[a..][a' - a..] == args[a'..];
    } else {
      p', a' := p, a;
      cnt' := Put(buffer, cnt, fmt[p]);
    }
    assert ts[1..] == Scan(fmt, p' + 1).tokens;
  }

  /** Render, one token at a time; a rendering that stays in the buffer
      has no null `%p` at a count of 254. */
  lemma RenderStep(t: seq<char>, ts: seq<Token>, args: seq<Arg>)
    requires |t| < MAX && Fits(ts, args) && ts != []
    ensures Takes(ts[0]) ==> |args| > 0 && Suits(ts[0], args[0])
    ensures var (t2, rest) := Emit(t, ts[0], args);
            Fits(ts[1..], rest) && Render(t, ts, args) == if |t2| >= MAX then t2 else Render(t2, ts[1..], rest)
    ensures |Render(t, ts, args)| <= BUFFER && NullPointer(ts[0], args) ==> |t| + 3 <= BUFFER
  {
    EmitBounded(t, ts[0], args);
  }

  /** printf (lines 252-285), buffer logic only: returns the count and the
      buffer's contents through the terminating NUL, which are the rendered
      format capped at 255 characters. */
  method Printf(fmt: seq<char>, args: seq<Arg>) returns (n: int, written: seq<char>)
    requires '\0' !in fmt && Scan(fmt, 0).Wellformed? && Fits(Scan(fmt, 0).tokens, args)
    requires |Render([], Scan(fmt, 0).tokens, args)| <= BUFFER
    ensures n == Min(|Render([], Scan(fmt, 0).tokens, args)|, MAX)
    ensures written == Render([], Scan(fmt, 0).tokens, args)[..n] + ['\0']
  {
    ghost var goal := Render([], Scan(fmt, 0).tokens, args);
    var buffer, cnt := Walk(fmt, args);
    assert buffer[..Min(cnt, MAX)] == goal[..Min(cnt, MAX)];
    n, written := Terminate(buffer, cnt);
  }

  /** The format walk of printf (lines 260-276): the buffer it fills holds
      the rendered format. */
  method Walk(fmt: seq<char>, args: seq<Arg>) returns (buffer: array<char>, cnt: int)
    requires '\0' !in fmt && Scan(fmt, 0).Wellformed? && Fits(Scan(fmt, 0).tokens, args)
    requires |Render([], Scan(fmt, 0).tokens, args)| <= BUFFER
    ensures fresh(buffer) && buffer.Length == BUFFER && 0 <= cnt <= BUFFER
    ensures buffer[..cnt] == Render([], Scan(fmt, 0).tokens, args)
  {
    ghost var goal := Render([], Scan(fmt, 0).tokens, args);
    buffer := new char[BUFFER];
    cnt := 0;
    var a := 0;
    var p := 0;
    while p < |fmt|
      invariant 0 <= p <= |fmt| && 0 <= a <= |args| && 0 <= cnt < MAX
      invariant Scan(fmt, p).Wellformed? && Fits(Scan(fmt, p).tokens, args[a..])
      invariant Render(buffer[..cnt], Scan(fmt, p).tokens, args[a..]) == goal && |goal| <= BUFFER
      decreases |fmt| - p
    {
      ghost var ts := Scan(fmt, p).tokens;
      ghost var t := buffer[..cnt];
      ghost var rest := args[a..];
      RenderStep(t, ts, rest);
      ghost var next := Emit(t, ts[0], rest);
      cnt, p, a := Step(buffer, cnt, fmt, p, args, a);
      assert buffer[..cnt] == next.0 && args[a..] == next.1;
      if cnt >= MAX {
        assert buffer[..cnt] == goal;
        return;
      }
      assert Render(buffer[..cnt], ts[1..], args[a..]) == goal;
      p := p + 1;
    }
  }

  /** Lines 280-281: the count capped at PRINTF_MAX_LENGTH and the NUL
      stored after it, over whatever stood there. */
  method Terminate(buffer: array<char>, cnt: int) returns (n: int, written: seq<char>)
    requires buffer.Length == BUFFER && 0 <= cnt <= BUFFER
    modifies buffer
    ensures n == Min(cnt, MAX) && written == old(buffer[..n]) + ['\0']
  {
    n := Min(cnt, MAX);
    buffer[n] := '\0';
    written := buffer[..n + 1];
  }
}

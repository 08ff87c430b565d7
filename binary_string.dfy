/// The `binarystring(v)` macro: the bit pattern of a value of an `n`-byte
/// integer type as a text of '0'/'1' digits, most significant bit first, with
/// a space after every group of 8 digits.
///
/// `n` stands for `sizeof(v)`. The value is an unbounded `int`: the macro's
/// `m_value & 1` is the lowest bit of the two's-complement pattern, which is
/// Dafny's Euclidean `m_value % 2`, and `m_value >> 1` (arithmetic on a
/// negative signed value) is floor division by 2, which is Dafny's `m_value / 2`.
/// So one model serves signed and unsigned types, and only the low `8 * n` bits
/// of the value ever reach the text.
module BinaryString {

  /// `nibble_size` in the macro: digits per group.
  const GroupSize: nat := 8

  function Pow2(k: nat): (r: nat)
    ensures r >= 1
  {
    if k == 0 then 1 else 2 * Pow2(k - 1)
  }

  /// `m_value` after `k` executions of `m_value = m_value >> 1`.
  function Shifted(v: int, k: nat): int
  {
    if k == 0 then v else Shifted(v, k - 1) / 2
  }

  /// `(m_value & 1) ? '1' : '0'`
  function LowDigit(v: int): char
  {
    if v % 2 == 1 then '1' else '0'
  }

  /// The lowest `k` bits of `v`, most significant first.
  function Bits(v: int, k: nat): (s: string)
    ensures |s| == k
    decreases k
  {
    if k == 0 then [] else Bits(v / 2, k - 1) + [LowDigit(v)]
  }

  /// A space between consecutive groups of `GroupSize` digits.
  function Grouped(digits: string): string
    decreases |digits|
  {
    if |digits| <= GroupSize then digits
    else digits[..GroupSize] + [' '] + Grouped(digits[GroupSize..])
  }

  /// `bit_str_len`: `nibble_count * (nibble_size + 1) - 1`, where
  /// `nibble_count == sizeof(m_value) * 8 / nibble_size == n`.
  function BitStrLen(n: nat): int
  {
    n * (GroupSize + 1) - 1
  }

  /// The text `binarystring` produces for a value `v` of an `n`-byte type.
  function BitPattern(n: nat, v: int): string
  {
    Grouped(Bits(v, 8 * n))
  }

  /// What `[NSString stringWithUTF8String:]` reads from a C buffer: every
  /// character before the first NUL.
  function CString(buffer: seq<char>): string
  {
    if buffer == [] || buffer[0] == '\0' then [] else [buffer[0]] + CString(buffer[1..])
  }

  /// Base-2 reading of a digit text, most significant digit first.
  function ParseBinary(s: string): int
  {
    if s == [] then 0 else 2 * ParseBinary(s[..|s| - 1]) + (if s[|s| - 1] == '1' then 1 else 0)
  }

  /// The text with its separating spaces dropped.
  function WithoutSpaces(s: string): string
  {
    if s == [] then [] else (if s[0] == ' ' then [] else [s[0]]) + WithoutSpaces(s[1..])
  }

  predicate IsDigitText(s: string)
  {
    forall i :: 0 <= i < |s| ==> s[i] == '0' || s[i] == '1'
  }

  /// `binarystring(v)` for a value `v` of an `n`-byte type: fills a NUL-terminated
  /// char buffer from its last digit down, shifting the value once per digit.
  /// `shifts` counts the executions of `m_value = m_value >> 1`.
  method BinaryString(n: nat, v: int) returns (s: string, ghost shifts: nat)
    requires n >= 1
    ensures s == BitPattern(n, v)
    ensures |s| == BitStrLen(n)
    ensures shifts == 8 * n
  {
    var mValue := v;
    var nibbleSize := 8;
    var nibbleCount := n * 8 / nibbleSize;
    assert nibbleCount == n;
    var bitStrLen := nibbleCount * (nibbleSize + 1) - 1;
    var bitStr := new char[bitStrLen + 1];
    bitStr[bitStrLen] := '\0';
    ghost var pattern := BitPattern(n, v);
    PatternLength(n, v);
    shifts := 0;
    var i := bitStrLen - 1;
    while i >= 0
      invariant -1 <= i < bitStrLen
      invariant bitStr[bitStrLen] == '\0'
      invariant shifts == 8 * n - DigitsBefore(i + 1)
      invariant mValue == Shifted(v, shifts)
      invariant forall j :: i < j < bitStrLen ==> bitStr[j] == pattern[j]
    {
      PatternAt(n, v, i);
      if i % (nibbleSize + 1) == nibbleSize {
        bitStr[i] := ' ';
      } else {
        bitStr[i] := if mValue % 2 == 1 then '1' else '0';
        mValue := mValue / 2;
        shifts := shifts + 1;
      }
      i := i - 1;
    }
    assert bitStr[..] == pattern + ['\0'];
    PatternHasNoNul(n, v);
    CStringOfTerminated(pattern, []);
    assert pattern + ['\0'] == pattern + ['\0'] + [];
    s := CString(bitStr[..]);
  }

  /// Number of digit positions (non-separator positions) in `[0, m)`.
  function DigitsBefore(m: nat): int
  {
    m - m / (GroupSize + 1)
  }

  lemma {:induction false} ShiftedHalf(v: int, k: nat)
    ensures Shifted(v / 2, k) == Shifted(v, k + 1)
  {
    if k > 0 {
      ShiftedHalf(v, k - 1);
    }
  }

  /// Digit `j` of `Bits(v, k)` is bit `k - 1 - j` of `v`.
  lemma {:induction false} BitsAt(v: int, k: nat, j: nat)
    requires j < k
    ensures Bits(v, k)[j] == LowDigit(Shifted(v, k - 1 - j))
    decreases k
  {
    if j < k - 1 {
      BitsAt(v / 2, k - 1, j);
      ShiftedHalf(v, k - 2 - j);
    }
  }

  /// Layout of a grouped text of `m` full groups.
  lemma {:induction false} GroupedAt(digits: string, m: nat, i: nat)
    requires m >= 1 && |digits| == GroupSize * m
    ensures |Grouped(digits)| == (GroupSize + 1) * m - 1
    ensures i < (GroupSize + 1) * m - 1 ==>
      Grouped(digits)[i] == if i % 9 == 8 then ' ' else digits[8 * (i / 9) + i % 9]
  {
    if m > 1 {
      var tail := digits[GroupSize..];
      var rest := Grouped(tail);
      assert Grouped(digits) == digits[..GroupSize] + [' '] + rest;
      if i > 8 {
        GroupedAt(tail, m - 1, i - 9);
        assert (i - 9) % 9 == i % 9 && (i - 9) / 9 == i / 9 - 1;
      } else {
        GroupedAt(tail, m - 1, 0);
      }
    }
  }

  lemma {:induction false} PatternLength(n: nat, v: int)
    requires n >= 1
    ensures |BitPattern(n, v)| == BitStrLen(n)
  {
    GroupedAt(Bits(v, 8 * n), n, 0);
  }

  /// Character `i` of the pattern: a space where `i % 9 == 8`, otherwise the
  /// digit of the bit that `binarystring`'s loop has shifted down to bit 0 by the
  /// time it writes position `i`.
  lemma {:induction false} PatternAt(n: nat, v: int, i: int)
    requires n >= 1 && 0 <= i < BitStrLen(n)
    ensures |BitPattern(n, v)| == BitStrLen(n)
    ensures BitPattern(n, v)[i] ==
      if i % 9 == 8 then ' ' else LowDigit(Shifted(v, 8 * n - DigitsBefore(i + 1)))
  {
    GroupedAt(Bits(v, 8 * n), n, i);
    if i % 9 != 8 {
      var j := 8 * (i / 9) + i % 9;
      assert (i + 1) / 9 == i / 9;
      BitsAt(v, 8 * n, j);
    }
  }

  /// Length: `9 * n - 1` characters whatever the value; the space positions are
  /// exactly those with `i % 9 == 8`, and every other position holds a digit.
  lemma {:induction false} PatternLayout(n: nat, v: int)
    requires n >= 1
    ensures |BitPattern(n, v)| == 9 * n - 1
    ensures forall i :: 0 <= i < |BitPattern(n, v)| ==>
      (BitPattern(n, v)[i] == ' ' <==> i % 9 == 8)
    ensures forall i :: 0 <= i < |BitPattern(n, v)| && i % 9 != 8 ==>
      BitPattern(n, v)[i] == '0' || BitPattern(n, v)[i] == '1'
  {
    PatternLength(n, v);
    forall i | 0 <= i < |BitPattern(n, v)|
      ensures BitPattern(n, v)[i] == ' ' <==> i % 9 == 8
      ensures i % 9 != 8 ==> BitPattern(n, v)[i] == '0' || BitPattern(n, v)[i] == '1'
    {
      PatternAt(n, v, i);
    }
  }

  /// No leading and no trailing separator.
  lemma {:induction false} PatternEnds(n: nat, v: int)
    requires n >= 1
    ensures BitPattern(n, v)[0] != ' '
    ensures BitPattern(n, v)[|BitPattern(n, v)| - 1] != ' '
  {
    PatternLayout(n, v);
    assert (9 * n - 2) % 9 == 7;
  }

  lemma {:induction false} PatternHasNoNul(n: nat, v: int)
    requires n >= 1
    ensures '\0' !in BitPattern(n, v)
  {
    PatternLayout(n, v);
  }

  lemma {:induction false} CStringOfTerminated(text: string, rest: seq<char>)
    requires '\0' !in text
    ensures CString(text + ['\0'] + rest) == text
  {
    if text != [] {
      assert (text + ['\0'] + rest)[1..] == text[1..] + ['\0'] + rest;
      CStringOfTerminated(text[1..], rest);
    }
  }

  lemma {:induction false} BitsAreDigits(v: int, k: nat)
    ensures IsDigitText(Bits(v, k))
    decreases k
  {
    if k > 0 {
      BitsAreDigits(v / 2, k - 1);
    }
  }

  lemma {:induction false} WithoutSpacesAppend(a: string, b: string)
    ensures WithoutSpaces(a + b) == WithoutSpaces(a) + WithoutSpaces(b)
  {
    if a == [] {
      assert a + b == b;
    } else {
      var head: string := if a[0] == ' ' then [] else [a[0]];
      var ab := a + b;
      assert ab[0] == a[0] && ab[1..] == a[1..] + b;
      calc {
        WithoutSpaces(ab);
        head + WithoutSpaces(a[1..] + b);
        { WithoutSpacesAppend(a[1..], b); }
        head + (WithoutSpaces(a[1..]) + WithoutSpaces(b));
        (head + WithoutSpaces(a[1..])) + WithoutSpaces(b);
        WithoutSpaces(a) + WithoutSpaces(b);
      }
    }
  }

  lemma {:induction false} WithoutSpacesOfDigits(s: string)
    requires IsDigitText(s)
    ensures WithoutSpaces(s) == s
  {
    if s != [] {
      WithoutSpacesOfDigits(s[1..]);
    }
  }

  /// Dropping the separators from a grouped digit text gives the digits back.
  lemma {:induction false} UngroupGrouped(digits: string)
    requires IsDigitText(digits)
    ensures WithoutSpaces(Grouped(digits)) == digits
    decreases |digits|
  {
    if |digits| <= GroupSize {
      WithoutSpacesOfDigits(digits);
    } else {
      var head, tail := digits[..GroupSize], digits[GroupSize..];
      WithoutSpacesAppend(head + [' '], Grouped(tail));
      WithoutSpacesAppend(head, [' ']);
      WithoutSpacesOfDigits(head);
      UngroupGrouped(tail);
      assert digits == head + tail;
    }
  }

  lemma {:induction false} ModUnique(v: int, m: int, q: int, r: int)
    requires m > 0 && v == m * q + r && 0 <= r < m
    ensures v % m == r
  {
    var d := v / m - q;
    assert m * d == r - v % m;
  }

  lemma {:induction false} ModDouble(v: int, p: int)
    requires p >= 1
    ensures v % (2 * p) == 2 * ((v / 2) % p) + v % 2
  {
    var q := v / 2;
    var a, b := q / p, q % p;
    assert v == 2 * q + v % 2;
    assert q == p * a + b;
    assert v == (2 * p) * a + (2 * b + v % 2);
    ModUnique(v, 2 * p, a, 2 * b + v % 2);
  }

  /// Reading the `k` digits back in base 2 gives `v` modulo `2^k`.
  lemma {:induction false} ParseBits(v: int, k: nat)
    ensures ParseBinary(Bits(v, k)) == v % Pow2(k)
    decreases k
  {
    if k > 0 {
      var s := Bits(v, k);
      assert s[..|s| - 1] == Bits(v / 2, k - 1);
      ParseBits(v / 2, k - 1);
      ModDouble(v, Pow2(k - 1));
    }
  }

  /// The other direction: rendering the value of a digit text gives the text.
  lemma {:induction false} BitsOfParse(s: string)
    requires IsDigitText(s)
    ensures Bits(ParseBinary(s), |s|) == s
  {
    if s != [] {
      var init := s[..|s| - 1];
      var b := if s[|s| - 1] == '1' then 1 else 0;
      var p := 2 * ParseBinary(init) + b;
      assert p / 2 == ParseBinary(init) && p % 2 == b;
      BitsOfParse(init);
      assert s == init + [s[|s| - 1]];
    }
  }

  /// Round trip: dropping the spaces and reading the digits in base 2 gives the
  /// value modulo `2^(8n)`, i.e. its `n`-byte two's-complement pattern.
  lemma {:induction false} RoundTrip(n: nat, v: int)
    ensures ParseBinary(WithoutSpaces(BitPattern(n, v))) == v % Pow2(8 * n)
  {
    BitsAreDigits(v, 8 * n);
    UngroupGrouped(Bits(v, 8 * n));
    ParseBits(v, 8 * n);
  }

  /// For a value of an unsigned `n`-byte type the round trip is exact.
  lemma {:induction false} RoundTripUnsigned(n: nat, v: int)
    requires 0 <= v < Pow2(8 * n)
    ensures ParseBinary(WithoutSpaces(BitPattern(n, v))) == v
  {
    RoundTrip(n, v);
    ModUnique(v, Pow2(8 * n), 0, v);
  }

  /// For a negative value of a signed `n`-byte type the digits are its
  /// two's-complement pattern `v + 2^(8n)`.
  lemma {:induction false} RoundTripSigned(n: nat, v: int)
    requires n >= 1
    requires -(Pow2(8 * n - 1) as int) <= v < 0
    ensures ParseBinary(WithoutSpaces(BitPattern(n, v))) == v + Pow2(8 * n)
  {
    RoundTrip(n, v);
    assert Pow2(8 * n) == 2 * Pow2(8 * n - 1);
    ModUnique(v, Pow2(8 * n), -1, v + Pow2(8 * n));
  }

  /// Only the low `8n` bits are consumed: values that agree modulo `2^(8n)`
  /// render identically.
  lemma {:induction false} LowBitsOnly(n: nat, v: int)
    ensures BitPattern(n, v) == BitPattern(n, v % Pow2(8 * n))
  {
    BitsAreDigits(v, 8 * n);
    BitsOfParse(Bits(v, 8 * n));
    ParseBits(v, 8 * n);
  }

  /// Distinct values of an unsigned `n`-byte type render differently.
  lemma {:induction false} PatternInjective(n: nat, v: int, w: int)
    requires 0 <= v < Pow2(8 * n) && 0 <= w < Pow2(8 * n)
    requires BitPattern(n, v) == BitPattern(n, w)
    ensures v == w
  {
    RoundTripUnsigned(n, v);
    RoundTripUnsigned(n, w);
  }

  /// Distinct values of a signed `n`-byte type render differently: the
  /// non-negative half reads back below `2^(8n-1)`, the negative half at or
  /// above it.
  lemma {:induction false} PatternInjectiveSigned(n: nat, v: int, w: int)
    requires n >= 1
    requires -(Pow2(8 * n - 1) as int) <= v < Pow2(8 * n - 1)
    requires -(Pow2(8 * n - 1) as int) <= w < Pow2(8 * n - 1)
    requires BitPattern(n, v) == BitPattern(n, w)
    ensures v == w
  {
    RoundTrip(n, v);
    RoundTrip(n, w);
    assert Pow2(8 * n) == 2 * Pow2(8 * n - 1);
    if v < 0 {
      ModUnique(v, Pow2(8 * n), -1, v + Pow2(8 * n));
    } else {
      ModUnique(v, Pow2(8 * n), 0, v);
    }
    if w < 0 {
      ModUnique(w, Pow2(8 * n), -1, w + Pow2(8 * n));
    } else {
      ModUnique(w, Pow2(8 * n), 0, w);
    }
  }

  lemma {:induction false} ShiftedZero(k: nat)
    ensures Shifted(0, k) == 0
  {
    if k > 0 {
      ShiftedZero(k - 1);
    }
  }

  /// The value 0 renders as all '0' digits.
  lemma {:induction false} ZeroPattern(n: nat)
    requires n >= 1
    ensures forall i :: 0 <= i < |BitPattern(n, 0)| && i % 9 != 8 ==> BitPattern(n, 0)[i] == '0'
  {
    PatternLength(n, 0);
    forall i | 0 <= i < |BitPattern(n, 0)| && i % 9 != 8
      ensures BitPattern(n, 0)[i] == '0'
    {
      PatternAt(n, 0, i);
      ShiftedZero(8 * n - DigitsBefore(i + 1));
    }
  }
}

// Number formatting into caller buffers, as in tools/z3-bench/noalloc-stdio.c.
module NoAllocStdio {
  import opened Common

  function Pow(b: nat, n: nat): (p: nat)
    ensures b > 0 ==> p > 0
  {
    if n == 0 then 1 else b * Pow(b, n - 1)
  }

  function DigitChar(d: nat): char
    requires d < 10
  {
    (d + '0' as nat) as char
  }

  // The decimal numeral of v, without leading zeros.
  function Digits(v: nat): string {
    if v < 10 then [DigitChar(v)] else Digits(v / 10) + [DigitChar(v % 10)]
  }

  function DigitValue(c: char): int {
    c as int - '0' as int
  }

  function Decode(s: string): int {
    if s == "" then 0 else 10 * Decode(s[..|s| - 1]) + DigitValue(s[|s| - 1])
  }

  lemma {:induction false} DigitsDecode(v: nat)
    ensures Decode(Digits(v)) == v
  {
    if v >= 10 {
      DigitsDecode(v / 10);
      assert Digits(v)[..|Digits(v)| - 1] == Digits(v / 10);
    } else {
      assert Decode([DigitChar(v)][..0]) == 0;
    }
  }

  // No leading zero except for zero itself, and only digits.
  lemma {:induction false} DigitsCanonical(v: nat)
    ensures |Digits(v)| >= 1
    ensures forall i :: 0 <= i < |Digits(v)| ==> '0' <= Digits(v)[i] <= '9'
    ensures Digits(v)[0] == '0' <==> v == 0
    ensures v == 0 ==> |Digits(v)| == 1
  {
    if v >= 10 {
      DigitsCanonical(v / 10);
    }
  }

  // The numeral fits a width exactly when the value is below that power of ten.
  lemma {:induction false} DigitsFit(v: nat, width: nat)
    requires width >= 1
    ensures |Digits(v)| <= width <==> v < Pow(10, width)
  {
    assert Pow(10, width) == 10 * Pow(10, width - 1);
    if width == 1 {
      assert Pow(10, 0) == 1;
      if v >= 10 {
        DigitsCanonical(v / 10);
      }
    } else {
      PowPositive(10, width - 1);
      if v >= 10 {
        DigitsFit(v / 10, width - 1);
      }
    }
  }

  lemma {:induction false} PowPositive(b: nat, n: nat)
    requires b > 0
    ensures Pow(b, n) >= 1
    ensures n > 0 ==> Pow(b, n) >= b
  {
    if n > 0 {
      PowPositive(b, n - 1);
    }
  }

  // What the last |tail| characters of the field are while the loop runs.
  ghost predicate Written(v: nat, rest: nat, done: bool, tail: string) {
    if done then
      rest == 0 && |Digits(v)| <= |tail| && tail == Spaces(|tail| - |Digits(v)|) + Digits(v)
    else
      Digits(v) == Digits(rest) + tail && (tail != "" ==> rest > 0)
  }

  lemma WrittenStep(v: nat, rest: nat, done: bool, tail: string)
    requires Written(v, rest, done, tail)
    ensures Written(v, rest / 10, done || rest / 10 == 0, [if done then ' ' else DigitChar(rest % 10)] + tail)
  {
    var c := if done then ' ' else DigitChar(rest % 10);
    if done {
      var pad := |tail| - |Digits(v)|;
      assert [' '] + (Spaces(pad) + Digits(v)) == Spaces(pad + 1) + Digits(v);
    } else if rest < 10 {
      assert Digits(v) == [c] + tail;
      assert Spaces(0) + Digits(v) == Digits(v);
    } else {
      assert (Digits(rest / 10) + [c]) + tail == Digits(rest / 10) + ([c] + tail);
    }
  }

  lemma WrittenEnd(v: nat, rest: nat, done: bool, tail: string)
    requires Written(v, rest, done, tail)
    ensures done <==> |tail| >= 1 && v < Pow(10, |tail|)
  {
    DigitsCanonical(rest);
    DigitsCanonical(v);
    if tail != "" {
      DigitsFit(v, |tail|);
    }
  }

  // Writes v right-aligned into the first sz characters of buf; aborted stands
  // for abort(), which happens when the value does not fit.
  method WriteSizeToStrbuf(v: nat, buf: array<char>, sz: nat) returns (aborted: bool)
    requires sz <= buf.Length
    modifies buf
    ensures !aborted <==> sz >= 1 && v < Pow(10, sz)
    ensures !aborted ==>
              |Digits(v)| <= sz && buf[..sz] == Spaces(sz - |Digits(v)|) + Digits(v)
    ensures buf[sz..] == old(buf[sz..])
  {
    var os: int := sz - 1;
    var done := false;
    var rest := v;
    assert Digits(v) + [] == Digits(v);
    for i := 0 to sz
      invariant os == sz - 1 - i
      invariant buf[sz..] == old(buf[sz..])
      invariant Written(v, rest, done, buf[sz - i..sz])
    {
      ghost var tail := buf[sz - i..sz];
      var c := if done then ' ' else DigitChar(rest % 10);
      WrittenStep(v, rest, done, tail);
      buf[os] := c;
      assert buf[sz - (i + 1)..sz] == [c] + tail;
      os := os - 1;
      rest := rest / 10;
      done := done || rest == 0;
    }
    assert buf[0..sz] == buf[..sz];
    WrittenEnd(v, rest, done, buf[..sz]);
    aborted := !done;
  }

  // What a reader of the field sees: padding, then the numeral of v.
  lemma FieldReadsBack(v: nat, sz: nat)
    requires sz >= 1 && v < Pow(10, sz)
    ensures var pad := sz - |Digits(v)|;
            && 0 <= pad < sz
            && Decode((Spaces(pad) + Digits(v))[pad..]) == v
            && ((Spaces(pad) + Digits(v))[pad] == '0' <==> v == 0)
  {
    DigitsFit(v, sz);
    DigitsCanonical(v);
    DigitsDecode(v);
    var pad := sz - |Digits(v)|;
    assert (Spaces(pad) + Digits(v))[pad..] == Digits(v);
  }

  // The digit k places from the end of a numeral.
  lemma {:induction false} DigitAt(v: nat, k: nat)
    requires k < |Digits(v)|
    ensures Pow(10, k) > 0
    ensures Digits(v)[|Digits(v)| - 1 - k] == "0123456789"[v / Pow(10, k) % 10]
  {
    if v < 10 {
      assert Pow(10, 0) == 1;
    } else if k == 0 {
      assert Pow(10, 0) == 1;
    } else {
      PowPositive(10, k - 1);
      DigitAt(v / 10, k - 1);
      DivideTwice(v, 10, Pow(10, k - 1));
    }
  }

  // ---------- Hexadecimal addresses ----------

  const POINTER_BYTES: nat := 8

  // Out of range would abort; both nibbles of a byte are in range.
  function NibbleToAsciiHex(nib: nat): char
    requires nib < 16
  {
    if nib <= 9 then (nib + '0' as nat) as char else (nib - 10 + 'a' as nat) as char
  }

  function HexValue(c: char): int {
    if '0' <= c <= '9' then c as int - '0' as int
    else if 'a' <= c <= 'f' then c as int - 'a' as int + 10
    else -1
  }

  predicate HexDigits(s: string) {
    forall i :: 0 <= i < |s| ==> HexValue(s[i]) >= 0
  }

  function DecodeHex(s: string): int {
    if s == "" then 0 else 16 * DecodeHex(s[..|s| - 1]) + HexValue(s[|s| - 1])
  }

  lemma NibbleRoundTrip(nib: nat)
    requires nib < 16
    ensures HexValue(NibbleToAsciiHex(nib)) == nib
  {
  }

  // Byte j of a little-endian word.
  function ByteAt(p: nat, j: nat): nat {
    p / Pow(256, j) % 256
  }

  // The value of the n most significant bytes of an 8-byte word.
  function HighBytes(p: nat, n: nat): nat
    requires n <= POINTER_BYTES
  {
    p / Pow(256, POINTER_BYTES - n)
  }

  lemma HighBytesStep(p: nat, n: nat)
    requires n < POINTER_BYTES
    ensures HighBytes(p, n + 1) == 256 * HighBytes(p, n) + ByteAt(p, POINTER_BYTES - 1 - n)
  {
    var q := Pow(256, POINTER_BYTES - 1 - n);
    PowPositive(256, POINTER_BYTES - 1 - n);
    assert Pow(256, POINTER_BYTES - n) == q * 256;
    DivideTwice(p, q, 256);
  }

  // Writes "0x" and sixteen hexadecimal digits that read back as the address.
  method WritePtrToStrbuf(p: nat, buf: array<char>)
    requires p < Pow(256, POINTER_BYTES) && buf.Length >= 2 + 2 * POINTER_BYTES
    modifies buf
    ensures buf[..2] == "0x"
    ensures HexDigits(buf[2..2 + 2 * POINTER_BYTES]) && DecodeHex(buf[2..2 + 2 * POINTER_BYTES]) == p
    ensures buf[2 + 2 * POINTER_BYTES..] == old(buf[2 + 2 * POINTER_BYTES..])
  {
    buf[0] := '0';
    buf[1] := 'x';
    var os := 2;
    HighBytesZero(p);
    for i := 0 to POINTER_BYTES
      invariant os == 2 + 2 * i
      invariant buf[..2] == "0x"
      invariant HexDigits(buf[2..os]) && DecodeHex(buf[2..os]) == HighBytes(p, i)
      invariant buf[2 + 2 * POINTER_BYTES..] == old(buf[2 + 2 * POINTER_BYTES..])
    {
      var b := ByteAt(p, POINTER_BYTES - 1 - i);
      var bh, bl := b / 16, b % 16;
      ghost var before := buf[2..os];
      buf[os] := NibbleToAsciiHex(bh);
      buf[os + 1] := NibbleToAsciiHex(bl);
      ghost var after := buf[2..os + 2];
      assert after == before + [NibbleToAsciiHex(bh), NibbleToAsciiHex(bl)];
      DecodeTwo(before, bh, bl);
      HighBytesStep(p, i);
      os := os + 2;
    }
    assert Pow(256, 0) == 1;
  }

  lemma HighBytesZero(p: nat)
    requires p < Pow(256, POINTER_BYTES)
    ensures HighBytes(p, 0) == 0
  {
    QuotientUnique(p, Pow(256, POINTER_BYTES), 0);
  }

  lemma DecodeTwo(s: string, bh: nat, bl: nat)
    requires bh < 16 && bl < 16
    ensures DecodeHex(s + [NibbleToAsciiHex(bh), NibbleToAsciiHex(bl)]) == 256 * DecodeHex(s) + 16 * bh + bl
    ensures HexDigits(s) ==> HexDigits(s + [NibbleToAsciiHex(bh), NibbleToAsciiHex(bl)])
  {
    var one := s + [NibbleToAsciiHex(bh)];
    var two := s + [NibbleToAsciiHex(bh), NibbleToAsciiHex(bl)];
    assert two[..|two| - 1] == one && one[..|one| - 1] == s;
    NibbleRoundTrip(bh);
    NibbleRoundTrip(bl);
  }

  // Sixteen digits that read back as an address are its nibbles, highest first.
  lemma {:induction false} NibbleAt(s: string, k: nat)
    requires HexDigits(s) && k < |s|
    ensures DecodeHex(s) >= 0 && Pow(16, k) > 0
    ensures s[|s| - 1 - k] == "0123456789abcdef"[DecodeHex(s) / Pow(16, k) % 16]
  {
    var init, c := s[..|s| - 1], s[|s| - 1];
    HexNatural(init);
    HexCharacter(c);
    LastNibble(DecodeHex(init), HexValue(c));
    if k == 0 {
      assert Pow(16, 0) == 1;
    } else {
      PowPositive(16, k - 1);
      NibbleAt(init, k - 1);
      DivideTwice(DecodeHex(s), 16, Pow(16, k - 1));
    }
  }

  lemma LastNibble(high: nat, low: nat)
    requires low < 16
    ensures (16 * high + low) / 16 == high && (16 * high + low) % 16 == low
  {
  }

  lemma {:induction false} HexNatural(s: string)
    requires HexDigits(s)
    ensures DecodeHex(s) >= 0
  {
    if s != "" {
      HexNatural(s[..|s| - 1]);
      assert HexValue(s[|s| - 1]) >= 0;
    }
  }

  lemma HexCharacter(c: char)
    requires HexValue(c) >= 0
    ensures HexValue(c) < 16 && c == "0123456789abcdef"[HexValue(c)]
  {
  }
}

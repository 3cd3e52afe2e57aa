/** The hexadecimal texts of geo/src/locator.cpp. */
module HexText {
  type Byte = x: nat | x < 0x100

  const U64 := 0x1_0000_0000_0000_0000

  function HexDigit(d: nat): char
    requires d < 16
  {
    "0123456789abcdef"[d]
  }

  function HexValue(c: char): nat {
    if '0' <= c <= '9' then c as int - '0' as int
    else if 'a' <= c <= 'f' then c as int - 'a' as int + 10
    else 0
  }

  // std::setw(width) with fill '0', for numbers that fit.
  function HexFixed(n: nat, width: nat): (r: string)
    ensures |r| == width
  {
    if width == 0 then "" else HexFixed(n / 16, width - 1) + [HexDigit(n % 16)]
  }

  function ReadHex(s: string): nat {
    if s == "" then 0 else ReadHex(s[..|s| - 1]) * 16 + HexValue(s[|s| - 1])
  }

  function Pow16(k: nat): nat {
    if k == 0 then 1 else 16 * Pow16(k - 1)
  }

  lemma DigitOff(n: nat, p: nat)
    requires n < 16 * p
    ensures n / 16 < p
  {
  }

  lemma {:induction false} ReadFixed(n: nat, width: nat)
    requires n < Pow16(width)
    ensures ReadHex(HexFixed(n, width)) == n
  {
    if width > 0 {
      DigitOff(n, Pow16(width - 1));
      ReadFixed(n / 16, width - 1);
      LastDigitRead(HexFixed(n / 16, width - 1), n % 16);
    }
  }

  lemma LastDigitRead(s: string, d: nat)
    requires d < 16
    ensures ReadHex(s + [HexDigit(d)]) == ReadHex(s) * 16 + d
  {
    assert (s + [HexDigit(d)])[..|s|] == s;
    DigitValue(d);
  }

  lemma DigitValue(d: nat)
    requires d < 16
    ensures HexValue(HexDigit(d)) == d
  {
  }

  lemma ShiftDigit(a: nat, p: nat, b: nat)
    ensures (a * p + b) * 16 == a * (16 * p) + b * 16
  {
  }

  lemma Pow16Of16()
    ensures Pow16(16) == U64
  {
    assert Pow16(2) == 0x100;
    assert Pow16(4) == 0x1_0000;
    assert Pow16(6) == 0x100_0000;
    assert Pow16(8) == 0x1_0000_0000;
    assert Pow16(10) == 0x100_0000_0000;
    assert Pow16(12) == 0x1_0000_0000_0000;
    assert Pow16(14) == 0x100_0000_0000_0000;
  }

  lemma {:induction false} ReadConcat(s: string, t: string)
    ensures ReadHex(s + t) == ReadHex(s) * Pow16(|t|) + ReadHex(t)
  {
    if t == "" {
      assert s + t == s;
    } else {
      var u := t[..|t| - 1];
      assert (s + t)[..|s + t| - 1] == s + u;
      ReadConcat(s, u);
      ShiftDigit(ReadHex(s), Pow16(|u|), ReadHex(u));
    }
  }

  function Uint128ToHex(n: nat): string {
    var high, low := n / U64, n % U64;
    "0x" + HexFixed(high, 16) + HexFixed(low, 16)
  }

  lemma HalvesRead(high: nat, low: nat)
    requires high < U64 && low < U64
    ensures ReadHex(HexFixed(high, 16) + HexFixed(low, 16)) == high * U64 + low
  {
    Pow16Of16();
    ReadFixed(high, 16);
    ReadFixed(low, 16);
    ReadConcat(HexFixed(high, 16), HexFixed(low, 16));
  }

  lemma HalfFits(n: nat)
    requires n < U64 * U64
    ensures n / U64 < U64
  {
  }

  // Thirty-two digits after "0x", which read back as the number.
  lemma Uint128Read(n: nat)
    requires n < U64 * U64
    ensures |Uint128ToHex(n)| == 34 && Uint128ToHex(n)[..2] == "0x"
    ensures ReadHex(Uint128ToHex(n)[2..]) == n
  {
    var high, low := n / U64, n % U64;
    HalfFits(n);
    HalvesRead(high, low);
    AfterPrefix("0x", HexFixed(high, 16), HexFixed(low, 16));
  }

  lemma AfterPrefix(prefix: string, s: string, t: string)
    ensures (prefix + s + t)[..|prefix|] == prefix && (prefix + s + t)[|prefix|..] == s + t
  {
  }

  function HexOf(bytes: seq<Byte>): (r: string)
    ensures |r| == 2 * |bytes|
  {
    if bytes == [] then "" else HexFixed(bytes[0], 2) + HexOf(bytes[1..])
  }

  lemma {:induction false} HexOfByte(bytes: seq<Byte>, i: nat)
    requires i < |bytes|
    ensures ReadHex(HexOf(bytes)[2 * i..2 * i + 2]) == bytes[i]
  {
    if i == 0 {
      assert HexOf(bytes)[0..2] == HexFixed(bytes[0], 2);
      assert Pow16(2) == 256;
      ReadFixed(bytes[0], 2);
    } else {
      HexOfByte(bytes[1..], i - 1);
      assert HexOf(bytes)[2 * i..2 * i + 2] == HexOf(bytes[1..])[2 * (i - 1)..2 * (i - 1) + 2];
    }
  }

  // The two digits of a byte, high half first.
  lemma {:induction false} HexDigitsOfByte(bytes: seq<Byte>, i: nat)
    requires i < |bytes|
    ensures HexOf(bytes)[2 * i] == "0123456789abcdef"[bytes[i] / 16]
    ensures HexOf(bytes)[2 * i + 1] == "0123456789abcdef"[bytes[i] % 16]
  {
    if i == 0 {
      assert HexFixed(bytes[0], 2) == HexFixed(bytes[0] / 16, 1) + [HexDigit(bytes[0] % 16)];
    } else {
      HexDigitsOfByte(bytes[1..], i - 1);
      assert HexOf(bytes)[2 * i] == HexOf(bytes[1..])[2 * (i - 1)];
      assert HexOf(bytes)[2 * i + 1] == HexOf(bytes[1..])[2 * (i - 1) + 1];
    }
  }

  lemma {:induction false} HexOfAppend(bytes: seq<Byte>, b: Byte)
    ensures HexOf(bytes + [b]) == HexOf(bytes) + HexFixed(b, 2)
  {
    if bytes == [] {
      assert bytes + [b] == [b];
      assert HexOf([b]) == HexFixed(b, 2) + HexOf([]);
    } else {
      assert (bytes + [b])[1..] == bytes[1..] + [b];
      HexOfAppend(bytes[1..], b);
    }
  }

  method BytesToHexString(bytes: seq<Byte>) returns (ss: string)
    ensures ss == HexOf(bytes)
  {
    ss := "";
    for i := 0 to |bytes|
      invariant ss == HexOf(bytes[..i])
    {
      assert bytes[..i + 1] == bytes[..i] + [bytes[i]];
      HexOfAppend(bytes[..i], bytes[i]);
      ss := ss + HexFixed(bytes[i], 2);
    }
    assert bytes[..|bytes|] == bytes;
  }
}

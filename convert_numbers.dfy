/** convert_numbers.py: the binary and hexadecimal strings that to_binary and
    to_hexadecimal build for an integer. Positive numbers get their ordinary
    base-2 and base-16 digits; a negative number gets a variable-width "invert
    and add one" bit string as wide as the binary of its magnitude, and an empty
    hexadecimal string. */
module ConvertNumbers {
  import opened Sequences

  // ---------------------------------------------------------------------------
  // Digit strings and their values

  predicate IsBits(s: string)
  {
    forall i :: 0 <= i < |s| ==> s[i] == '0' || s[i] == '1'
  }

  predicate AllOnes(s: string)
  {
    forall i :: 0 <= i < |s| ==> s[i] == '1'
  }

  /** `str(d)` for a decimal digit d. */
  function DigitChar(d: nat): char
    requires d < 10
  {
    ('0' as int + d) as char
  }

  /** `int(c)` for a decimal digit character c. */
  function DigitValue(c: char): nat
    requires '0' <= c <= '9'
  {
    c as int - '0' as int
  }

  function Pow2(k: nat): nat
  {
    if k == 0 then 1 else 2 * Pow2(k - 1)
  }

  /** The number that the bit string s denotes in base 2, most significant
      bit first. */
  function BitsValue(s: string): nat
    requires IsBits(s)
  {
    if s == [] then 0 else 2 * BitsValue(Init(s)) + (if Last(s) == '1' then 1 else 0)
  }

  const HexChars: string := "0123456789ABCDEF"

  predicate IsHexDigit(c: char)
  {
    '0' <= c <= '9' || 'A' <= c <= 'F'
  }

  predicate IsHexDigits(s: string)
  {
    forall i :: 0 <= i < |s| ==> IsHexDigit(s[i])
  }

  /** The position of the glyph c in HexChars. */
  function HexDigitValue(c: char): nat
    requires IsHexDigit(c)
  {
    if c <= '9' then c as int - '0' as int else c as int - 'A' as int + 10
  }

  /** The number that s denotes in base 16, most significant digit first. */
  function HexValue(s: string): nat
    requires IsHexDigits(s)
  {
    if s == [] then 0 else 16 * HexValue(Init(s)) + HexDigitValue(Last(s))
  }

  // ---------------------------------------------------------------------------
  // to_binary and to_hexadecimal as functions

  /** The digits the division loop of to_binary prepends for m, most
      significant first; none for 0. */
  function Bits(m: nat): (r: string)
    ensures r == [] <==> m == 0
  {
    if m == 0 then "" else Bits(m / 2) + [DigitChar(m % 2)]
  }

  /** `''.join('1' if bit == '0' else '0' for bit in s)` */
  function Inverted(s: string): (r: string)
    ensures |r| == |s|
    ensures IsBits(s) ==> IsBits(r) && forall i :: 0 <= i < |s| ==> r[i] != s[i]
  {
    seq(|s|, i requires 0 <= i < |s| => if s[i] == '0' then '1' else '0')
  }

  /** What the carry loop leaves in the list: s plus one, worked from the
      right, with a carry out of the leftmost bit dropped. */
  function Incremented(s: string): (r: string)
    ensures |r| == |s|
  {
    if s == [] then []
    else if Last(s) == '1' then Incremented(Init(s)) + "0"
    else Init(s) + "1"
  }

  function Zeros(k: nat): string
  {
    seq(k, _ => '0')
  }

  /** to_binary(n), branch by branch: "0" for zero, the division digits for a
      positive number, and for a negative one the inverted binary of its
      magnitude plus one, widened by a leading '1' if the carry runs out. */
  function Binary(n: int): (r: string)
    ensures |r| > 0
    decreases if n < 0 then 1 else 0
  {
    if n == 0 then "0"
    else if n > 0 then Bits(n)
    else
      var inverted := Inverted(Binary(-n));
      if AllOnes(inverted) then "1" + Incremented(inverted) else Incremented(inverted)
  }

  /** The digits the division loop of to_hexadecimal prepends for m; none
      unless m > 0. */
  function HexDigits(m: int): (r: string)
    ensures r == [] <==> m <= 0
  {
    if m <= 0 then "" else HexDigits(m / 16) + [HexChars[m % 16]]
  }

  /** to_hexadecimal(n): "0" for zero, otherwise whatever the loop guarded by
      `number > 0` builds, which is nothing for a negative number. */
  function Hex(n: int): (r: string)
    ensures r == [] <==> n < 0
  {
    if n == 0 then "0" else HexDigits(n)
  }

  // ---------------------------------------------------------------------------
  // Properties

  lemma {:induction false} BitsAreBits(m: nat)
    ensures IsBits(Bits(m))
  {
    if m > 0 {
      BitsAreBits(m / 2);
    }
  }

  /** Bits(m) is Bits(m / 2) followed by the digit of m % 2. */
  lemma BitsSnoc(m: nat)
    requires m > 0
    ensures |Bits(m)| > 0 && Init(Bits(m)) == Bits(m / 2) && Last(Bits(m)) == DigitChar(m % 2)
  {
  }

  /** For m > 0 the division digits start with '1'. */
  lemma {:induction false} BitsLeading(m: nat)
    requires m > 0
    ensures |Bits(m)| > 0 && Bits(m)[0] == '1'
  {
    BitsSnoc(m);
    var b := Bits(m);
    if m / 2 > 0 {
      BitsLeading(m / 2);
      assert b[0] == Init(b)[0];
    } else {
      assert m == 1 && b == Init(b) + [DigitChar(1)];
    }
  }

  /** For m > 0 the division digits are a bit string that starts with '1' and
      denotes m. */
  lemma {:induction false} BitsMeaning(m: nat)
    requires m > 0
    ensures IsBits(Bits(m)) && |Bits(m)| > 0
    ensures Bits(m)[0] == '1'
    ensures BitsValue(Bits(m)) == m
  {
    BitsAreBits(m);
    BitsLeading(m);
    BitsSnoc(m);
    var h := m / 2;
    if h > 0 {
      BitsMeaning(h);
    }
    assert BitsValue(Bits(m)) == 2 * BitsValue(Bits(h)) + m % 2 by {
      BitsAreBits(h);
    }
  }

  lemma {:induction false} InvertedValue(s: string)
    requires IsBits(s)
    ensures IsBits(Inverted(s)) && |Inverted(s)| == |s|
    ensures BitsValue(Inverted(s)) + BitsValue(s) + 1 == Pow2(|s|)
  {
    if s != [] {
      var r := Inverted(s);
      assert Init(r) == Inverted(Init(s));
      InvertedValue(Init(s));
    }
  }

  /** Adding one flips the trailing run of '1's to '0's and the rightmost '0'
      to '1', and leaves every bit to its left as it was. */
  lemma {:induction false} IncrementedShape(s: string, p: nat)
    requires p < |s| && s[p] != '1'
    requires forall k :: p < k < |s| ==> s[k] == '1'
    ensures Incremented(s) == s[..p] + "1" + Zeros(|s| - p - 1)
  {
    if p < |s| - 1 {
      IncrementedShape(Init(s), p);
      assert Init(s)[..p] == s[..p];
      assert Zeros(|s| - p - 2) + "0" == Zeros(|s| - p - 1);
    } else {
      assert Init(s) == s[..p];
      assert Zeros(0) == [];
    }
  }

  /** Adding one to a string of '1's turns every bit to '0' (the carry that
      is left over is stated by IncrementInPlace). */
  lemma {:induction false} IncrementedAllOnes(s: string)
    requires AllOnes(s)
    ensures Incremented(s) == Zeros(|s|)
  {
    if s != [] {
      IncrementedAllOnes(Init(s));
      assert Zeros(|s| - 1) + "0" == Zeros(|s|);
    }
  }

  /** Incremented adds one to the value of a bit string, modulo 2^|s|: the
      carry out is lost exactly when every bit is '1'. */
  lemma {:induction false} IncrementedValue(s: string)
    requires IsBits(s)
    ensures IsBits(Incremented(s)) && |Incremented(s)| == |s|
    ensures BitsValue(Incremented(s)) + (if AllOnes(s) then Pow2(|s|) else 0) == BitsValue(s) + 1
  {
    if s != [] {
      var r, t := Incremented(s), Init(s);
      AllOnesSnoc(s);
      if Last(s) == '1' {
        IncrementedValue(t);
        assert Init(r) == Incremented(t) && Last(r) == '0';
        assert BitsValue(r) == 2 * BitsValue(Incremented(t));
        assert Pow2(|s|) == 2 * Pow2(|t|);
      } else {
        assert Init(r) == t && Last(r) == '1';
        assert BitsValue(r) == 2 * BitsValue(t) + 1;
      }
    }
  }

  lemma AllOnesSnoc(s: string)
    requires |s| > 0
    ensures AllOnes(s) <==> AllOnes(Init(s)) && Last(s) == '1'
  {
    if AllOnes(Init(s)) && Last(s) == '1' {
      forall i | 0 <= i < |s| ensures s[i] == '1' {
        if i < |s| - 1 {
          assert s[i] == Init(s)[i];
        }
      }
    }
  }

  /** For n > 0, to_binary(n) is a bit string starting with '1' whose base-2
      value is n. */
  lemma BinaryOfPositive(n: int)
    requires n > 0
    ensures IsBits(Binary(n)) && |Binary(n)| > 0 && Binary(n)[0] == '1'
    ensures BitsValue(Binary(n)) == n
  {
    BitsMeaning(n);
  }

  /** For n < 0, the final carry never runs out (the inverted string starts
      with '0'), so to_binary(n) is exactly as wide as to_binary(-n), k bits,
      and its base-2 value is 2^k + n: the k-bit two's complement of n. */
  lemma BinaryOfNegative(n: int)
    requires n < 0
    ensures !AllOnes(Inverted(Binary(-n)))
    ensures IsBits(Binary(n)) && |Binary(n)| == |Binary(-n)|
    ensures BitsValue(Binary(n)) == Pow2(|Binary(-n)|) + n
  {
    var b := Binary(-n);
    BitsMeaning(-n);
    InvertedValue(b);
    var inverted := Inverted(b);
    assert inverted[0] == '0';
    IncrementedValue(inverted);
  }

  lemma SmallBits()
    ensures Bits(1) == "1" && Bits(2) == "10" && Bits(3) == "11" && Bits(5) == "101"
  {
    assert DigitChar(0) == '0' && DigitChar(1) == '1';
    assert Bits(1) == [] + ['1'];
    assert Bits(2) == "1" + ['0'];
    assert Bits(3) == "1" + ['1'];
    assert Bits(5) == "10" + ['1'];
  }

  /** -5 becomes "011" (5 is "101"). */
  lemma BinaryOfMinusFive()
    ensures Binary(-5) == "011"
  {
    SmallBits();
    var inv := Inverted("101");
    assert inv == "010" by { assert |inv| == 3 && inv[0] == '0' && inv[1] == '1' && inv[2] == '0'; }
    assert Incremented("010") == "01" + "1";
    assert !AllOnes(inv) by { assert inv[0] != '1'; }
  }

  /** -3 becomes "01" (3 is "11"). */
  lemma BinaryOfMinusThree()
    ensures Binary(-3) == "01"
  {
    SmallBits();
    var inv := Inverted("11");
    assert inv == "00" by { assert |inv| == 2 && inv[0] == '0' && inv[1] == '0'; }
    assert Incremented("00") == "0" + "1";
    assert !AllOnes(inv) by { assert inv[0] != '1'; }
  }

  lemma HexGlyph(d: nat)
    requires d < 16
    ensures IsHexDigit(HexChars[d]) && HexDigitValue(HexChars[d]) == d
  {
    if d < 10 {
      assert HexChars[d] == DigitChar(d) by {
        if d == 0 {} else if d == 1 {} else if d == 2 {} else if d == 3 {} else if d == 4 {}
        else if d == 5 {} else if d == 6 {} else if d == 7 {} else if d == 8 {} else {}
      }
    } else {
      assert HexChars[d] == ('A' as int + d - 10) as char by {
        if d == 10 {} else if d == 11 {} else if d == 12 {} else if d == 13 {} else if d == 14 {} else {}
      }
    }
  }

  /** For m > 0 the hexadecimal digits use only glyphs of HexChars, do not
      start with '0', and denote m in base 16. */
  lemma {:induction false} HexDigitsMeaning(m: int)
    requires m > 0
    ensures IsHexDigits(HexDigits(m)) && |HexDigits(m)| > 0
    ensures HexDigits(m)[0] != '0'
    ensures HexValue(HexDigits(m)) == m
  {
    var h := HexDigits(m);
    HexGlyph(m % 16);
    assert Init(h) == HexDigits(m / 16) && Last(h) == HexChars[m % 16];
    if m / 16 > 0 {
      HexDigitsMeaning(m / 16);
    } else {
      assert h == [HexChars[m]];
      assert HexDigitValue(h[0]) == m;
    }
  }

  /** to_hexadecimal(n) for n > 0: its glyphs, its leading digit and its value. */
  lemma HexOfPositive(n: int)
    requires n > 0
    ensures IsHexDigits(Hex(n)) && |Hex(n)| > 0 && Hex(n)[0] != '0'
    ensures HexValue(Hex(n)) == n
  {
    HexDigitsMeaning(n);
  }

  // ---------------------------------------------------------------------------
  // The loops of to_binary and to_hexadecimal

  /** The carry loop of to_binary, on the list of characters of an inverted
      bit string: walking from the right, each '1' becomes '0' while the carry
      is 1; the first other digit gets the carry added and the walk stops. */
  method IncrementInPlace(a: array<char>) returns (carry: int)
    requires IsBits(a[..])
    modifies a
    ensures a[..] == Incremented(old(a[..]))
    ensures carry == if AllOnes(old(a[..])) then 1 else 0
  {
    ghost var s := a[..];
    carry := 1;
    for i := a.Length downto 0
      invariant carry == 1
      invariant a[..i] == s[..i]
      invariant forall k :: i <= k < a.Length ==> s[k] == '1' && a[k] == '0'
    {
      if a[i] == '1' && carry == 1 {
        a[i] := '0';
        carry := 1;
      } else {
        assert a[i] == s[i];
        a[i] := DigitChar(DigitValue(a[i]) + carry);
        carry := 0;
        IncrementedShape(s, i);
        assert a[..] == s[..i] + "1" + Zeros(|s| - i - 1);
        assert !AllOnes(s) by { assert s[i] != '1'; }
        break;
      }
    }
    if carry == 1 {
      IncrementedAllOnes(s);
      assert a[..] == Zeros(|s|);
    }
  }

  /** to_binary */
  method ToBinary(number: int) returns (binary: string)
    ensures binary == Binary(number)
    ensures number == 0 ==> binary == "0"
    decreases if number < 0 then 1 else 0
  {
    if number == 0 {
      binary := "0";
    } else if number > 0 {
      binary := "";
      var m := number;
      while m > 0
        invariant m >= 0
        invariant Bits(number) == Bits(m) + binary
      {
        assert Bits(m) + binary == Bits(m / 2) + ([DigitChar(m % 2)] + binary);
        binary := [DigitChar(m % 2)] + binary;
        m := m / 2;
      }
    } else {
      var absBinary := ToBinary(-number);
      var invertedBinary := Inverted(absBinary);
      BitsAreBits(-number);
      InvertedValue(absBinary);
      var binaryList := new char[|invertedBinary|](i requires 0 <= i < |invertedBinary| => invertedBinary[i]);
      assert binaryList[..] == invertedBinary;
      var carry := IncrementInPlace(binaryList);
      if carry == 1 {
        binary := "1" + binaryList[..];
      } else {
        binary := binaryList[..];
      }
    }
  }

  /** to_hexadecimal */
  method ToHexadecimal(number: int) returns (hexadecimal: string)
    ensures hexadecimal == Hex(number)
    ensures number == 0 ==> hexadecimal == "0"
    ensures number < 0 ==> hexadecimal == ""
  {
    if number == 0 {
      return "0";
    }
    hexadecimal := "";
    var m := number;
    while m > 0
      invariant HexDigits(number) == HexDigits(m) + hexadecimal
    {
      hexadecimal := [HexChars[m % 16]] + hexadecimal;
      m := m / 16;
    }
  }
}

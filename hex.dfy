/**
 * The hexadecimal codec of Utils.cs: `ToHex` writes every byte as two
 * lower-case hex digits (`ToString("x2")`), `FromHex` parses the string two
 * characters at a time with `Convert.ToByte(_, 16)`.
 */
module Hex {
  import opened Base

  const Digits: string := "0123456789abcdef"

  /** The lower-case digit for a nibble, as format "x" prints it. */
  function HexDigit(n: int): char
    requires 0 <= n < 16
  {
    Digits[n]
  }

  /** `b.ToString("x2")`: high nibble first. */
  function ByteHex(b: byte): string
  {
    [HexDigit(b / 16), HexDigit(b % 16)]
  }

  /** Reference definition of the hex form of a byte sequence. */
  function HexOf(bytes: seq<byte>): string
  {
    if bytes == [] then [] else ByteHex(bytes[0]) + HexOf(bytes[1..])
  }

  /** The value of a digit as `Convert.ToByte(_, 16)` reads it (either case), or None. */
  function DigitValue(c: char): Option<int>
  {
    if '0' <= c <= '9' then Some(c as int - '0' as int)
    else if 'a' <= c <= 'f' then Some(c as int - 'a' as int + 10)
    else if 'A' <= c <= 'F' then Some(c as int - 'A' as int + 10)
    else None
  }

  predicate IsHexChar(c: char)
  {
    DigitValue(c).Some?
  }

  /**
   * `Convert.ToByte(pair, 16)` on a two-character string. A leading `+` is
   * skipped, so `+d` reads as the single digit `d`; a leading `-` is refused
   * in base 16 with an ArgumentException; anything else must be two digits,
   * otherwise a FormatException (no digits, or junk after them).
   */
  function PairValue(c0: char, c1: char): (r: Result<byte>)
    ensures r.Failure? <==> !ValidPair(c0, c1)
    ensures r.Failure? ==> (r.error == Argument <==> c0 == '-')
    ensures r.Failure? ==> r.error == Argument || r.error == Format
    ensures r.Success? && c0 == '+' ==> r.value == DigitValue(c1).value
    ensures r.Success? && c0 != '+' ==> r.value == DigitValue(c0).value * 16 + DigitValue(c1).value
  {
    if c0 == '-' then Failure(Argument)
    else if c0 == '+' then
      if IsHexChar(c1) then Success(DigitValue(c1).value as byte) else Failure(Format)
    else if IsHexChar(c0) && IsHexChar(c1) then Success((DigitValue(c0).value * 16 + DigitValue(c1).value) as byte)
    else Failure(Format)
  }

  /** A pair `Convert.ToByte(_, 16)` accepts: a digit or `+`, then a digit. */
  predicate ValidPair(c0: char, c1: char)
  {
    (c0 == '+' || IsHexChar(c0)) && IsHexChar(c1)
  }

  /**
   * `FromHex`: bytes from the even positions onward, left to right. An odd
   * length makes the last `Substring(x, 2)` throw; a pair `Convert.ToByte`
   * refuses makes it throw. The first failing pair decides.
   */
  function FromHex(hex: string): (r: Result<seq<byte>>)
    ensures r.Success? ==> 2 * |r.value| == |hex|
    ensures r.Failure? ==> r.error == ArgumentOutOfRange || r.error == Format || r.error == Argument
  {
    if |hex| == 0 then Success([])
    else if |hex| == 1 then Failure(ArgumentOutOfRange)
    else
      match PairValue(hex[0], hex[1])
      case Failure(e) => Failure(e)
      case Success(b) =>
        match FromHex(hex[2..])
        case Success(rest) => Success([b] + rest)
        case Failure(e) => Failure(e)
  }

  /** The edge cases of `Convert.ToByte(_, 16)` as `FromHex` meets them. */
  lemma FromHexEdgeCases()
    ensures FromHex("+a") == Success([10 as byte])
    ensures FromHex("-a") == Failure(Argument)
    ensures FromHex("0x") == Failure(Format)
    ensures FromHex("abc") == Failure(ArgumentOutOfRange)
    ensures FromHex("zzc") == Failure(Format)
  {
    assert "+a"[2..] == [];
    assert PairValue('+', 'a') == Success(10);
    assert FromHex("+a"[2..]) == Success([]);
    assert [10 as byte] + [] == [10 as byte];
    assert "abc"[2..] == "c";
  }

  lemma {:induction false} HexOfAppend(bytes: seq<byte>, b: byte)
    ensures HexOf(bytes + [b]) == HexOf(bytes) + ByteHex(b)
  {
    if bytes != [] {
      assert (bytes + [b])[1..] == bytes[1..] + [b];
      HexOfAppend(bytes[1..], b);
    }
  }

  /** `ToHex` as the source writes it: append two digits per byte to a builder. */
  method ToHex(bytes: seq<byte>) returns (hex: string)
    ensures hex == HexOf(bytes)
  {
    var builder := "";
    for i := 0 to |bytes|
      invariant builder == HexOf(bytes[..i])
    {
      assert bytes[..i + 1] == bytes[..i] + [bytes[i]];
      HexOfAppend(bytes[..i], bytes[i]);
      builder := builder + ByteHex(bytes[i]);
    }
    assert bytes[..|bytes|] == bytes;
    hex := builder;
  }

  /** Exactly two characters per byte, in order: the high then the low nibble of each byte. */
  lemma {:induction false} HexOfLayout(bytes: seq<byte>)
    ensures |HexOf(bytes)| == 2 * |bytes|
    ensures forall i :: 0 <= i < |bytes| ==>
      HexOf(bytes)[2 * i] == HexDigit(bytes[i] / 16) && HexOf(bytes)[2 * i + 1] == HexDigit(bytes[i] % 16)
  {
    if bytes != [] {
      HexOfLayout(bytes[1..]);
      forall i | 0 <= i < |bytes|
        ensures HexOf(bytes)[2 * i] == HexDigit(bytes[i] / 16)
        ensures HexOf(bytes)[2 * i + 1] == HexDigit(bytes[i] % 16)
      {
        if i > 0 {
          assert HexOf(bytes)[2 * i] == HexOf(bytes[1..])[2 * (i - 1)];
          assert HexOf(bytes)[2 * i + 1] == HexOf(bytes[1..])[2 * (i - 1) + 1];
        }
      }
    }
  }

  /** Every character `ToHex` emits is a lower-case hex digit. */
  lemma {:induction false} HexOfIsLowerCase(bytes: seq<byte>)
    ensures forall c :: c in HexOf(bytes) ==> c in Digits
  {
    if bytes != [] {
      HexOfIsLowerCase(bytes[1..]);
    }
  }

  lemma DigitRoundTrip(n: int)
    requires 0 <= n < 16
    ensures DigitValue(HexDigit(n)) == Some(n)
  {
  }

  /** A digit that parses is printed back as its lower-case form. */
  lemma DigitCanonical(c: char)
    requires IsHexChar(c)
    ensures HexDigit(DigitValue(c).value) == LowerChar(c)
  {
  }

  /** The two digits of a byte parse back to that byte. */
  lemma PairOfByteHex(b: byte)
    ensures PairValue(ByteHex(b)[0], ByteHex(b)[1]) == Success(b)
  {
    DigitRoundTrip(b / 16);
    DigitRoundTrip(b % 16);
  }

  /** Round trip: parsing the hex form gives the bytes back. */
  lemma {:induction false} FromHexToHex(bytes: seq<byte>)
    ensures FromHex(HexOf(bytes)) == Success(bytes)
  {
    if bytes != [] {
      var b, h := bytes[0], HexOf(bytes);
      assert h == ByteHex(b) + HexOf(bytes[1..]);
      PairOfByteHex(b);
      assert h[0] == ByteHex(b)[0] && h[1] == ByteHex(b)[1];
      assert h[2..] == HexOf(bytes[1..]);
      FromHexToHex(bytes[1..]);
      assert bytes == [b] + bytes[1..];
    }
  }

  /** `ToHex` is injective, so distinct hashes give distinct hex names. */
  lemma HexOfInjective(x: seq<byte>, y: seq<byte>)
    requires HexOf(x) == HexOf(y)
    ensures x == y
  {
    FromHexToHex(x);
    FromHexToHex(y);
  }

  /**
   * `FromHex` succeeds exactly on even-length strings whose every pair is
   * valid: a hex digit of either case or `+`, then a hex digit.
   */
  lemma {:induction false} FromHexSucceedsIff(hex: string)
    ensures FromHex(hex).Success? <==>
      |hex| % 2 == 0 && forall i :: 0 <= i < |hex| - 1 && i % 2 == 0 ==> ValidPair(hex[i], hex[i + 1])
  {
    if |hex| >= 2 {
      FromHexSucceedsIff(hex[2..]);
      assert forall i :: 2 <= i < |hex| ==> hex[i] == hex[2..][i - 2];
    }
  }

  /** The character `ToHex` prints back for one `FromHex` accepted: `+` stands for a leading 0. */
  function CanonicalDigit(c: char): char
  {
    if c == '+' then '0' else LowerChar(c)
  }

  /** A pair `FromHex` accepts is printed back as its canonical digits. */
  lemma PairCanonical(c0: char, c1: char)
    requires ValidPair(c0, c1)
    ensures ByteHex(PairValue(c0, c1).value) == [CanonicalDigit(c0), CanonicalDigit(c1)]
  {
    var lo := DigitValue(c1).value;
    var hi := if c0 == '+' then 0 else DigitValue(c0).value;
    var b := PairValue(c0, c1).value;
    assert b as int == hi * 16 + lo;
    Nibbles(hi, lo);
    assert ByteHex(b) == [HexDigit(hi), HexDigit(lo)];
    DigitCanonical(c1);
    if c0 != '+' {
      DigitCanonical(c0);
    }
  }

  /** The byte `hi * 16 + lo` splits back into its two nibbles. */
  lemma Nibbles(hi: int, lo: int)
    requires 0 <= hi < 16 && 0 <= lo < 16
    ensures (hi * 16 + lo) / 16 == hi && (hi * 16 + lo) % 16 == lo
  {
  }

  /**
   * The other direction of the round trip: what `FromHex` accepts, `ToHex`
   * gives back character by character in lower case, a `+` as `0`; without
   * a `+` that is the input lower-cased.
   */
  lemma {:induction false} ToHexFromHex(hex: string)
    requires FromHex(hex).Success?
    ensures |HexOf(FromHex(hex).value)| == |hex|
    ensures forall i :: 0 <= i < |hex| ==> HexOf(FromHex(hex).value)[i] == CanonicalDigit(hex[i])
    ensures '+' !in hex ==> HexOf(FromHex(hex).value) == Lower(hex)
  {
    var out := HexOf(FromHex(hex).value);
    if |hex| >= 2 {
      var tail := hex[2..];
      ToHexFromHex(tail);
      var b := PairValue(hex[0], hex[1]).value;
      assert FromHex(hex).value == [b] + FromHex(tail).value;
      assert out == ByteHex(b) + HexOf(FromHex(tail).value);
      PairCanonical(hex[0], hex[1]);
      forall i | 2 <= i < |hex| ensures out[i] == CanonicalDigit(hex[i]) {
        assert hex[i] == tail[i - 2];
      }
    }
    if '+' !in hex {
      assert forall i :: 0 <= i < |hex| ==> CanonicalDigit(hex[i]) == LowerChar(hex[i]);
    }
  }
}

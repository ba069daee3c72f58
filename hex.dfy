/**
 * The digest-to-string formatting of the ingestion tool (tool/Program.cs:85):
 * `BitConverter.ToString(hash)` writes every byte as two upper-case hex digits
 * and separates the pairs by dashes ("0A-FF-10"); `.Replace("-", "")` drops the
 * dashes and `.ToLower()` lowers the letters. The result is proved equal to a
 * direct lower-case hex rendering, and that rendering is proved invertible.
 */
module Hex {
  import opened Base

  function UpperDigit(n: int): (c: char)
    requires 0 <= n < 16
  {
    if n < 10 then ('0' as int + n) as char else ('A' as int + n - 10) as char
  }

  function LowerDigit(n: int): (c: char)
    requires 0 <= n < 16
  {
    if n < 10 then ('0' as int + n) as char else ('a' as int + n - 10) as char
  }

  predicate IsLowerHexDigit(c: char) {
    ('0' <= c <= '9') || ('a' <= c <= 'f')
  }

  /** The value of a lower-case hex digit; upper-case letters are not digits here. */
  function DigitValue(c: char): (r: Option<int>)
    ensures r.Some? <==> IsLowerHexDigit(c)
    ensures r.Some? ==> 0 <= r.value < 16 && LowerDigit(r.value) == c
  {
    if '0' <= c <= '9' then Some(c as int - '0' as int)
    else if 'a' <= c <= 'f' then Some(c as int - 'a' as int + 10)
    else None
  }

  /** `BitConverter.ToString(bytes)`: "XX-XX-...-XX", upper case, "" for no bytes. */
  function BitConverterToString(bytes: seq<Byte>): string
  {
    if |bytes| == 0 then ""
    else if |bytes| == 1 then [UpperDigit(bytes[0] / 16), UpperDigit(bytes[0] % 16)]
    else [UpperDigit(bytes[0] / 16), UpperDigit(bytes[0] % 16), '-'] + BitConverterToString(bytes[1..])
  }

  /** `s.Replace("-", "")`. */
  function RemoveDashes(s: string): string
  {
    if s == [] then []
    else (if s[0] == '-' then [] else [s[0]]) + RemoveDashes(s[1..])
  }

  /** `s.ToLower()` on ASCII letters; every other character is kept. */
  function ToLowerChar(c: char): char
  {
    if 'A' <= c <= 'Z' then (c as int - 'A' as int + 'a' as int) as char else c
  }

  function ToLower(s: string): string
  {
    if s == [] then [] else [ToLowerChar(s[0])] + ToLower(s[1..])
  }

  /** The digest string exactly as tool/Program.cs:85 builds it from the hash bytes. */
  function Digest(hash: seq<Byte>): string
  {
    ToLower(RemoveDashes(BitConverterToString(hash)))
  }

  /** Reference rendering: two lower-case hex digits per byte, high nibble first, no separator. */
  function LowerHex(bytes: seq<Byte>): string
  {
    if bytes == [] then []
    else [LowerDigit(bytes[0] / 16), LowerDigit(bytes[0] % 16)] + LowerHex(bytes[1..])
  }

  /** Inverse of LowerHex on lower-case hex strings of even length; None on anything else. */
  function ParseHex(s: string): Option<seq<Byte>>
  {
    if s == [] then Some([])
    else if |s| < 2 then None
    else
      match (DigitValue(s[0]), DigitValue(s[1]), ParseHex(s[2..]))
      case (Some(hi), Some(lo), Some(rest)) => Some([hi * 16 + lo] + rest)
      case _ => None
  }

  lemma {:induction false} RemoveDashesConcat(a: string, b: string)
    ensures RemoveDashes(a + b) == RemoveDashes(a) + RemoveDashes(b)
  {
    if a != [] {
      assert (a + b)[1..] == a[1..] + b;
      RemoveDashesConcat(a[1..], b);
    } else {
      assert a + b == b;
    }
  }

  lemma {:induction false} ToLowerConcat(a: string, b: string)
    ensures ToLower(a + b) == ToLower(a) + ToLower(b)
  {
    if a != [] {
      assert (a + b)[1..] == a[1..] + b;
      ToLowerConcat(a[1..], b);
    } else {
      assert a + b == b;
    }
  }

  /** Removing the dashes and lowering the result of BitConverter.ToString is plain lower-case hex. */
  lemma {:induction false} DigestIsLowerHex(hash: seq<Byte>)
    ensures Digest(hash) == LowerHex(hash)
  {
    if |hash| == 0 {
    } else {
      var hi, lo := hash[0] / 16, hash[0] % 16;
      var pair := [UpperDigit(hi), UpperDigit(lo)];
      assert pair[1..] == [UpperDigit(lo)] && pair[1..][1..] == [];
      assert RemoveDashes(pair) == pair by {
        assert RemoveDashes(pair[1..]) == [UpperDigit(lo)] + RemoveDashes([]);
      }
      assert ToLower(pair) == [LowerDigit(hi), LowerDigit(lo)] by {
        assert ToLower(pair[1..]) == [ToLowerChar(UpperDigit(lo))] + ToLower([]);
      }
      if |hash| == 1 {
        assert LowerHex(hash[1..]) == [];
      } else {
        var rest := BitConverterToString(hash[1..]);
        assert BitConverterToString(hash) == pair + ['-'] + rest;
        RemoveDashesConcat(pair + ['-'], rest);
        RemoveDashesConcat(pair, ['-']);
        assert RemoveDashes(['-']) == [] by { assert ['-'][1..] == []; }
        ToLowerConcat(pair, RemoveDashes(rest));
        DigestIsLowerHex(hash[1..]);
      }
    }
  }

  /** Two characters per byte, each a lower-case hex digit (so no dash). */
  lemma {:induction false} LowerHexShape(bytes: seq<Byte>)
    ensures |LowerHex(bytes)| == 2 * |bytes|
    ensures forall k | 0 <= k < |LowerHex(bytes)| :: IsLowerHexDigit(LowerHex(bytes)[k])
  {
    if bytes != [] {
      LowerHexShape(bytes[1..]);
    }
  }

  /** The formatting of tool/Program.cs:85 yields 2 lower-case hex digits per hash byte and no separator. */
  lemma DigestFormat(hash: seq<Byte>)
    ensures |Digest(hash)| == 2 * |hash|
    ensures forall k | 0 <= k < |Digest(hash)| :: IsLowerHexDigit(Digest(hash)[k])
    ensures '-' !in Digest(hash)
  {
    DigestIsLowerHex(hash);
    LowerHexShape(hash);
  }

  lemma {:induction false} ParseLowerHex(bytes: seq<Byte>)
    ensures ParseHex(LowerHex(bytes)) == Some(bytes)
  {
    if bytes != [] {
      var s := LowerHex(bytes);
      assert s[2..] == LowerHex(bytes[1..]);
      ParseLowerHex(bytes[1..]);
      assert bytes == [bytes[0]] + bytes[1..];
    }
  }

  lemma {:induction false} LowerHexOfParse(s: string, bytes: seq<Byte>)
    requires ParseHex(s) == Some(bytes)
    ensures LowerHex(bytes) == s
  {
    if s != [] {
      var hi, lo := DigitValue(s[0]).value, DigitValue(s[1]).value;
      var rest := ParseHex(s[2..]).value;
      assert bytes == [hi * 16 + lo] + rest;
      LowerHexOfParse(s[2..], rest);
      assert (hi * 16 + lo) / 16 == hi && (hi * 16 + lo) % 16 == lo;
      assert s == [s[0], s[1]] + s[2..];
    }
  }

  /** ParseHex and LowerHex are inverse bijections between byte strings and lower-case hex strings of even length. */
  lemma ParseHexIff(s: string, bytes: seq<Byte>)
    ensures ParseHex(s) == Some(bytes) <==> LowerHex(bytes) == s
  {
    if ParseHex(s) == Some(bytes) {
      LowerHexOfParse(s, bytes);
    }
    if LowerHex(bytes) == s {
      ParseLowerHex(bytes);
    }
  }

  /** Distinct hash values give distinct digest strings: the formatting loses nothing. */
  lemma DigestInjective(a: seq<Byte>, b: seq<Byte>)
    requires Digest(a) == Digest(b)
    ensures a == b
  {
    DigestIsLowerHex(a);
    DigestIsLowerHex(b);
    ParseLowerHex(a);
    ParseLowerHex(b);
  }
}

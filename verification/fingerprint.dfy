/**
 The content fingerprint stored in every shadow record: the Java string hash of the
 value (a null value hashing like the empty string), printed in hexadecimal.

 Java's `String.hashCode` folds `h = 31*h + unit` over the UTF-16 code units of
 the string in 32-bit two's-complement arithmetic; `Integer.toHexString` prints
 those 32 bits as an unsigned, lower-case hexadecimal number without leading
 zeros. Here the 32 bits are kept as an int in [0, 2^32).
 */
module Fingerprint {
  import opened Wrappers

  const TwoTo32: int := 0x1_0000_0000

  /** A high (leading) surrogate unit. */
  predicate IsHighSurrogate(x: int)
  {
    0xD800 <= x < 0xDC00
  }

  /** A low (trailing) surrogate unit. */
  predicate IsLowSurrogate(x: int)
  {
    0xDC00 <= x < 0xE000
  }

  /** The UTF-16 code units of one character: the character itself when it is in the
      Basic Multilingual Plane, otherwise a high/low surrogate pair. */
  function CharUnits(c: char): (u: seq<int>)
    ensures 1 <= |u| <= 2
    ensures forall i :: 0 <= i < |u| ==> 0 <= u[i] < 0x1_0000
    ensures |u| == 2 <==> c as int >= 0x1_0000
    ensures |u| == 1 ==> u[0] == c as int && !IsHighSurrogate(u[0]) && !IsLowSurrogate(u[0])
    ensures |u| == 2 ==> && IsHighSurrogate(u[0]) && IsLowSurrogate(u[1])
                         && 0x1_0000 + (u[0] - 0xD800) * 0x400 + (u[1] - 0xDC00) == c as int
  {
    var v := c as int;
    if v < 0x1_0000 then [v]
    else [0xD800 + (v - 0x1_0000) / 0x400, 0xDC00 + (v - 0x1_0000) % 0x400]
  }

  /** Reads UTF-16 code units back into characters: a unit outside the surrogate range
      is a character, a high surrogate followed by a low one is the supplementary
      character they encode; anything else (a lone surrogate) is not well-formed. */
  function DecodeUtf16(u: seq<int>): Option<string>
  {
    if |u| == 0 then Some([])
    else if 0 <= u[0] < 0xD800 || 0xE000 <= u[0] < 0x1_0000 then
      match DecodeUtf16(u[1..])
      case Some(t) => Some([u[0] as char] + t)
      case None => None
    else if IsHighSurrogate(u[0]) && |u| >= 2 && IsLowSurrogate(u[1]) then
      match DecodeUtf16(u[2..])
      case Some(t) => Some([(0x1_0000 + (u[0] - 0xD800) * 0x400 + (u[1] - 0xDC00)) as char] + t)
      case None => None
    else None
  }

  /** The UTF-16 code units Java stores for a string: one or two per character, and
      decoding them gives the string back. */
  function Utf16Units(s: string): (u: seq<int>)
    ensures |s| <= |u| <= 2 * |s|
    ensures forall i :: 0 <= i < |u| ==> 0 <= u[i] < 0x1_0000
    ensures DecodeUtf16(u) == Some(s)
  {
    if |s| == 0 then []
    else
      var rest := Utf16Units(s[1..]);
      DecodeFirstChar(s[0], rest);
      assert [s[0]] + s[1..] == s;
      CharUnits(s[0]) + rest
  }

  /** Decoding the units of one character followed by more units. */
  lemma DecodeFirstChar(c: char, rest: seq<int>)
    ensures DecodeUtf16(CharUnits(c) + rest) ==
              match DecodeUtf16(rest)
              case Some(t) => Some([c] + t)
              case None => None
  {
    var u := CharUnits(c) + rest;
    if |CharUnits(c)| == 1 {
      assert u[1..] == rest;
      assert u[0] as char == c;
    } else {
      assert u[2..] == rest;
      assert (0x1_0000 + (u[0] - 0xD800) * 0x400 + (u[1] - 0xDC00)) as char == c;
    }
  }

  function Pow31(n: nat): (p: int)
    ensures p >= 1
  {
    if n == 0 then 1 else 31 * Pow31(n - 1)
  }

  /** Reference definition of the hash: the polynomial sum of u[i] * 31^(n-1-i),
      unbounded. */
  function PolySum(u: seq<int>): int
  {
    if |u| == 0 then 0 else u[0] * Pow31(|u| - 1) + PolySum(u[1..])
  }

  /** The hash as Java computes it: a left fold of `31*h + unit`, reduced to 32 bits after
      every step. */
  function HashUnits(u: seq<int>): (h: int)
    ensures 0 <= h < TwoTo32
  {
    if |u| == 0 then 0 else (31 * HashUnits(u[..|u| - 1]) + u[|u| - 1]) % TwoTo32
  }

  /** `s.hashCode()`, as the unsigned value of its 32 bits. */
  function JavaHash(s: string): (h: int)
    ensures 0 <= h < TwoTo32
  {
    HashUnits(Utf16Units(s))
  }

  /** Peeling the last unit off the polynomial sum. */
  lemma {:induction false} PolySumSnoc(u: seq<int>)
    requires |u| > 0
    ensures PolySum(u) == 31 * PolySum(u[..|u| - 1]) + u[|u| - 1]
  {
    var n := |u|;
    if n == 1 {
      assert u[..0] == [];
    } else {
      var init := u[..n - 1];
      var tail := u[1..];
      PolySumSnoc(tail);
      assert tail[..|tail| - 1] == init[1..];
      assert init[0] == u[0];
      assert PolySum(init) == u[0] * Pow31(n - 2) + PolySum(init[1..]);
      calc {
        31 * PolySum(init) + u[n - 1];
        31 * (u[0] * Pow31(n - 2)) + 31 * PolySum(init[1..]) + u[n - 1];
        { assert 31 * (u[0] * Pow31(n - 2)) == u[0] * (31 * Pow31(n - 2)); }
        u[0] * Pow31(n - 1) + (31 * PolySum(tail[..|tail| - 1]) + tail[|tail| - 1]);
        u[0] * Pow31(n - 1) + PolySum(tail);
      }
    }
  }

  lemma ModAddMultiple(x: int, k: int)
    ensures (x + k * TwoTo32) % TwoTo32 == x % TwoTo32
  {
  }

  lemma MulModStep(a: int, b: int)
    ensures (31 * (a % TwoTo32) + b) % TwoTo32 == (31 * a + b) % TwoTo32
  {
    var q := a / TwoTo32;
    assert a == q * TwoTo32 + a % TwoTo32;
    assert 31 * a + b == (31 * (a % TwoTo32) + b) + (31 * q) * TwoTo32;
    ModAddMultiple(31 * (a % TwoTo32) + b, 31 * q);
  }

  /** The 32-bit fold computes the polynomial reference definition modulo 2^32. */
  lemma {:induction false} HashIsPolySumMod(u: seq<int>)
    ensures HashUnits(u) == PolySum(u) % TwoTo32
  {
    if |u| > 0 {
      var init := u[..|u| - 1];
      HashIsPolySumMod(init);
      PolySumSnoc(u);
      MulModStep(PolySum(init), u[|u| - 1]);
    }
  }

  /** The lower-case hexadecimal digit for 0 <= d < 16. */
  function HexDigit(d: int): (c: char)
    requires 0 <= d < 16
    ensures DigitValue(c) == d
  {
    if d < 10 then ('0' as int + d) as char else ('a' as int + d - 10) as char
  }

  /** Value of a lower-case hexadecimal digit; -1 for any other character. */
  function DigitValue(c: char): int
  {
    if '0' <= c <= '9' then c as int - '0' as int
    else if 'a' <= c <= 'f' then c as int - 'a' as int + 10
    else -1
  }

  function Pow16(k: nat): (p: int)
    ensures p >= 1
  {
    if k == 0 then 1 else 16 * Pow16(k - 1)
  }

  /** How `Integer.toHexString` writes a number: at least one lower-case hex digit, and
      no leading zero unless the number is 0. */
  predicate CanonicalHex(t: string)
  {
    && 1 <= |t|
    && (forall i :: 0 <= i < |t| ==> 0 <= DigitValue(t[i]) < 16)
    && (|t| > 1 ==> t[0] != '0')
  }

  /** `Integer.toHexString` of an unsigned 32-bit value. */
  function ToHex(n: nat): (s: string)
    ensures CanonicalHex(s)
    decreases n
  {
    if n < 16 then [HexDigit(n)] else ToHex(n / 16) + [HexDigit(n % 16)]
  }

  /** A value below 16^k prints in at most k digits; so a 32-bit hash needs at most 8. */
  lemma {:induction false} ToHexLength(n: nat, k: nat)
    requires 1 <= k && n < Pow16(k)
    ensures |ToHex(n)| <= k
    decreases n
  {
    if n >= 16 {
      assert k >= 2;
      ToHexLength(n / 16, k - 1);
    }
  }

  /** Reads back a hexadecimal string. */
  function FromHex(s: string): int
  {
    if |s| == 0 then 0 else 16 * FromHex(s[..|s| - 1]) + DigitValue(s[|s| - 1])
  }

  /** `Integer.toHexString` loses nothing: the fingerprint text determines the hash. */
  lemma {:induction false} FromHexToHex(n: nat)
    ensures FromHex(ToHex(n)) == n
    decreases n
  {
    var s := ToHex(n);
    if n < 16 {
      assert s[..0] == [];
    } else {
      FromHexToHex(n / 16);
      assert s[..|s| - 1] == ToHex(n / 16);
      assert DigitValue(s[|s| - 1]) == n % 16;
    }
  }

  /** Hex digits never read back as a negative number. */
  lemma {:induction false} FromHexNonNegative(t: string)
    requires forall i :: 0 <= i < |t| ==> 0 <= DigitValue(t[i]) < 16
    ensures FromHex(t) >= 0
  {
    if |t| > 0 {
      FromHexNonNegative(t[..|t| - 1]);
    }
  }

  /** Hex digits that do not start with '0' read back as a positive number. */
  lemma {:induction false} FromHexPositive(t: string)
    requires 1 <= |t| && t[0] != '0'
    requires forall i :: 0 <= i < |t| ==> 0 <= DigitValue(t[i]) < 16
    ensures FromHex(t) >= 1
  {
    var init := t[..|t| - 1];
    if |t| == 1 {
      assert init == [];
    } else {
      FromHexPositive(init);
    }
  }

  /** The canonical hex text of a number is unique: any canonical text reading back as
      `n` is `ToHex(n)`. With `FromHexToHex`, this makes `ToHex` and `FromHex` inverse
      bijections between naturals and canonical texts. */
  lemma {:induction false} CanonicalHexIsUnique(t: string, n: nat)
    requires CanonicalHex(t) && FromHex(t) == n
    ensures t == ToHex(n)
    decreases |t|
  {
    var init := t[..|t| - 1];
    var d := DigitValue(t[|t| - 1]);
    if |t| == 1 {
      assert init == [];
      assert HexDigit(d) == t[0];
    } else {
      FromHexPositive(init);
      FromHexNonNegative(init);
      assert n / 16 == FromHex(init) && n % 16 == d;
      CanonicalHexIsUnique(init, n / 16);
      assert HexDigit(d) == t[|t| - 1];
      assert t == init + [t[|t| - 1]];
    }
  }

  /** The fingerprint of a string: its Java hash in at most 8 hex digits. */
  function FpString(s: string): (f: string)
    ensures 1 <= |f| <= 8
    ensures FromHex(f) == JavaHash(s)
  {
    FromHexToHex(JavaHash(s));
    ToHexLength(JavaHash(s), 8);
    ToHex(JavaHash(s))
  }

  /** The fingerprint of a nullable value: null hashes like the empty string. */
  function Fp(v: Option<string>): (f: string)
    ensures 1 <= |f| <= 8
    ensures FromHex(f) == JavaHash(v.GetOr(""))
  {
    FpString(v.GetOr(""))
  }

  /** A fingerprint is written as `Integer.toHexString` writes it, and is the only such
      text for its hash: any canonical hex text that reads back as the hash is the
      fingerprint, so for instance no zero-padded text ever equals one. */
  lemma FingerprintIsCanonical(v: Option<string>, t: string)
    ensures CanonicalHex(FpString(v.GetOr(""))) && CanonicalHex(Fp(v))
    ensures CanonicalHex(t) && FromHex(t) == JavaHash(v.GetOr("")) ==> t == Fp(v) && t == FpString(v.GetOr(""))
  {
    if CanonicalHex(t) && FromHex(t) == JavaHash(v.GetOr("")) {
      CanonicalHexIsUnique(t, JavaHash(v.GetOr("")));
    }
  }

  /** Two values have the same fingerprint exactly when their Java hashes agree. */
  lemma FpMatchesHash(a: Option<string>, b: Option<string>)
    ensures Fp(a) == Fp(b) <==> JavaHash(a.GetOr("")) == JavaHash(b.GetOr(""))
  {
  }
}

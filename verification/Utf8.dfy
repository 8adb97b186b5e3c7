/** UTF-8 as the gateway uses it: strict encoding of Unicode scalar values (section 3 of RFC 3629) and decoding
    with errors="replace", which turns every maximal ill-formed piece of the input into one U+FFFD. */
module Utf8 {

  type Byte = b: int | 0 <= b < 0x100

  const REPLACEMENT: char := '\U{FFFD}'

  // --- Encoding ---------------------------------------------------------------

  function EncodeChar(c: char): (bs: seq<Byte>)
    ensures 1 <= |bs| <= 4
  {
    var cp := c as int;
    if cp < 0x80 then [cp]
    else if cp < 0x800 then [0xC0 + cp / 0x40, 0x80 + cp % 0x40]
    else if cp < 0x1_0000 then [0xE0 + cp / 0x1000, 0x80 + cp / 0x40 % 0x40, 0x80 + cp % 0x40]
    else [0xF0 + cp / 0x4_0000, 0x80 + cp / 0x1000 % 0x40, 0x80 + cp / 0x40 % 0x40, 0x80 + cp % 0x40]
  }

  function Encode(s: string): seq<Byte> {
    if s == [] then [] else EncodeChar(s[0]) + Encode(s[1..])
  }

  // --- Decoding with replacement -------------------------------------------------

  /** How many bytes the sequence opened by `lead` has; 0 when no well-formed sequence starts with it. */
  function Width(lead: Byte): nat {
    if lead < 0x80 then 1
    else if 0xC2 <= lead < 0xE0 then 2
    else if 0xE0 <= lead < 0xF0 then 3
    else if 0xF0 <= lead < 0xF5 then 4
    else 0
  }

  predicate Continuation(b: Byte) {
    0x80 <= b < 0xC0
  }

  /** The second byte is narrowed after four lead bytes, which excludes overlong forms, surrogates and values above
      U+10FFFF. */
  predicate SecondByte(lead: Byte, b: Byte) {
    Continuation(b)
    && (lead == 0xE0 ==> 0xA0 <= b)
    && (lead == 0xED ==> b < 0xA0)
    && (lead == 0xF0 ==> 0x90 <= b)
    && (lead == 0xF4 ==> b < 0x90)
  }

  /** Length of the longest prefix of `bs` that a well-formed sequence starting with bs[0] could begin with. */
  function Matched(bs: seq<Byte>): (n: nat)
    requires bs != [] && Width(bs[0]) > 0
    ensures 1 <= n <= Width(bs[0]) && n <= |bs|
  {
    var w := Width(bs[0]);
    if w == 1 || |bs| == 1 || !SecondByte(bs[0], bs[1]) then 1
    else if w == 2 || |bs| == 2 || !Continuation(bs[2]) then 2
    else if w == 3 || |bs| == 3 || !Continuation(bs[3]) then 3
    else 4
  }

  /** Consumes one well-formed character, or one maximal ill-formed piece. */
  function DecodeStep(bs: seq<Byte>): (r: (char, nat))
    requires bs != []
    ensures 1 <= r.1 <= |bs|
  {
    var w := Width(bs[0]);
    if w == 0 || Matched(bs) < w then (REPLACEMENT, if w == 0 then 1 else Matched(bs))
    else if w == 1 then (bs[0] as char, 1)
    else if w == 2 then (((bs[0] as int - 0xC0) * 0x40 + (bs[1] as int - 0x80)) as char, 2)
    else if w == 3 then
      (((bs[0] as int - 0xE0) * 0x1000 + (bs[1] as int - 0x80) * 0x40 + (bs[2] as int - 0x80)) as char, 3)
    else (((bs[0] as int - 0xF0) * 0x4_0000 + (bs[1] as int - 0x80) * 0x1000
           + (bs[2] as int - 0x80) * 0x40 + (bs[3] as int - 0x80)) as char, 4)
  }

  function Decode(bs: seq<Byte>): string
    decreases |bs|
  {
    if bs == [] then [] else var (c, n) := DecodeStep(bs); [c] + Decode(bs[n..])
  }

  // --- One character ---------------------------------------------------------------

  /** Whatever follows it, an encoded character decodes to itself and to nothing more. */
  lemma DecodeStepOfEncoded(c: char, rest: seq<Byte>)
    ensures DecodeStep(EncodeChar(c) + rest) == (c, |EncodeChar(c)|)
  {
    if 0x800 <= c as int < 0x1_0000 {
      DecodeThree(c, rest);
    } else if 0x1_0000 <= c as int {
      DecodeFour(c, rest);
    }
  }

  lemma DecodeThree(c: char, rest: seq<Byte>)
    requires 0x800 <= c as int < 0x1_0000
    ensures DecodeStep(EncodeChar(c) + rest) == (c, 3)
  {
    var cp, bs := c as int, EncodeChar(c) + rest;
    assert cp / 0x40 / 0x40 == cp / 0x1000;
    assert bs[0] == 0xE0 + cp / 0x1000 && bs[1] == 0x80 + cp / 0x40 % 0x40 && bs[2] == 0x80 + cp % 0x40;
  }

  lemma DecodeFour(c: char, rest: seq<Byte>)
    requires 0x1_0000 <= c as int
    ensures DecodeStep(EncodeChar(c) + rest) == (c, 4)
  {
    var cp, bs := c as int, EncodeChar(c) + rest;
    assert cp / 0x40 / 0x40 == cp / 0x1000 && cp / 0x1000 / 0x40 == cp / 0x4_0000;
    assert bs[0] == 0xF0 + cp / 0x4_0000 && bs[1] == 0x80 + cp / 0x1000 % 0x40;
    assert bs[2] == 0x80 + cp / 0x40 % 0x40 && bs[3] == 0x80 + cp % 0x40;
  }

  /** A character cut in the middle is one maximal ill-formed piece. */
  lemma DecodeStepOfCut(c: char, k: nat)
    requires 0 < k < |EncodeChar(c)|
    ensures DecodeStep(EncodeChar(c)[..k]) == (REPLACEMENT, k)
  {
    DecodeStepOfEncoded(c, []);
    assert EncodeChar(c) + [] == EncodeChar(c);
  }

  /** Decoding makes a character of nothing but its encoding. */
  lemma DecodesEncodingsOnly(bs: seq<Byte>)
    requires bs != []
    ensures var (c, n) := DecodeStep(bs);
            EncodeChar(c) == bs[..n] || (c == REPLACEMENT && forall d :: !(EncodeChar(d) <= bs))
  {
    hide EncodeChar, DecodeStep;
    if d :| EncodeChar(d) <= bs {
      var rest := bs[|EncodeChar(d)|..];
      assert bs == EncodeChar(d) + rest;
      DecodeStepOfEncoded(d, rest);
    } else {
      WellFormedIsEncoding(bs);
      if WellFormed(bs) {
        assert EncodeChar(DecodeStep(bs).0) <= bs;
      }
      NotWellFormed(bs);
    }
  }

  predicate WellFormed(bs: seq<Byte>)
    requires bs != []
  {
    Width(bs[0]) > 0 && Matched(bs) == Width(bs[0])
  }

  lemma NotWellFormed(bs: seq<Byte>)
    requires bs != []
    ensures !WellFormed(bs) ==> DecodeStep(bs).0 == REPLACEMENT
  {
  }

  lemma WellFormedIsEncoding(bs: seq<Byte>)
    requires bs != []
    ensures WellFormed(bs) ==> EncodeChar(DecodeStep(bs).0) == bs[..DecodeStep(bs).1]
  {
    if WellFormed(bs) {
      match Width(bs[0])
      case 1 =>
      case 2 => LastDigit(bs[0] - 0xC0, bs[1] - 0x80);
      case 3 => ThreeDigits(bs[0] - 0xE0, bs[1] - 0x80, bs[2] - 0x80);
      case _ => FourDigits(bs[0] - 0xF0, bs[1] - 0x80, bs[2] - 0x80, bs[3] - 0x80);
    }
  }

  /** Digits to the base 64 are read back by division. */
  lemma LastDigit(a: nat, b: nat)
    requires b < 0x40
    ensures (a * 0x40 + b) / 0x40 == a && (a * 0x40 + b) % 0x40 == b
  {
  }

  lemma ThreeDigits(a: nat, b: nat, c: nat)
    requires b < 0x40 && c < 0x40
    ensures var n := a * 0x1000 + b * 0x40 + c; n / 0x1000 == a && n / 0x40 % 0x40 == b && n % 0x40 == c
  {
    var n := a * 0x1000 + b * 0x40 + c;
    LastDigit(a * 0x40 + b, c);
    LastDigit(a, b);
    assert n == (a * 0x40 + b) * 0x40 + c;
    assert n / 0x1000 == n / 0x40 / 0x40;
  }

  lemma FourDigits(a: nat, b: nat, c: nat, d: nat)
    requires b < 0x40 && c < 0x40 && d < 0x40
    ensures var n := a * 0x4_0000 + b * 0x1000 + c * 0x40 + d;
            n / 0x4_0000 == a && n / 0x1000 % 0x40 == b && n / 0x40 % 0x40 == c && n % 0x40 == d
  {
    var n := a * 0x4_0000 + b * 0x1000 + c * 0x40 + d;
    var m := a * 0x1000 + b * 0x40 + c;
    LastDigit(m, d);
    ThreeDigits(a, b, c);
    assert n == m * 0x40 + d;
    assert n / 0x1000 == m / 0x40 && n / 0x4_0000 == m / 0x1000;
  }

  /** An ill-formed piece of more than one byte is the beginning of some character's encoding. */
  lemma PieceIsBeginning(bs: seq<Byte>) returns (d: char)
    requires bs != [] && DecodeStep(bs).1 > 1
    ensures DecodeStep(bs).1 <= |EncodeChar(d)| && bs[..DecodeStep(bs).1] == EncodeChar(d)[..DecodeStep(bs).1]
  {
    hide EncodeChar;
    var (n, w) := (DecodeStep(bs).1, Width(bs[0]));
    var whole := bs[..n] + seq(w - n, _ => 0x80);
    assert whole[0] == bs[0] && forall i :: 0 <= i < n ==> whole[i] == bs[i];
    assert WellFormed(whole);
    WellFormedIsEncoding(whole);
    d := DecodeStep(whole).0;
    assert whole[..w] == EncodeChar(d) && whole[..w][..n] == bs[..n];
  }

  lemma DecodeWhole(c: char, rest: seq<Byte>)
    ensures Decode(EncodeChar(c) + rest) == [c] + Decode(rest)
  {
    DecodeStepOfEncoded(c, rest);
    assert (EncodeChar(c) + rest)[|EncodeChar(c)|..] == rest;
  }

  lemma DecodePartial(c: char, k: nat)
    requires 0 < k < |EncodeChar(c)|
    ensures Decode(EncodeChar(c)[..k]) == [REPLACEMENT]
  {
    DecodeStepOfCut(c, k);
    assert EncodeChar(c)[..k][k..] == [];
  }

  // --- Cutting encoded text -------------------------------------------------------

  /** Number of characters of `s` that lie entirely within the first `k` bytes of its encoding. */
  function WholeChars(s: string, k: nat): (m: nat)
    ensures m <= |s|
  {
    if s == [] || |EncodeChar(s[0])| > k then 0 else 1 + WholeChars(s[1..], k - |EncodeChar(s[0])|)
  }

  /** Bytes of a partial character left over when the encoding of `s` is cut after `k` bytes. */
  function Leftover(s: string, k: nat): nat {
    if s == [] then 0
    else if |EncodeChar(s[0])| > k then k
    else Leftover(s[1..], k - |EncodeChar(s[0])|)
  }

  lemma EncodeCons(c: char, s: string)
    ensures Encode([c] + s) == EncodeChar(c) + Encode(s)
  {
    assert ([c] + s)[1..] == s;
  }

  lemma EncodeNothing()
    ensures Encode([]) == []
  {
  }

  lemma Reassociate(a: seq<Byte>, b: seq<Byte>, c: seq<Byte>)
    ensures a + b + c == a + (b + c)
  {
  }

  lemma {:induction false} EncodeAppend(s: string, t: string)
    ensures Encode(s + t) == Encode(s) + Encode(t)
  {
    hide EncodeChar, Encode;
    if s == [] {
      EncodeNothing();
      assert s + t == t && [] + Encode(t) == Encode(t);
    } else {
      EncodeAppend(s[1..], t);
      EncodeCons(s[0], s[1..]);
      EncodeCons(s[0], s[1..] + t);
      assert s == [s[0]] + s[1..] && s + t == [s[0]] + (s[1..] + t);
      Reassociate(EncodeChar(s[0]), Encode(s[1..]), Encode(t));
    }
  }

  /** WholeChars is the largest number of whole characters that fits: they do, and one more would not. */
  lemma {:induction false} WholeCharsFit(s: string, k: nat)
    requires k <= |Encode(s)|
    ensures |Encode(s[..WholeChars(s, k)])| + Leftover(s, k) == k
    ensures WholeChars(s, k) < |s| ==> Leftover(s, k) < |EncodeChar(s[WholeChars(s, k)])|
    ensures WholeChars(s, k) == |s| ==> Leftover(s, k) == 0 && k == |Encode(s)|
  {
    var m := WholeChars(s, k);
    if s != [] && |EncodeChar(s[0])| <= k {
      WholeCharsFit(s[1..], k - |EncodeChar(s[0])|);
      assert s[..m] == [s[0]] + s[1..][..m - 1];
      EncodeCons(s[0], s[1..][..m - 1]);
    }
  }

  /** Decoding any byte prefix of valid UTF-8 yields exactly the characters that lie wholly inside it, followed by one
      U+FFFD when the cut falls inside a character. */
  lemma {:induction false} DecodeCut(s: string, k: nat)
    requires k <= |Encode(s)|
    ensures Decode(Encode(s)[..k]) == s[..WholeChars(s, k)] + Broken(Leftover(s, k))
  {
    if s != [] && |EncodeChar(s[0])| <= k {
      DecodeCut(s[1..], k - |EncodeChar(s[0])|);
      DecodeCutWhole(s, k);
    } else if s != [] && k > 0 {
      assert Encode(s)[..k] == EncodeChar(s[0])[..k];
      DecodePartial(s[0], k);
    }
  }

  function Broken(leftover: nat): string {
    if leftover == 0 then "" else [REPLACEMENT]
  }

  lemma {:induction false} DecodeCutWhole(s: string, k: nat)
    requires k <= |Encode(s)| && s != [] && |EncodeChar(s[0])| <= k
    ensures Decode(Encode(s)[..k]) == [s[0]] + Decode(Encode(s[1..])[..k - |EncodeChar(s[0])|])
    ensures s[..WholeChars(s, k)] == [s[0]] + s[1..][..WholeChars(s[1..], k - |EncodeChar(s[0])|)]
    ensures Leftover(s, k) == Leftover(s[1..], k - |EncodeChar(s[0])|)
  {
    hide EncodeChar, Decode;
    var first, rest := EncodeChar(s[0]), Encode(s[1..]);
    assert Encode(s)[..k] == first + rest[..k - |first|];
    DecodeWhole(s[0], rest[..k - |first|]);
  }

  /** Decoding undoes encoding. */
  lemma {:induction false} RoundTrip(s: string)
    ensures Decode(Encode(s)) == s
  {
    if s != [] {
      DecodeWhole(s[0], Encode(s[1..]));
      RoundTrip(s[1..]);
    }
  }

  /** Extra bytes a cut costs once it is decoded and encoded again: the partial character's 1, 2 or 3 bytes come back
      as the three bytes of U+FFFD. */
  function CutGrowth(s: string, k: nat): nat {
    if Leftover(s, k) == 0 || Leftover(s, k) >= 3 then 0 else 3 - Leftover(s, k)
  }

  /** The exact encoded size of a decoded cut: never less than `k`, never more than `k + 2`. */
  lemma CutSize(s: string, k: nat)
    requires k <= |Encode(s)|
    ensures |Encode(Decode(Encode(s)[..k]))| == k + CutGrowth(s, k)
    ensures CutGrowth(s, k) <= 2
  {
    DecodeCut(s, k);
    WholeCharsFit(s, k);
    var whole := s[..WholeChars(s, k)];
    if Leftover(s, k) == 0 {
      assert whole + "" == whole;
    } else {
      EncodeAppend(whole, [REPLACEMENT]);
      EncodeCons(REPLACEMENT, "");
    }
  }

  /** ASCII text is encoded one byte a character, so no cut of it grows. */
  lemma {:induction false} Ascii(s: string, k: nat)
    requires forall i :: 0 <= i < |s| ==> s[i] < '\U{80}'
    ensures |Encode(s)| == |s| && CutGrowth(s, k) == 0
  {
    if s != [] {
      Ascii(s[1..], if k > 0 then k - 1 else 0);
    }
  }
}

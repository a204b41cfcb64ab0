/** URL-safe base64 (section 5 of RFC 4648), with and without padding. */
module Base64Url {
  import opened Common

  type byte = b: int | 0 <= b < 256
  type sextet = v: int | 0 <= v < 64

  type Bytes = seq<byte>

  function Char64(v: sextet): char {
    if v < 26 then ('A' as int + v) as char
    else if v < 52 then ('a' as int + v - 26) as char
    else if v < 62 then ('0' as int + v - 52) as char
    else if v == 62 then '-' else '_'
  }

  /** The decoder also knows the two characters of the standard alphabet. */
  function Value64(c: char): Option<sextet> {
    if 'A' <= c <= 'Z' then Some(c as int - 'A' as int)
    else if 'a' <= c <= 'z' then Some(c as int - 'a' as int + 26)
    else if '0' <= c <= '9' then Some(c as int - '0' as int + 52)
    else if c == '-' || c == '+' then Some(62)
    else if c == '_' || c == '/' then Some(63)
    else None
  }

  lemma ValueOfChar(v: sextet)
    ensures Value64(Char64(v)) == Some(v)
    ensures Char64(v) != '=' && Char64(v) != '.' && Char64(v) != '$' && Char64(v) as int < 128
  {
  }

  /** base64.urlsafe_b64encode, padded to a multiple of four characters. */
  function EncodePadded(b: Bytes): string {
    if |b| == 0 then ""
    else if |b| == 1 then [Char64(b[0] / 4), Char64(b[0] % 4 * 16), '=', '=']
    else if |b| == 2 then
      [Char64(b[0] / 4), Char64(b[0] % 4 * 16 + b[1] / 16), Char64(b[1] % 16 * 4), '=']
    else
      [Char64(b[0] / 4), Char64(b[0] % 4 * 16 + b[1] / 16), Char64(b[1] % 16 * 4 + b[2] / 64), Char64(b[2] % 64)]
      + EncodePadded(b[3..])
  }

  /** rstrip(b"=") */
  function StripPad(s: string): string {
    if s != [] && s[|s| - 1] == '=' then StripPad(s[..|s| - 1]) else s
  }

  /** _b64url_encode */
  function Encode(b: Bytes): string {
    StripPad(EncodePadded(b))
  }

  predicate LeftFits(quad: nat, left: nat) {
    match quad
    case 0 => left == 0
    case 1 => left < 64
    case 2 => left < 16
    case 3 => left < 4
    case _ => false
  }

  function Prepend(b: byte, r: Option<Bytes>): Option<Bytes> {
    if r.None? then None else Some([b] + r.value)
  }

  /**
    base64.urlsafe_b64decode: characters outside the alphabet are skipped,
    complete padding ends the input, and an incomplete group is an error.
  */
  function DecodeFrom(s: string, quad: nat, left: nat, pads: nat): Option<Bytes>
    requires LeftFits(quad, left)
    decreases |s|
  {
    if s == [] then if quad == 0 then Some([]) else None
    else if s[0] == '=' then
      if quad >= 2 && quad + pads + 1 >= 4 then Some([])
      else DecodeFrom(s[1..], quad, left, if quad >= 2 then pads + 1 else pads)
    else
      match Value64(s[0])
      case None => DecodeFrom(s[1..], quad, left, pads)
      case Some(v) =>
        match quad
        case 0 => DecodeFrom(s[1..], 1, v, 0)
        case 1 => Prepend(left * 4 + v / 16, DecodeFrom(s[1..], 2, v % 16, 0))
        case 2 => Prepend(left * 16 + v / 4, DecodeFrom(s[1..], 3, v % 4, 0))
        case _ => Prepend(left * 64 + v, DecodeFrom(s[1..], 0, 0, 0))
  }

  predicate Ascii(s: string) {
    forall i :: 0 <= i < |s| ==> s[i] as int < 128
  }

  /** urlsafe_b64decode of s.encode("ascii"); None stands for the exception. */
  function DecodePadded(s: string): Option<Bytes> {
    if Ascii(s) then DecodeFrom(s, 0, 0, 0) else None
  }

  function PadFor(n: nat): string {
    match n % 4
    case 0 => ""
    case 1 => "==="
    case 2 => "=="
    case _ => "="
  }

  /** _b64url_decode restores the padding (Appendix C of RFC 7515) first. */
  function Decode(s: string): Option<Bytes> {
    DecodePadded(s + PadFor(|s|))
  }

  // ---- round trip ----------------------------------------------------------

  lemma DecodeValue(v: sextet, s: string, quad: nat, left: nat, pads: nat)
    requires LeftFits(quad, left)
    ensures DecodeFrom([Char64(v)] + s, quad, left, pads) ==
            match quad
            case 0 => DecodeFrom(s, 1, v, 0)
            case 1 => Prepend(left * 4 + v / 16, DecodeFrom(s, 2, v % 16, 0))
            case 2 => Prepend(left * 16 + v / 4, DecodeFrom(s, 3, v % 4, 0))
            case _ => Prepend(left * 64 + v, DecodeFrom(s, 0, 0, 0))
  {
    ValueOfChar(v);
    var t := [Char64(v)] + s;
    assert t[0] == Char64(v) && t[1..] == s;
  }

  /** Four characters carry three bytes. */
  lemma DecodeGroup(b0: byte, b1: byte, b2: byte, s: string)
    ensures DecodeFrom([Char64(b0 / 4), Char64(b0 % 4 * 16 + b1 / 16), Char64(b1 % 16 * 4 + b2 / 64), Char64(b2 % 64)] + s, 0, 0, 0)
         == Prepend(b0, Prepend(b1, Prepend(b2, DecodeFrom(s, 0, 0, 0))))
  {
    hide DecodeFrom;
    var v0, v1, v2, v3 := b0 / 4, b0 % 4 * 16 + b1 / 16, b1 % 16 * 4 + b2 / 64, b2 % 64;
    DecodeValue(v0, [Char64(v1)] + ([Char64(v2)] + ([Char64(v3)] + s)), 0, 0, 0);
    DecodeValue(v1, [Char64(v2)] + ([Char64(v3)] + s), 1, v0, 0);
    DecodeValue(v2, [Char64(v3)] + s, 2, v1 % 16, 0);
    DecodeValue(v3, s, 3, v2 % 4, 0);
    assert v0 * 4 + v1 / 16 == b0 && v1 % 16 * 16 + v2 / 4 == b1 && v2 % 4 * 64 + v3 == b2;
    assert [Char64(v0), Char64(v1), Char64(v2), Char64(v3)] + s
        == [Char64(v0)] + ([Char64(v1)] + ([Char64(v2)] + ([Char64(v3)] + s)));
  }

  lemma DecodeOneByte(b0: byte)
    ensures DecodeFrom([Char64(b0 / 4), Char64(b0 % 4 * 16), '=', '='], 0, 0, 0) == Some([b0])
  {
    var v0, v1 := b0 / 4, b0 % 4 * 16;
    DecodeValue(v0, [Char64(v1)] + "==", 0, 0, 0);
    DecodeValue(v1, "==", 1, v0, 0);
    assert v0 * 4 + v1 / 16 == b0;
    assert "=="[1..] == "=";
    assert DecodeFrom("==", 2, v1 % 16, 0) == DecodeFrom("=", 2, v1 % 16, 1) == Some([]);
    assert [b0] + [] == [b0];
    assert [Char64(v0), Char64(v1), '=', '='] == [Char64(v0)] + ([Char64(v1)] + "==");
  }

  lemma DecodeTwoBytes(b0: byte, b1: byte)
    ensures DecodeFrom([Char64(b0 / 4), Char64(b0 % 4 * 16 + b1 / 16), Char64(b1 % 16 * 4), '='], 0, 0, 0) == Some([b0, b1])
  {
    var v0, v1, v2 := b0 / 4, b0 % 4 * 16 + b1 / 16, b1 % 16 * 4;
    DecodeValue(v0, [Char64(v1)] + ([Char64(v2)] + "="), 0, 0, 0);
    DecodeValue(v1, [Char64(v2)] + "=", 1, v0, 0);
    DecodeValue(v2, "=", 2, v1 % 16, 0);
    assert v0 * 4 + v1 / 16 == b0 && v1 % 16 * 16 + v2 / 4 == b1;
    assert DecodeFrom("=", 3, v2 % 4, 0) == Some([]);
    assert [b0] + ([b1] + []) == [b0, b1];
    assert [Char64(v0), Char64(v1), Char64(v2), '='] == [Char64(v0)] + ([Char64(v1)] + ([Char64(v2)] + "="));
  }

  /** The decoder inverts the padded encoder on every byte string. */
  lemma {:induction false} DecodeFromEncode(b: Bytes)
    ensures DecodeFrom(EncodePadded(b), 0, 0, 0) == Some(b)
  {
    if |b| == 1 {
      DecodeOneByte(b[0]);
      assert b == [b[0]];
    } else if |b| == 2 {
      DecodeTwoBytes(b[0], b[1]);
      assert b == [b[0], b[1]];
    } else if |b| >= 3 {
      DecodeGroup(b[0], b[1], b[2], EncodePadded(b[3..]));
      DecodeFromEncode(b[3..]);
      assert [b[0]] + ([b[1]] + ([b[2]] + b[3..])) == b;
    }
  }

  /** The alphabet (table 2 of RFC 4648): capitals, small letters, digits, then the two URL-safe characters. */
  lemma Alphabet(v: sextet)
    ensures Char64(0) == 'A' && Char64(26) == 'a' && Char64(52) == '0' && Char64(62) == '-' && Char64(63) == '_'
    ensures v !in {25, 51, 61, 62, 63} ==> Char64(v + 1) as int == Char64(v) as int + 1
    ensures UrlSafe(Char64(v))
  {
  }

  predicate UrlSafe(c: char) {
    'A' <= c <= 'Z' || 'a' <= c <= 'z' || '0' <= c <= '9' || c == '-' || c == '_'
  }

  /** Without its padding the text has characters of the alphabet only. */
  lemma {:induction false} EncodeUrlSafe(b: Bytes)
    ensures forall c :: c in Encode(b) ==> UrlSafe(c)
  {
    if |b| == 1 {
      PadRestoredOne(b[0]);
      assert b == [b[0]];
    } else if |b| == 2 {
      PadRestoredTwo(b[0], b[1]);
      assert b == [b[0], b[1]];
    } else if |b| >= 3 {
      EncodeGroup(b);
      EncodeUrlSafe(b[3..]);
    }
  }

  lemma SameDigits(v0: sextet, v1: sextet, v2: sextet, v3: sextet, w0: sextet, w1: sextet, w2: sextet, w3: sextet)
    requires v0 * 262144 + v1 * 4096 + v2 * 64 + v3 == w0 * 262144 + w1 * 4096 + w2 * 64 + w3
    ensures v0 == w0 && v1 == w1 && v2 == w2 && v3 == w3
  {
  }

  /** The bits of three bytes, highest first, are cut into four groups of six. */
  lemma GroupBits(b0: byte, b1: byte, b2: byte, v0: sextet, v1: sextet, v2: sextet, v3: sextet)
    requires v0 * 262144 + v1 * 4096 + v2 * 64 + v3 == b0 * 65536 + b1 * 256 + b2
    ensures EncodePadded([b0, b1, b2]) == [Char64(v0), Char64(v1), Char64(v2), Char64(v3)]
  {
    hide Char64;
    SameDigits(v0, v1, v2, v3, b0 / 4, b0 % 4 * 16 + b1 / 16, b1 % 16 * 4 + b2 / 64, b2 % 64);
    var b := [b0, b1, b2];
    assert b[3..] == [] && EncodePadded([]) == "";
  }

  /** One or two bytes at the end are filled up with zero bits. */
  lemma TailBits(b0: byte, b1: byte, v0: sextet, v1: sextet, v2: sextet)
    ensures v0 * 4096 + v1 * 64 + v2 == b0 * 1024 + b1 * 4 ==>
              EncodePadded([b0, b1]) == [Char64(v0), Char64(v1), Char64(v2), '=']
    ensures v0 * 64 + v1 == b0 * 16 ==> EncodePadded([b0]) == [Char64(v0), Char64(v1), '=', '=']
  {
    hide Char64;
    if v0 * 4096 + v1 * 64 + v2 == b0 * 1024 + b1 * 4 {
      SameDigits(0, v0, v1, v2, 0, b0 / 4, b0 % 4 * 16 + b1 / 16, b1 % 16 * 4);
    }
    if v0 * 64 + v1 == b0 * 16 {
      SameDigits(0, 0, v0, v1, 0, 0, b0 / 4, b0 % 4 * 16);
    }
  }

  /** The decoder reads this alphabet and the two characters of the standard one, which stand for the same values. */
  lemma AlphabetRead(c: char)
    ensures Value64(c).Some? <==> UrlSafe(c) || c == '+' || c == '/'
    ensures Value64('+') == Some(62) && Value64('/') == Some(63)
  {
  }

  function Pads(k: nat): string {
    seq(k, i => '=')
  }

  /** The restored padding is the shortest that makes the length a multiple of four. */
  lemma PadForMeaning(s: string)
    ensures exists k: nat :: k < 4 && PadFor(|s|) == Pads(k) && (|s| + k) % 4 == 0
  {
    var k := (4 - |s| % 4) % 4;
    assert PadFor(|s|) == Pads(k);
  }

  lemma {:induction false} PadsDecode(k: nat, quad: nat, left: nat, pads: nat)
    requires LeftFits(quad, left)
    ensures DecodeFrom(Pads(k), quad, left, pads).Some? <==> quad == 0 || (quad >= 2 && k > 0 && quad + pads + k >= 4)
    decreases k
  {
    if k > 0 {
      assert Pads(k)[0] == '=' && Pads(k)[1..] == Pads(k - 1);
      if !(quad >= 2 && quad + pads + 1 >= 4) {
        PadsDecode(k - 1, quad, left, if quad >= 2 then pads + 1 else pads);
      }
    } else {
      assert Pads(k) == "";
    }
  }

  /** Complete padding ends the input, whatever follows it. */
  lemma PaddingEnds(quad: nat, left: nat, rest: string)
    requires LeftFits(quad, left) && quad >= 2
    ensures DecodeFrom(Pads(4 - quad) + rest, quad, left, 0) == Some([])
  {
    if quad == 2 {
      assert Pads(2) == "==";
      assert ("==" + rest)[1..] == "=" + rest;
    } else {
      assert Pads(1) == "=";
    }
  }

  /** The bits left over from a character read at this place of a group. */
  function Carry(quad: nat, v: sextet): nat {
    match quad
    case 0 => v
    case 1 => v % 16
    case 2 => v % 4
    case _ => 0
  }

  lemma ReadOne(c: char, rest: string, quad: nat, left: nat)
    requires LeftFits(quad, left) && Value64(c).Some?
    ensures LeftFits((quad + 1) % 4, Carry(quad, Value64(c).value))
    ensures DecodeFrom([c] + rest, quad, left, 0).Some? <==>
            DecodeFrom(rest, (quad + 1) % 4, Carry(quad, Value64(c).value), 0).Some?
  {
    var t := [c] + rest;
    assert t[0] == c && t[1..] == rest && c != '=';
  }

  /** A text of the alphabet decodes if its last group is whole, or has two or three characters and its padding. */
  lemma {:induction false} TextDecodes(s: string, k: nat, quad: nat, left: nat)
    requires LeftFits(quad, left) && forall c :: c in s ==> Value64(c).Some?
    ensures var last := (quad + |s|) % 4;
            DecodeFrom(s + Pads(k), quad, left, 0).Some? <==> last == 0 || (last == 2 && k >= 2) || (last == 3 && k >= 1)
    decreases |s|
  {
    hide DecodeFrom, Value64;
    if s == [] {
      assert s + Pads(k) == Pads(k);
      PadsDecode(k, quad, left, 0);
    } else {
      var c, rest := s[0], s[1..];
      assert s + Pads(k) == [c] + (rest + Pads(k));
      ReadOne(c, rest + Pads(k), quad, left);
      TextDecodes(rest, k, (quad + 1) % 4, Carry(quad, Value64(c).value));
    }
  }

  /** Without padding of its own a text is accepted unless one character is left over. */
  lemma TextAccepted(s: string)
    requires forall c :: c in s ==> Value64(c).Some?
    ensures Decode(s).Some? <==> |s| % 4 != 1
  {
    PadForMeaning(s);
    var k: nat :| k < 4 && PadFor(|s|) == Pads(k) && (|s| + k) % 4 == 0;
    forall i | 0 <= i < |s + Pads(k)|
      ensures (s + Pads(k))[i] as int < 128
    {
      if i < |s| {
        assert s[i] in s;
        AlphabetRead(s[i]);
      }
    }
    TextDecodes(s, k, 0, 0);
  }

  /** A character outside the alphabet is skipped wherever it stands. */
  lemma {:induction false} JunkSkipped(a: string, junk: char, b: string, quad: nat, left: nat, pads: nat)
    requires LeftFits(quad, left) && junk != '=' && Value64(junk).None?
    ensures DecodeFrom(a + [junk] + b, quad, left, pads) == DecodeFrom(a + b, quad, left, pads)
    decreases |a|
  {
    var s, t := a + [junk] + b, a + b;
    if a == [] {
      assert s[0] == junk && s[1..] == b && t == b;
    } else {
      assert s[0] == a[0] && t[0] == a[0] && s[1..] == a[1..] + [junk] + b && t[1..] == a[1..] + b;
      if a[0] == '=' {
        JunkSkipped(a[1..], junk, b, quad, left, if quad >= 2 then pads + 1 else pads);
      } else {
        match Value64(a[0])
        case None => JunkSkipped(a[1..], junk, b, quad, left, pads);
        case Some(v) =>
          match quad
          case 0 => JunkSkipped(a[1..], junk, b, 1, v, 0);
          case 1 => JunkSkipped(a[1..], junk, b, 2, v % 16, 0);
          case 2 => JunkSkipped(a[1..], junk, b, 3, v % 4, 0);
          case _ => JunkSkipped(a[1..], junk, b, 0, 0, 0);
      }
    }
  }

  /** Neither a dot nor a dollar sign nor a non-ASCII character occurs. */
  predicate PlainChar(c: char) {
    c != '.' && c != '$' && c as int < 128
  }

  lemma {:induction false} EncodePaddedChars(b: Bytes)
    ensures forall c :: c in EncodePadded(b) ==> PlainChar(c)
  {
    if |b| == 1 {
      ValueOfChar(b[0] / 4);
      ValueOfChar(b[0] % 4 * 16);
    } else if |b| == 2 {
      ValueOfChar(b[0] / 4);
      ValueOfChar(b[0] % 4 * 16 + b[1] / 16);
      ValueOfChar(b[1] % 16 * 4);
    } else if |b| >= 3 {
      EncodePaddedChars(b[3..]);
      ValueOfChar(b[0] / 4);
      ValueOfChar(b[0] % 4 * 16 + b[1] / 16);
      ValueOfChar(b[1] % 16 * 4 + b[2] / 64);
      ValueOfChar(b[2] % 64);
    }
  }

  lemma PaddedRoundTrip(b: Bytes)
    ensures DecodePadded(EncodePadded(b)) == Some(b)
  {
    EncodePaddedChars(b);
    PlainIsAscii(EncodePadded(b));
    DecodeFromEncode(b);
  }

  lemma PlainIsAscii(s: string)
    requires forall c :: c in s ==> c as int < 128
    ensures Ascii(s)
  {
    assert forall i :: 0 <= i < |s| ==> s[i] in s;
  }

  lemma PadRestoredOne(b0: byte)
    ensures Encode([b0]) == EncodePadded([b0])[..2]
  {
    var s := EncodePadded([b0]);
    ValueOfChar(b0 % 4 * 16);
    assert s[..3][..2] == s[..2];
    assert StripPad(s) == StripPad(s[..3]) == StripPad(s[..2]) == s[..2];
  }

  lemma PadRestoredTwo(b0: byte, b1: byte)
    ensures Encode([b0, b1]) == EncodePadded([b0, b1])[..3]
  {
    var s := EncodePadded([b0, b1]);
    ValueOfChar(b1 % 16 * 4);
    assert StripPad(s) == StripPad(s[..3]) == s[..3];
  }

  lemma EncodeGroup(b: Bytes)
    requires |b| >= 3
    ensures EncodePadded(b) == EncodePadded(b)[..4] + EncodePadded(b[3..])
    ensures Encode(b) == EncodePadded(b)[..4] + Encode(b[3..])
  {
    ValueOfChar(b[2] % 64);
    StripAfter(EncodePadded(b)[..4], EncodePadded(b[3..]));
  }

  /** Stripping the padding loses nothing: the length tells how much there was. */
  lemma {:induction false} PadRestored(b: Bytes)
    ensures Encode(b) + PadFor(|Encode(b)|) == EncodePadded(b)
  {
    if |b| == 1 {
      PadRestoredOne(b[0]);
      assert b == [b[0]];
    } else if |b| == 2 {
      PadRestoredTwo(b[0], b[1]);
      assert b == [b[0], b[1]];
    } else if |b| >= 3 {
      PadRestored(b[3..]);
      EncodeGroup(b);
      PadAfterGroup(EncodePadded(b)[..4], Encode(b[3..]), EncodePadded(b[3..]));
    }
  }

  lemma PadAfterGroup(group: string, s: string, padded: string)
    requires |group| == 4 && s + PadFor(|s|) == padded
    ensures group + s + PadFor(|group + s|) == group + padded
  {
    assert |group + s| % 4 == |s| % 4;
    assert group + s + PadFor(|s|) == group + (s + PadFor(|s|));
  }

  lemma {:induction false} StripAfter(a: string, s: string)
    requires a != [] && a[|a| - 1] != '='
    ensures StripPad(a + s) == a + StripPad(s)
  {
    if s != [] && s[|s| - 1] == '=' {
      assert (a + s)[..|a + s| - 1] == a + s[..|s| - 1];
      StripAfter(a, s[..|s| - 1]);
    } else if s == [] {
      assert a + s == a;
    }
  }

  /** decode(encode(b)) == b for every byte string, with the padding stripped and restored. */
  lemma RoundTrip(b: Bytes)
    ensures Decode(Encode(b)) == Some(b)
  {
    PadRestored(b);
    PaddedRoundTrip(b);
  }

  lemma {:induction false} StripPadChars(s: string)
    ensures forall c :: c in StripPad(s) ==> c in s
  {
    if s != [] && s[|s| - 1] == '=' {
      StripPadChars(s[..|s| - 1]);
    }
  }

  lemma EncodeChars(b: Bytes)
    ensures forall c :: c in Encode(b) ==> PlainChar(c)
  {
    StripPadChars(EncodePadded(b));
    EncodePaddedChars(b);
  }
}

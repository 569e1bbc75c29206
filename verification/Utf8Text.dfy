/** What the bounded reader takes for text is what UTF-8 encodes (RFC 3629, section 3). */
module Utf8Text {
  import opened BoundedHead

  /** A code point that is no surrogate. */
  predicate IsScalar(c: nat) { c <= 0xD7FF || 0xE000 <= c <= 0x10FFFF }

  function Low(n: nat): byte { (0x80 + n % 64) as byte }

  /** The bytes of one character: the bits of its number, six to a byte but for the first. */
  function Encode(c: nat): (s: seq<byte>)
    requires IsScalar(c)
    ensures 1 <= |s| <= 4
  {
    if c < 0x80 then [c as byte]
    else if c < 0x800 then [(0xC0 + c / 64) as byte, Low(c)]
    else if c < 0x1_0000 then [(0xE0 + c / 4096) as byte, Low(c / 64), Low(c)]
    else [(0xF0 + c / 262144) as byte, Low(c / 4096), Low(c / 64), Low(c)]
  }

  ghost predicate AreScalars(chars: seq<nat>) { forall i :: 0 <= i < |chars| ==> IsScalar(chars[i]) }

  function Encoded(chars: seq<nat>): seq<byte>
    requires forall i :: 0 <= i < |chars| ==> IsScalar(chars[i])
  {
    if chars == [] then [] else Encode(chars[0]) + Encoded(chars[1..])
  }

  lemma EncodeStarts(c: nat)
    requires IsScalar(c)
    ensures StartsWithChar(Encode(c)) && WidthOf(Encode(c)[0]) == |Encode(c)|
  {
    if c < 0x800 {
    } else if c < 0x1_0000 {
      ThreeBytes(c);
    } else {
      FourBytes(c);
    }
  }

  lemma ThreeBytes(c: nat)
    requires 0x800 <= c < 0x1_0000 && IsScalar(c)
    ensures 0xE0 <= 0xE0 + c / 4096 <= 0xEF
    ensures c / 4096 == 0 ==> 0x20 <= c / 64 % 64
    ensures c / 4096 == 0xD ==> c / 64 % 64 < 0x20
  {
    assert c / 64 == c / 4096 * 64 + c / 64 % 64;
  }

  lemma FourBytes(c: nat)
    requires 0x1_0000 <= c <= 0x10_FFFF
    ensures 0xF0 <= 0xF0 + c / 262144 <= 0xF4
    ensures c / 262144 == 0 ==> 0x10 <= c / 4096 % 64
    ensures c / 262144 == 4 ==> c / 4096 % 64 < 0x10
  {
    assert c / 4096 == c / 262144 * 64 + c / 4096 % 64;
  }

  lemma DecodeTwo(a: nat, b: nat) returns (c: nat)
    requires b < 64
    ensures c == a * 64 + b && c / 64 == a && c % 64 == b
  {
    c := a * 64 + b;
  }

  /** The bytes of one character are those of some code point. */
  lemma StartIsEncoded(s: seq<byte>) returns (c: nat)
    requires StartsWithChar(s)
    ensures IsScalar(c) && Encode(c) == s[..WidthOf(s[0])]
  {
    var w := WidthOf(s[0]);
    c := match w { case 1 => s[0] as nat case _ => 0 };
    if w == 2 {
      c := DecodeTwo((s[0] - 0xC0) as nat, (s[1] - 0x80) as nat);
    } else if w == 3 {
      c := DecodeThree(s);
    } else if w == 4 {
      c := DecodeFour(s);
    }
  }

  lemma DecodeThree(s: seq<byte>) returns (c: nat)
    requires StartsWithChar(s) && WidthOf(s[0]) == 3
    ensures 0x800 <= c < 0x1_0000 && IsScalar(c) && Encode(c) == s[..3]
  {
    var a, b, d := (s[0] - 0xE0) as nat, (s[1] - 0x80) as nat, (s[2] - 0x80) as nat;
    var high := DecodeTwo(a, b);
    c := DecodeTwo(high, d);
    assert c / 4096 == c / 64 / 64;
  }

  lemma DecodeFour(s: seq<byte>) returns (c: nat)
    requires StartsWithChar(s) && WidthOf(s[0]) == 4
    ensures 0x1_0000 <= c <= 0x10_FFFF && Encode(c) == s[..4]
  {
    var a, b, d, e := (s[0] - 0xF0) as nat, (s[1] - 0x80) as nat, (s[2] - 0x80) as nat, (s[3] - 0x80) as nat;
    var high := DecodeTwo(a, b);
    var mid := DecodeTwo(high, d);
    c := DecodeTwo(mid, e);
    assert c / 4096 == c / 64 / 64 && c / 262144 == c / 64 / 64 / 64;
  }

  lemma StartIsStart(s: seq<byte>, rest: seq<byte>)
    requires StartsWithChar(s) && WidthOf(s[0]) == |s|
    ensures StartsWithChar(s + rest) && WidthOf((s + rest)[0]) == |s| && (s + rest)[|s|..] == rest
  {}

  lemma {:induction false} EncodedIsValid(chars: seq<nat>)
    requires AreScalars(chars)
    ensures ValidUtf8(Encoded(chars))
  {
    hide Encode, StartsWithChar, WidthOf;
    if chars != [] {
      EncodedIsValid(chars[1..]);
      EncodeStarts(chars[0]);
      StartIsStart(Encode(chars[0]), Encoded(chars[1..]));
    }
  }

  lemma {:induction false} ValidIsEncoded(s: seq<byte>) returns (chars: seq<nat>)
    requires ValidUtf8(s)
    ensures AreScalars(chars) && Encoded(chars) == s
  {
    hide Encode, StartsWithChar, WidthOf;
    if s == [] {
      chars := [];
    } else {
      var c := StartIsEncoded(s);
      var w := WidthOf(s[0]);
      WidthIsPositive(s);
      var more := ValidIsEncoded(s[w..]);
      chars := [c] + more;
      assert chars[1..] == more && s == s[..w] + s[w..];
    }
  }

  lemma WidthIsPositive(s: seq<byte>)
    requires StartsWithChar(s)
    ensures 0 < WidthOf(s[0]) <= |s|
  {}

  /** Bytes are text exactly when they encode a sequence of code points that are no surrogates. */
  lemma ValidExactly(s: seq<byte>)
    ensures ValidUtf8(s) <==> exists chars :: AreScalars(chars) && Encoded(chars) == s
  {
    hide ValidUtf8, Encoded, IsScalar;
    if ValidUtf8(s) { var chars := ValidIsEncoded(s); }
    forall chars | AreScalars(chars) ensures ValidUtf8(Encoded(chars)) { EncodedIsValid(chars); }
  }
}

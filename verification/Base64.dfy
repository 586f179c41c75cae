/** The base64 decoder of crates/dl-feed/src/ws_feed.rs, against the encoding of section 4 of RFC 4648. */
module Base64 {
  import opened Words

  const PAD: u8 := '=' as int

  /** The value of a character of the standard alphabet. */
  function DigitOf(b: u8): (v: Option<nat>)
    ensures v.Some? ==> v.value < 64
  {
    if 'A' as int <= b <= 'Z' as int then Some(b - 'A' as int)
    else if 'a' as int <= b <= 'z' as int then Some(b - 'a' as int + 26)
    else if '0' as int <= b <= '9' as int then Some(b - '0' as int + 52)
    else if b == '+' as int then Some(62)
    else if b == '/' as int then Some(63)
    else None
  }

  function CharOf(v: nat): (b: u8)
    requires v < 64
    ensures b != PAD && DigitOf(b) == Some(v)
  {
    if v < 26 then 'A' as int + v
    else if v < 52 then 'a' as int + (v - 26)
    else if v < 62 then '0' as int + (v - 52)
    else if v == 62 then '+' as int
    else '/' as int
  }

  /** Table 1 of RFC 4648. */
  const UPPER := "ABCDEFGHIJKLMNOPQRSTUVWXYZ"
  const LOWER := "abcdefghijklmnopqrstuvwxyz"
  const REST := "0123456789+/"

  lemma Alphabet(v: nat)
    requires v < 64
    ensures CharOf(v) ==
      (if v < 26 then UPPER[v] else if v < 52 then LOWER[v - 26] else REST[v - 52]) as int
    ensures DigitOf(CharOf(v)) == Some(v)
  {
  }

  /** Only the characters of the table are digits. */
  lemma OnlyAlphabet(b: u8)
    ensures DigitOf(b).Some? ==> CharOf(DigitOf(b).value) == b
  {
  }

  // ----- the encoding

  /** The characters of one 24-bit group. */
  function Group(a: u8, b: u8, c: u8): (s: seq<u8>)
    ensures |s| == 4
  {
    [CharOf(a / 4), CharOf(a % 4 * 16 + b / 16), CharOf(b % 16 * 4 + c / 64), CharOf(c % 64)]
  }

  /** Three bytes to four characters; a last group of one or two bytes is filled with zero bits, and with
      `=` to four characters where padding is asked for. */
  function Encode(s: seq<u8>, padded: bool): seq<u8> {
    if |s| == 0 then []
    else if |s| == 1 then Group(s[0], 0, 0)[..2] + (if padded then [PAD, PAD] else [])
    else if |s| == 2 then Group(s[0], s[1], 0)[..3] + (if padded then [PAD] else [])
    else Group(s[0], s[1], s[2]) + Encode(s[3..], padded)
  }

  /** The four digits are those of the 24-bit number the three bytes make, most significant first. */
  lemma GroupDigits(a: u8, b: u8, c: u8)
    ensures var s := Group(a, b, c);
      && DigitOf(s[0]).Some? && DigitOf(s[1]).Some? && DigitOf(s[2]).Some? && DigitOf(s[3]).Some?
      && 0x1_0000 * a + 0x100 * b + c == 0x4_0000 * DigitOf(s[0]).value + 0x1000 * DigitOf(s[1]).value
                                         + 0x40 * DigitOf(s[2]).value + DigitOf(s[3]).value
  {
  }

  // ----- the decoder on an exact remainder

  /** The decoder is always 0, 2, 4 or 6 bits past the last whole byte. */
  type BitCount = b: nat | b == 0 || b == 2 || b == 4 || b == 6

  /** 2 to the number of bits. */
  function Room(bits: BitCount): (p: nat)
    ensures p > 0
  {
    if bits == 0 then 1 else if bits == 2 then 4 else if bits == 4 then 16 else 64
  }

  /** The bytes of the characters `s` that follow a remainder of `bits` bits, with nothing cut off; `None` at a
      character outside the alphabet. */
  function DecodeFrom(s: seq<u8>, rem: nat, bits: BitCount): Option<seq<u8>>
    requires rem < Room(bits)
    decreases |s|
  {
    if s == [] then Some([])
    else if s[0] == PAD then DecodeFrom(s[1..], rem, bits)
    else match DigitOf(s[0])
      case None => None
      case Some(v) =>
        var t := rem * 64 + v;
        if bits == 0 then DecodeFrom(s[1..], t, 6)
        else Prepend([t / Room(bits - 2)], DecodeFrom(s[1..], t % Room(bits - 2), bits - 2))
  }

  function Decoded(s: seq<u8>): Option<seq<u8>> {
    DecodeFrom(s, 0, 0)
  }

  function Prepend(a: seq<u8>, rest: Option<seq<u8>>): Option<seq<u8>> {
    match rest case None => None case Some(b) => Some(a + b)
  }

  lemma PrependNothing(rest: Option<seq<u8>>)
    ensures Prepend([], rest) == rest
  {
    if rest.Some? { assert [] + rest.value == rest.value; }
  }

  lemma PrependTwice(a: seq<u8>, b: seq<u8>, rest: Option<seq<u8>>)
    ensures Prepend(a, Prepend(b, rest)) == Prepend(a + b, rest)
  {
    if rest.Some? { assert a + (b + rest.value) == a + b + rest.value; }
  }

  /** Shifting six bits in leaves the last eight bits of the accumulator to the exact remainder, whatever older
      bits are pushed out at the top: 2 bits were pending, then 4, then 6. */
  lemma ShiftAfterTwo(acc: u32, v: nat)
    requires v < 64
    ensures (acc * 64 % TWO32 + v) % 256 == acc % 4 * 64 + v
  {
    var high, lost := acc / 4, acc * 64 / TWO32;
    assert acc * 64 % TWO32 + v == 256 * (high - lost * 0x100_0000) + (acc % 4 * 64 + v);
  }

  lemma ShiftAfterFour(acc: u32, v: nat)
    requires v < 64
    ensures (acc * 64 % TWO32 + v) % 1024 == acc % 16 * 64 + v
  {
    var high, lost := acc / 16, acc * 64 / TWO32;
    assert acc * 64 % TWO32 + v == 1024 * (high - lost * 0x40_0000) + (acc % 16 * 64 + v);
  }

  lemma ShiftAfterSix(acc: u32, v: nat)
    requires v < 64
    ensures (acc * 64 % TWO32 + v) % 4096 == acc % 64 * 64 + v
  {
    var high, lost := acc / 64, acc * 64 / TWO32;
    assert acc * 64 % TWO32 + v == 4096 * (high - lost * 0x10_0000) + (acc % 64 * 64 + v);
  }

  lemma ShiftFromEmpty(acc: u32, v: nat)
    requires v < 64
    ensures acc * 64 % TWO32 + v < TWO32 && (acc * 64 % TWO32 + v) % 64 == v
  {
    var lost := acc * 64 / TWO32;
    assert acc * 64 % TWO32 == 64 * (acc - lost * 0x400_0000);
  }

  /** The byte above the last two bits, and the byte above the last four. */
  lemma ByteAboveTwo(x: int, high: int, low: int)
    requires x == 1024 * high + low && 0 <= low < 1024
    ensures x / 4 % 256 == low / 4 && x % 4 == low % 4
  {
    assert x == 4 * (256 * high + low / 4) + low % 4;
    assert x / 4 == 256 * high + low / 4;
  }

  lemma ByteAboveFour(x: int, high: int, low: int)
    requires x == 4096 * high + low && 0 <= low < 4096
    ensures x / 16 % 256 == low / 16 && x % 16 == low % 16
  {
    assert x == 16 * (256 * high + low / 16) + low % 16;
    assert x / 16 == 256 * high + low / 16;
  }

  lemma AccumulatorStep(acc: u32, v: nat, bits: BitCount)
    requires v < 64
    ensures var t, acc' := acc % Room(bits) * 64 + v, acc * 64 % TWO32 + v;
      && acc' < TWO32
      && (bits == 0 ==> acc' % 64 == t)
      && (bits > 0 ==> acc' / Room(bits - 2) % 256 == t / Room(bits - 2) && acc' % Room(bits - 2) == t % Room(bits - 2))
  {
    ShiftFromEmpty(acc, v);
    var acc' := acc * 64 % TWO32 + v;
    if bits == 2 {
      ShiftAfterTwo(acc, v);
    } else if bits == 4 {
      ShiftAfterFour(acc, v);
      ByteAboveTwo(acc', acc' / 1024, acc' % 1024);
    } else if bits == 6 {
      ShiftAfterSix(acc, v);
      ByteAboveFour(acc', acc' / 4096, acc' % 4096);
    }
  }

  /** The decoder: old bits stay in the accumulator until they leave it at the top. */
  method Base64Decode(s: seq<u8>) returns (r: Option<seq<u8>>)
    ensures r == Decoded(s)
  {
    var acc: u32, bits: BitCount, out: seq<u8> := 0, 0, [];
    PrependNothing(Decoded(s));
    assert s[0..] == s;
    for i := 0 to |s|
      invariant Decoded(s) == Prepend(out, DecodeFrom(s[i..], acc % Room(bits), bits))
    {
      var b := s[i];
      assert s[i..][0] == b && s[i..][1..] == s[i + 1..];
      if b == PAD { continue; }
      var v := DigitOf(b);
      if v.None? { return None; }
      AccumulatorStep(acc, v.value, bits);
      acc := acc * 64 % TWO32 + v.value;
      if bits + 6 >= 8 {
        bits := bits - 2;
        var byte: u8 := acc / Room(bits) % 256;
        PrependTwice(out, [byte], DecodeFrom(s[i + 1..], acc % Room(bits), bits));
        out := out + [byte];
      } else {
        bits := 6;
      }
    }
    assert s[|s|..] == [] && out + [] == out;
    return Some(out);
  }

  // ----- what the decoder promises

  ghost predicate HasForeign(s: seq<u8>) {
    exists i :: 0 <= i < |s| && s[i] != PAD && DigitOf(s[i]).None?
  }

  /** It rejects exactly the strings with a character outside the alphabet and the padding. */
  lemma {:induction false} RejectsExactly(s: seq<u8>, rem: nat, bits: BitCount)
    requires rem < Room(bits)
    ensures DecodeFrom(s, rem, bits).None? <==> HasForeign(s)
    decreases |s|
  {
    if s != [] {
      assert HasForeign(s) <==> (s[0] != PAD && DigitOf(s[0]).None?) || HasForeign(s[1..]) by {
        if i :| 0 <= i < |s[1..]| && s[1..][i] != PAD && DigitOf(s[1..][i]).None? { assert s[i + 1] == s[1..][i]; }
        if i :| 1 <= i < |s| && s[i] != PAD && DigitOf(s[i]).None? { assert s[1..][i - 1] == s[i]; }
      }
      if s[0] == PAD {
        RejectsExactly(s[1..], rem, bits);
      } else if DigitOf(s[0]).Some? {
        var t := rem * 64 + DigitOf(s[0]).value;
        if bits == 0 { RejectsExactly(s[1..], t, 6); } else { RejectsExactly(s[1..], t % Room(bits - 2), bits - 2); }
      }
    }
  }

  /** The digits of `s` read on, in base 64, from `acc`; padding does not count. */
  function NumberFrom(acc: nat, s: seq<u8>): nat
    decreases |s|
  {
    if s == [] then acc
    else if DigitOf(s[0]).None? then NumberFrom(acc, s[1..])
    else NumberFrom(64 * acc + DigitOf(s[0]).value, s[1..])
  }

  function DigitCount(s: seq<u8>): nat {
    if s == [] then 0 else DigitCount(s[1..]) + if DigitOf(s[0]).Some? then 1 else 0
  }

  /** The bytes read on, in base 256, from `acc`. */
  function BytesFrom(acc: nat, bytes: seq<u8>): nat
    decreases |bytes|
  {
    if bytes == [] then acc else BytesFrom(256 * acc + bytes[0], bytes[1..])
  }

  /** `x` with room for `bits` more bits. */
  function Scaled(x: nat, bits: BitCount): nat {
    if bits == 0 then x else if bits == 2 then 4 * x else if bits == 4 then 16 * x else 64 * x
  }

  /** The bits that do not fill a byte after `bits` pending ones and `digits` more digits. */
  function BitsLeft(bits: BitCount, digits: nat): BitCount
    decreases digits
  {
    if digits == 0 then bits else BitsLeft(if bits == 0 then 6 else bits - 2, digits - 1)
  }

  /** `out` is what `digits` more digits complete, when `sofar` is the number of the bytes before it, `bits` bits were
      pending and `number` is that of all digits. */
  ghost predicate Completes(out: seq<u8>, number: nat, sofar: nat, bits: BitCount, digits: nat) {
    && 8 * |out| + BitsLeft(bits, digits) == bits + 6 * digits
    && Scaled(BytesFrom(sofar, out), BitsLeft(bits, digits)) <= number
    && number < Scaled(BytesFrom(sofar, out) + 1, BitsLeft(bits, digits))
  }

  /** A digit with no bits pending is kept whole. */
  lemma SixPending(out: seq<u8>, number: nat, sofar: nat, digits: nat)
    requires Completes(out, number, sofar, 6, digits)
    ensures Completes(out, number, sofar, 0, digits + 1)
  {
  }

  /** A digit with bits pending completes a byte. */
  lemma OneByteMore(out: seq<u8>, number: nat, sofar: nat, byte: u8, bits: BitCount, digits: nat)
    requires bits > 0 && Completes(out, number, 256 * sofar + byte, bits - 2, digits)
    ensures Completes([byte] + out, number, sofar, bits, digits + 1)
  {
    assert ([byte] + out)[1..] == out;
  }

  /** How the number of all digits splits after one more digit. */
  lemma SplitNumber(sofar: nat, rem: nat, bits: BitCount, v: nat, t: nat)
    requires bits > 0 && rem < Room(bits) && v < 64 && t == rem * 64 + v
    ensures t / Room(bits - 2) < 256
    ensures 64 * (Scaled(sofar, bits) + rem) + v
      == Scaled(256 * sofar + t / Room(bits - 2), bits - 2) + t % Room(bits - 2)
  {
  }

  lemma NothingMore(number: nat, sofar: nat, rem: nat, bits: BitCount)
    requires rem < Room(bits) && number == Scaled(sofar, bits) + rem
    ensures Completes([], number, sofar, bits, 0)
  {
  }

  /** What one digit with bits pending does to the decoding of the rest. */
  lemma DigitThenRest(s: seq<u8>, acc: nat, rem: nat, bits: BitCount, v: nat)
    requires rem < Room(bits) && bits > 0 && s != [] && s[0] != PAD && DigitOf(s[0]) == Some(v)
    requires DecodeFrom(s, rem, bits).Some?
    ensures var t := rem * 64 + v;
      var rest := DecodeFrom(s[1..], t % Room(bits - 2), bits - 2);
      && t / Room(bits - 2) < 256 && rest.Some?
      && DecodeFrom(s, rem, bits).value == [t / Room(bits - 2)] + rest.value
    ensures NumberFrom(acc, s) == NumberFrom(64 * acc + v, s[1..]) && DigitCount(s) == DigitCount(s[1..]) + 1
  {
  }

  lemma PadThenRest(acc: nat, s: seq<u8>)
    requires s != [] && s[0] == PAD
    ensures NumberFrom(acc, s) == NumberFrom(acc, s[1..]) && DigitCount(s) == DigitCount(s[1..])
  {
  }

  /** With `sofar` the number of the bytes decoded and `rem` the pending bits, what the decoder goes on to append makes
      the number of all digits, cut at whole bytes. */
  lemma {:induction false} DecodesNumber(s: seq<u8>, acc: nat, sofar: nat, rem: nat, bits: BitCount)
    requires rem < Room(bits) && acc == Scaled(sofar, bits) + rem && DecodeFrom(s, rem, bits).Some?
    ensures Completes(DecodeFrom(s, rem, bits).value, NumberFrom(acc, s), sofar, bits, DigitCount(s))
    decreases |s|, 1
  {
    if s == [] {
      NothingMore(acc, sofar, rem, bits);
    } else if s[0] == PAD {
      PadThenRest(acc, s);
      DecodesNumber(s[1..], acc, sofar, rem, bits);
    } else if bits == 0 {
      var v := DigitOf(s[0]).value;
      DecodesNumber(s[1..], 64 * acc + v, sofar, v, 6);
      SixPending(DecodeFrom(s[1..], v, 6).value, NumberFrom(64 * acc + v, s[1..]), sofar, DigitCount(s[1..]));
    } else {
      DecodesDigit(s, acc, sofar, rem, bits, DigitOf(s[0]).value);
    }
  }

  lemma {:induction false} DecodesDigit(s: seq<u8>, acc: nat, sofar: nat, rem: nat, bits: BitCount, v: nat)
    requires rem < Room(bits) && bits > 0 && s != [] && s[0] != PAD && DigitOf(s[0]) == Some(v)
    requires acc == Scaled(sofar, bits) + rem && DecodeFrom(s, rem, bits).Some?
    ensures Completes(DecodeFrom(s, rem, bits).value, NumberFrom(acc, s), sofar, bits, DigitCount(s))
    decreases |s|, 0
  {
    var t := rem * 64 + v;
    var byte, r: nat := t / Room(bits - 2), t % Room(bits - 2);
    SplitNumber(sofar, rem, bits, v, t);
    DigitThenRest(s, acc, rem, bits, v);
    DecodesByte(s[1..], 64 * acc + v, sofar, byte, r, bits, DecodeFrom(s[1..], r, bits - 2).value);
  }

  lemma {:induction false} DecodesByte(
    rest: seq<u8>, acc: nat, sofar: nat, byte: u8, r: nat, bits: BitCount, out: seq<u8>)
    requires bits > 0 && r < Room(bits - 2) && DecodeFrom(rest, r, bits - 2) == Some(out)
    requires acc == Scaled(256 * sofar + byte, bits - 2) + r
    ensures Completes([byte] + out, NumberFrom(acc, rest), sofar, bits, DigitCount(rest) + 1)
    decreases |rest|, 2
  {
    DecodesNumber(rest, acc, 256 * sofar + byte, r, bits - 2);
    OneByteMore(out, NumberFrom(acc, rest), sofar, byte, bits, DigitCount(rest));
  }

  /** What every accepted string decodes to: as many whole bytes as its digits fill, and of the number its digits make
      the part above the bits left over. */
  lemma DecodedIsNumber(s: seq<u8>)
    requires Decoded(s).Some?
    ensures var out, left := Decoded(s).value, BitsLeft(0, DigitCount(s));
      && 8 * |out| + left == 6 * DigitCount(s)
      && Scaled(BytesFrom(0, out), left) <= NumberFrom(0, s) < Scaled(BytesFrom(0, out) + 1, left)
  {
    DecodesNumber(s, 0, 0, 0, 0);
  }

  lemma OneCharacter(v: nat, rest: seq<u8>, rem: nat, bits: BitCount)
    requires v < 64 && rem < Room(bits)
    ensures var t := rem * 64 + v;
      DecodeFrom([CharOf(v)] + rest, rem, bits) ==
        if bits == 0 then DecodeFrom(rest, t, 6)
        else Prepend([t / Room(bits - 2)], DecodeFrom(rest, t % Room(bits - 2), bits - 2))
  {
    var s := [CharOf(v)] + rest;
    assert s[0] == CharOf(v) && s[1..] == rest;
  }

  /** The first two characters of a group complete its first byte, the third the second, the fourth the third. */
  lemma FirstByte(a: u8, b: u8, rest: seq<u8>)
    ensures DecodeFrom([CharOf(a / 4)] + ([CharOf(a % 4 * 16 + b / 16)] + rest), 0, 0)
         == Prepend([a], DecodeFrom(rest, b / 16, 4))
  {
    var v := a % 4 * 16 + b / 16;
    OneCharacter(a / 4, [CharOf(v)] + rest, 0, 0);
    OneCharacter(v, rest, a / 4, 6);
    assert (a / 4 * 64 + v) / 16 == a && (a / 4 * 64 + v) % 16 == b / 16;
  }

  lemma SecondByte(b: u8, c: u8, rest: seq<u8>)
    ensures DecodeFrom([CharOf(b % 16 * 4 + c / 64)] + rest, b / 16, 4) == Prepend([b], DecodeFrom(rest, c / 64, 2))
  {
    var v := b % 16 * 4 + c / 64;
    OneCharacter(v, rest, b / 16, 4);
    assert (b / 16 * 64 + v) / 4 == b && (b / 16 * 64 + v) % 4 == c / 64;
  }

  lemma ThirdByte(c: u8, rest: seq<u8>)
    ensures DecodeFrom([CharOf(c % 64)] + rest, c / 64, 2) == Prepend([c], DecodeFrom(rest, 0, 0))
  {
    OneCharacter(c % 64, rest, c / 64, 2);
  }

  /** A whole group decodes to its three bytes and leaves no remainder. */
  lemma GroupDecodes(a: u8, b: u8, c: u8, rest: seq<u8>)
    ensures DecodeFrom(Group(a, b, c) + rest, 0, 0) == Prepend([a, b, c], DecodeFrom(rest, 0, 0))
  {
    var g := Group(a, b, c);
    FourMore(g[0], g[1], g[2], g[3], rest);
    FirstByte(a, b, [g[2]] + ([g[3]] + rest));
    SecondByte(b, c, [g[3]] + rest);
    ThirdByte(c, rest);
    PrependThree(a, b, c, DecodeFrom(rest, 0, 0));
  }

  lemma FourMore(w: u8, x: u8, y: u8, z: u8, rest: seq<u8>)
    ensures [w, x, y, z] + rest == [w] + ([x] + ([y] + ([z] + rest)))
  {
  }

  lemma PrependThree(a: u8, b: u8, c: u8, rest: Option<seq<u8>>)
    ensures Prepend([a], Prepend([b], Prepend([c], rest))) == Prepend([a, b, c], rest)
  {
    if rest.Some? { assert [a] + ([b] + ([c] + rest.value)) == [a, b, c] + rest.value; }
  }

  /** Padding decodes to nothing. */
  lemma PaddingDecodes(pads: seq<u8>, rem: nat, bits: BitCount)
    requires rem < Room(bits) && |pads| <= 2 && forall i :: 0 <= i < |pads| ==> pads[i] == PAD
    ensures DecodeFrom(pads, rem, bits) == Some([])
  {
    if pads != [] { PaddingDecodes(pads[1..], rem, bits); }
  }

  /** Decoding inverts the encoding, padded or not, for every byte string. */
  lemma {:induction false} DecodeInvertsEncode(s: seq<u8>, padded: bool)
    ensures Decoded(Encode(s, padded)) == Some(s)
  {
    if |s| == 1 {
      OneByteDecodes(s[0], padded);
      assert [s[0]] == s;
    } else if |s| == 2 {
      TwoBytesDecode(s[0], s[1], padded);
      assert [s[0], s[1]] == s;
    } else if |s| >= 3 {
      GroupDecodes(s[0], s[1], s[2], Encode(s[3..], padded));
      DecodeInvertsEncode(s[3..], padded);
      assert [s[0], s[1], s[2]] + s[3..] == s;
    }
  }

  lemma OneByteDecodes(a: u8, padded: bool)
    ensures Decoded(Encode([a], padded)) == Some([a])
  {
    var pads := if padded then [PAD, PAD] else [];
    var g := Group(a, 0, 0);
    assert Encode([a], padded) == [g[0]] + ([g[1]] + pads);
    FirstByte(a, 0, pads);
    PaddingDecodes(pads, 0, 4);
    assert [a] + [] == [a];
  }

  lemma TwoBytesDecode(a: u8, b: u8, padded: bool)
    ensures Decoded(Encode([a, b], padded)) == Some([a, b])
  {
    var pads := if padded then [PAD] else [];
    var g := Group(a, b, 0);
    assert Encode([a, b], padded) == [g[0]] + ([g[1]] + ([g[2]] + pads));
    FirstByte(a, b, [g[2]] + pads);
    SecondByte(b, 0, pads);
    PaddingDecodes(pads, 0, 2);
    assert [a] + ([b] + []) == [a, b];
  }
}

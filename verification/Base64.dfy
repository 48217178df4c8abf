/** lualib-src/lua-base64.c against section 4 of RFC 4648. The decoder also skips white
    space, and refuses pad bits that are not zero (section 3.5). */
module Base64 {
  import opened Hiding
  import opened Wrappers

  type Byte = x: int | 0 <= x < 256
  type Sextet = x: int | 0 <= x < 64

  const PAD := '='
  const NUL := 0 as char

  // ----- the alphabet -----

  /** b64tbl[v]: table 1 of RFC 4648. */
  function Letter(v: Sextet): char {
    if v < 26 then 'A' + v as char
    else if v < 52 then 'a' + (v - 26) as char
    else if v < 62 then '0' + (v - 52) as char
    else if v == 62 then '+' else '/'
  }

  const TABLE := "ABCDEFGHIJKLMNOPQRSTUVWXYZ" + "abcdefghijklmnopqrstuvwxyz" + "0123456789+/"

  lemma LetterIsInTable(v: Sextet)
    ensures |TABLE| == 64 && Letter(v) == TABLE[v]
  {
    if v < 26 {
      assert TABLE[v] == "ABCDEFGHIJKLMNOPQRSTUVWXYZ"[v];
    } else if v < 52 {
      assert TABLE[v] == "abcdefghijklmnopqrstuvwxyz"[v - 26];
    }
  }

  function InTable(v: Sextet): (c: char)
    ensures c == Letter(v)
  {
    LetterIsInTable(v);
    TABLE[v]
  }

  /** strchr in b64tbl. */
  function IndexOf(c: char): (v: Option<Sextet>)
    ensures v.Some? ==> Letter(v.value) == c
    ensures v.None? ==> forall x: Sextet :: Letter(x) != c
  {
    if 'A' <= c <= 'Z' then Some(c as int - 'A' as int)
    else if 'a' <= c <= 'z' then Some(26 + (c as int - 'a' as int))
    else if '0' <= c <= '9' then Some(52 + (c as int - '0' as int))
    else if c == '+' then Some(62) else if c == '/' then Some(63) else None
  }

  /** isspace. */
  predicate IsSpace(c: char) {
    c == ' ' || '\t' <= c <= '\r'
  }

  /** Space, tab, line feed, vertical tab, form feed and carriage return. */
  lemma SpaceIsOneOfSix(c: char)
    ensures IsSpace(c) <==> c as int in {32, 9, 10, 11, 12, 13}
  {
  }

  // ----- the encoding: 24-bit groups as four digits of base 64 -----

  function Group(a: Byte, b: Byte, c: Byte): int { 65536 * a + 256 * b + c }

  function Digits(n: int): (d: seq<Sextet>)
    requires 0 <= n < 0x100_0000
    ensures |d| == 4
  {
    [n / 262144, n / 4096 % 64, n / 64 % 64, n % 64]
  }

  function Letters(d: seq<Sextet>): (t: string)
    requires |d| == 4
    ensures |t| == 4
  {
    [Letter(d[0]), Letter(d[1]), Letter(d[2]), Letter(d[3])]
  }

  /** The number of groups of `n` bytes. */
  function Groups(n: nat): nat {
    if n == 0 then 0 else if n <= 3 then 1 else 1 + Groups(n - 3)
  }

  lemma {:induction false} GroupsOfThree(n: nat)
    requires n > 0
    ensures Groups(n) == (n - 1) / 3 + 1
  {
    if n > 3 {
      GroupsOfThree(n - 3);
      assert (n - 1) / 3 == (n - 4) / 3 + 1;
    }
  }

  /** Three bytes make four letters. At the end, one or two bytes are filled up with zero
      bits, and '=' stands for the digits that have none of their bits. */
  function Encoding(s: seq<Byte>): (t: string)
    ensures |t| == 4 * Groups(|s|)
  {
    if |s| == 0 then ""
    else if |s| == 1 then Letters(Digits(Group(s[0], 0, 0)))[..2] + [PAD, PAD]
    else if |s| == 2 then Letters(Digits(Group(s[0], s[1], 0)))[..3] + [PAD]
    else Letters(Digits(Group(s[0], s[1], s[2]))) + Encoding(s[3..])
  }

  // ----- the decoding: whole bytes, and the bits of the next one -----

  /** After some digits: how many of them are in the current group, the whole bytes, and
      the bits left over. */
  datatype Bits = Bits(state: nat, out: seq<Byte>, rest: nat) {
    predicate Ok() {
      match state
      case 0 => rest == 0
      case 1 => rest < 64
      case 2 => rest < 16
      case 3 => rest < 4
      case _ => false
    }

    /** The byte the left over bits begin. */
    function Begun(): (b: Byte)
      requires Ok()
    {
      match state
      case 0 => 0
      case 1 => rest * 4
      case 2 => rest * 16
      case _ => rest * 64
    }
  }

  function Feed(d: Bits, v: Sextet): (e: Bits)
    requires d.Ok()
    ensures e.Ok() && e.state == if d.state == 3 then 0 else d.state + 1
  {
    match d.state
    case 0 => Bits(1, d.out, v)
    case 1 => Bits(2, d.out + [d.rest * 4 + v / 16], v % 16)
    case 2 => Bits(3, d.out + [d.rest * 16 + v / 4], v % 4)
    case _ => Bits(0, d.out + [d.rest * 64 + v], 0)
  }

  const START := Bits(0, [], 0)

  /** The bytes a text without white space stands for, behind the digits of `d`: letters,
      then what fills the last group, with zero bits left over. */
  function DecodingFrom(d: Bits, u: string): Option<seq<Byte>>
    requires d.Ok()
    decreases |u|
  {
    if u == "" then if d.state == 0 then Some(d.out) else None
    else if IndexOf(u[0]).Some? then DecodingFrom(Feed(d, IndexOf(u[0]).value), u[1..])
    else if u[0] == PAD && Ends(d, u[1..]) then Some(d.out) else None
  }

  /** What may follow the first '='. */
  predicate Ends(d: Bits, u: string) {
    d.rest == 0 && ((d.state == 2 && u == [PAD]) || (d.state == 3 && u == ""))
  }

  // ----- one group -----

  lemma BaseDigits(d0: Sextet, d1: Sextet, d2: Sextet, d3: Sextet)
    ensures var n := d0 * 262144 + d1 * 4096 + d2 * 64 + d3;
      0 <= n < 0x100_0000 && Digits(n) == [d0, d1, d2, d3]
  {
    var n := d0 * 262144 + d1 * 4096 + d2 * 64 + d3;
    assert n / 64 == d0 * 4096 + d1 * 64 + d2;
    assert n / 4096 == d0 * 64 + d1;
    assert n / 262144 == d0;
  }

  /** The digits by the bits of the bytes, as the encoder computes them. */
  lemma DigitsOfGroup(a: Byte, b: Byte, c: Byte)
    ensures 0 <= Group(a, b, c) < 0x100_0000
    ensures Digits(Group(a, b, c)) == [a / 4, a % 4 * 16 + b / 16, b % 16 * 4 + c / 64, c % 64]
  {
    BaseDigits(a / 4, a % 4 * 16 + b / 16, b % 16 * 4 + c / 64, c % 64);
    assert Group(a, b, c) == a / 4 * 262144 + (a % 4 * 16 + b / 16) * 4096 + (b % 16 * 4 + c / 64) * 64 + c % 64;
  }

  /** Decoding `u` behind the digits of `d` has the result `r`. */
  ghost predicate Gives(d: Bits, u: string, r: Option<seq<Byte>>) {
    forall x {:trigger Unfold((d, u), x)} :: Unfold((d, u), x) ==> d.Ok() && DecodingFrom(d, u) == r
  }

  lemma OpenGives(d: Bits, u: string, r: Option<seq<Byte>>)
    ensures Gives(d, u, r) <==> d.Ok() && DecodingFrom(d, u) == r
  {
    assert Unfold((d, u), 0);
  }

  lemma FeedLetter(d: Bits, v: Sextet, u: string, r: Option<seq<Byte>>)
    requires d.Ok() && Gives(Feed(d, v), u, r)
    ensures Gives(d, [Letter(v)] + u, r)
  {
    OpenGives(Feed(d, v), u, r);
    assert ([Letter(v)] + u)[1..] == u;
    OpenGives(d, [Letter(v)] + u, r);
  }

  lemma DecodePads(out: seq<Byte>)
    ensures Gives(Bits(2, out, 0), [PAD, PAD], Some(out))
    ensures Gives(Bits(3, out, 0), [PAD], Some(out))
  {
    assert [PAD, PAD][1..] == [PAD] && [PAD][1..] == "";
    OpenGives(Bits(2, out, 0), [PAD, PAD], Some(out));
    OpenGives(Bits(3, out, 0), [PAD], Some(out));
  }

  /** The bits of the digits of a group. */
  lemma FeedDigits(out: seq<Byte>, v0: Sextet, v1: Sextet, v2: Sextet, v3: Sextet)
    ensures Feed(Bits(0, out, 0), v0) == Bits(1, out, v0)
    ensures Feed(Bits(1, out, v0), v1) == Bits(2, out + [v0 * 4 + v1 / 16], v1 % 16)
    ensures Feed(Bits(2, out, v1 % 16), v2) == Bits(3, out + [v1 % 16 * 16 + v2 / 4], v2 % 4)
    ensures Feed(Bits(3, out, v2 % 4), v3) == Bits(0, out + [v2 % 4 * 64 + v3], 0)
  {
  }

  lemma FirstTwo(out: seq<Byte>, v0: Sextet, v1: Sextet, u: string, r: Option<seq<Byte>>)
    requires Gives(Bits(2, out + [v0 * 4 + v1 / 16], v1 % 16), u, r)
    ensures Gives(Bits(0, out, 0), [Letter(v0)] + ([Letter(v1)] + u), r)
  {
    FeedDigits(out, v0, v1, 0, 0);
    FeedLetter(Bits(1, out, v0), v1, u, r);
    FeedLetter(Bits(0, out, 0), v0, [Letter(v1)] + u, r);
  }

  lemma LastTwo(out: seq<Byte>, v1: Sextet, v2: Sextet, v3: Sextet, u: string, r: Option<seq<Byte>>)
    requires Gives(Bits(0, out + [v1 % 16 * 16 + v2 / 4] + [v2 % 4 * 64 + v3], 0), u, r)
    ensures Gives(Bits(2, out, v1 % 16), [Letter(v2)] + ([Letter(v3)] + u), r)
  {
    FeedDigits(out, 0, v1, v2, v3);
    FeedDigits(out + [v1 % 16 * 16 + v2 / 4], 0, v1, v2, v3);
    FeedLetter(Bits(3, out + [v1 % 16 * 16 + v2 / 4], v2 % 4), v3, u, r);
    FeedLetter(Bits(2, out, v1 % 16), v2, [Letter(v3)] + u, r);
  }

  /** The bytes come back from their digits. */
  lemma BytesOfDigits(a: Byte, b: Byte, c: Byte)
    ensures a / 4 * 4 + (a % 4 * 16 + b / 16) / 16 == a
    ensures (a % 4 * 16 + b / 16) % 16 * 16 + (b % 16 * 4 + c / 64) / 4 == b
    ensures (b % 16 * 4 + c / 64) % 4 * 64 + c % 64 == c
  {
  }

  lemma GroupDecodes(out: seq<Byte>, a: Byte, b: Byte, c: Byte, u: string, r: Option<seq<Byte>>)
    requires Gives(Bits(0, out + [a] + [b] + [c], 0), u, r)
    ensures Gives(Bits(0, out, 0), Letters(Digits(Group(a, b, c))) + u, r)
  {
    DigitsOfGroup(a, b, c);
    BytesOfDigits(a, b, c);
    var v0: Sextet, v1: Sextet, v2: Sextet, v3: Sextet := a / 4, a % 4 * 16 + b / 16, b % 16 * 4 + c / 64, c % 64;
    LastTwo(out + [a], v1, v2, v3, u, r);
    FirstTwo(out, v0, v1, [Letter(v2)] + ([Letter(v3)] + u), r);
    assert Letters(Digits(Group(a, b, c))) + u == [Letter(v0)] + ([Letter(v1)] + ([Letter(v2)] + ([Letter(v3)] + u)));
  }

  lemma OneByteDecodes(out: seq<Byte>, a: Byte)
    ensures Gives(Bits(0, out, 0), Letters(Digits(Group(a, 0, 0)))[..2] + [PAD, PAD], Some(out + [a]))
  {
    DigitsOfGroup(a, 0, 0);
    BytesOfDigits(a, 0, 0);
    var v0: Sextet, v1: Sextet := a / 4, a % 4 * 16;
    DecodePads(out + [a]);
    FirstTwo(out, v0, v1, [PAD, PAD], Some(out + [a]));
    assert Letters(Digits(Group(a, 0, 0)))[..2] + [PAD, PAD] == [Letter(v0)] + ([Letter(v1)] + [PAD, PAD]);
  }

  lemma TwoBytesDecode(out: seq<Byte>, a: Byte, b: Byte)
    ensures Gives(Bits(0, out, 0), Letters(Digits(Group(a, b, 0)))[..3] + [PAD], Some(out + [a] + [b]))
  {
    DigitsOfGroup(a, b, 0);
    BytesOfDigits(a, b, 0);
    var v0: Sextet, v1: Sextet, v2: Sextet := a / 4, a % 4 * 16 + b / 16, b % 16 * 4;
    DecodePads(out + [a] + [b]);
    FeedDigits(out + [a], 0, v1, v2, 0);
    FeedLetter(Bits(2, out + [a], v1 % 16), v2, [PAD], Some(out + [a] + [b]));
    FirstTwo(out, v0, v1, [Letter(v2)] + [PAD], Some(out + [a] + [b]));
    assert Letters(Digits(Group(a, b, 0)))[..3] + [PAD] == [Letter(v0)] + ([Letter(v1)] + ([Letter(v2)] + [PAD]));
  }

  /** Decoding undoes encoding. */
  lemma {:induction false} EncodingDecodes(out: seq<Byte>, s: seq<Byte>)
    ensures Gives(Bits(0, out, 0), Encoding(s), Some(out + s))
    decreases |s|
  {
    if |s| == 0 {
      assert out + s == out;
      OpenGives(Bits(0, out, 0), Encoding(s), Some(out + s));
    } else if |s| == 1 {
      OneByteDecodes(out, s[0]);
      assert out + s == out + [s[0]];
    } else if |s| == 2 {
      TwoBytesDecode(out, s[0], s[1]);
      assert out + s == out + [s[0]] + [s[1]];
    } else {
      var next := out + [s[0]] + [s[1]] + [s[2]];
      EncodingDecodes(next, s[3..]);
      assert next + s[3..] == out + s;
      GroupDecodes(out, s[0], s[1], s[2], Encoding(s[3..]), Some(out + s));
    }
  }

  /** How an accepted text goes on: with a letter, or it ends here. */
  lemma Peel(d: Bits, u: string, b: seq<Byte>) returns (v: Option<Sextet>)
    requires Gives(d, u, Some(b))
    ensures d.Ok()
    ensures v.Some? ==> u != "" && u[0] == Letter(v.value) && Gives(Feed(d, v.value), u[1..], Some(b))
    ensures v.None? ==> d.rest == 0 && b == d.out && u == AtEnd(d.state) && d.state != 1
  {
    OpenGives(d, u, Some(b));
    if u == "" {
      v := None;
    } else {
      v := IndexOf(u[0]);
      if v.Some? { OpenGives(Feed(d, v.value), u[1..], Some(b)); }
    }
  }

  function AtEnd(state: nat): string {
    if state == 2 then [PAD, PAD] else if state == 3 then [PAD] else ""
  }

  /** Which digits a group of bytes has. */
  lemma DigitsOfBytes(v0: Sextet, v1: Sextet, v2: Sextet, v3: Sextet)
    ensures var a, b, c := v0 * 4 + v1 / 16, v1 % 16 * 16 + v2 / 4, v2 % 4 * 64 + v3;
      && 0 <= Group(a, b, c) < 0x100_0000 && Digits(Group(a, b, c)) == [v0, v1, v2, v3]
  {
    BaseDigits(v0, v1, v2, v3);
    var a, b, c := v0 * 4 + v1 / 16, v1 % 16 * 16 + v2 / 4, v2 % 4 * 64 + v3;
    assert Group(a, b, c) == v0 * 262144 + v1 * 4096 + v2 * 64 + v3;
  }

  lemma EncodesOne(v0: Sextet, v1: Sextet)
    requires v1 % 16 == 0
    ensures Encoding([v0 * 4 + v1 / 16]) == [Letter(v0), Letter(v1), PAD, PAD]
  {
    DigitsOfBytes(v0, v1, 0, 0);
  }

  lemma EncodesTwo(v0: Sextet, v1: Sextet, v2: Sextet)
    requires v2 % 4 == 0
    ensures Encoding([v0 * 4 + v1 / 16, v1 % 16 * 16 + v2 / 4]) == [Letter(v0), Letter(v1), Letter(v2), PAD]
  {
    DigitsOfBytes(v0, v1, v2, 0);
  }

  /** What is accepted is the encoding of the result. */
  lemma {:induction false} DecodingEncodes(out: seq<Byte>, u: string, r: seq<Byte>)
    requires Gives(Bits(0, out, 0), u, Some(r))
    ensures out <= r && Encoding(r[|out|..]) == u
    decreases |u|, 3
  {
    var o0 := Peel(Bits(0, out, 0), u, r);
    if o0.Some? {
      var v0: Sextet := o0.value;
      FeedDigits(out, v0, 0, 0, 0);
      var o1 := Peel(Bits(1, out, v0), u[1..], r);
      var v1: Sextet := o1.value;
      FeedDigits(out, v0, v1, 0, 0);
      var a: int := v0 * 4 + v1 / 16;
      var o2 := Peel(Bits(2, out + [a], v1 % 16), u[2..], r);
      if o2.None? {
        EncodesOne(v0, v1);
        assert r[|out|..] == [a];
        assert u == [Letter(v0), Letter(v1)] + u[2..];
      } else {
        DecodingEncodesRest(out, u, r, v0, v1, o2.value);
      }
    }
  }

  lemma {:induction false} DecodingEncodesRest(out: seq<Byte>, u: string, r: seq<Byte>, v0: Sextet, v1: Sextet, v2: Sextet)
    requires |u| > 2 && u[0] == Letter(v0) && u[1] == Letter(v1) && u[2] == Letter(v2)
    requires Gives(Feed(Bits(2, out + [v0 * 4 + v1 / 16], v1 % 16), v2), u[3..], Some(r))
    ensures out <= r && Encoding(r[|out|..]) == u
    decreases |u|, 2
  {
    var a: int, b: int := v0 * 4 + v1 / 16, v1 % 16 * 16 + v2 / 4;
    FeedDigits(out + [a], v0, v1, v2, 0);
    var o3 := Peel(Bits(3, out + [a] + [b], v2 % 4), u[3..], r);
    if o3.None? {
      EncodesTwo(v0, v1, v2);
      assert r[|out|..] == [a, b];
      assert u == [Letter(v0), Letter(v1), Letter(v2)] + u[3..];
    } else {
      DecodingEncodesLast(out, u, r, v0, v1, v2, o3.value);
    }
  }

  lemma {:induction false} DecodingEncodesLast(out: seq<Byte>, u: string, r: seq<Byte>, v0: Sextet, v1: Sextet, v2: Sextet, v3: Sextet)
    requires |u| > 3 && u[0] == Letter(v0) && u[1] == Letter(v1) && u[2] == Letter(v2) && u[3] == Letter(v3)
    requires Gives(Feed(Bits(3, out + [v0 * 4 + v1 / 16] + [v1 % 16 * 16 + v2 / 4], v2 % 4), v3), u[4..], Some(r))
    ensures out <= r && Encoding(r[|out|..]) == u
    decreases |u|, 1
  {
    var a: int, b: int := v0 * 4 + v1 / 16, v1 % 16 * 16 + v2 / 4;
    FeedDigits(out + [a] + [b], v0, v1, v2, v3);
    DigitsOfBytes(v0, v1, v2, v3);
    DecodingEncodesGroup(out, u, r, a, b, v2 % 4 * 64 + v3);
  }

  lemma {:induction false} DecodingEncodesGroup(out: seq<Byte>, u: string, r: seq<Byte>, a: Byte, b: Byte, c: Byte)
    requires |u| > 3 && 0 <= Group(a, b, c) < 0x100_0000 && Letters(Digits(Group(a, b, c))) == u[..4]
    requires Gives(Bits(0, out + [a] + [b] + [c], 0), u[4..], Some(r))
    ensures out <= r && Encoding(r[|out|..]) == u
    decreases |u|, 0
  {
    var next := out + [a] + [b] + [c];
    DecodingEncodes(next, u[4..], r);
    var t := r[|out|..];
    assert t == [a, b, c] + r[|next|..] && t[3..] == r[|next|..];
    assert u == u[..4] + u[4..];
  }

  function Decoding(u: string): Option<seq<Byte>> {
    DecodingFrom(START, u)
  }

  /** A text without white space is decoded to `s` if and only if it is the encoding of `s`. */
  lemma DecodesIffEncoding(u: string, s: seq<Byte>)
    ensures Decoding(u) == Some(s) <==> u == Encoding(s)
  {
    EncodingDecodes([], s);
    assert [] + s == s;
    OpenGives(START, Encoding(s), Some(s));
    if Decoding(u) == Some(s) {
      OpenGives(START, u, Some(s));
      DecodingEncodes([], u, s);
      assert s[0..] == s;
    }
  }
}

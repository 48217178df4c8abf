/** base64_encode and base64_decode of lualib-src/lua-base64.c, and the buffers their
    callers give them. */
module Base64Codec {
  import opened Hiding
  import opened Base64
  import opened Base64Bits
  import opened Powers
  import opened Wrappers

  // ----- encoding -----

  /** The four characters of a group of three bytes at `idx`. */
  method PutGroup(a: Byte, b: Byte, c: Byte, dst: array<char>, idx: nat)
    requires idx + 4 <= dst.Length
    modifies dst
    ensures dst[..idx] == old(dst[..idx]) && dst[idx..idx + 4] == Letters(Digits(Group(a, b, c)))
  {
    DigitsOfGroup(a, b, c);
    dst[idx] := Letter(a / 4);
    dst[idx + 1] := Letter(a % 4 * 16 + b / 16);
    dst[idx + 2] := Letter(b % 16 * 4 + c / 64);
    dst[idx + 3] := Letter(c % 64);
  }

  /** The last one or two bytes. */
  method EncodeTail(s: seq<Byte>, dst: array<char>, idx: nat)
    requires 1 <= |s| <= 2 && idx + 4 <= dst.Length
    modifies dst
    ensures dst[..idx + 4] == old(dst[..idx]) + Encoding(s)
  {
    ghost var done := dst[..idx];
    PutGroup(s[0], if |s| == 2 then s[1] else 0, 0, dst, idx);
    if |s| == 1 {
      dst[idx + 2] := PAD;
    }
    dst[idx + 3] := PAD;
    assert dst[..idx + 4] == done + dst[idx..idx + 4];
  }

  lemma FirstQuad(s: seq<Byte>) returns (quad: string)
    requires |s| > 2
    ensures quad == Letters(Digits(Group(s[0], s[1], s[2]))) && |quad| == 4 && Encoding(s) == quad + Encoding(s[3..])
  {
    quad := Letters(Digits(Group(s[0], s[1], s[2])));
  }

  lemma JoinQuad(all: string, done: string, quad: string, rest: string)
    requires |all| == |done| + |quad| && all[..|done|] == done && all[|done|..] == quad
    ensures all + rest == done + (quad + rest)
  {
    assert all == done + quad;
  }

  /** The body of the loop of base64_encode, when there is room. */
  method EncodeGroup(src: seq<Byte>, i: nat, dst: array<char>, idx: nat)
    requires i + 3 <= |src| && idx + 4 <= dst.Length
    modifies dst
    ensures dst[..idx + 4] + Encoding(src[i + 3..]) == old(dst[..idx]) + Encoding(src[i..])
  {
    ghost var done, s := dst[..idx], src[i..];
    assert s[3..] == src[i + 3..];
    ghost var quad := FirstQuad(s);
    PutGroup(src[i], src[i + 1], src[i + 2], dst, idx);
    JoinQuad(dst[..idx + 4], done, quad, Encoding(src[i + 3..]));
  }

  /** base64_encode. With room for the text but not for the NUL behind it, the text is
      written and the result is -1. */
  method Encode(src: seq<Byte>, dst: array<char>) returns (r: int)
    modifies dst
    ensures |Encoding(src)| == (|src| + 2) / 3 * 4
    ensures r == if |Encoding(src)| < dst.Length then |Encoding(src)| else -1
    ensures |Encoding(src)| <= dst.Length ==> dst[..|Encoding(src)|] == Encoding(src) && Spells(Encoding(src), src)
    ensures |Encoding(src)| < dst.Length ==> dst[|Encoding(src)|] == NUL
  {
    ghost var want := Encoding(src);
    EncodingSpells(src);
    var i, idx := 0, 0;
    assert src[0..] == src;
    while 2 < |src| - i
      invariant i <= |src| && idx <= dst.Length && dst[..idx] + Encoding(src[i..]) == want
      decreases |src| - i
    {
      if idx + 4 > dst.Length { return -1; }
      EncodeGroup(src, i, dst, idx);
      i, idx := i + 3, idx + 4;
    }
    if |src| - i != 0 {
      if idx + 4 > dst.Length { return -1; }
      EncodeTail(src[i..], dst, idx);
      idx := idx + 4;
    }
    assert dst[..idx] == want;
    if idx >= dst.Length { return -1; }
    dst[idx] := NUL;
    return idx;
  }

  /** What is left of the result of an operation on `size_t`. */
  function Wrap(x: int): nat {
    if 0 <= x < 0x1_0000_0000_0000_0000 then x else x % 0x1_0000_0000_0000_0000
  }

  /** The size lb64enc asks for. */
  function BufferSize(len: nat): nat {
    Wrap(Wrap(Wrap(len - 1) / 3 * 4) + 4)
  }

  lemma SmallBufferSize(len: nat)
    requires 0 < len < 0x8000_0000_0000_0000
    ensures BufferSize(len) == (len - 1) / 3 * 4 + 4
  {
    assert Wrap(len - 1) == len - 1;
    assert Wrap((len - 1) / 3 * 4) == (len - 1) / 3 * 4;
  }

  /** The length of the encoding, except for the empty string. */
  lemma BufferSizeIsExact(len: nat)
    requires len < 0x8000_0000_0000_0000
    ensures BufferSize(len) == 4 * Groups(len) <==> len > 0
    ensures BufferSize(0) == 0x5555_5555_5555_5558
  {
    EmptyBufferSize();
    if len > 0 {
      GroupsOfThree(len);
      SmallBufferSize(len);
    }
  }

  lemma EmptyBufferSize()
    ensures BufferSize(0) == 0x5555_5555_5555_5558
  {
    assert Wrap(-1) == 0xFFFF_FFFF_FFFF_FFFF;
    assert Wrap(0x5555_5555_5555_5555 * 4) == 0x5555_5555_5555_5554;
  }

  /** lb64enc; `available` says whether malloc succeeds, and None is the nil that is pushed
      when it does not. The result of base64_encode is -1 for every string that is not empty,
      because the buffer has no room for the NUL, but the buffer holds exactly the encoding.
      For the empty string the size wraps around: the result then is never the encoding. */
  method LuaEncode(src: seq<Byte>, available: bool) returns (t: Option<string>)
    requires |src| < 0x8000_0000_0000_0000
    ensures !available ==> t == None
    ensures available ==> t.Some? && |t.value| == BufferSize(|src|) && (t.value == Encoding(src) <==> src != [])
    ensures available && src != [] ==> Spells(t.value, src)
  {
    if !available { return None; }
    var dst := new char[BufferSize(|src|)];
    BufferSizeIsExact(|src|);
    var r := Encode(src, dst);
    t := Some(dst[..]);
    assert dst[..] == dst[..dst.Length];
  }

  // ----- decoding -----

  /** What the decoder sees of a text: no white space, and nothing behind a NUL. */
  function Clean(t: string): string {
    if t == "" || t[0] == NUL then "" else if IsSpace(t[0]) then Clean(t[1..]) else [t[0]] + Clean(t[1..])
  }

  /** `src` points into a string with a NUL at its end. */
  function At(src: string, i: nat): char {
    if i < |src| then src[i] else NUL
  }

  function Seen(c: char): string {
    if IsSpace(c) then "" else [c]
  }

  lemma CleanStep(src: string, i: nat)
    requires i <= |src|
    ensures At(src, i) == NUL ==> Clean(src[i..]) == ""
    ensures At(src, i) != NUL ==> i < |src| && Clean(src[i..]) == Seen(src[i]) + Clean(src[i + 1..])
  {
    if i < |src| { assert src[i..][1..] == src[i + 1..]; }
  }

  /** The six white space characters are skipped wherever they are, and no others; what is
      behind a NUL is not looked at. */
  lemma {:induction false} SkippedIff(t: string, c: char, u: string)
    requires NUL !in t
    ensures c != NUL ==> (Clean(t + [c] + u) == Clean(t + u) <==> c as int in {32, 9, 10, 11, 12, 13})
    ensures c == NUL ==> Clean(t + [c] + u) == Clean(t)
  {
    SpaceIsOneOfSix(c);
    if t == "" {
      assert t + [c] + u == [c] + u && ([c] + u)[1..] == u && t + u == u;
      CleanIsNoLonger(c, u);
    } else {
      assert (t + [c] + u)[1..] == t[1..] + [c] + u && (t + u)[1..] == t[1..] + u;
      SkippedIff(t[1..], c, u);
      var x, y := Clean(t[1..] + [c] + u), Clean(t[1..] + u);
      assert ([t[0]] + x)[1..] == x && ([t[0]] + y)[1..] == y;
    }
  }

  lemma CleanIsNoLonger(c: char, u: string)
    ensures [c] + Clean(u) != Clean(u)
  {
    assert |[c] + Clean(u)| > |Clean(u)|;
  }

  /** The bitwise or. */
  function Or(a: nat, b: nat): nat {
    if a == 0 then b else (if a % 2 == 1 || b % 2 == 1 then 1 else 0) + 2 * Or(a / 2, b / 2)
  }

  /** Disjoint bits are added. */
  lemma {:induction false} OrIsSum(m: nat, x: nat, y: nat)
    requires IsPowerOfTwo(m) && y < m
    ensures Or(m * x, y) == m * x + y
  {
    if m == 1 {
      OrNothing(x);
    } else if x != 0 {
      var h := m / 2;
      assert m * x == 2 * (h * x);
      OrIsSum(h, x, y / 2);
      assert m * x > 0 && m * x % 2 == 0 && m * x / 2 == h * x;
    }
  }

  lemma {:induction false} OrNothing(a: nat)
    ensures Or(a, 0) == a
  {
    if a != 0 { OrNothing(a / 2); }
  }

  lemma GivesLetter(d: Bits, v: Sextet, c: char, u: string, r: Option<seq<Byte>>)
    requires Gives(d, [c] + u, r) && IndexOf(c) == Some(v)
    ensures d.Ok() && Gives(Feed(d, v), u, r)
  {
    OpenGives(d, [c] + u, r);
    assert ([c] + u)[1..] == u;
    OpenGives(Feed(d, v), u, r);
  }

  lemma GivesOther(d: Bits, c: char, u: string, r: Option<seq<Byte>>)
    requires Gives(d, [c] + u, r) && IndexOf(c) == None
    ensures d.Ok() && r == if c == PAD && Ends(d, u) then Some(d.out) else None
  {
    OpenGives(d, [c] + u, r);
    assert ([c] + u)[1..] == u;
  }

  /** dst[idx] |= bits, where the bits of the byte at `idx` are multiples of `m`. */
  method OrInto(dst: array<Byte>, idx: nat, bits: Byte, ghost m: nat, ghost x: nat)
    requires idx < dst.Length && dst[idx] == m * x && IsPowerOfTwo(m) && bits < m && m * x + bits < 256
    modifies dst
    ensures dst[..] == old(dst[..])[idx := m * x + bits]
  {
    OrIsSum(m, x, bits);
    dst[idx] := Or(dst[idx], bits);
  }

  /** The cases of the switch: one digit goes into the buffer. */
  method PutDigit(dst: array<Byte>, idx: nat, state: nat, v: Sextet, ghost d: Bits) returns (ok: bool, idx': nat, state': nat)
    requires d.Ok() && state == d.state && idx == |d.out| <= dst.Length && dst[..idx] == d.out
    requires state != 0 ==> idx < dst.Length && dst[idx] == d.Begun()
    modifies dst
    ensures !ok ==> idx + (if state == 0 || state == 3 then 0 else 1) >= dst.Length
    ensures ok ==> state' == Feed(d, v).state && idx' == |Feed(d, v).out| <= dst.Length && dst[..idx'] == Feed(d, v).out
    ensures ok && state' != 0 ==> idx' < dst.Length && dst[idx'] == Feed(d, v).Begun()
    ensures ok ==> idx' == if state == 0 then idx else idx + 1
  {
    idx', state' := idx, state;
    if state == 0 {
      if idx >= dst.Length { return false, idx, state; }
      dst[idx] := v * 4;
      state' := 1;
    } else if state == 1 {
      if idx + 1 >= dst.Length { return false, idx, state; }
      OrInto(dst, idx, v / 16, 4, d.rest);
      dst[idx + 1] := v % 16 * 16;
      idx', state' := idx + 1, 2;
    } else if state == 2 {
      if idx + 1 >= dst.Length { return false, idx, state; }
      OrInto(dst, idx, v / 4, 16, d.rest);
      dst[idx + 1] := v % 4 * 64;
      idx', state' := idx + 1, 3;
    } else {
      if idx >= dst.Length { return false, idx, state; }
      OrInto(dst, idx, v, 64, d.rest);
      idx', state' := idx + 1, 0;
    }
    ok := true;
  }

  /** The loops over white space. */
  method SkipSpaces(src: string, i: nat) returns (j: nat)
    requires i <= |src|
    ensures i <= j <= |src| && Clean(src[i..]) == Clean(src[j..]) && !IsSpace(At(src, j))
  {
    j := i;
    while IsSpace(At(src, j))
      invariant i <= j <= |src| && Clean(src[i..]) == Clean(src[j..])
      decreases |src| - j
    {
      CleanStep(src, j);
      j := j + 1;
    }
  }

  /** What must follow the first '='. */
  method CheckEnd(src: string, i: nat, dst: array<Byte>, idx: nat, state: nat, ghost d: Bits) returns (ok: bool)
    requires i <= |src| && d.Ok() && state == d.state
    requires state != 0 ==> idx < dst.Length && dst[idx] == d.Begun()
    ensures ok == Ends(d, Clean(src[i..]))
  {
    if state == 0 || state == 1 { return false; }
    var j := i;
    if state == 2 {
      j := SkipSpaces(src, j);
      CleanStep(src, j);
      if At(src, j) != PAD {
        assert Clean(src[j..]) == "" || Clean(src[j..])[0] != PAD;
        return false;
      }
      j := j + 1;
    }
    j := SkipSpaces(src, j);
    CleanStep(src, j);
    if At(src, j) != NUL {
      assert Clean(src[j..]) != "";
      return false;
    }
    return dst[idx] == 0;
  }

  /** base64_decode: with a buffer as long as the text, it accepts exactly the encodings
      with white space in between, and the buffer never is too short. */
  method Decode(src: string, dst: array<Byte>) returns (r: int)
    modifies dst
    ensures -1 <= r <= dst.Length
    ensures r >= 0 ==> Decoding(Clean(src)) == Some(dst[..r])
    ensures r < 0 && dst.Length >= |src| ==> Decoding(Clean(src)) == None
  {
    var idx: nat, state: nat, i: nat := 0, 0, 0;
    ghost var d, want := START, Decoding(Clean(src));
    assert src[0..] == src;
    OpenGives(d, Clean(src), want);
    while At(src, i) != NUL && At(src, i) != PAD
      invariant i <= |src| && d.Ok() && Gives(d, Clean(src[i..]), want)
      invariant state == d.state && idx == |d.out| <= dst.Length && dst[..idx] == d.out
      invariant state != 0 ==> idx < dst.Length && dst[idx] == d.Begun()
      invariant idx + (if state == 0 then 0 else 1) <= i
      decreases |src| - i
    {
      var ch := At(src, i);
      CleanStep(src, i);
      i := i + 1;
      if IsSpace(ch) {
        assert Seen(ch) + Clean(src[i..]) == Clean(src[i..]);
        continue;
      }
      var pos := IndexOf(ch);
      if pos == None {
        GivesOther(d, ch, Clean(src[i..]), want);
        return -1;
      }
      var ok;
      ok, idx, state := PutDigit(dst, idx, state, pos.value, d);
      if !ok { return -1; }
      GivesLetter(d, pos.value, ch, Clean(src[i..]), want);
      d := Feed(d, pos.value);
    }
    CleanStep(src, i);
    if At(src, i) == PAD {
      var ok := CheckEnd(src, i + 1, dst, idx, state, d);
      GivesOther(d, PAD, Clean(src[i + 1..]), want);
      return if ok then idx else -1;
    } else {
      OpenGives(d, Clean(src[i..]), want);
      return if state == 0 then idx else -1;
    }
  }

  /** lb64dec, with None where base64_decode returns -1: a text is accepted if and only
      if its characters other than white space, up to the first NUL, are an encoding, and
      the result is what was encoded. */
  method LuaDecode(src: string) returns (b: Option<seq<Byte>>)
    ensures forall s: seq<Byte> :: b == Some(s) <==> Clean(src) == Encoding(s)
  {
    forall s: seq<Byte> ensures Decoding(Clean(src)) == Some(s) <==> Clean(src) == Encoding(s) {
      DecodesIffEncoding(Clean(src), s);
    }
    var dst := new Byte[|src|];
    var r := Decode(src, dst);
    b := if r < 0 then None else Some(dst[..r]);
  }

  // ----- both ways -----

  predicate Plain(c: char) {
    !IsSpace(c) && c != NUL
  }

  lemma {:induction false} EncodingIsPlain(s: seq<Byte>)
    ensures forall i :: 0 <= i < |Encoding(s)| ==> Plain(Encoding(s)[i])
    decreases |s|
  {
    assert forall v: Sextet :: Plain(Letter(v));
    assert Plain(PAD);
    if |s| > 2 { EncodingIsPlain(s[3..]); }
  }

  lemma {:induction false} PlainIsClean(t: string)
    requires forall i :: 0 <= i < |t| ==> Plain(t[i])
    ensures Clean(t) == t
  {
    if t != "" {
      assert Plain(t[0]);
      PlainIsClean(t[1..]);
    }
  }

  /** Decoding what was encoded gives it back. */
  lemma RoundTrip(s: seq<Byte>)
    ensures Clean(Encoding(s)) == Encoding(s) && Decoding(Clean(Encoding(s))) == Some(s)
  {
    DecodesIffEncoding(Encoding(s), s);
    EncodingIsPlain(s);
    PlainIsClean(Encoding(s));
  }
}

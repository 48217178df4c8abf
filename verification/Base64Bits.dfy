/** Base 64 as section 4 of RFC 4648 describes it: the bits of the bytes in one row, six of
    them to a character. */
module Base64Bits {
  import opened Base64

  /** The last `k` bits of `n`, the most significant one first. */
  function BitsOf(n: nat, k: nat): (bits: seq<bool>)
    ensures |bits| == k
  {
    if k == 0 then [] else BitsOf(n / 2, k - 1) + [n % 2 == 1]
  }

  /** n << k. */
  function Shifted(n: nat, k: nat): (m: nat)
    ensures n > 0 ==> m > 0
  {
    if k == 0 then n else 2 * Shifted(n, k - 1)
  }

  /** The number with these bits. */
  function Number(bits: seq<bool>): (n: nat)
    ensures n < Shifted(1, |bits|)
  {
    if bits == [] then 0 else 2 * Number(bits[..|bits| - 1]) + if bits[|bits| - 1] then 1 else 0
  }

  /** All bits of a byte string in a row. */
  function Row(s: seq<Byte>): (bits: seq<bool>)
    ensures |bits| == 8 * |s|
  {
    if s == [] then [] else BitsOf(s[0], 8) + Row(s[1..])
  }

  /** A bit of the row, zero behind its end. */
  function BitAt(row: seq<bool>, i: nat): bool {
    i < |row| && row[i]
  }

  function SixBits(row: seq<bool>, i: nat): (bits: seq<bool>)
    ensures |bits| == 6 && forall k :: 0 <= k < 6 ==> bits[k] == BitAt(row, i + k)
  {
    seq(6, k requires 0 <= k => BitAt(row, i + k))
  }

  function Sixty4(bits: seq<bool>): (v: Sextet)
    requires |bits| == 6
    ensures v == Number(bits)
  {
    assert Shifted(1, 6) == 64;
    Number(bits)
  }

  /** Character `j` is the one of the table for the bits 6j to 6j+5, or '=' when all of these
      are behind the end. */
  function CharacterAt(s: seq<Byte>, j: nat): char {
    if 6 * j < 8 * |s| then InTable(Sixty4(SixBits(Row(s), 6 * j))) else '='
  }

  /** `t` has four characters for every three bytes begun. */
  ghost predicate Spells(t: string, s: seq<Byte>) {
    |t| == (|s| + 2) / 3 * 4 && forall j :: 0 <= j < |t| ==> t[j] == CharacterAt(s, j)
  }

  // ----- numbers and bits -----

  lemma {:induction false} NumberOfBits(n: nat, k: nat)
    requires n < Shifted(1, k)
    ensures Number(BitsOf(n, k)) == n
  {
    if k > 0 {
      NumberOfBits(n / 2, k - 1);
      assert BitsOf(n, k)[..k - 1] == BitsOf(n / 2, k - 1);
    }
  }

  lemma {:induction false} NumberJoin(x: seq<bool>, y: seq<bool>)
    ensures Number(x + y) == Shifted(Number(x), |y|) + Number(y)
  {
    if y == [] {
      assert x + y == x;
    } else {
      assert (x + y)[..|x + y| - 1] == x + y[..|y| - 1];
      NumberJoin(x, y[..|y| - 1]);
    }
  }

  lemma ShiftsAreProducts(n: nat)
    ensures Shifted(n, 6) == n * 64 && Shifted(n, 8) == n * 256
  {
    assert Shifted(n, 1) == n * 2;
    assert Shifted(n, 2) == n * 4;
    assert Shifted(n, 4) == n * 16;
    assert Shifted(n, 6) == n * 64;
  }

  lemma SixMore(x: seq<bool>, y: seq<bool>)
    requires |y| == 6
    ensures Number(x + y) == Number(x) * 64 + Sixty4(y)
  {
    NumberJoin(x, y);
    ShiftsAreProducts(Number(x));
  }

  lemma EightMore(x: seq<bool>, b: Byte)
    ensures Number(x + BitsOf(b, 8)) == Number(x) * 256 + b
  {
    NumberJoin(x, BitsOf(b, 8));
    ShiftsAreProducts(Number(x));
    ShiftsAreProducts(1);
    NumberOfBits(b, 8);
  }

  /** The digits of a group are its bits by sixes. */
  lemma DigitsAreSixes(a: Byte, b: Byte, c: Byte, p: seq<bool>, q: seq<bool>, r: seq<bool>, s: seq<bool>)
    requires |p| == |q| == |r| == |s| == 6
    requires p + q + r + s == BitsOf(a, 8) + BitsOf(b, 8) + BitsOf(c, 8)
    ensures 0 <= Group(a, b, c) < 0x100_0000
    ensures Digits(Group(a, b, c)) == [Sixty4(p), Sixty4(q), Sixty4(r), Sixty4(s)]
  {
    SixMore(p, q);
    SixMore(p + q, r);
    SixMore(p + q + r, s);
    assert [] + BitsOf(a, 8) == BitsOf(a, 8);
    EightMore([], a);
    EightMore(BitsOf(a, 8), b);
    EightMore(BitsOf(a, 8) + BitsOf(b, 8), c);
    BaseDigits(Sixty4(p), Sixty4(q), Sixty4(r), Sixty4(s));
  }

  // ----- the row of a string -----

  lemma {:induction false} RowAt(s: seq<Byte>, m: nat, k: nat)
    requires m < |s| && k < 8
    ensures Row(s)[8 * m + k] == BitsOf(s[m], 8)[k]
  {
    if m > 0 { RowAt(s[1..], m - 1, k); }
  }

  /** Three bytes on, the row is the row of the rest. */
  lemma RowOfRest(s: seq<Byte>, i: nat)
    requires |s| >= 3
    ensures BitAt(Row(s), i + 24) == BitAt(Row(s[3..]), i)
  {
    if i < 8 * |s[3..]| {
      RowAt(s, i / 8 + 3, i % 8);
      RowAt(s[3..], i / 8, i % 8);
    }
  }

  /** Up to there it has the bits of the first three bytes, with zeros behind the end. */
  lemma RowBegins(s: seq<Byte>, m: nat, k: nat)
    requires m < 3 && k < 8
    ensures BitAt(Row(s), 8 * m + k) == BitsOf(if m < |s| then s[m] else 0, 8)[k]
  {
    if m < |s| { RowAt(s, m, k); } else { ZeroBits(8); }
  }

  lemma {:induction false} ZeroBits(k: nat)
    ensures forall i :: 0 <= i < k ==> !BitsOf(0, k)[i]
  {
    if k > 0 { ZeroBits(k - 1); }
  }

  lemma FirstBits(s: seq<Byte>, a: Byte, b: Byte, c: Byte)
    requires s != [] && a == s[0] && b == (if |s| > 1 then s[1] else 0) && c == if |s| > 2 then s[2] else 0
    ensures SixBits(Row(s), 0) + SixBits(Row(s), 6) + SixBits(Row(s), 12) + SixBits(Row(s), 18)
      == BitsOf(a, 8) + BitsOf(b, 8) + BitsOf(c, 8)
  {
    var row, bits := Row(s), BitsOf(a, 8) + BitsOf(b, 8) + BitsOf(c, 8);
    var sixes := SixBits(row, 0) + SixBits(row, 6) + SixBits(row, 12) + SixBits(row, 18);
    forall i | 0 <= i < 24 ensures sixes[i] == bits[i] {
      RowBegins(s, if i < 8 then 0 else if i < 16 then 1 else 2, if i < 8 then i else if i < 16 then i - 8 else i - 16);
      assert bits[i] == BitAt(row, i);
    }
  }

  /** The letters of the first group. */
  lemma GroupSpells(s: seq<Byte>, a: Byte, b: Byte, c: Byte)
    requires s != []
    requires a == s[0] && b == (if |s| > 1 then s[1] else 0) && c == if |s| > 2 then s[2] else 0
    ensures 0 <= Group(a, b, c) < 0x100_0000
    ensures var row := Row(s);
      Digits(Group(a, b, c)) == [Sixty4(SixBits(row, 0)), Sixty4(SixBits(row, 6)), Sixty4(SixBits(row, 12)), Sixty4(SixBits(row, 18))]
  {
    var row := Row(s);
    FirstBits(s, a, b, c);
    DigitsAreSixes(a, b, c, SixBits(row, 0), SixBits(row, 6), SixBits(row, 12), SixBits(row, 18));
  }

  lemma FirstFour(s: seq<Byte>, j: nat)
    requires s != [] && j < 4
    ensures Encoding(s)[j] == CharacterAt(s, j)
  {
    GroupSpells(s, s[0], if |s| > 1 then s[1] else 0, if |s| > 2 then s[2] else 0);
    if j == 0 {
    } else if j == 1 {
    } else if j == 2 {
    } else {
    }
  }

  /** The encoding of section 4 of RFC 4648. */
  lemma {:induction false} EncodingSpells(s: seq<Byte>)
    ensures Spells(Encoding(s), s)
    decreases |s|
  {
    if s != [] {
      GroupsOfThree(|s|);
      var t := Encoding(s);
      if |s| > 3 { EncodingSpells(s[3..]); }
      forall j | 0 <= j < |t| ensures t[j] == CharacterAt(s, j) {
        if j < 4 {
          FirstFour(s, j);
        } else {
          assert t[j] == Encoding(s[3..])[j - 4] == CharacterAt(s[3..], j - 4);
          SixBitsOfRest(s, j);
        }
      }
    }
  }

  lemma SixBitsOfRest(s: seq<Byte>, j: nat)
    requires |s| > 3 && 4 <= j
    ensures SixBits(Row(s), 6 * j) == SixBits(Row(s[3..]), 6 * (j - 4))
  {
    var x, y := SixBits(Row(s), 6 * j), SixBits(Row(s[3..]), 6 * (j - 4));
    forall k | 0 <= k < 6 ensures x[k] == y[k] {
      RowOfRest(s, 6 * (j - 4) + k);
      assert 6 * (j - 4) + k + 24 == 6 * j + k;
    }
  }

  lemma EncodingExample()
    ensures Encoding([77, 97, 110]) == "TWFu" && Encoding([77]) == "TQ=="
  {
  }
}

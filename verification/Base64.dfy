/** `base64_encode` and `base64_decode`: a 32-bit accumulator that is shifted and never masked.
    The definition they are measured against is section 4 of RFC 4648. */
module Base64 {
  import opened Wire

  const UPPER := "ABCDEFGHIJKLMNOPQRSTUVWXYZ"

  const LOWER := "abcdefghijklmnopqrstuvwxyz"

  const DIGITS := "0123456789"

  const TABLE := UPPER + LOWER + DIGITS + "+/"

  const PAD: byte := 61

  /** A value of six bits. */
  type sextet = x: int | 0 <= x < 64

  /** The character of a sextet, as a byte. */
  function Char(v: sextet): byte {
    if v < 26 then 65 + v
    else if v < 52 then 97 + (v - 26)
    else if v < 62 then 48 + (v - 52)
    else if v == 62 then 43
    else 47
  }

  /** The sextet of a character, or -1. */
  function Value(c: byte): int {
    if 65 <= c <= 90 then c - 65
    else if 97 <= c <= 122 then c - 97 + 26
    else if 48 <= c <= 57 then c - 48 + 52
    else if c == 43 then 62
    else if c == 47 then 63
    else -1
  }

  /** The table of the code is the alphabet, position by position. */
  lemma TableIsAlphabet()
    ensures |TABLE| == 64 && forall i :: 0 <= i < 64 ==> TABLE[i] as int == Char(i)
  {
    assert forall i :: 0 <= i < 26 ==> UPPER[i] as int == Char(i);
    assert forall i :: 0 <= i < 26 ==> LOWER[i] as int == Char(26 + i);
    assert forall i :: 0 <= i < 10 ==> DIGITS[i] as int == Char(52 + i);
    forall i | 0 <= i < 64 ensures TABLE[i] as int == Char(i) {
      if i < 26 {
        assert TABLE[i] == UPPER[i];
      } else if i < 52 {
        assert TABLE[i] == LOWER[i - 26];
      } else if i < 62 {
        assert TABLE[i] == DIGITS[i - 52];
      }
    }
  }

  lemma ValueInvertsChar(v: sextet, c: byte)
    ensures Value(Char(v)) == v
    ensures Char(v) != PAD && Value(PAD) == -1
    ensures 0 <= Value(c) ==> Value(c) < 64 && Char(Value(c)) == c
  {
  }

  /** The 32-bit two's complement value that an `int` computation leaves. */
  function Wrap(x: int): int {
    var u := x % 0x1_0000_0000;
    if u < 0x8000_0000 then u else u - 0x1_0000_0000
  }

  /** An arithmetic shift to the right rounds down. */
  function ShiftRight(x: int, n: int): int
    requires n == 0 || n == 2 || n == 4 || n == 6
  {
    if n == 0 then x else if n == 2 then x / 4 else if n == 4 then x / 16 else x / 64
  }

  // The definition: twenty-four bits at a time, zero bits added on the right, `=` added to four.

  function Quad(a: byte, b: byte, c: byte): (q: seq<byte>)
    ensures |q| == 4
  {
    var group: int := a * 0x1_0000 + b * 0x100 + c;
    [Char(group / 0x4_0000), Char(group / 0x1000 % 64), Char(group / 64 % 64), Char(group % 64)]
  }

  function RfcTail(s: seq<byte>): seq<byte>
    requires |s| < 3
  {
    if |s| == 0 then []
    else if |s| == 1 then Quad(s[0], 0, 0)[..2] + [PAD, PAD]
    else Quad(s[0], s[1], 0)[..3] + [PAD]
  }

  function Rfc(s: seq<byte>): seq<byte> {
    if |s| < 3 then RfcTail(s) else Quad(s[0], s[1], s[2]) + Rfc(s[3..])
  }

  function Padding(n: nat): (p: seq<byte>)
    ensures |p| == n
  {
    seq(n, _ => PAD)
  }

  function Triple(v: sextet, w: sextet, x: sextet, y: sextet): (t: seq<byte>)
    ensures |t| == 3
  {
    var group: int := v * 0x4_0000 + w * 0x1000 + x * 64 + y;
    [group / 0x1_0000, group / 0x100 % 256, group % 256]
  }

  function MeaningTail(vs: seq<sextet>): seq<byte>
    requires |vs| < 4
  {
    if |vs| < 2 then []
    else if |vs| == 2 then Triple(vs[0], vs[1], 0, 0)[..1]
    else Triple(vs[0], vs[1], vs[2], 0)[..2]
  }

  /** What sextets stand for, four at a time; the bits short of a byte are dropped. */
  function Meaning(vs: seq<sextet>): seq<byte> {
    if |vs| < 4 then MeaningTail(vs) else Triple(vs[0], vs[1], vs[2], vs[3]) + Meaning(vs[4..])
  }

  /** The sextets of the longest beginning of alphabet characters. */
  function Sextets(s: seq<byte>): (vs: seq<sextet>)
    ensures |vs| <= |s|
    ensures forall i :: 0 <= i < |vs| ==> Value(s[i]) == vs[i]
    ensures |vs| < |s| ==> Value(s[|vs|]) == -1
  {
    if s == [] || Value(s[0]) == -1 then [] else [Value(s[0])] + Sextets(s[1..])
  }

  function Decoded(s: seq<byte>): seq<byte> {
    Meaning(Sextets(s))
  }

  lemma {:induction false} RfcConcat(a: seq<byte>, b: seq<byte>)
    requires |a| % 3 == 0
    ensures Rfc(a + b) == Rfc(a) + Rfc(b)
  {
    if a == [] {
      assert a + b == b;
    } else {
      assert (a + b)[3..] == a[3..] + b;
      RfcConcat(a[3..], b);
    }
  }

  lemma {:induction false} RfcLength(s: seq<byte>)
    ensures |Rfc(s)| == (|s| + 2) / 3 * 4
  {
    hide Quad;
    if 3 <= |s| {
      RfcLength(s[3..]);
      assert (|s| + 2) / 3 == (|s[3..]| + 2) / 3 + 1;
    }
  }

  lemma {:induction false} MeaningConcat(a: seq<sextet>, b: seq<sextet>)
    requires |a| % 4 == 0
    ensures Meaning(a + b) == Meaning(a) + Meaning(b)
  {
    if a == [] {
      assert a + b == b;
    } else {
      assert (a + b)[4..] == a[4..] + b;
      MeaningConcat(a[4..], b);
    }
  }

  lemma {:induction false} MeaningLength(vs: seq<sextet>)
    ensures |Meaning(vs)| == 6 * |vs| / 8
  {
    hide Triple;
    if 4 <= |vs| {
      MeaningLength(vs[4..]);
    }
  }

  /** A decoder reads the `k` alphabet characters up to the first other one, nothing behind them,
      and yields as many bytes as their bits fill. */
  lemma DecodedLength(s: seq<byte>, k: nat)
    requires k <= |s| && (forall i :: 0 <= i < k ==> 0 <= Value(s[i])) && (k < |s| ==> Value(s[k]) == -1)
    ensures |Decoded(s)| == 6 * k / 8
    ensures Decoded(s) == Decoded(s[..k])
  {
    MeaningLength(Sextets(s));
    assert |Sextets(s)| == k && |Sextets(s[..k])| == k by {
      hide Value;
    }
    assert Sextets(s) == Sextets(s[..k]);
  }

  // One step of either accumulator. Only the bits still pending matter: whatever was shifted out
  // to the left, by wrapping or not, is gone from every later remainder.

  lemma WrapDrops(x: int) returns (k: int)
    ensures Wrap(x) == x - k * 0x1_0000_0000
  {
    var u := x % 0x1_0000_0000;
    k := if u < 0x8000_0000 then x / 0x1_0000_0000 else x / 0x1_0000_0000 + 1;
  }

  lemma By4(x: int, q: int, r: int)
    requires x == 4 * q + r && 0 <= r < 4
    ensures x / 4 == q && x % 4 == r
  {
  }

  lemma By16(x: int, q: int, r: int)
    requires x == 16 * q + r && 0 <= r < 16
    ensures x / 16 == q && x % 16 == r
  {
  }

  lemma By64(x: int, q: int, r: int)
    requires x == 64 * q + r && 0 <= r < 64
    ensures x / 64 == q && x % 64 == r
  {
  }

  lemma By256(x: int, q: int, r: int)
    requires x == 256 * q + r && 0 <= r < 256
    ensures x / 256 == q && x % 256 == r
  {
  }

  lemma EncodeFirst(val: int, a: byte)
    ensures var v := Wrap(val * 256 + a); v / 4 % 64 == a / 4 && v % 4 == a % 4
  {
    var k := WrapDrops(val * 256 + a);
    var m := val - k * 0x100_0000;
    By4(Wrap(val * 256 + a), 64 * m + a / 4, a % 4);
    By64(64 * m + a / 4, m, a / 4);
  }

  lemma EncodeSecond(val: int, p: int, b: byte)
    requires val % 4 == p && 0 <= p < 4
    ensures var v := Wrap(val * 256 + b); v / 16 % 64 == p * 16 + b / 16 && v % 16 == b % 16
  {
    var k := WrapDrops(val * 256 + b);
    var m := val / 4 - k * 0x40_0000;
    By16(Wrap(val * 256 + b), 64 * m + (p * 16 + b / 16), b % 16);
    By64(64 * m + (p * 16 + b / 16), m, p * 16 + b / 16);
  }

  lemma EncodeThird(val: int, p: int, c: byte)
    requires val % 16 == p && 0 <= p < 16
    ensures var v := Wrap(val * 256 + c); v / 64 % 64 == p * 4 + c / 64 && v % 64 == c % 64
  {
    var k := WrapDrops(val * 256 + c);
    var m := val / 16 - k * 0x10_0000;
    By64(Wrap(val * 256 + c), 64 * m + (p * 4 + c / 64), c % 64);
    By64(64 * m + (p * 4 + c / 64), m, p * 4 + c / 64);
  }

  lemma DecodeFirst(val: int, v: sextet)
    ensures Wrap(val * 64 + v) % 64 == v
  {
    var k := WrapDrops(val * 64 + v);
    By64(Wrap(val * 64 + v), val - k * 0x400_0000, v);
  }

  lemma DecodeSecond(val: int, v: sextet, w: sextet)
    requires val % 64 == v
    ensures var u := Wrap(val * 64 + w); u / 16 % 256 == v * 4 + w / 16 && u % 16 == w % 16
  {
    var k := WrapDrops(val * 64 + w);
    var m := val / 64 - k * 0x10_0000;
    By16(Wrap(val * 64 + w), 256 * m + (v * 4 + w / 16), w % 16);
    By256(256 * m + (v * 4 + w / 16), m, v * 4 + w / 16);
  }

  lemma DecodeThird(val: int, p: int, x: sextet)
    requires val % 16 == p && 0 <= p < 16
    ensures var u := Wrap(val * 64 + x); u / 4 % 256 == p * 16 + x / 4 && u % 4 == x % 4
  {
    var k := WrapDrops(val * 64 + x);
    var m := val / 16 - k * 0x40_0000;
    By4(Wrap(val * 64 + x), 256 * m + (p * 16 + x / 4), x % 4);
    By256(256 * m + (p * 16 + x / 4), m, p * 16 + x / 4);
  }

  lemma DecodeFourth(val: int, p: int, y: sextet)
    requires val % 4 == p && 0 <= p < 4
    ensures Wrap(val * 64 + y) % 256 == p * 64 + y
  {
    var k := WrapDrops(val * 64 + y);
    By256(Wrap(val * 64 + y), val / 4 - k * 0x100_0000, p * 64 + y);
  }

  /** Four sextets can be read back out of the group they make. */
  lemma SplitGroup(v: sextet, w: sextet, x: sextet, y: sextet, group: int)
    requires group == v * 0x4_0000 + w * 0x1000 + x * 64 + y
    ensures group / 0x4_0000 == v && group / 0x1000 % 64 == w
    ensures group / 64 % 64 == x && group % 64 == y
  {
    By64(group, v * 0x1000 + w * 64 + x, y);
    By64(v * 0x1000 + w * 64 + x, v * 64 + w, x);
    By64(v * 64 + w, v, w);
    assert group / 0x1000 == v * 64 + w;
  }

  /** The sextets of three bytes. */
  lemma QuadSextets(a: byte, b: byte, c: byte)
    ensures Quad(a, b, c) == [Char(a / 4), Char(a % 4 * 16 + b / 16), Char(b % 16 * 4 + c / 64), Char(c % 64)]
  {
    var s1, s2 := a % 4 * 16 + b / 16, b % 16 * 4 + c / 64;
    SplitGroup(a / 4, s1, s2, c % 64, a * 0x1_0000 + b * 0x100 + c);
  }

  /** Three bytes can be read back out of the group they make. */
  lemma SplitTriple(a: byte, b: byte, c: byte, group: int)
    requires group == a * 0x1_0000 + b * 0x100 + c
    ensures group / 0x1_0000 == a && group / 0x100 % 256 == b && group % 256 == c
  {
    By256(group, a * 256 + b, c);
    By256(a * 256 + b, a, b);
  }

  /** The bytes of four sextets. */
  lemma TripleBytes(v: sextet, w: sextet, x: sextet, y: sextet)
    ensures Triple(v, w, x, y) == [v * 4 + w / 16, w % 16 * 16 + x / 4, x % 4 * 64 + y]
  {
    SplitTriple(v * 4 + w / 16, w % 16 * 16 + x / 4, x % 4 * 64 + y, v * 0x4_0000 + w * 0x1000 + x * 64 + y);
  }

  /** The whole sextets of an unfinished group. */
  function Begun(tail: seq<byte>): (out: seq<byte>)
    requires |tail| < 3
    ensures |out| == |tail|
  {
    if |tail| == 0 then []
    else if |tail| == 1 then [Char(tail[0] / 4)]
    else [Char(tail[0] / 4), Char(tail[0] % 4 * 16 + tail[1] / 16)]
  }

  /** How many bits of the group are pending in the accumulator, and which. */
  predicate Pending(tail: seq<byte>, val: int, valb: int)
    requires |tail| < 3
  {
    if |tail| == 0 then valb == -6
    else if |tail| == 1 then valb == -4 && val % 4 == tail[0] % 4
    else valb == -2 && val % 16 == tail[1] % 16
  }

  /** The characters written for one more byte: one, or two when its bits fill up. */
  function Emits(val: int, valb: int): seq<byte>
    requires valb == 2 || valb == 4 || valb == 6
  {
    [Char(ShiftRight(val, valb) % 64)] + (if valb == 6 then [Char(ShiftRight(val, 0) % 64)] else [])
  }

  lemma {:induction false} EncodeByte(tail: seq<byte>, c: byte, val: int, valb: int)
    requires |tail| < 3 && Pending(tail, val, valb)
    ensures valb == 2 * |tail| - 6
    ensures var v := Wrap(val * 256 + c);
      && (|tail| < 2 ==>
            Begun(tail) + Emits(v, valb + 8) == Begun(tail + [c]) && Pending(tail + [c], v, valb + 2))
      && (|tail| == 2 ==> Begun(tail) + Emits(v, 6) == Quad(tail[0], tail[1], c))
  {
    hide Char, Quad, Wrap;
    if |tail| == 0 {
      EncodeFirst(val, c);
    } else if |tail| == 1 {
      EncodeSecond(val, tail[0] % 4, c);
    } else {
      EncodeThird(val, tail[1] % 16, c);
      QuadSextets(tail[0], tail[1], c);
    }
  }

  lemma RfcGroup(done: seq<byte>, a: byte, b: byte, c: byte)
    requires |done| % 3 == 0
    ensures Rfc(done + [a, b, c]) == Rfc(done) + Quad(a, b, c)
  {
    assert Rfc([a, b, c]) == Quad(a, b, c) + Rfc([]);
    assert Rfc([]) == [];
    hide Rfc, Quad;
    RfcConcat(done, [a, b, c]);
  }

  lemma Regroup(done: seq<byte>, tail: seq<byte>, c: byte, begun: seq<byte>, more: seq<byte>)
    requires |done| % 3 == 0 && |tail| < 3
    ensures done + tail + [c] == done + (tail + [c])
    ensures Rfc(done) + begun + more == Rfc(done) + (begun + more)
    ensures |tail| == 2 ==>
      var group := [tail[0], tail[1], c];
      && done + tail + [c] == done + group + []
      && |done + group| % 3 == 0
      && Rfc(done + group) + [] == Rfc(done) + Quad(tail[0], tail[1], c)
  {
    hide Rfc, Quad;
    if |tail| == 2 {
      RfcGroup(done, tail[0], tail[1], c);
      assert tail + [c] == [tail[0], tail[1], c];
    }
  }

  lemma NothingPendingAtStart()
    ensures Begun([]) == [] && forall val :: Pending([], val, -6)
  {
  }

  lemma ConcatRegroups(a: seq<byte>, b: seq<byte>, c: seq<byte>, d: seq<byte>)
    ensures a + (b + c + d) == a + b + c + d
  {
  }

  // Closing an unfinished group: the pending bits with zero bits added, and the padding.

  lemma RfcOfOne(a: byte, val: int)
    requires val % 4 == a % 4
    ensures Rfc([a]) == Begun([a]) + [Char(ShiftRight(Wrap(val * 256), 4) % 64)] + Padding(2)
  {
    hide Char, Wrap;
    EncodeSecond(val, a % 4, 0);
    QuadSextets(a, 0, 0);
    assert Padding(2) == [PAD, PAD];
  }

  lemma EncodeEndOne(done: seq<byte>, a: byte, val: int)
    requires |done| % 3 == 0 && val % 4 == a % 4
    ensures Rfc(done + [a]) == Rfc(done) + Begun([a]) + [Char(ShiftRight(Wrap(val * 256), 4) % 64)] + Padding(2)
  {
    hide Char, Wrap, ShiftRight, Rfc, Padding, Begun;
    RfcOfOne(a, val);
    RfcConcat(done, [a]);
    ConcatRegroups(Rfc(done), Begun([a]), [Char(ShiftRight(Wrap(val * 256), 4) % 64)], Padding(2));
  }

  lemma RfcOfTwo(a: byte, b: byte, val: int)
    requires val % 16 == b % 16
    ensures Rfc([a, b]) == Begun([a, b]) + [Char(ShiftRight(Wrap(val * 256), 6) % 64)] + Padding(1)
  {
    hide Char, Wrap;
    EncodeThird(val, b % 16, 0);
    QuadSextets(a, b, 0);
    assert Padding(1) == [PAD];
  }

  lemma EncodeEndTwo(done: seq<byte>, a: byte, b: byte, val: int)
    requires |done| % 3 == 0 && val % 16 == b % 16
    ensures Rfc(done + [a, b]) == Rfc(done) + Begun([a, b]) + [Char(ShiftRight(Wrap(val * 256), 6) % 64)] + Padding(1)
  {
    hide Char, Wrap, ShiftRight, Rfc, Padding, Begun;
    RfcOfTwo(a, b, val);
    RfcConcat(done, [a, b]);
    ConcatRegroups(Rfc(done), Begun([a, b]), [Char(ShiftRight(Wrap(val * 256), 6) % 64)], Padding(1));
  }

  /** The encoder's inner loop: the whole sextets pending, the oldest first. */
  method EmitSextets(before: seq<byte>, val: int, start: int) returns (out: seq<byte>, valb: int)
    requires start == 2 || start == 4 || start == 6
    ensures out == before + Emits(val, start)
    ensures valb == if start == 6 then -6 else start - 6
  {
    TableIsAlphabet();
    out, valb := before, start;
    while valb >= 0
      invariant
        || (valb == start && out == before)
        || (valb == start - 6 && out == before + [Char(ShiftRight(val, start) % 64)])
        || (valb == start - 12 && start == 6 && out == before + Emits(val, start))
    {
      out := out + [TABLE[ShiftRight(val, valb) % 64] as int];
      valb := valb - 6;
    }
  }

  lemma PadCount(quads: nat, k: nat)
    requires k < 4
    ensures (4 - (4 * quads + k) % 4) % 4 == if k == 0 then 0 else 4 - k
  {
  }

  /** The encoder's last loop. */
  method Pad(before: seq<byte>) returns (out: seq<byte>)
    ensures out == before + Padding((4 - |before| % 4) % 4)
  {
    out := before;
    ghost var n := 0;
    while |out| % 4 != 0
      invariant n <= (4 - |before| % 4) % 4 && out == before + Padding(n)
      decreases (4 - |before| % 4) % 4 - n
    {
      out, n := out + [PAD], n + 1;
    }
  }

  /** The encoder after the bytes `s`. */
  predicate Encoding(s: seq<byte>, done: seq<byte>, tail: seq<byte>, val: int, valb: int, out: seq<byte>) {
    && |done| % 3 == 0 && |tail| < 3 && s == done + tail
    && Pending(tail, val, valb) && out == Rfc(done) + Begun(tail)
  }

  /** One turn of the encoder. */
  lemma EncodeTurn(s: seq<byte>, done: seq<byte>, tail: seq<byte>, c: byte, val: int, valb: int, out: seq<byte>)
    returns (done': seq<byte>, tail': seq<byte>)
    requires Encoding(s, done, tail, val, valb, out)
    ensures valb == -6 || valb == -4 || valb == -2
    ensures var v := Wrap(val * 256 + c);
      Encoding(s + [c], done', tail', v, if valb == -2 then -6 else valb + 2, out + Emits(v, valb + 8))
  {
    hide Char, Quad, Wrap, Rfc, Begun, Emits, Pending;
    EncodeByte(tail, c, val, valb);
    Regroup(done, tail, c, Begun(tail), Emits(Wrap(val * 256 + c), valb + 8));
    if |tail| < 2 {
      done', tail' := done, tail + [c];
    } else {
      done', tail' := done + [tail[0], tail[1], c], [];
      NothingPendingAtStart();
    }
  }

  /** The encoder's loop over the input. */
  method EncodeBytes(input: seq<byte>)
    returns (out: seq<byte>, val: int, valb: int, ghost done: seq<byte>, ghost tail: seq<byte>)
    ensures Encoding(input, done, tail, val, valb, out)
  {
    out, val, valb, done, tail := [], 0, -6, [], [];
    assert Encoding(input[..0], done, tail, val, valb, out);
    hide Wrap, Emits, Encoding;
    for i := 0 to |input|
      invariant Encoding(input[..i], done, tail, val, valb, out)
    {
      assert input[..i + 1] == input[..i] + [input[i]];
      done, tail := EncodeTurn(input[..i], done, tail, input[i], val, valb, out);
      val := Wrap(val * 256 + input[i]);
      valb := valb + 8;
      out, valb := EmitSextets(out, val, valb);
    }
    assert input[..|input|] == input;
  }

  /** The encoder's last character: the pending bits with zero bits added. */
  method Close(before: seq<byte>, val: int, valb: int, ghost done: seq<byte>, ghost tail: seq<byte>)
    returns (out: seq<byte>)
    requires |done| % 3 == 0 && |tail| < 3 && Pending(tail, val, valb) && before == Rfc(done) + Begun(tail)
    ensures |out| == |Rfc(done)| + (if tail == [] then 0 else |tail| + 1)
    ensures Rfc(done + tail) == out + Padding(if tail == [] then 0 else 3 - |tail|)
  {
    hide Char, Quad, Wrap, Rfc, Begun, ShiftRight;
    out := before;
    if valb > -6 {
      TableIsAlphabet();
      if |tail| == 1 {
        assert tail == [tail[0]];
        EncodeEndOne(done, tail[0], val);
      } else {
        assert tail == [tail[0], tail[1]];
        EncodeEndTwo(done, tail[0], tail[1], val);
      }
      hide Pending, Padding;
      out := out + [TABLE[ShiftRight(Wrap(val * 256), valb + 8) % 64] as int];
    } else {
      assert done + tail == done;
      assert out + Padding(0) == Rfc(done);
    }
  }

  /** `base64_encode` computes the definition, for every byte string. */
  method Encode(input: seq<byte>) returns (out: seq<byte>)
    ensures out == Rfc(input)
  {
    hide Char, Quad, Wrap, Rfc, Begun, ShiftRight, Padding, Pending;
    var val, valb;
    ghost var done, tail;
    out, val, valb, done, tail := EncodeBytes(input);
    out := Close(out, val, valb, done, tail);
    RfcLength(done);
    PadCount((|done| + 2) / 3, if tail == [] then 0 else |tail| + 1);
    out := Pad(out);
  }

  // The decoder's state after the sextets `done + tail`, where `done` are whole groups of four.

  /** How many bits of the group are pending in the accumulator, and which. */
  predicate Held(tail: seq<sextet>, val: int, valb: int)
    requires |tail| < 4
  {
    if |tail| == 0 then valb == -8
    else if |tail| == 1 then valb == -2 && val % 64 == tail[0]
    else if |tail| == 2 then valb == -4 && val % 16 == tail[1] % 16
    else valb == -6 && val % 4 == tail[2] % 4
  }

  lemma DecodeCharFirst(c: sextet, val: int, valb: int)
    requires Held([], val, valb)
    ensures valb == -8 && Held([c], Wrap(val * 64 + c), -2) && MeaningTail([c]) == MeaningTail([]) == []
  {
    hide Wrap;
    DecodeFirst(val, c);
  }

  lemma DecodeCharSecond(a: sextet, c: sextet, val: int, valb: int)
    requires Held([a], val, valb)
    ensures var v := Wrap(val * 64 + c);
      valb == -2 && Held([a, c], v, -4) && MeaningTail([a, c]) == MeaningTail([a]) + [ShiftRight(v, 4) % 256]
  {
    hide Wrap;
    DecodeSecond(val, a, c);
    TripleBytes(a, c, 0, 0);
  }

  lemma DecodeCharThird(a: sextet, b: sextet, c: sextet, val: int, valb: int)
    requires Held([a, b], val, valb)
    ensures var v := Wrap(val * 64 + c);
      valb == -4 && Held([a, b, c], v, -6) && MeaningTail([a, b, c]) == MeaningTail([a, b]) + [ShiftRight(v, 2) % 256]
  {
    hide Wrap;
    DecodeThird(val, b % 16, c);
    TripleBytes(a, b, c, 0);
    TripleBytes(a, b, 0, 0);
  }

  lemma DecodeCharFourth(a: sextet, b: sextet, c: sextet, d: sextet, val: int, valb: int)
    requires Held([a, b, c], val, valb)
    ensures valb == -6
    ensures Triple(a, b, c, d) == MeaningTail([a, b, c]) + [ShiftRight(Wrap(val * 64 + d), 0) % 256]
  {
    hide Wrap;
    DecodeFourth(val, c % 4, d);
    TripleBytes(a, b, c, d);
    TripleBytes(a, b, c, 0);
  }

  lemma MeaningOne(a: sextet, b: sextet, c: sextet, d: sextet)
    ensures Meaning([a, b, c, d]) == Triple(a, b, c, d)
  {
    hide Triple;
    assert [a, b, c, d][4..] == [];
    assert Triple(a, b, c, d) + [] == Triple(a, b, c, d);
  }

  lemma MeaningGroup(done: seq<sextet>, a: sextet, b: sextet, c: sextet, d: sextet)
    requires |done| % 4 == 0
    ensures Meaning(done + [a, b, c, d]) + MeaningTail([]) == Meaning(done) + Triple(a, b, c, d)
  {
    assert MeaningTail([]) == [];
    hide Meaning, MeaningTail, Triple;
    MeaningConcat(done, [a, b, c, d]);
    MeaningOne(a, b, c, d);
  }

  /** What the decoder has written after `done + tail`. */
  function Out(done: seq<sextet>, tail: seq<sextet>): seq<byte>
    requires |tail| < 4
  {
    Meaning(done) + MeaningTail(tail)
  }

  lemma OutIsMeaning(done: seq<sextet>, tail: seq<sextet>)
    requires |done| % 4 == 0 && |tail| < 4
    ensures Out(done, tail) == Meaning(done + tail)
  {
    MeaningConcat(done, tail);
    assert Meaning(tail) == MeaningTail(tail);
  }

  /** The decoder after the sextets `vs`. */
  predicate Decoding(vs: seq<sextet>, done: seq<sextet>, tail: seq<sextet>, val: int, valb: int, out: seq<byte>) {
    && |done| % 4 == 0 && |tail| < 4 && vs == done + tail
    && Held(tail, val, valb) && out == Out(done, tail)
  }

  lemma FirstTurn(done: seq<sextet>, c: sextet, val: int, valb: int)
    requires Held([], val, valb)
    ensures valb == -8 && Held([c], Wrap(val * 64 + c), -2)
    ensures Out(done, [c]) == Out(done, [])
  {
    hide Wrap, Meaning;
    DecodeCharFirst(c, val, valb);
  }

  lemma SecondTurn(done: seq<sextet>, tail: seq<sextet>, c: sextet, val: int, valb: int)
    requires |tail| == 1 && Held(tail, val, valb)
    ensures valb == -2 && Held([tail[0], c], Wrap(val * 64 + c), -4)
    ensures Out(done, [tail[0], c]) == Out(done, tail) + [ShiftRight(Wrap(val * 64 + c), valb + 6) % 256]
  {
    assert tail == [tail[0]];
    hide Wrap, Meaning, MeaningTail, ShiftRight, Held;
    DecodeCharSecond(tail[0], c, val, valb);
    assert valb + 6 == 4;
  }

  lemma ThirdTurn(done: seq<sextet>, tail: seq<sextet>, c: sextet, val: int, valb: int)
    requires |tail| == 2 && Held(tail, val, valb)
    ensures valb == -4 && Held([tail[0], tail[1], c], Wrap(val * 64 + c), -6)
    ensures Out(done, [tail[0], tail[1], c]) == Out(done, tail) + [ShiftRight(Wrap(val * 64 + c), valb + 6) % 256]
  {
    assert tail == [tail[0], tail[1]];
    hide Wrap, Meaning, MeaningTail, ShiftRight, Held;
    DecodeCharThird(tail[0], tail[1], c, val, valb);
    assert valb + 6 == 2;
  }

  lemma FourthTurn(done: seq<sextet>, tail: seq<sextet>, c: sextet, val: int, valb: int)
    requires |done| % 4 == 0 && |tail| == 3 && Held(tail, val, valb)
    ensures var group := [tail[0], tail[1], tail[2], c];
      && valb == -6 && Held([], Wrap(val * 64 + c), -8)
      && done + group + [] == done + tail + [c]
      && Out(done + group, []) == Out(done, tail) + [ShiftRight(Wrap(val * 64 + c), valb + 6) % 256]
  {
    assert tail == [tail[0], tail[1], tail[2]];
    assert Held([], Wrap(val * 64 + c), -8);
    hide Wrap, Meaning, MeaningTail, ShiftRight, Held, Triple;
    DecodeCharFourth(tail[0], tail[1], tail[2], c, val, valb);
    assert valb + 6 == 0;
    MeaningGroup(done, tail[0], tail[1], tail[2], c);
  }

  /** One turn of the decoder: a byte comes out when eight bits are pending. */
  lemma DecodeTurn(
    vs: seq<sextet>, done: seq<sextet>, tail: seq<sextet>, c: sextet, val: int, valb: int, out: seq<byte>)
    returns (done': seq<sextet>, tail': seq<sextet>)
    requires Decoding(vs, done, tail, val, valb, out)
    ensures valb == -8 || valb == -6 || valb == -4 || valb == -2
    ensures var v := Wrap(val * 64 + c);
      && (valb == -8 ==> Decoding(vs + [c], done', tail', v, -2, out))
      && (valb != -8 ==> Decoding(vs + [c], done', tail', v, valb - 2, out + [ShiftRight(v, valb + 6) % 256]))
  {
    hide Wrap, Meaning, MeaningTail, ShiftRight, Held, Out;
    if tail == [] {
      done', tail' := done, [c];
      FirstTurn(done, c, val, valb);
    } else if |tail| == 1 {
      done', tail' := done, [tail[0], c];
      SecondTurn(done, tail, c, val, valb);
    } else if |tail| == 2 {
      done', tail' := done, [tail[0], tail[1], c];
      ThirdTurn(done, tail, c, val, valb);
    } else {
      done', tail' := done + [tail[0], tail[1], tail[2], c], [];
      FourthTurn(done, tail, c, val, valb);
    }
  }

  /** The decoder's table `T`: -1 everywhere, and then each character's place in the alphabet. */
  method InvertTable() returns (values: array<int>)
    ensures fresh(values) && values.Length == 256 && forall c: byte :: values[c] == Value(c)
  {
    TableIsAlphabet();
    values := new int[256](_ => -1);
    for i := 0 to 64
      invariant forall c: byte :: values[c] == if 0 <= Value(c) < i then Value(c) else -1
    {
      ValueInvertsChar(i, 0);
      forall c: byte ensures Value(c) == i ==> c == Char(i) {
        ValueInvertsChar(i, c);
      }
      values[TABLE[i] as int] := i;
    }
    forall c: byte ensures values[c] == Value(c) {
      ValueInvertsChar(0, c);
    }
  }

  lemma SextetsUpTo(s: seq<byte>, vs: seq<sextet>)
    requires |vs| <= |s| && (forall i :: 0 <= i < |vs| ==> Value(s[i]) == vs[i])
    requires |vs| < |s| ==> Value(s[|vs|]) == -1
    ensures Sextets(s) == vs
  {
  }

  lemma DecodingMeans(vs: seq<sextet>, done: seq<sextet>, tail: seq<sextet>, val: int, valb: int, out: seq<byte>)
    requires Decoding(vs, done, tail, val, valb, out)
    ensures out == Meaning(vs)
  {
    hide Meaning, MeaningTail, Held;
    OutIsMeaning(done, tail);
  }

  /** `base64_decode` computes the meaning of the alphabet characters its input begins with. */
  method Decode(input: seq<byte>) returns (out: seq<byte>)
    ensures out == Decoded(input)
  {
    var values := InvertTable();
    out := [];
    var val, valb := 0, -8;
    ghost var vs: seq<sextet>, done: seq<sextet>, tail: seq<sextet> := [], [], [];
    assert Decoding(vs, done, tail, val, valb, out);
    hide Value, Wrap, ShiftRight, Decoding, Meaning, Sextets;
    var i := 0;
    while i < |input|
      invariant i <= |input| && i == |vs|
      invariant forall k :: 0 <= k < i ==> Value(input[k]) == vs[k]
      invariant Decoding(vs, done, tail, val, valb, out)
      invariant forall c: byte :: values[c] == Value(c)
    {
      if values[input[i]] == -1 {
        break;
      }
      ValueInvertsChar(0, input[i]);
      done, tail := DecodeTurn(vs, done, tail, Value(input[i]), val, valb, out);
      vs := vs + [Value(input[i])];
      val := Wrap(val * 64 + values[input[i]]);
      valb := valb + 6;
      if valb >= 0 {
        out := out + [ShiftRight(val, valb) % 256];
        valb := valb - 8;
      }
      i := i + 1;
    }
    SextetsUpTo(input, vs);
    DecodingMeans(vs, done, tail, val, valb, out);
  }

  lemma SextetsOfChar(v: sextet, rest: seq<byte>)
    ensures Sextets([Char(v)] + rest) == [v] + Sextets(rest)
  {
    ValueInvertsChar(v, 0);
    assert ([Char(v)] + rest)[1..] == rest;
    hide Value, Char;
  }

  lemma SextetsOfChars(v: sextet, w: sextet, x: sextet, y: sextet, rest: seq<byte>)
    ensures Sextets([Char(v), Char(w)] + rest) == [v, w] + Sextets(rest)
    ensures Sextets([Char(v), Char(w), Char(x)] + rest) == [v, w, x] + Sextets(rest)
    ensures Sextets([Char(v), Char(w), Char(x), Char(y)] + rest) == [v, w, x, y] + Sextets(rest)
  {
    hide Sextets, Char, Value;
    var r1, r2 := [Char(y)] + rest, [Char(x)] + rest;
    SextetsOfChar(y, rest);
    SextetsOfChar(x, rest);
    SextetsOfChar(w, rest);
    SextetsOfChar(x, r1);
    SextetsOfChar(w, r2);
    SextetsOfChar(w, [Char(x)] + r1);
    SextetsOfChar(v, [Char(w)] + rest);
    SextetsOfChar(v, [Char(w)] + r2);
    SextetsOfChar(v, [Char(w)] + ([Char(x)] + r1));
    assert [Char(v), Char(w)] + rest == [Char(v)] + ([Char(w)] + rest);
    assert [Char(v), Char(w), Char(x)] + rest == [Char(v)] + ([Char(w)] + r2);
    assert [Char(v), Char(w), Char(x), Char(y)] + rest == [Char(v)] + ([Char(w)] + ([Char(x)] + r1));
  }

  lemma SextetsOfPadding(n: nat)
    ensures Sextets(Padding(n)) == []
  {
    ValueInvertsChar(0, 0);
  }

  /** Three bytes survive being written as four sextets. */
  lemma TripleOfQuad(a: byte, b: byte, c: byte)
    ensures Triple(a / 4, a % 4 * 16 + b / 16, b % 16 * 4 + c / 64, c % 64) == [a, b, c]
  {
    SplitTriple(a, b, c, a / 4 * 0x4_0000 + (a % 4 * 16 + b / 16) * 0x1000 + (b % 16 * 4 + c / 64) * 64 + c % 64);
  }

  /** A number is put together again from its base 256 digits. */
  lemma BytesOf(group: nat)
    ensures group == group / 0x1_0000 * 0x1_0000 + group / 0x100 % 256 * 0x100 + group % 256
  {
    By256(group / 0x100, group / 0x1_0000, group / 0x100 % 256);
  }

  /** Four sextets survive being written as three bytes. */
  lemma QuadOfTriple(v: sextet, w: sextet, x: sextet, y: sextet)
    ensures var t := Triple(v, w, x, y);
      Quad(t[0], t[1], t[2]) == [Char(v), Char(w), Char(x), Char(y)]
  {
    var group: int := v * 0x4_0000 + w * 0x1000 + x * 64 + y;
    BytesOf(group);
    SplitGroup(v, w, x, y, group);
  }

  lemma EmptyText()
    ensures Decoded(Rfc([])) == []
  {
  }

  /** The text of one byte. */
  lemma OneByteText(a: byte)
    ensures Rfc([a]) == [Char(a / 4), Char(a % 4 * 16)] + Padding(2)
    ensures Sextets(Rfc([a])) == [a / 4, a % 4 * 16]
  {
    var v: sextet, w: sextet := a / 4, a % 4 * 16;
    assert Padding(2) == [PAD, PAD];
    QuadSextets(a, 0, 0);
    hide Char, Quad, Value, Sextets, Padding;
    assert Quad(a, 0, 0)[..2] == [Char(v), Char(w)];
    SextetsOfChars(v, w, 0, 0, Padding(2));
    SextetsOfPadding(2);
    assert [v, w] + [] == [v, w];
  }

  lemma RoundTripOne(a: byte)
    ensures Decoded(Rfc([a])) == [a]
  {
    hide Triple, Sextets, Rfc, Char;
    OneByteText(a);
    TripleOfQuad(a, 0, 0);
  }

  /** The text of two bytes. */
  lemma TwoByteText(a: byte, b: byte)
    ensures Rfc([a, b]) == [Char(a / 4), Char(a % 4 * 16 + b / 16), Char(b % 16 * 4)] + Padding(1)
    ensures Sextets(Rfc([a, b])) == [a / 4, a % 4 * 16 + b / 16, b % 16 * 4]
  {
    var v: sextet, w: sextet, x: sextet := a / 4, a % 4 * 16 + b / 16, b % 16 * 4;
    assert Padding(1) == [PAD];
    QuadSextets(a, b, 0);
    hide Char, Quad, Value, Sextets, Padding;
    assert Quad(a, b, 0)[..3] == [Char(v), Char(w), Char(x)];
    SextetsOfChars(v, w, x, 0, Padding(1));
    SextetsOfPadding(1);
    assert [v, w, x] + [] == [v, w, x];
  }

  lemma RoundTripTwo(a: byte, b: byte)
    ensures Decoded(Rfc([a, b])) == [a, b]
  {
    hide Triple, Sextets, Rfc, Char;
    TwoByteText(a, b);
    TripleOfQuad(a, b, 0);
  }

  /** The round trip: every byte string is decoded from its encoding. */
  lemma {:induction false} RoundTrip(s: seq<byte>)
    ensures Decoded(Rfc(s)) == s
  {
    hide Char, Triple, Quad, Value, Sextets, Padding;
    if |s| == 0 {
      EmptyText();
    } else if |s| == 1 {
      RoundTripOne(s[0]);
      assert s == [s[0]];
    } else if |s| == 2 {
      RoundTripTwo(s[0], s[1]);
      assert s == [s[0], s[1]];
    } else {
      var a, b, c := s[0], s[1], s[2];
      var v: sextet, w: sextet, x: sextet, y: sextet := a / 4, a % 4 * 16 + b / 16, b % 16 * 4 + c / 64, c % 64;
      RoundTrip(s[3..]);
      QuadSextets(a, b, c);
      SextetsOfChars(v, w, x, y, Rfc(s[3..]));
      MeaningConcat([v, w, x, y], Sextets(Rfc(s[3..])));
      MeaningOne(v, w, x, y);
      TripleOfQuad(a, b, c);
      assert s == [a, b, c] + s[3..];
    }
  }

  /** Everything from position `k` on is padding. */
  predicate Filled(t: seq<byte>, k: nat) {
    forall i :: k <= i < |t| ==> t[i] == PAD
  }

  /** The bits of the last sextet that no byte uses are zero. */
  predicate Clean(vs: seq<sextet>, pads: int) {
    && (pads == 1 ==> |vs| > 0 && vs[|vs| - 1] % 4 == 0)
    && (pads == 2 ==> |vs| > 0 && vs[|vs| - 1] % 16 == 0)
  }

  /** A text padded to groups of four, whose last character has only zero bits left over. */
  predicate Canonical(t: seq<byte>) {
    var vs := Sextets(t);
    && |t| % 4 == 0 && |t| - |vs| <= 2
    && Filled(t, |vs|)
    && Clean(vs, |t| - |vs|)
  }

  lemma FilledShift(head: seq<byte>, rest: seq<byte>, k: nat)
    ensures Filled(head + rest, |head| + k) <==> Filled(rest, k)
  {
    var t := head + rest;
    if Filled(t, |head| + k) {
      forall i | k <= i < |rest| ensures rest[i] == PAD {
        assert t[|head| + i] == rest[i];
      }
    }
    if Filled(rest, k) {
      forall i | |head| + k <= i < |t| ensures t[i] == PAD {
        assert t[i] == rest[i - |head|];
      }
    }
  }

  /** An empty tail with padding could only follow no sextet at all, so four more sextets change nothing. */
  lemma CleanShift(head: seq<sextet>, vs: seq<sextet>, length: nat)
    requires |vs| <= length && length % 4 == 0 && |head| == 4 && length - |vs| <= 2
    ensures Clean(head + vs, length - |vs|) <==> Clean(vs, length - |vs|)
  {
    if |vs| == 0 {
      assert length == 0;
    } else {
      assert (head + vs)[|head + vs| - 1] == vs[|vs| - 1];
    }
  }

  lemma CanonicalQuad(v: sextet, w: sextet, x: sextet, y: sextet, rest: seq<byte>)
    ensures Canonical([Char(v), Char(w), Char(x), Char(y)] + rest) <==> Canonical(rest)
  {
    SextetsOfChars(v, w, x, y, rest);
    var head := [Char(v), Char(w), Char(x), Char(y)];
    hide Sextets, Char, Filled, Clean;
    FilledShift(head, rest, |Sextets(rest)|);
    if |rest| % 4 == 0 && |rest| - |Sextets(rest)| <= 2 {
      CleanShift([v, w, x, y], Sextets(rest), |rest|);
    }
  }

  lemma FourChars(a: byte, b: byte, c: byte) returns (v: sextet, w: sextet, x: sextet, y: sextet)
    ensures Quad(a, b, c) == [Char(v), Char(w), Char(x), Char(y)]
  {
    var group: int := a * 0x1_0000 + b * 0x100 + c;
    v, w, x, y := group / 0x4_0000, group / 0x1000 % 64, group / 64 % 64, group % 64;
  }

  lemma PaddedByTwo(t: seq<byte>, v: sextet, w: sextet)
    requires t == [Char(v), Char(w)] + Padding(2) && Sextets(t) == [v, w] && w % 16 == 0
    ensures Canonical(t)
  {
    hide Sextets, Char;
  }

  lemma OneIsCanonical(a: byte)
    ensures Canonical(Rfc([a]))
  {
    hide Canonical, Sextets, Rfc, Char, Padding;
    OneByteText(a);
    By16(a % 4 * 16, a % 4, 0);
    PaddedByTwo(Rfc([a]), a / 4, a % 4 * 16);
  }

  lemma PaddedByOne(t: seq<byte>, v: sextet, w: sextet, x: sextet)
    requires t == [Char(v), Char(w), Char(x)] + Padding(1) && Sextets(t) == [v, w, x] && x % 4 == 0
    ensures Canonical(t)
  {
    hide Sextets, Char;
  }

  lemma TwoIsCanonical(a: byte, b: byte)
    ensures Canonical(Rfc([a, b]))
  {
    hide Canonical, Sextets, Rfc, Char, Padding;
    TwoByteText(a, b);
    By4(b % 16 * 4, b % 16, 0);
    PaddedByOne(Rfc([a, b]), a / 4, a % 4 * 16 + b / 16, b % 16 * 4);
  }

  lemma {:induction false} EncodingIsCanonical(s: seq<byte>)
    ensures Canonical(Rfc(s))
  {
    if |s| == 0 {
      assert Canonical(Rfc([]));
    } else if |s| == 1 {
      hide Rfc, Canonical;
      OneIsCanonical(s[0]);
      assert s == [s[0]];
    } else if |s| == 2 {
      hide Rfc, Canonical;
      TwoIsCanonical(s[0], s[1]);
      assert s == [s[0], s[1]];
    } else {
      assert Rfc(s) == Quad(s[0], s[1], s[2]) + Rfc(s[3..]);
      hide Char, Rfc, Canonical, Quad;
      EncodingIsCanonical(s[3..]);
      var v, w, x, y := FourChars(s[0], s[1], s[2]);
      CanonicalQuad(v, w, x, y, Rfc(s[3..]));
    }
  }

  lemma FirstFour(t: seq<byte>)
    requires 4 <= |Sextets(t)|
    ensures var vs := Sextets(t);
      t == [Char(vs[0]), Char(vs[1]), Char(vs[2]), Char(vs[3])] + t[4..]
  {
    hide Char, Value, Sextets;
    forall i | 0 <= i < 4 ensures t[i] == Char(Sextets(t)[i]) {
      ValueInvertsChar(0, t[i]);
    }
  }

  /** A canonical text with fewer than four characters before its padding is one group of four. */
  lemma ShortCanonical(t: seq<byte>)
    requires Canonical(t) && t != [] && |Sextets(t)| < 4
    ensures |t| == 4 && 2 <= |Sextets(t)| && Filled(t, |Sextets(t)|) && Clean(Sextets(t), 4 - |Sextets(t)|)
  {
    hide Sextets, Filled, Clean;
  }

  lemma OneByteBack(v: sextet, w: sextet)
    requires w % 16 == 0
    ensures Rfc(Meaning([v, w])) == [Char(v), Char(w), PAD, PAD]
  {
    hide Char, Quad, Triple;
    QuadOfTriple(v, w, 0, 0);
    TripleBytes(v, w, 0, 0);
  }

  lemma LastTwo(t: seq<byte>, v: sextet, w: sextet)
    requires |t| == 4 && Sextets(t) == [v, w] && w % 16 == 0 && t[2] == PAD && t[3] == PAD
    ensures Rfc(Decoded(t)) == t
  {
    hide Char, Value, Sextets, Rfc, Meaning;
    OneByteBack(v, w);
    ValueInvertsChar(0, t[0]);
    ValueInvertsChar(0, t[1]);
    assert t == [Char(v), Char(w), PAD, PAD];
  }

  lemma TwoBytesBack(v: sextet, w: sextet, x: sextet)
    requires x % 4 == 0
    ensures Rfc(Meaning([v, w, x])) == [Char(v), Char(w), Char(x), PAD]
  {
    hide Char, Quad, Triple;
    QuadOfTriple(v, w, x, 0);
    TripleBytes(v, w, x, 0);
  }

  lemma LastThree(t: seq<byte>, v: sextet, w: sextet, x: sextet)
    requires |t| == 4 && Sextets(t) == [v, w, x] && x % 4 == 0 && t[3] == PAD
    ensures Rfc(Decoded(t)) == t
  {
    hide Char, Value, Sextets, Rfc, Meaning;
    TwoBytesBack(v, w, x);
    ValueInvertsChar(0, t[0]);
    ValueInvertsChar(0, t[1]);
    ValueInvertsChar(0, t[2]);
    assert t == [Char(v), Char(w), Char(x), PAD];
  }

  lemma LastFour(t: seq<byte>)
    requires Canonical(t) && t != [] && |Sextets(t)| < 4
    ensures Rfc(Decoded(t)) == t
  {
    ShortCanonical(t);
    hide Canonical, Value, Sextets, Rfc, Decoded, Meaning;
    var vs := Sextets(t);
    if |vs| == 2 {
      assert vs == [vs[0], vs[1]];
      LastTwo(t, vs[0], vs[1]);
    } else {
      assert vs == [vs[0], vs[1], vs[2]];
      LastThree(t, vs[0], vs[1], vs[2]);
    }
  }

  lemma {:induction false} CanonicalIsEncoding(t: seq<byte>)
    requires Canonical(t)
    ensures Rfc(Decoded(t)) == t
    decreases |t|
  {
    var vs := Sextets(t);
    if t == [] {
      EmptyText();
    } else if 4 <= |vs| {
      FirstFour(t);
      var rest := t[4..];
      SextetsOfChars(vs[0], vs[1], vs[2], vs[3], rest);
      CanonicalQuad(vs[0], vs[1], vs[2], vs[3], rest);
      CanonicalIsEncoding(rest);
      hide Canonical, Char, Quad, Triple, Sextets;
      QuadOfTriple(vs[0], vs[1], vs[2], vs[3]);
      MeaningConcat([vs[0], vs[1], vs[2], vs[3]], Sextets(rest));
      MeaningOne(vs[0], vs[1], vs[2], vs[3]);
      var b := Triple(vs[0], vs[1], vs[2], vs[3]);
      assert b == [b[0], b[1], b[2]];
      assert (b + Decoded(rest))[3..] == Decoded(rest);
    } else {
      LastFour(t);
    }
  }

  /** Encoding what was decoded gives the text back exactly when the text is canonical. */
  lemma {:induction false} CanonicalIff(t: seq<byte>)
    ensures Rfc(Decoded(t)) == t <==> Canonical(t)
  {
    hide Rfc, Canonical, Meaning, Sextets;
    EncodingIsCanonical(Decoded(t));
    if Canonical(t) {
      CanonicalIsEncoding(t);
    }
  }

  /** The characters by their codes: the capitals from 65, the small letters from 97, the digits from
      48, and the plus sign and the slash. */
  lemma CharCodes(v: sextet)
    ensures v < 26 ==> Char(v) as int == 65 + v
    ensures 26 <= v < 52 ==> Char(v) as int == 71 + v
    ensures 52 <= v < 62 ==> Char(v) as int == v - 4
    ensures v == 62 ==> Char(v) == 43
    ensures v == 63 ==> Char(v) == 47
    ensures Char(v) != 61
  {
  }

  /** Wrapping keeps the low 32 bits, and leaves a value of 32 bits. */
  lemma WrapIs32Bits(x: int)
    ensures (Wrap(x) - x) % 4294967296 == 0 && -2147483648 <= Wrap(x) <= 2147483647
  {
    assert x == x / 0x1_0000_0000 * 0x1_0000_0000 + x % 0x1_0000_0000;
  }

  /** A byte of the input, or zero behind its end. */
  function ByteAt(s: seq<byte>, i: nat): byte {
    if i < |s| then s[i] else 0
  }

  /** The six bits at position `j`, read from the left. */
  function SextetAt(s: seq<byte>, j: nat): sextet {
    var g := j / 4 * 3;
    if j % 4 == 0 then ByteAt(s, g) / 4
    else if j % 4 == 1 then ByteAt(s, g) % 4 * 16 + ByteAt(s, g + 1) / 16
    else if j % 4 == 2 then ByteAt(s, g + 1) % 16 * 4 + ByteAt(s, g + 2) / 64
    else ByteAt(s, g + 2) % 64
  }

  lemma SextetShift(s: seq<byte>, j: nat)
    requires 3 <= |s| && 4 <= j
    ensures SextetAt(s, j) == SextetAt(s[3..], j - 4)
  {
    assert j / 4 * 3 == (j - 4) / 4 * 3 + 3 && j % 4 == (j - 4) % 4;
  }

  lemma QuadByPosition(s: seq<byte>, j: nat)
    requires j < 4
    ensures Quad(ByteAt(s, 0), ByteAt(s, 1), ByteAt(s, 2))[j] == Char(SextetAt(s, j))
  {
    QuadSextets(ByteAt(s, 0), ByteAt(s, 1), ByteAt(s, 2));
    hide Quad, Char, ByteAt;
  }

  /** The encoding position by position: as many characters as the bits begin sixes, each standing
      for the six bits at its position, with zero bits behind the end, and then 61, the code of `=`. */
  lemma {:induction false} EncodedByPosition(s: seq<byte>, j: nat)
    requires j < |Rfc(s)|
    ensures 6 * j < 8 * |s| ==> Rfc(s)[j] == Char(SextetAt(s, j))
    ensures 8 * |s| <= 6 * j ==> Rfc(s)[j] == 61
  {
    if 3 <= |s| {
      assert Rfc(s) == Quad(s[0], s[1], s[2]) + Rfc(s[3..]);
      hide Rfc, Char, Quad, SextetAt;
      if 4 <= j {
        SextetShift(s, j);
        EncodedByPosition(s[3..], j - 4);
      } else {
        QuadByPosition(s, j);
      }
    } else if s != [] {
      assert Rfc(s) == RfcTail(s);
      hide Rfc, Char, Quad, SextetAt;
      QuadByPosition(s, j);
    }
  }

  /** Which of the last three positions begin behind the end of the input. */
  lemma LastPositions(length: nat)
    ensures var n := (length + 2) / 3 * 4;
      && n % 4 == 0 && (length > 0 ==> n >= 4)
      && (length > 0 ==> (8 * length <= 6 * (n - 1) <==> length % 3 != 0))
      && (length > 0 ==> (8 * length <= 6 * (n - 2) <==> length % 3 == 1))
      && (length > 0 ==> 6 * (n - 3) < 8 * length)
  {
    var q, r := length / 3, length % 3;
    assert length == 3 * q + r;
    assert (length + 2) / 3 == if r == 0 then q else q + 1;
  }

  /** How many `=` (61) an encoding ends in: two behind a single byte over, one behind two, else none. */
  lemma PaddingByCode(s: seq<byte>)
    ensures var t := Rfc(s);
      && |t| % 4 == 0
      && (|s| % 3 == 1 ==> |t| >= 4 && t[|t| - 1] == 61 && t[|t| - 2] == 61 && t[|t| - 3] != 61)
      && (|s| % 3 == 2 ==> |t| >= 4 && t[|t| - 1] == 61 && t[|t| - 2] != 61)
      && (|s| % 3 == 0 && s != [] ==> |t| >= 4 && t[|t| - 1] != 61)
  {
    hide Rfc, Char, SextetAt;
    RfcLength(s);
    LastPositions(|s|);
    if s != [] {
      var n := |Rfc(s)|;
      EncodedByPosition(s, n - 1);
      EncodedByPosition(s, n - 2);
      EncodedByPosition(s, n - 3);
      CharCodes(SextetAt(s, n - 1));
      CharCodes(SextetAt(s, n - 2));
      CharCodes(SextetAt(s, n - 3));
    }
  }

  /** The characters read: the first ones of the alphabet, each standing for its sextet, up to one
      outside it. */
  lemma {:induction false} SextetsByPosition(t: seq<byte>, i: nat)
    requires i < |Sextets(t)|
    ensures t[i] == Char(Sextets(t)[i])
  {
    if i == 0 {
      ValueInvertsChar(0, t[0]);
    } else {
      hide Value, Char;
      SextetsByPosition(t[1..], i - 1);
    }
  }

  /** The byte that sextets make at position `j`. */
  function ByteOf(vs: seq<sextet>, j: nat): byte
    requires 8 * (j + 1) <= 6 * |vs|
  {
    var q := j / 3 * 4;
    if j % 3 == 0 then vs[q] as int * 4 + vs[q + 1] as int / 16
    else if j % 3 == 1 then vs[q + 1] as int % 16 * 16 + vs[q + 2] as int / 4
    else vs[q + 2] as int % 4 * 64 + vs[q + 3] as int
  }

  lemma ByteShift(vs: seq<sextet>, j: nat)
    requires 8 * (j + 1) <= 6 * |vs| && 3 <= j
    ensures 4 <= |vs| && ByteOf(vs, j) == ByteOf(vs[4..], j - 3)
  {
    assert j / 3 * 4 == (j - 3) / 3 * 4 + 4 && j % 3 == (j - 3) % 3;
  }

  lemma {:induction false} MeaningByPosition(vs: seq<sextet>, j: nat)
    requires 8 * (j + 1) <= 6 * |vs| && j < |Meaning(vs)|
    ensures Meaning(vs)[j] == ByteOf(vs, j)
  {
    if 4 <= |vs| {
      assert Meaning(vs) == Triple(vs[0], vs[1], vs[2], vs[3]) + Meaning(vs[4..]);
      TripleBytes(vs[0], vs[1], vs[2], vs[3]);
      hide Meaning, Triple;
      if 3 <= j {
        ByteShift(vs, j);
        hide ByteOf;
        MeaningByPosition(vs[4..], j - 3);
      }
    } else {
      TripleBytes(vs[0], vs[1], if |vs| == 3 then vs[2] else 0, 0);
      hide Triple;
    }
  }

  /** The decoding position by position: each byte is the eight bits at its position of the sextets
      read, and bits short of a byte give none. */
  lemma DecodedByPosition(t: seq<byte>, j: nat)
    requires j < |Decoded(t)|
    ensures 8 * (j + 1) <= 6 * |Sextets(t)| && Decoded(t)[j] == ByteOf(Sextets(t), j)
  {
    hide Meaning, Sextets, ByteOf;
    MeaningLength(Sextets(t));
    MeaningByPosition(Sextets(t), j);
  }

  lemma Letters()
    ensures Char(25) == 90 && Char(38) == 109 && Char(61) == 57 && Char(47) == 118 && Char(32) == 103
    ensures Char(60) == 56 && Char(24) == 89 && Char(5) == 70 && Char(50) == 121 && Char(4) == 69
  {
  }

  lemma Foo()
    ensures Quad(102, 111, 111) == [90, 109, 57, 118]
    ensures Quad(102, 0, 0)[..2] == [90, 103] && Quad(102, 111, 0)[..3] == [90, 109, 56]
  {
    hide Char, Quad;
    Letters();
    QuadSextets(102, 111, 111);
    QuadSextets(102, 0, 0);
    QuadSextets(102, 111, 0);
  }

  lemma Bar()
    ensures Quad(98, 97, 114) == [89, 109, 70, 121]
    ensures Quad(98, 0, 0)[..2] == [89, 103] && Quad(98, 97, 0)[..3] == [89, 109, 69]
  {
    hide Char, Quad;
    Letters();
    QuadSextets(98, 97, 114);
    QuadSextets(98, 0, 0);
    QuadSextets(98, 97, 0);
  }

  /** The vectors of section 10 of RFC 4648: the beginnings of "foobar". */
  lemma Vectors()
    ensures Rfc([]) == []
    ensures Rfc([102]) == [90, 103, 61, 61]
    ensures Rfc([102, 111]) == [90, 109, 56, 61]
    ensures Rfc([102, 111, 111]) == [90, 109, 57, 118]
    ensures Rfc([102, 111, 111, 98]) == [90, 109, 57, 118, 89, 103, 61, 61]
    ensures Rfc([102, 111, 111, 98, 97]) == [90, 109, 57, 118, 89, 109, 69, 61]
    ensures Rfc([102, 111, 111, 98, 97, 114]) == [90, 109, 57, 118, 89, 109, 70, 121]
  {
    hide Quad, Char;
    Foo();
    Bar();
    assert [102, 111, 111][3..] == [];
    assert [102, 111, 111, 98][3..] == [98];
    assert [102, 111, 111, 98, 97][3..] == [98, 97];
    assert [102, 111, 111, 98, 97, 114][3..] == [98, 97, 114];
    assert [98, 97, 114][3..] == [];
  }

  lemma ReadZm9v(rest: seq<byte>)
    requires rest == [] || Value(rest[0]) == -1
    ensures Sextets([90, 109, 57, 118] + rest) == [25, 38, 61, 47]
  {
    assert Char(25) == 90 && Char(38) == 109 && Char(61) == 57 && Char(47) == 118;
    assert Sextets(rest) == [];
    hide Sextets, Char, Value;
    SextetsOfChars(25, 38, 61, 47, rest);
  }

  lemma ReadQR()
    ensures Sextets([81, 82, 61, 61]) == [16, 17]
  {
    var t: seq<byte> := [81, 82, 61, 61];
    assert Sextets(t[2..]) == [];
    assert Sextets(t[1..]) == [17] by { assert t[1..][1..] == t[2..]; }
  }

  /** "Zm9v" is decoded to "foo"; what stands behind a character outside the alphabet, here a line
      end, is not read; and the bits of "QR==" behind its one byte are dropped. */
  lemma DecodedVectors()
    ensures Decoded([90, 109, 57, 118]) == [102, 111, 111]
    ensures Decoded([90, 109, 57, 118, 10, 90]) == [102, 111, 111]
    ensures Decoded([81, 82, 61, 61]) == [65]
  {
    ReadZm9v([]);
    ReadZm9v([10, 90]);
    assert [90, 109, 57, 118] + [] == [90, 109, 57, 118];
    assert [90, 109, 57, 118] + [10, 90] == [90, 109, 57, 118, 10, 90];
    ReadQR();
    hide Sextets;
    assert [25, 38, 61, 47][4..] == [];
  }
}

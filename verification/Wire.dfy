/** The wire format of YFTP and the buffer nodes that carry it.

    A frame is a four byte header, a big-endian 16-bit id followed by a big-endian 16-bit
    body length, and then the body. Both header fields are signed in the program (`short`). */
module Wire {

  type byte = x: int | 0 <= x < 256

  const HEAD_TOTAL_LEN := 4
  const HEAD_ID_LEN := 2

  // The largest body a frame can carry: the node's total length is itself a `short`.
  const MAX_BODY := 32767 - HEAD_TOTAL_LEN

  datatype Msg = Msg(id: int, body: seq<byte>)

  predicate IsShort(x: int) {
    -0x8000 <= x < 0x8000
  }

  /** The narrowing of an integer to a 16-bit two's complement `short`. */
  function ToShort(x: int): int {
    var u := x % 0x1_0000;
    if u < 0x8000 then u else u - 0x1_0000
  }

  /** The value of two bytes read in network order into a `short`. */
  function FromNetwork(hi: byte, lo: byte): (x: int)
    ensures IsShort(x)
  {
    if hi < 0x80 then hi * 256 + lo else hi * 256 + lo - 0x1_0000
  }

  /** The two bytes, in network order, of a `short`. */
  function ToNetwork(x: int): seq<byte> {
    [x % 0x1_0000 / 256, x % 256]
  }

  lemma FromNetworkToNetwork(x: int)
    requires IsShort(x)
    ensures FromNetwork(ToNetwork(x)[0], ToNetwork(x)[1]) == x
  {
    var u := x % 0x1_0000;
    assert u % 256 == x % 256;
    var hi, lo := ToNetwork(x)[0], ToNetwork(x)[1];
    assert hi as int * 256 + lo as int == u;
  }

  lemma ToNetworkFromNetwork(hi: byte, lo: byte)
    ensures ToNetwork(FromNetwork(hi, lo)) == [hi, lo]
    ensures IsShort(FromNetwork(hi, lo))
  {
    var u := hi * 256 + lo;
    var x := FromNetwork(hi, lo);
    assert x == u || x == u - 0x1_0000;
    assert x % 0x1_0000 == u;
    assert x % 256 == lo;
    assert u / 256 == hi;
  }

  /** The two bytes of a value are its bits, the high ones first. */
  lemma ToNetworkBytes(x: int)
    ensures (ToNetwork(x)[0] as int * 256 + ToNetwork(x)[1] as int - x) % 0x1_0000 == 0
    ensures 0 <= x < 0x1_0000 ==> ToNetwork(x)[0] as int * 256 + ToNetwork(x)[1] as int == x
  {
    var u := x % 0x1_0000;
    assert x == x / 0x1_0000 * 0x1_0000 + u;
    assert u % 256 == x % 256;
  }

  /** Two bytes read as a value are its bits, the high ones first, and the first of them its sign. */
  lemma FromNetworkBytes(hi: byte, lo: byte)
    ensures (FromNetwork(hi, lo) - (hi as int * 256 + lo as int)) % 0x1_0000 == 0
    ensures -32768 <= FromNetwork(hi, lo) <= 32767
  {
  }

  /** Narrowing keeps the low 16 bits, whatever the rest is. */
  lemma NarrowingWraps(x: int)
    ensures (ToShort(x) - x) % 0x1_0000 == 0 && -32768 <= ToShort(x) <= 32767
  {
    assert x == x / 0x1_0000 * 0x1_0000 + x % 0x1_0000;
  }

  function HeaderId(s: seq<byte>): int
    requires HEAD_TOTAL_LEN <= |s|
  {
    FromNetwork(s[0], s[1])
  }

  function HeaderLen(s: seq<byte>): int
    requires HEAD_TOTAL_LEN <= |s|
  {
    FromNetwork(s[2], s[3])
  }

  function Header(id: int, len: int): (h: seq<byte>)
    ensures |h| == HEAD_TOTAL_LEN
  {
    ToNetwork(id) + ToNetwork(len)
  }

  /** The bytes of a frame. */
  function Encode(m: Msg): (s: seq<byte>)
    ensures |s| == HEAD_TOTAL_LEN + |m.body|
  {
    Header(m.id, |m.body|) + m.body
  }

  /** The first four bytes of a frame are its id and its length, and the body follows them. */
  lemma FrameBytes(m: Msg)
    requires |m.body| <= 32763
    ensures var s := Encode(m);
      && |s| == 4 + |m.body| && s[4..] == m.body
      && (s[0] as int * 256 + s[1] as int - m.id) % 0x1_0000 == 0
      && s[2] as int * 256 + s[3] as int == |m.body|
  {
    ToNetworkBytes(m.id);
    ToNetworkBytes(|m.body|);
  }

  function Frames(ms: seq<Msg>): seq<byte> {
    if ms == [] then [] else Encode(ms[0]) + Frames(ms[1..])
  }

  lemma {:induction false} FramesConcat(a: seq<Msg>, b: seq<Msg>)
    ensures Frames(a + b) == Frames(a) + Frames(b)
  {
    if a == [] {
      assert a + b == b;
    } else {
      assert (a + b)[1..] == a[1..] + b;
      FramesConcat(a[1..], b);
    }
  }

  lemma FramesOne(m: Msg)
    ensures Frames([m]) == Encode(m)
  {
    assert [m][1..] == [];
    assert Frames([m]) == Encode(m) + [];
  }

  /** A header decodes to the two fields it was made from. */
  lemma HeaderFields(id: int, len: int, tail: seq<byte>)
    requires IsShort(id) && IsShort(len)
    ensures HeaderId(Header(id, len) + tail) == id
    ensures HeaderLen(Header(id, len) + tail) == len
  {
    FromNetworkToNetwork(id);
    FromNetworkToNetwork(len);
  }

  /** Every four bytes are the header of the two fields they decode to. */
  lemma HeaderOfFields(h: seq<byte>)
    requires |h| == HEAD_TOTAL_LEN
    ensures Header(HeaderId(h), HeaderLen(h)) == h
    ensures IsShort(HeaderId(h)) && IsShort(HeaderLen(h))
  {
    ToNetworkFromNetwork(h[0], h[1]);
    ToNetworkFromNetwork(h[2], h[3]);
  }

  /** `memcpy(dst + at, src + from, n)` between two buffers, inside the bounds of both. */
  method Memcpy(dst: array<byte>, at: nat, src: array<byte>, from: nat, n: nat)
    requires dst != src
    requires at + n <= dst.Length && from + n <= src.Length
    modifies dst
    ensures dst[..at] == old(dst[..at])
    ensures dst[at..at + n] == src[from..from + n]
    ensures dst[at + n..] == old(dst[at + n..])
  {
    forall i | 0 <= i < n {
      dst[at + i] := src[from + i];
    }
  }

  /** `memset(buffer, 0, n)`. */
  method Zero(buffer: array<byte>, n: nat)
    requires n <= buffer.Length
    modifies buffer
    ensures forall i :: 0 <= i < n ==> buffer[i] == 0
    ensures buffer[n..] == old(buffer[n..])
  {
    forall i | 0 <= i < n {
      buffer[i] := 0;
    }
  }

  /** What `SendNode(msg, length, id)` puts on the wire for a message whose length has been
      narrowed to `len`. There is none when the node's total length does not fit a `short` or
      the narrowed length is negative: the allocation throws, or nothing about it is defined. */
  predicate Framable(len: int) {
    0 <= len <= MAX_BODY
  }

  /** A length can be framed exactly if neither it nor the node's total is negative as a `short`. */
  lemma FramableTotals(len: int)
    requires IsShort(len)
    ensures Framable(len) <==> 0 <= len && 0 <= ToShort(len + 4)
  {
  }

  /** The message a call `send(msg, id)` commits to the wire. */
  function Narrowed(msg: seq<byte>, id: int): Msg
    requires Framable(ToShort(|msg|))
  {
    Msg(id, msg[..ToShort(|msg|)])
  }

  /** Narrowing the length to a `short` keeps the message whole exactly when it is short enough. */
  lemma NarrowedIsWhole(msg: seq<byte>, id: int)
    ensures |msg| <= 32763 <==> Framable(ToShort(|msg|)) && Narrowed(msg, id) == Msg(id, msg)
  {
    if |msg| <= MAX_BODY {
      assert msg[..|msg|] == msg;
    }
  }

  /** A heap buffer of `totalLen` bytes and a terminating zero, filled up to `curLen`. */
  class MsgNode {
    const totalLen: int
    const msgId: int
    const data: array<byte>
    var curLen: int

    ghost predicate Valid()
      reads this
    {
      0 <= curLen <= totalLen && data.Length == totalLen + 1
    }

    /** The bytes received into the node so far. */
    ghost function Bytes(): seq<byte>
      requires Valid()
      reads this, data
    {
      data[..curLen]
    }

    /** The message the dispatcher reads out of the node. */
    ghost function Message(): Msg
      requires Valid()
      reads this, data
    {
      Msg(msgId, Bytes())
    }

    /** The whole buffer, without its terminator: what a write sends. */
    ghost function Payload(): seq<byte>
      requires Valid()
      reads this, data
    {
      data[..totalLen]
    }

    /** `MsgNode` and `RecvNode`: an empty buffer for `maxLen` bytes. */
    constructor (maxLen: int, id: int)
      requires 0 <= maxLen && IsShort(maxLen)
      ensures Valid() && fresh(data) && curLen == 0
      ensures totalLen == maxLen && msgId == id
      ensures forall i :: 0 <= i <= maxLen ==> data[i] == 0
    {
      totalLen, msgId, curLen := maxLen, id, 0;
      data := new byte[maxLen + 1](_ => 0);
    }

    /** A header and a body make a frame. */
    lemma HoldsFrame(id: int, body: seq<byte>)
      requires Valid() && totalLen == HEAD_TOTAL_LEN + |body|
      requires [data[0], data[1]] == ToNetwork(id) && [data[2], data[3]] == ToNetwork(|body|)
      requires data[4..4 + |body|] == body
      ensures Payload() == Encode(Msg(id, body))
    {
      hide ToNetwork;
      assert data[..totalLen] == [data[0], data[1]] + [data[2], data[3]] + data[4..4 + |body|];
    }

    /** A node that holds a frame holds its id, its length and its body, byte by byte. */
    lemma ByBytes(id: int, body: seq<byte>)
      requires Valid() && |body| <= 32763 && totalLen == HEAD_TOTAL_LEN + |body|
      requires Payload() == Encode(Msg(id, body))
      ensures (data[0] as int * 256 + data[1] as int - id) % 0x1_0000 == 0
      ensures data[2] as int * 256 + data[3] as int == |body| && data[4..4 + |body|] == body
    {
      hide Encode;
      FrameBytes(Msg(id, body));
      assert forall i :: 0 <= i < totalLen ==> data[i] == Payload()[i];
      assert data[4..4 + |body|] == Payload()[4..];
    }

    /** `SendNode`: the frame of the first `maxLen` bytes of `msg`. */
    constructor Send(msg: array<byte>, maxLen: int, id: int)
      requires Framable(maxLen) && maxLen <= msg.Length
      ensures Valid() && fresh(data)
      ensures totalLen == HEAD_TOTAL_LEN + maxLen && msgId == id
      ensures Payload() == Encode(Msg(id, msg[..maxLen])) && data[totalLen] == 0
      ensures (data[0] as int * 256 + data[1] as int - id) % 0x1_0000 == 0
      ensures data[2] as int * 256 + data[3] as int == maxLen && data[4..4 + maxLen] == msg[..maxLen]
    {
      totalLen, msgId, curLen := maxLen + HEAD_TOTAL_LEN, id, 0;
      data := new byte[maxLen + HEAD_TOTAL_LEN + 1](_ => 0);
      new;
      hide ToNetwork, Encode;
      var idBytes := ToNetwork(id);
      data[0], data[1] := idBytes[0], idBytes[1];
      var lenBytes := ToNetwork(maxLen);
      data[HEAD_ID_LEN], data[HEAD_ID_LEN + 1] := lenBytes[0], lenBytes[1];
      Memcpy(data, HEAD_TOTAL_LEN, msg, 0, maxLen);
      assert data[0] == data[..HEAD_TOTAL_LEN][0] && data[1] == data[..HEAD_TOTAL_LEN][1];
      assert data[2] == data[..HEAD_TOTAL_LEN][2] && data[3] == data[..HEAD_TOTAL_LEN][3];
      assert data[totalLen] == data[HEAD_TOTAL_LEN + maxLen..][0];
      HoldsFrame(id, msg[..maxLen]);
      ByBytes(id, msg[..maxLen]);
    }

    /** `memcpy(data + cur_len, src + from, n)` and `cur_len += n`, inside both buffers. */
    method Fill(src: array<byte>, from: nat, n: nat)
      requires Valid() && src != data
      requires curLen + n <= totalLen && from + n <= src.Length
      modifies this, data
      ensures Valid() && curLen == old(curLen) + n
      ensures Bytes() == old(Bytes()) + src[from..from + n]
    {
      Memcpy(data, curLen, src, from, n);
      curLen := curLen + n;
      assert data[..curLen] == data[..curLen - n] + data[curLen - n..curLen];
    }

    /** `memcpy(data + cur_len, src + from, total_len - cur_len)`, which leaves `cur_len` alone. */
    method Top(src: array<byte>, from: nat)
      requires Valid() && src != data && from + (totalLen - curLen) <= src.Length
      modifies data
      ensures Valid()
      ensures Payload() == old(Bytes()) + src[from..from + (totalLen - curLen)]
    {
      Memcpy(data, curLen, src, from, totalLen - curLen);
      assert data[..totalLen] == data[..curLen] + data[curLen..totalLen];
    }

    /** `clear`: forget the contents. */
    method Clear()
      requires Valid()
      modifies this, data
      ensures Valid() && curLen == 0
      ensures forall i :: 0 <= i < totalLen ==> data[i] == 0
    {
      Zero(data, totalLen);
      curLen := 0;
    }
  }
}

/** The reading half of a session: one fixed read buffer, one header node, one body node and a
    flag, driven by the completion of one socket read at a time. The server's session and the
    client's run the same loop; the client leaves out the two limit checks. */
module Reader {
  import opened Wire
  import opened FrameParser

  lemma NoneYet(limit: int, whole: seq<byte>)
    ensures whole == Frames([]) + whole && AllWithin(limit, [])
  {
  }

  lemma OneMore(limit: int, got: seq<Msg>, m: Msg, tail: seq<byte>)
    requires AllWithin(limit, got) && Within(limit, m)
    ensures AllWithin(limit, got + [m])
    ensures Frames(got) + (Encode(m) + tail) == Frames(got + [m]) + tail
  {
    hide Frames, Encode, Within;
    FramesConcat(got, [m]);
    FramesOne(m);
  }

  lemma Finished(limit: int, whole: seq<byte>, p: Parsed, got: seq<Msg>, rest: seq<byte>, v: Verdict)
    requires p == Parse(limit, whole)
    requires whole == Frames(got) + rest && AllWithin(limit, got) && Stuck(limit, rest, v)
    ensures p == Parsed(got, rest, v)
  {
    ParseIsTheDecomposition(limit, whole, Parsed(got, rest, v));
  }

  class Reader {
    const limit: int
    const data: array<byte>      // data_
    const head: MsgNode          // recv_head_node_
    var recv: MsgNode?           // recv_msg_node_
    var headParse: bool          // b_head_parse_
    var reading: bool            // a read into `data` is outstanding
    var closed: bool             // b_close_
    var cleared: bool            // the server was told to drop the session
    var posts: seq<MsgNode>      // the nodes handed to the dispatcher, in order
    ghost var log: seq<Msg>      // what those nodes held when they were handed over
    ghost var given: set<MsgNode>           // those nodes
    ghost var buffers: set<array<byte>>     // and their buffers

    /** The node still being filled, if there is one, with its buffer. */
    ghost function Pending(): set<object>
      reads this
    {
      if headParse && recv != null then {recv, recv.data} else {}
    }

    /** Every node handed over still holds what it held then. */
    ghost predicate Sealed()
      reads this`posts, this`log, this`given, this`buffers, given, buffers
    {
      && |log| == |posts|
      && (forall i :: 0 <= i < |posts| ==> posts[i] in given && posts[i].data in buffers)
      && (forall i :: 0 <= i < |posts| ==> posts[i].Valid() && posts[i].Message() == log[i])
    }

    ghost predicate Shape()
      reads this, head
    {
      && data.Length == MAX_LENGTH && data != head.data
      && head.Valid() && head.totalLen == HEAD_TOTAL_LEN && head.curLen < HEAD_TOTAL_LEN
      && data !in buffers && head !in given && head.data !in buffers
    }

    /** The header that was gathered announces the body that `node` is for. */
    ghost predicate Announces(node: MsgNode)
      requires Shape()
      reads this, head, head.data
    {
      var h := head.data[..HEAD_TOTAL_LEN];
      !HeaderOver(limit, h) && node.msgId == HeaderId(h) && node.totalLen == HeaderLen(h)
    }

    ghost predicate Filling(node: MsgNode)
      requires Shape()
      reads this, head, head.data, node
    {
      && node.Valid() && node.curLen < node.totalLen
      && Apart(node) && Announces(node)
    }

    ghost predicate Apart(node: MsgNode)
      reads this
    {
      && node != head && node.data != data && node.data != head.data
      && node !in given && node.data !in buffers
    }

    ghost predicate Valid()
      reads this, head, head.data, Pending(), given, buffers
    {
      Shape() && Sealed() && (headParse ==> recv != null && Filling(recv))
    }

    /** The bytes taken off the stream that belong to no message handed over yet. */
    ghost function Residual(): (s: seq<byte>)
      requires Valid()
      reads this, head, head.data, Pending(), given, buffers
      ensures Stuck(limit, s, Running)
    {
      if headParse then head.data[..HEAD_TOTAL_LEN] + recv.Bytes() else head.Bytes()
    }

    constructor (limit: int)
      ensures Valid() && fresh(data) && fresh(head) && fresh(head.data)
      ensures this.limit == limit && !reading && !closed && !cleared
      ensures posts == [] && log == [] && !headParse && Residual() == []
    {
      this.limit := limit;
      data := new byte[MAX_LENGTH](_ => 0);
      head := new MsgNode(HEAD_TOTAL_LEN, 0);
      recv, headParse := null, false;
      reading, closed, cleared := false, false, false;
      posts, log, given, buffers := [], [], {}, {};
    }

    /** `memset` the buffer and call `async_read_some`: only when no read is outstanding. */
    method ArmRead()
      requires Valid() && !reading
      modifies this`reading, data
      ensures Valid() && reading && Residual() == old(Residual())
      ensures forall i :: 0 <= i < data.Length ==> data[i] == 0
    {
      Zero(data, MAX_LENGTH);
      reading := true;
    }

    /** The body node is full: terminate it, hand it over, and expect a header next. */
    method Complete(node: MsgNode)
      requires Shape() && Sealed() && Apart(node)
      requires node == recv && node.Valid() && node.curLen == node.totalLen
      modifies this`posts, this`log, this`given, this`buffers, this`headParse, head, head.data, node.data
      ensures Valid() && !headParse && Residual() == []
      ensures posts == old(posts) + [node] && log == old(log) + [old(node.Message())]
      ensures node.data[node.totalLen] == 0
    {
      node.data[node.totalLen] := 0;
      assert node.data[..node.curLen] == old(node.data[..node.curLen]);
      posts, log := posts + [node], log + [node.Message()];
      given, buffers := given + {node}, buffers + {node.data};
      headParse := false;
      head.Clear();
    }

    /** The node being filled is the one that was, or a new one. */
    twostate predicate SameOrNew()
      reads this
    {
      headParse ==> recv != null && ((old(headParse) && recv == old(recv)) || (fresh(recv) && fresh(recv.data)))
    }

    /** One arm of the loop came to the end of the bytes it was given, or stopped for good: `s` is
        what it had to go on, and `v` why no message came of it. */
    twostate predicate Stopped(s: seq<byte>, v: Verdict)
      reads this, head, head.data, Pending(), given, buffers
    {
      && Valid() && Stuck(limit, s, v) && SameOrNew()
      && posts == old(posts) && log == old(log) && closed == old(closed)
      && (reading <==> v.Running?)
      && (cleared <==> old(cleared) || v.Rejected?)
      && (v.Running? ==> Residual() == s)
    }

    /** One arm of the loop completed a message `m`, the front of `s`, and left `tail` unread. */
    twostate predicate Completed(s: seq<byte>, m: Msg, tail: seq<byte>)
      reads this, head, head.data, Pending(), given, buffers
    {
      && Valid() && !headParse && Residual() == []
      && Within(limit, m) && s == Encode(m) + tail
      && old(posts) <= posts && log == old(log) + [m]
      && !reading && closed == old(closed) && cleared == old(cleared)
    }

    /** What a successful read of `n` bytes leaves, when the bytes to go on parse to `p`. */
    twostate predicate Consumed(p: Parsed, n: nat)
      reads this, head, head.data, Pending(), given, buffers
    {
      && Valid() && SameOrNew()
      && log == old(log) + p.msgs && old(posts) <= posts
      && closed == old(closed)
      && (reading <==> 0 < n && p.verdict.Running?)
      && (cleared <==> old(cleared) || (0 < n && p.verdict.Rejected?))
      && (p.verdict.Running? ==> Residual() == p.rest)
    }

    /** The body node takes all there is, which does not complete it, and the next read is armed. */
    method AbsorbSome(node: MsgNode, copyLen: nat, bytes: nat, ghost s: seq<byte>)
      requires Shape() && Sealed() && Apart(node) && Announces(node) && !reading
      requires recv == node && node.Valid() && copyLen + bytes <= MAX_LENGTH
      requires bytes < node.totalLen - node.curLen
      requires s == head.data[..HEAD_TOTAL_LEN] + node.Bytes() + data[copyLen..copyLen + bytes]
      modifies this`reading, this`headParse, data, node, node.data
      ensures Valid() && Stuck(limit, s, Running) && reading && Residual() == s && headParse
    {
      hide FromNetwork, Sealed, Stuck;
      ghost var h, got, more := head.data[..HEAD_TOTAL_LEN], node.Bytes(), data[copyLen..copyLen + bytes];
      node.Fill(data, copyLen, bytes);
      headParse := true;
      assert h + got + more == h + (got + more);
      ArmRead();
    }

    /** The body node takes what it lacks, and is handed over. */
    method AbsorbRest(node: MsgNode, copyLen: nat, bytes: nat, ghost s: seq<byte>)
      returns (used: nat, ghost m: Msg)
      requires Shape() && Sealed() && Apart(node) && Announces(node) && !reading
      requires recv == node && node.Valid() && copyLen + bytes <= MAX_LENGTH
      requires node.totalLen - node.curLen <= bytes
      requires s == head.data[..HEAD_TOTAL_LEN] + node.Bytes() + data[copyLen..copyLen + bytes]
      modifies this`headParse, this`posts, this`log, this`given, this`buffers
      modifies head, head.data, node, node.data
      ensures used == node.totalLen - old(node.curLen)
      ensures Completed(s, m, data[copyLen + used..copyLen + bytes])
    {
      hide Encode, FromNetwork, Within, Sealed, Stuck;
      ghost var h := head.data[..HEAD_TOTAL_LEN];
      used := node.totalLen - node.curLen;
      ghost var tail := data[copyLen + used..copyLen + bytes];
      assert data[copyLen..copyLen + bytes] == data[copyLen..copyLen + used] + tail;
      node.Fill(data, copyLen, used);
      m := node.Message();
      assert s == h + m.body + tail;
      FrameOf(limit, h, m.body, tail);
      Complete(node);
    }

    /** The body node takes what the buffer holds of the body: all there is, and then the next
        read is armed; or all it lacks, and then it is handed over. */
    method Absorb(node: MsgNode, copyLen: nat, bytes: nat, ghost s: seq<byte>)
      returns (used: nat, more: bool, ghost m: Msg)
      requires Shape() && Sealed() && Apart(node) && Announces(node) && !reading
      requires recv == node && node.Valid() && copyLen + bytes <= MAX_LENGTH
      requires s == head.data[..HEAD_TOTAL_LEN] + node.Bytes() + data[copyLen..copyLen + bytes]
      modifies this`reading, this`headParse, this`posts, this`log, this`given, this`buffers
      modifies data, head, head.data, node, node.data
      ensures used <= bytes && (0 < bytes && old(node.curLen) < node.totalLen ==> 0 < used)
      ensures !more ==> Valid() && Stuck(limit, s, Running) && reading && Residual() == s && headParse
      ensures !more ==> posts == old(posts) && log == old(log)
      ensures more ==> data[..] == old(data[..])
      ensures more ==> Completed(s, m, data[copyLen + used..copyLen + bytes])
    {
      hide Encode, FromNetwork, Within, Sealed, Stuck, Valid, Residual, Announces, Completed;
      var remainMsg := node.totalLen - node.curLen;
      if bytes < remainMsg {
        AbsorbSome(node, copyLen, bytes, s);
        return bytes, false, Msg(0, []);
      }
      used, m := AbsorbRest(node, copyLen, bytes, s);
      more := true;
    }

    /** Make the body node and take up the body that the header announces. */
    method TakeUp(msgId: int, msgLen: int, copyLen: nat, bytes: nat, ghost s: seq<byte>)
      returns (used: nat, more: bool, ghost m: Msg)
      requires Valid() && !reading && !headParse && copyLen + bytes <= MAX_LENGTH
      requires s == head.data[..HEAD_TOTAL_LEN] + data[copyLen..copyLen + bytes]
      requires var h := head.data[..HEAD_TOTAL_LEN];
        0 <= msgLen && !HeaderOver(limit, h) && msgId == HeaderId(h) && msgLen == HeaderLen(h)
      modifies this, data, head, head.data
      ensures used <= bytes
      ensures !more ==> Stopped(s, Running)
      ensures more ==> data[..] == old(data[..])
      ensures more ==> Completed(s, m, data[copyLen + used..copyLen + bytes])
    {
      hide Encode, FromNetwork, Within, Sealed, Stuck, Filling;
      var node := new MsgNode(msgLen, msgId);
      recv := node;
      assert head.data[..HEAD_TOTAL_LEN] + node.Bytes() == head.data[..HEAD_TOTAL_LEN];
      used, more, m := Absorb(node, copyLen, bytes, s);
    }

    /** A header has been gathered: check it, and take up its body. */
    method Inspect(copyLen: nat, bytes: nat, ghost s: seq<byte>)
      returns (used: nat, more: bool, ghost v: Verdict, ghost m: Msg)
      requires Valid() && !reading && !headParse
      requires copyLen + bytes <= MAX_LENGTH
      requires s == head.data[..HEAD_TOTAL_LEN] + data[copyLen..copyLen + bytes]
      modifies this, data, head, head.data
      ensures used <= bytes
      ensures !more ==> Stopped(s, v)
      ensures more ==> data[..] == old(data[..])
      ensures more ==> Completed(s, m, data[copyLen + used..copyLen + bytes])
    {
      hide FromNetwork, Sealed, Filling, Completed, Residual;
      used, more, v, m := 0, false, Rejected, Msg(0, []);
      assert s[..HEAD_TOTAL_LEN] == head.data[..HEAD_TOTAL_LEN];
      var msgId := FromNetwork(head.data[0], head.data[1]);
      if msgId > limit {
        cleared := true;
        return;
      }
      var msgLen := FromNetwork(head.data[2], head.data[3]);
      if msgLen > limit {
        cleared := true;
        return;
      }
      // A negative length makes the allocation of the node throw.
      if msgLen < 0 {
        v := Faulted;
        return;
      }
      v := Running;
      used, more, m := TakeUp(msgId, msgLen, copyLen, bytes, s);
    }

    /** The header node takes all there is, which does not complete it, and the next read is armed. */
    method GatherSome(copyLen: nat, bytes: nat, ghost s: seq<byte>)
      requires Valid() && !reading && !headParse
      requires bytes + head.curLen < HEAD_TOTAL_LEN && copyLen + bytes <= MAX_LENGTH
      requires s == Residual() + data[copyLen..copyLen + bytes]
      modifies this`reading, data, head, head.data
      ensures Stopped(s, Running)
    {
      hide FromNetwork, Sealed, Filling, HeaderOver;
      head.Fill(data, copyLen, bytes);
      assert Residual() == s;
      ArmRead();
    }

    /** The header node takes what it lacks. */
    method GatherRest(copyLen: nat, bytes: nat, ghost s: seq<byte>) returns (used: nat)
      requires Valid() && !reading && !headParse
      requires HEAD_TOTAL_LEN <= bytes + head.curLen && copyLen + bytes <= MAX_LENGTH
      requires s == Residual() + data[copyLen..copyLen + bytes]
      modifies head.data
      ensures Valid() && 0 < used <= bytes
      ensures s == head.data[..HEAD_TOTAL_LEN] + data[copyLen + used..copyLen + bytes]
    {
      hide FromNetwork, Sealed, Filling, HeaderOver, Stuck;
      used := HEAD_TOTAL_LEN - head.curLen;
      head.Top(data, copyLen);
      ghost var front, tail := data[copyLen..copyLen + used], data[copyLen + used..copyLen + bytes];
      assert data[copyLen..copyLen + bytes] == front + tail;
    }

    /** The arm of the loop that expects a header: gather it, and go on once it is whole. */
    method HeadArm(copyLen: nat, bytes: nat, ghost s: seq<byte>)
      returns (used: nat, more: bool, ghost v: Verdict, ghost m: Msg)
      requires Valid() && !reading && !headParse
      requires 0 < bytes && copyLen + bytes <= MAX_LENGTH
      requires s == Residual() + data[copyLen..copyLen + bytes]
      modifies this, data, head, head.data
      ensures 0 < used <= bytes
      ensures !more ==> Stopped(s, v)
      ensures more ==> data[..] == old(data[..])
      ensures more ==> Completed(s, m, data[copyLen + used..copyLen + bytes])
    {
      assert head.curLen < HEAD_TOTAL_LEN;
      hide Valid, Residual, Encode, Within, Stuck;
      if bytes + head.curLen < HEAD_TOTAL_LEN {
        GatherSome(copyLen, bytes, s);
        return bytes, false, Running, Msg(0, []);
      }
      var gathered := GatherRest(copyLen, bytes, s);
      used, more, v, m := Inspect(copyLen + gathered, bytes - gathered, s);
      used := gathered + used;
    }

    /** The arm of the loop that goes on filling the body node. */
    method BodyArm(copyLen: nat, bytes: nat, ghost s: seq<byte>)
      returns (used: nat, more: bool, ghost v: Verdict, ghost m: Msg)
      requires Valid() && !reading && headParse
      requires 0 < bytes && copyLen + bytes <= MAX_LENGTH
      requires s == Residual() + data[copyLen..copyLen + bytes]
      modifies this, data, head, head.data, recv, recv.data
      ensures 0 < used <= bytes
      ensures !more ==> Stopped(s, v)
      ensures more ==> data[..] == old(data[..])
      ensures more ==> Completed(s, m, data[copyLen + used..copyLen + bytes])
      ensures recv == old(recv)
    {
      hide Encode, FromNetwork, Within, Sealed, Stuck;
      v, m := Running, Msg(0, []);
      used, more, m := Absorb(recv, copyLen, bytes, s);
    }

    /** One turn of the loop. */
    method Turn(copyLen: nat, bytes: nat, ghost s: seq<byte>)
      returns (used: nat, more: bool, ghost v: Verdict, ghost m: Msg)
      requires Valid() && !reading
      requires 0 < bytes && copyLen + bytes <= MAX_LENGTH
      requires s == Residual() + data[copyLen..copyLen + bytes]
      modifies this, data, head, head.data, Pending()
      ensures 0 < used <= bytes
      ensures !more ==> Stopped(s, v)
      ensures more ==> data[..] == old(data[..])
      ensures more ==> Completed(s, m, data[copyLen + used..copyLen + bytes])
    {
      if !headParse {
        used, more, v, m := HeadArm(copyLen, bytes, s);
      } else {
        used, more, v, m := BodyArm(copyLen, bytes, s);
      }
    }

    /** The loop of `handleRead` over the `n` bytes of a successful read. */
    method Consume(n: nat, ghost whole: seq<byte>, ghost p: Parsed)
      requires Valid() && !reading && n <= MAX_LENGTH
      requires whole == Residual() + data[..n] && p == Parse(limit, whole)
      modifies this, data, head, head.data, Pending()
      ensures Consumed(p, n)
    {
      hide Frames, Encode, AllWithin, Stuck, Parse, Sealed, Filling;
      ghost var rest := whole;
      NoneYet(limit, whole);
      ghost var got: seq<Msg> := [];
      var copyLen, bytes := 0, n;
      assert data[0..n] == data[..n];
      while bytes > 0
        invariant copyLen + bytes == n && (bytes == 0 ==> n == 0)
        invariant Valid() && !reading && closed == old(closed) && cleared == old(cleared)
        invariant log == old(log) + got && old(posts) <= posts
        invariant headParse ==> old(headParse) && recv == old(recv)
        invariant rest == Residual() + data[copyLen..n]
        invariant whole == Frames(got) + rest && AllWithin(limit, got)
      {
        var used, more;
        ghost var v, m;
        used, more, v, m := Turn(copyLen, bytes, rest);
        assert copyLen + bytes == n;
        ghost var tail := data[copyLen + used..n];
        if !more {
          Finished(limit, whole, p, got, rest, v);
          return;
        }
        copyLen, bytes := copyLen + used, bytes - used;
        OneMore(limit, got, m, tail);
        rest, got := tail, got + [m];
        if bytes <= 0 {
          Finished(limit, whole, p, got, rest, Running);
          ArmRead();
          return;
        }
      }
      assert rest == Residual();
      Finished(limit, whole, p, got, rest, Running);
    }

    /** `handleRead`: the completion of the outstanding read, with `n` bytes or an error. */
    method HandleRead(error: bool, n: nat)
      requires Valid() && !reading && n <= MAX_LENGTH
      modifies this, data, head, head.data, Pending()
      ensures Valid()
      ensures error ==> !reading && closed && cleared && SameOrNew()
      ensures error ==> posts == old(posts) && log == old(log) && Residual() == old(Residual())
      ensures !error ==> Consumed(Parse(limit, old(Residual() + data[..n])), n)
    {
      if !error {
        ghost var whole := Residual() + data[..n];
        Consume(n, whole, Parse(limit, whole));
      } else {
        closed, cleared := true, true;
      }
    }

    /** `start`: the first read. */
    method Start()
      requires Valid() && !reading
      modifies this`reading, data
      ensures Valid() && reading && Residual() == old(Residual())
    {
      ArmRead();
    }

    /** The outstanding read completes with the bytes of `chunk`. */
    method Receive(chunk: seq<byte>)
      requires Valid() && reading && 0 < |chunk| <= MAX_LENGTH
      modifies this, data, head, head.data, Pending()
      ensures Consumed(Parse(limit, old(Residual()) + chunk), |chunk|)
    {
      hide Sealed, Stuck, Parse;
      ghost var before := Residual();
      forall i | 0 <= i < |chunk| {
        data[i] := chunk[i];
      }
      assert data[..|chunk|] == chunk;
      reading := false;
      assert Residual() == before;
      HandleRead(false, |chunk|);
    }

    /** The outstanding read completes with an error. */
    method Fail()
      requires Valid() && reading
      modifies this, data, head, head.data, Pending()
      ensures Valid() && SameOrNew() && !reading && closed && cleared
      ensures log == old(log) && Residual() == old(Residual())
    {
      hide Sealed, Stuck;
      reading := false;
      HandleRead(true, 0);
    }

    /** A whole run: however the stream is cut into reads, exactly the messages of the stream are
        handed over, and reads stop exactly at the first header the parser stops at. */
    method Serve(chunks: seq<seq<byte>>)
      requires Valid() && reading && !cleared && log == [] && Residual() == []
      requires forall i :: 0 <= i < |chunks| ==> 0 < |chunks[i]| <= MAX_LENGTH
      modifies this, data, head, head.data, Pending()
      ensures Valid()
      ensures var p := Parse(limit, Concat(chunks));
        && log == p.msgs
        && (reading <==> p.verdict.Running?) && (cleared <==> p.verdict.Rejected?)
        && (reading ==> Residual() == p.rest)
    {
      hide Parse, Sealed, Filling, Stuck;
      ChunkingIndependence(limit, chunks);
      ghost var p := Parsed([], [], Running);
      assert chunks[..0] == [];
      for i := 0 to |chunks|
        invariant Valid() && SameOrNew()
        invariant p == ParseChunks(limit, chunks[..i])
        invariant log == p.msgs
        invariant (reading <==> p.verdict.Running?) && (cleared <==> p.verdict.Rejected?)
        invariant reading ==> Residual() == p.rest
      {
        assert chunks[..i + 1][..i] == chunks[..i];
        p := Resume(limit, p, chunks[i]);
        if reading {
          Receive(chunks[i]);
        }
      }
      assert chunks[..|chunks|] == chunks;
    }
  }
}

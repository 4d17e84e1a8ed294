/** One direction of a connection made of the program's own objects: the sending half of one
    session, the bytes in transit, and the reading half of the other. Each thing that can happen
    to them is one step of the protocol in `Pipe`, so what holds of every run of `Pipe` holds of
    the objects. */
module Connection {
  import opened Wire
  import opened FrameParser
  import SendQueue
  import Reader
  import Pipe

  class Connection {
    const writer: SendQueue.Writer
    const reader: Reader.Reader
    var channel: seq<byte>
    ghost var pipe: Pipe.Pipe

    /** The writer's buffers are none of the reader's. */
    ghost predicate Separate()
      reads this, writer, reader, reader.head, reader.Pending()
    {
      && this !in writer.nodes && reader !in writer.nodes
      && reader.data !in writer.nodes && reader.head !in writer.nodes && reader.head.data !in writer.nodes
      && reader.Pending() !! writer.nodes
    }

    /** The objects are in the state `p` of the protocol. */
    ghost predicate Are(p: Pipe.Pipe)
      requires reader.Valid()
      reads this`channel, writer`state, reader, reader.head, reader.head.data
      reads reader.Pending(), reader.given, reader.buffers
    {
      && p.limit == reader.limit && p.tx == writer.state && p.channel == channel
      && p.reading == reader.reading && p.rx.msgs == reader.log
      && (reader.reading ==> p.rx.rest == reader.Residual())
    }

    ghost predicate Valid()
      reads this, writer, writer.nodes, reader, reader.head, reader.head.data
      reads reader.Pending(), reader.given, reader.buffers
    {
      Separate() && writer.Valid() && reader.Valid() && Pipe.Inv(pipe) && Are(pipe)
    }

    /** Record the state the objects have come to. */
    ghost method Note(q: Pipe.Pipe)
      requires Separate() && writer.Valid() && reader.Valid() && Are(q) && Pipe.Inv(q)
      modifies this`pipe
      ensures Valid() && pipe == q
    {
      hide Pipe.Inv, SendQueue.Writer.Valid, Reader.Reader.Valid, Reader.Reader.Residual;
      pipe := q;
    }

    constructor (limit: int)
      ensures Valid() && pipe == Pipe.Open(limit)
    {
      writer := new SendQueue.Writer();
      reader := new Reader.Reader(limit);
      channel, pipe := [], Pipe.Open(limit);
      new;
      Pipe.OpenInv(limit);
      hide Pipe.Inv, SendQueue.Writer.Valid, Reader.Reader.Valid, Reader.Reader.Residual, Stuck, Pipe.Open;
      Begin();
    }

    /** `start` of the session that reads. */
    method Begin()
      requires Separate() && writer.Valid() && reader.Valid() && pipe == Pipe.Open(reader.limit)
      requires channel == [] && writer.state == SendQueue.IDLE
      requires reader.Residual() == [] && reader.log == [] && !reader.reading && Pipe.Inv(pipe)
      modifies reader`reading, reader.data
      ensures Valid()
    {
      hide Pipe.Inv, SendQueue.Writer.Valid, Reader.Reader.Valid, Reader.Reader.Residual, Stuck;
      reader.Start();
    }

    /** A call of `send` that cannot be framed is dropped if the queue is full, and throws if not. */
    method Send(msg: array<byte>, id: int) returns (threw: bool)
      requires Valid() && IsShort(id)
      modifies this`pipe, writer
      ensures Valid()
      ensures threw <==> |old(pipe.tx.queue)| <= SendQueue.MAX_SENDQUE && !Framable(ToShort(msg.Length))
      ensures Framable(ToShort(msg.Length)) ==>
        pipe == Pipe.Step(old(pipe), Pipe.Sender(SendQueue.Send(Narrowed(msg[..], id))))
      ensures !Framable(ToShort(msg.Length)) ==>
        pipe.(tx := pipe.tx.(dropped := 0)) == old(pipe).(tx := old(pipe.tx).(dropped := 0))
    {
      hide Pipe.Inv, SendQueue.Inv, SendQueue.Writer.Valid, Reader.Reader.Valid, Reader.Reader.Residual;
      threw := writer.Send(msg, id);
      if Framable(ToShort(msg.Length)) {
        var e := Pipe.Sender(SendQueue.Send(Narrowed(msg[..], id)));
        Pipe.StepKeepsInv(pipe, e);
        pipe := Pipe.Step(pipe, e);
      } else if !threw {
        Pipe.DropKeepsInv(pipe);
        pipe := pipe.(tx := pipe.tx.(dropped := pipe.tx.dropped + 1));
      }
    }

    /** The write in flight puts `k` more bytes into transit. */
    method Transfer(k: nat)
      requires Valid() && writer.inFlight != null && 0 < k <= writer.inFlight.totalLen - writer.sent
      modifies this, writer
      ensures Valid() && pipe == Pipe.Step(old(pipe), Pipe.Sender(SendQueue.Move(k)))
    {
      hide Pipe.Inv, SendQueue.Bytes, Encode, Frames;
      var e := Pipe.Sender(SendQueue.Move(k));
      Pipe.StepKeepsInv(pipe, e);
      var bytes := writer.Transfer(k);
      channel := channel + bytes;
      pipe := Pipe.Step(pipe, e);
    }

    /** The write in flight completes, or fails wherever it is. */
    method WriteDone(error: bool)
      requires Valid() && writer.inFlight != null && (!error ==> writer.sent == writer.inFlight.totalLen)
      modifies this`pipe, writer
      ensures Valid()
      ensures pipe == Pipe.Step(old(pipe), Pipe.Sender(if error then SendQueue.WriteFailed else SendQueue.Written))
    {
      hide Pipe.Inv, SendQueue.Bytes, Encode, Frames;
      var e := Pipe.Sender(if error then SendQueue.WriteFailed else SendQueue.Written);
      Pipe.StepKeepsInv(pipe, e);
      writer.HandleWrite(error);
      pipe := Pipe.Step(pipe, e);
    }

    /** The reader takes the first `n` bytes in transit, which is what makes `q` of `pipe`. */
    method Take(n: nat, ghost q: Pipe.Pipe)
      requires Separate() && writer.Valid() && reader.Valid() && Are(pipe)
      requires reader.reading && 0 < n <= MAX_LENGTH && n <= |channel|
      requires q.limit == pipe.limit && q.tx == pipe.tx && q.channel == channel[n..]
      requires var more := Parse(pipe.limit, pipe.rx.rest + channel[..n]);
        q.rx == Prepend(pipe.rx.msgs, more) && (q.reading <==> more.verdict.Running?)
      modifies this`channel, reader, reader.data, reader.head, reader.head.data, reader.Pending()
      ensures Separate() && writer.Valid() && reader.Valid() && Are(q)
    {
      hide Parse, Stuck, SendQueue.Writer.Valid, Reader.Reader.Valid, Reader.Reader.Residual;
      var chunk := channel[..n];
      channel := channel[n..];
      reader.Receive(chunk);
    }

    /** The outstanding read completes with the first `n` bytes in transit. */
    method Deliver(n: nat)
      requires Valid() && reader.reading && 0 < n <= MAX_LENGTH && n <= |channel|
      modifies this`channel, this`pipe, reader, reader.data, reader.head, reader.head.data, reader.Pending()
      ensures Valid() && pipe == Pipe.Step(old(pipe), Pipe.Deliver(n))
    {
      Pipe.DeliverStep(pipe, n);
      ghost var q := Pipe.Step(pipe, Pipe.Deliver(n));
      hide Separate, Pipe.Inv, Pipe.Step, Parse, SendQueue.Writer.Valid, Reader.Reader.Valid, Reader.Reader.Residual;
      Take(n, q);
      Note(q);
    }

    /** The outstanding read fails. */
    method ReadFails()
      requires Valid() && reader.reading
      modifies this`pipe, reader, reader.data, reader.head, reader.head.data, reader.Pending()
      ensures Valid() && pipe == Pipe.Step(old(pipe), Pipe.ReadFailed)
    {
      hide Pipe.Inv, SendQueue.Inv, Parse;
      Pipe.StepKeepsInv(pipe, Pipe.ReadFailed);
      reader.Fail();
      pipe := Pipe.Step(pipe, Pipe.ReadFailed);
    }

    /** In every state of the objects: the messages that the reader's nodes hold are the first of
        the messages the writer accepted, and what is accepted and not handed over is with the
        reader, in transit or in the writer's queue. What is with the reader is what its nodes hold,
        as long as a read is outstanding. */
    lemma Conserved()
      requires Valid()
      ensures reader.log <= Pipe.Admitted(reader.limit, writer.state.Accepted()) <= writer.state.Accepted()
      ensures Frames(reader.log) + pipe.rx.rest + channel + SendQueue.Unsent(writer.state)
        == Frames(writer.state.Accepted())
      ensures reader.reading ==> pipe.rx.rest == reader.Residual()
    {
      hide Pipe.Inv, SendQueue.Inv, Frames;
      Pipe.InOrder(pipe);
      Pipe.Conserved(pipe);
    }
  }
}

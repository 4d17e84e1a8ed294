# YFTP, verified

YFTP is a file transfer service: clients send framed requests over TCP, the server reassembles
them, puts them on one queue, and one worker thread answers them in turn. This project models that
pipeline from end to end, with the two computations it carries, base64 and the resolution of a
working directory, and proves what the program promises about them.

| file | what it models |
|---|---|
| `Wire.dfy` | the frame format, 16-bit fields and their narrowing, the buffer nodes |
| `FrameParser.dfy` | the pure reading of a byte stream as frames: the specification of reassembly |
| `Reader.dfy` | `handleRead`: the reassembly loop over one read buffer, a header node and a body node |
| `SendQueue.dfy` | `send` and `handleWrite`: the protocol of the send queue, and the class that follows it |
| `Pipe.dfy` | sender, bytes in transit and receiver as one transition system |
| `Connection.dfy` | the same three as objects, whose methods take exactly the steps of `Pipe` |
| `Dispatcher.dfy` | posters, worker, mutex, condition variable and stop flag, one thread step at a time |
| `LogicSystem.dfy` | the dispatcher's queue and table of callbacks as objects, whose methods take exactly the steps of `Dispatcher` |
| `Service.dfy` | any number of clients, two pipes each, and the one dispatcher: whole runs |
| `Base64.dfy` | both base64 loops with their 32-bit accumulators, against section 4 of RFC 4648 |
| `Payload.dfy` | a file's way through zlib, base64, JSON and the wire, up and down |
| `Paths.dfy` | `resolvePath`, CD and PWD, against a walk in a tree of directories |
| `Options.dfy` | values that may be missing |

## How it is modelled

The client's and the server's sessions have the same reading loop and the same queue; the one
class `Reader` has the limit as a field (2048 on the server; 32767, which no 16-bit field exceeds,
on the client, which checks nothing), and the one class `Writer` serves both. Each class is proved
against a function or a transition system on values, and the properties are proved about that.

A run is a list of events; an event that is not enabled where it stands does not happen. A lemma
about every list of events is therefore about every run and every reachable state. Bytes leave the
sender a few at a time, reach the receiver in any cut of at most 2048 bytes, and any read or write
may fail.

`Dispatcher` cuts the code between any two points at which another thread could tell the
difference: taking the mutex, pushing, releasing, notifying; testing the condition, waiting,
waking, calling back, popping. A waiting worker may wake without cause. The worker holds the mutex
through its callback, as the code does.

Four promises hold only under a condition, and the condition is proved exact:

* Stopping. The destructor sets the flag without the mutex, so its notification can fall between
  the worker's test and its wait. `Dispatcher.StopNoticed` and `Dispatcher.StopMissed` are the two
  sides, `Dispatcher.StopCanBeMissed` is such a run. Once the flag is noticed the worker leaves
  (`Dispatcher.WorkerLeaves`).
* Lengths. `send` narrows the length of a message to a `short`. A message arrives whole exactly
  when it has at most 32763 bytes and the receiver's limit allows it (`Payload.ArrivesIff`).
  `Payload.UploadLimit` says what follows: no request for a file whose packed form exceeds 1536
  bytes arrives, since the server refuses requests of more than 2048 bytes; and if the length
  wraps, the server is handed the beginning of the text instead.
* Replies at EXIT. Closing a session cuts off what its send queue still holds.
  `Service.EveryReplyArrives` says that every reply due arrives exactly when it held nothing.
* Paths. A relative path that asks for the parent of the root pops the root off the component
  stack, and what is left is a relative path. `Paths.ResolvesLikeWalk` has the exact condition,
  `Paths.RootCanBeLost` an example. Resolving an answer again gives the same answer unless
  the path is absolute, ends in dots or a slash, and leads to a directory other than the root while
  the system finds nothing at the path itself (`Paths.ResolvingTwice`, `Paths.AnswerCanMove`).

The file system enters `Paths` as a tree of places and through one predicate, `NoLinks`: what
`weakly_canonical` answers for the one absolute path at hand when no symbolic link is involved. The
answer leads where the path leads. If the system finds nothing at the path, and the path ends in
dots or a slash, it ends in a slash: `/new/` is answered as it is when nothing is there, and
`/etc/new/..` as `/etc/` when `/etc/new` is not there. Each request of a run finds a file system of
its own.

## Model

| member | source | states |
|---|---|---|
| Wire.FromNetworkToNetwork | server/src/MsgNode.cpp:9-14 | a 16-bit field written in network order is read back, whatever its sign |
| Wire.ToNetworkFromNetwork | server/src/Session.cpp:143-159 | and any two bytes read as a field are the bytes that field is written as |
| Wire.ToNetworkBytes | server/src/MsgNode.cpp:9-14 | a field is written high byte first: 256 times the first byte plus the second is the field modulo 65536 |
| Wire.FromNetworkBytes | server/src/Session.cpp:143-159 | and read high byte first, as a signed value of 16 bits |
| Wire.FrameBytes | server/src/MsgNode.cpp:7-16 | the first two bytes of a frame are its id, the next two its length, and the body follows them |
| Wire.NarrowingWraps | server/src/Session.cpp:53 | narrowing an integer to a `short` keeps its low 16 bits |
| Wire.FramableTotals | server/src/MsgNode.cpp:7-8 | a frame can be made exactly if neither the length nor the node's total is negative as a `short` |
| Wire.HeaderFields | server/src/MsgNode.cpp:7-16 | the header in front of any bytes decodes to the id and the length it was made from |
| Wire.NarrowedIsWhole | server/src/Session.cpp:53 | narrowing a length to a `short` keeps a message whole exactly when it has at most 32763 bytes |
| Wire.MsgNode.constructor | server/include/MsgNode.hpp:14-17 | a node for `max_len` bytes starts empty, with its own buffer, zeroed and terminated |
| Wire.MsgNode.Send | server/src/MsgNode.cpp:7-16 | a `SendNode`'s buffer is the frame of the first `max_len` bytes of the message: the id and the length high byte first, the body from the fifth byte on, and a terminating zero |
| Wire.MsgNode.Fill | server/src/Session.cpp:183-185 | a copy into a node appends to what it holds, inside both buffers |
| Wire.MsgNode.Top | server/src/Session.cpp:137-140 | completing the header appends to its bytes and leaves `cur_len_` alone |
| Wire.MsgNode.Clear | server/include/MsgNode.hpp:24-27 | a cleared node is empty and zeroed |
| FrameParser.LookFrame | server/src/Session.cpp:143-188 | the front of a stream is read as a message exactly when the stream begins with that message's frame and the limits allow it |
| FrameParser.FrontBytes | server/src/Session.cpp:143-188 | the front of a stream by its bytes: id and length high byte first and signed, refused if either is over the limit, and then that many bytes of body |
| FrameParser.LimitsByValue | server/src/Session.cpp:149-165 | the server refuses a header exactly if its id or its length is 2049 or more, and the client refuses none |
| FrameParser.ParseIsTheDecomposition | server/src/Session.cpp:115-251 | parsing gives the one decomposition of a stream into frames within the limits and a remainder with no further frame |
| FrameParser.ParseResumes | server/src/Session.cpp:121-136 | a stream may be cut anywhere: parsing on from the residue of the first part gives what parsing the whole gives |
| FrameParser.ChunkingIndependence | server/src/Session.cpp:115-251 | every split of every stream into chunks gives the messages, the residue and the verdict of the whole stream |
| FrameParser.RejectionCuts | server/src/Session.cpp:149-165 | exactly the frames before the first header over 2048 are parsed, whatever follows it |
| FrameParser.ServerReadsLikeClient | client/include/ClientSession.hpp:149-276 | server and client read a stream alike exactly when the server does not reject it |
| Reader.Reader.constructor | server/src/Session.cpp:14-20 | a new session holds no bytes, expects a header and has no read outstanding |
| Reader.Reader.ArmRead | server/src/Session.cpp:36-43 | a read is armed only when none is outstanding, and loses nothing that was gathered |
| Reader.Reader.Complete | server/src/Session.cpp:188-194 | a full body node is handed over with the message it holds, and a header is expected next |
| Reader.Reader.Absorb | server/src/Session.cpp:207-241 | the body node takes all there is and the next read is armed, or takes what it lacks and is handed over; at least one byte is used while it lacks any |
| Reader.Reader.Inspect | server/src/Session.cpp:143-204 | a gathered header is refused if the id or the length is over the limit, and otherwise its body is taken up |
| Reader.Reader.HeadArm | server/src/Session.cpp:122-205 | the header arm uses at least one byte and either stops for the stated reason or hands over the message at the front of what it had |
| Reader.Reader.BodyArm | server/src/Session.cpp:207-241 | likewise the body arm |
| Reader.Reader.Consume | server/src/Session.cpp:120-242 | the loop ends, stays inside `data_` and both nodes, and leaves the messages, the residue, the rejection and the armed read that the parser says |
| Reader.Reader.HandleRead | server/src/Session.cpp:115-251 | a completed read of n bytes has exactly that effect, and arms one read exactly if n is positive and nothing was refused; a failed one closes, drops the session and hands over nothing |
| Reader.Reader.Receive | client/include/ClientSession.hpp:149-276 | the same for the bytes of a chunk filled into the buffer by the outstanding read |
| Reader.Reader.Serve | server/src/Session.cpp:115-251 | over a whole run of reads, however cut, the messages handed over are the stream's, a read stays armed exactly while the stream is well-formed, and the session is dropped exactly if a header was over the limit |
| SendQueue.StepKeepsInv | server/src/Session.cpp:45-113 | every step keeps: a write is in flight exactly when the queue is not empty and no write failed, it writes the front, the queue has at most 1001 entries, and the wire holds whole frames followed by the begun part of the front |
| SendQueue.NothingLostOrInterleaved | server/src/Session.cpp:45-104 | in every run, what went out, the rest of the front frame and the frames behind it are the frames of the accepted messages, in order |
| SendQueue.DroppedIffFull | server/src/Session.cpp:47-51 | in every run a send is dropped exactly when it finds 1001 entries, and accepted exactly when it finds fewer |
| SendQueue.FrozenAfterFailure | server/src/Session.cpp:105-109 | after a failed write nothing goes out or leaves the queue, however many messages are sent |
| SendQueue.FailureLeavesPrefix | server/src/Session.cpp:54-56 | what a failed run left on the wire is for ever a prefix of the accepted frames |
| SendQueue.Writer.Send | client/include/ClientSession.hpp:66-85 | `send` is the protocol's step for the message with its length narrowed, starts a write exactly on an empty queue, and throws exactly when there is room but no frame |
| SendQueue.Writer.Transfer | server/src/Session.cpp:58-61 | what goes out is the next bytes of the front frame, and is the protocol's step |
| SendQueue.Writer.HandleWrite | server/src/Session.cpp:91-113 | `handleWrite` is the protocol's step: success pops and writes the next front, failure closes and pops nothing |
| Pipe.StepKeepsInv | server/src/Session.cpp:45-251 | every step of sender, channel and receiver keeps the link between what went out, what is in transit and what was parsed |
| Pipe.Conservation | server/src/Session.cpp:45-251 | in every run, frames handed over, bytes held by the receiver, bytes in transit, the unsent end of the front frame and the frames behind it add up to the frames accepted |
| Pipe.HandedOverInOrder | server/src/Session.cpp:115-251 | in every run the messages handed over are the first of those accepted, and stop before the first one refused |
| Pipe.RefusalIsFinal | server/src/Session.cpp:149-165 | once a header has been refused, all messages before the first refused one have arrived, whatever is still in transit or queued behind it |
| Pipe.AllHandedOver | server/src/Session.cpp:115-251 | with nothing left to send or in transit, or once a header has been refused, all messages before the first refused one have arrived, and they are all the accepted ones exactly if none was refused |
| Pipe.ParseOfFrames | server/src/Session.cpp:149-165 | a stream of frames is rejected exactly if some message in it is over the limits |
| Pipe.ClientRefusesNothing | client/include/ClientSession.hpp:177-189 | the client takes every message that a sender can frame |
| Connection.Connection.Send | client/include/ClientSession.hpp:66-85 | on the objects, `send` is a step of the pipe |
| Connection.Connection.Transfer | client/include/ClientSession.hpp:80-84 | so is the movement of bytes of the write in flight |
| Connection.Connection.WriteDone | client/include/ClientSession.hpp:125-147 | so is the completion or failure of a write |
| Connection.Connection.Deliver | server/src/Session.cpp:115-242 | so is the completion of a read with bytes from the channel |
| Connection.Connection.ReadFails | server/src/Session.cpp:243-247 | so is the failure of a read |
| Connection.Connection.Conserved | server/src/Session.cpp:45-251 | in every state of the objects the nodes handed over hold the first messages accepted, and the rest is with the reader, in transit or in the writer's queue; while a read is outstanding, what is with the reader is what its nodes hold |
| Dispatcher.StepKeepsInv | server/src/LogicSystem.cpp:15-68 | every thread's step keeps: mutual exclusion, what the worker knows inside the mutex, no lost wakeup, exactly-once order, and what the flag means |
| Dispatcher.MutexSpansCallback | server/src/LogicSystem.cpp:30-68 | in every run the worker holds the mutex from its test of the queue to the pop behind the callback, with no poster inside |
| Dispatcher.PostsAreNeverRefused | server/src/LogicSystem.cpp:21-23 | however long the queue is, a poster that finds the mutex free may begin its post, and its job is queued |
| Dispatcher.ExactlyOnceInOrder | server/src/LogicSystem.cpp:21-68 | in every interleaving, popped jobs followed by the queue are the pushed jobs, and the callbacks made are those of the registered ids popped, with the front's while it waits to be popped |
| Dispatcher.ExitDrains | server/src/LogicSystem.cpp:37-54 | the worker leaves only with the mutex held and the queue drained, after every registered job's callback |
| Dispatcher.NoSleepOverQueue | server/src/LogicSystem.cpp:21-35 | a worker asleep over a queue is always owed a notification by some poster, and that notification wakes it |
| Dispatcher.MeasureDecreases | server/src/LogicSystem.cpp:30-67 | while the queue is not empty, every step of every thread but the beginning of a post lowers one measure |
| Dispatcher.SomeStepEnabled | server/src/LogicSystem.cpp:21-68 | and as long as the worker has not left, some thread can take such a step |
| Dispatcher.QueueEmpties | server/src/LogicSystem.cpp:30-67 | so with no further posts, and as long as the worker has not left, the queue empties within that many steps |
| Dispatcher.StopNoticed | server/src/LogicSystem.cpp:15-19 | if the destructor's notification does not fall between test and wait, the worker never sleeps again |
| Dispatcher.StoppingStep | server/src/LogicSystem.cpp:15-68 | once the flag is set and the worker is not asleep or about to be, every step of every thread but the beginning of a post lowers one measure |
| Dispatcher.StoppingCanStep | server/src/LogicSystem.cpp:15-68 | and until the worker has left, it or the poster inside the mutex can take a step |
| Dispatcher.WorkerLeaves | server/src/LogicSystem.cpp:15-19 | so `join` returns: with no further posts the worker leaves within that many steps |
| Dispatcher.StopMissed | server/src/LogicSystem.cpp:15-35 | if it falls there, the worker sleeps with the flag set, and only a spurious wakeup or a new post can follow |
| Dispatcher.StopCanBeMissed | server/src/LogicSystem.cpp:15-35 | such a run exists |
| LogicSystem.LogicSystem.constructor | server/src/LogicSystem.cpp:70-113 | the table maps 1001 to the greeting, 1002 to MKDIR, 1003 to RMDIR, 1004 to LIST, 1005 to UPLOAD, 1006 to DOWNLOAD, 1007 to CD, 1008 to PWD, 1009 to CAT and 1010 to EXIT, and no other id, and the queue is that of the protocol's first state |
| LogicSystem.LogicSystem.RegisterHandler | server/src/LogicSystem.cpp:115-123 | the first registration of an id stays |
| LogicSystem.LogicSystem.PostMsgToQue | server/src/LogicSystem.cpp:21-28 | a post is the protocol's taking of the mutex, push and release, and notifies exactly if the queue was empty, which is when the protocol's poster owes a notification |
| LogicSystem.LogicSystem.DealFront | server/src/LogicSystem.cpp:56-66 | serving the front is two or three of the worker's steps: one job is popped, and had its callback, to the handler of its id, exactly if that is from 1001 to 1010 |
| LogicSystem.LogicSystem.Drain | server/src/LogicSystem.cpp:37-54 | the drain loop makes the callbacks of all registered jobs in the queue, once and in order, empties it and ends with the worker gone, all in steps of the worker |
| LogicSystem.LogicSystem.Pass | server/src/LogicSystem.cpp:37-67 | past its wait the worker deals with the whole queue and leaves if the flag is set, and with one job otherwise, with no other thread's step between |
| Service.StepKeepsInv | server/src/LogicSystem.cpp:21-501 | every step of every client, session, thread and callback keeps, for each session: posts follow what was parsed, responses follow the callbacks and are short of them by as many as were dropped, and a session closed by EXIT has no read outstanding and sends nothing accepted later |
| Service.ExitCloses | server/src/LogicSystem.cpp:483-501 | a callback closes its session exactly if it is EXIT's, and then no read is outstanding |
| Service.NothingAfterExit | server/src/Session.cpp:83-87 | in every continuation nothing more is read from the client of a closed session, parsed, or sent out to it |
| Service.ReplyIds | server/src/LogicSystem.cpp:125-501 | the greeting's response has the id in its body, narrowed, requests 1002 to 1009 their own, and EXIT and every other message none |
| Service.CallbackSends | server/src/Session.cpp:45-57 | a callback's response is accepted by the session's send queue unless that holds 1001 entries already, and no response is sent where none is due |
| Service.SocketsAreFree | server/src/AsioIOServicePool.cpp:16-18 | neither other sessions nor the dispatcher keep a session's bytes from moving, or its read from completing once the one before is dealt with |
| Service.StepsRemain | server/src/LogicSystem.cpp:21-68 | until a session is at rest, and as long as the worker has not left, the client reads and no write to it failed, a step towards rest is enabled |
| Service.ResponsesInOrder | server/src/LogicSystem.cpp:30-68 | in every run of any number of clients, the response ids that a client has received are, in order, some of the replies due to its session's requests before the first EXIT, and the first of them with none left out as long as no response of that session was dropped |
| Service.EveryReplyArrives | server/src/LogicSystem.cpp:30-68 | at rest, the client has every reply due to every request handed over before the first EXIT, exactly when closing cut none off; and the requests handed over are all those before the first refused one once the session is closed, one was refused or nothing is left of them |
| Service.BeforeExitIsLongest | server/src/LogicSystem.cpp:483-501 | the requests before the first EXIT are all of them, or those up to an EXIT with none among them |
| Service.RepliesToClient | client/include/YFTPClient.hpp:42-150 | the replies due to requests built by the client, without an EXIT, are their ids |
| Service.ResponseIdsFollowRequestIds | server/src/LogicSystem.cpp:483-501 | so the response ids such a client has received are, in order, some of its request ids before its first EXIT, and the first of them with none left out if no response was dropped |
| Base64.TableIsAlphabet | server/include/CompressUtil.hpp:33 | the table string is the alphabet of section 4 of RFC 4648 |
| Base64.ValueInvertsChar | server/include/CompressUtil.hpp:51 | a character has a value exactly if it stands in the alphabet, and at that place |
| Base64.CharCodes | server/include/CompressUtil.hpp:33 | the characters by their codes: capitals from 65, small letters from 97, digits from 48, then 43 and 47 |
| Base64.WrapIs32Bits | server/include/CompressUtil.hpp:35-37 | the accumulator keeps the low 32 bits, as a signed value |
| Base64.EncodeByte | server/include/CompressUtil.hpp:36-43 | one input byte moves the wrapped accumulator and the output as three-byte groups require, whatever the bits above the pending ones are |
| Base64.Encode | server/include/CompressUtil.hpp:32-47 | with an accumulator that wraps at 32 bits and is never masked, the output is that of RFC 4648: three bytes to four characters, zero-bit fill, padding |
| Base64.RfcConcat | server/include/CompressUtil.hpp:32-47 | encoding distributes over concatenation after a multiple of three bytes |
| Base64.RfcLength | server/include/CompressUtil.hpp:46 | the output has four characters for every three bytes begun |
| Base64.EncodedByPosition | server/include/CompressUtil.hpp:36-45 | position j holds the character of bits 6j to 6j+5 of the input, zero bits behind its end, for as long as they begin inside it, and the code 61 from there on |
| Base64.PaddingByCode | server/include/CompressUtil.hpp:45 | an encoding ends in two `=` (61) exactly behind one byte over a multiple of three, in one behind two, and in none otherwise |
| Base64.Vectors | server/include/CompressUtil.hpp:32-47 | the test vectors of section 10 of RFC 4648 |
| Base64.InvertTable | server/include/CompressUtil.hpp:51-52 | the table built is the inverse of the alphabet, and -1 elsewhere |
| Base64.Decode | server/include/CompressUtil.hpp:49-65 | with a wrapping accumulator too, the output is the bytes that the sextets of the longest alphabet prefix stand for |
| Base64.DecodedLength | server/include/CompressUtil.hpp:54-63 | decoding reads exactly the longest prefix in the alphabet, k characters, and yields floor(6k/8) bytes |
| Base64.SextetsByPosition | server/include/CompressUtil.hpp:54-56 | each character read stands for its sextet |
| Base64.DecodedByPosition | server/include/CompressUtil.hpp:56-61 | byte j of the output is bits 8j to 8j+7 of the sextets read |
| Base64.DecodedVectors | server/include/CompressUtil.hpp:49-65 | "Zm9v" is "foo", also with something behind a line end after it, and "QR==" is one byte, 65 |
| Base64.RoundTrip | server/include/CompressUtil.hpp:32-65 | decoding the encoding of any byte string gives it back |
| Base64.EncodingIsCanonical | server/include/CompressUtil.hpp:45-46 | every encoding is padded to a multiple of four and has zero leftover bits |
| Base64.CanonicalIsEncoding | client/include/CompressUtil.hpp:32-60 | encoding what was decoded from such a text gives the text back |
| Base64.CanonicalIff | client/include/CompressUtil.hpp:32-60 | and it does so for no other text |
| Payload.MakePacket | server/src/LogicSystem.cpp:326-345 | the packet holds the base64 of the compressed file if compressing was asked for and succeeded, and of the file itself otherwise, with the original size |
| Payload.UploadFile | client/include/YFTPClient.hpp:74-105 | a request is made exactly for a file that is there and not empty, and it packs that file |
| Payload.HandleUpload | server/src/LogicSystem.cpp:254-292 | success is reported exactly if the content decompresses, and then the file is written if it can be opened; otherwise no file changes |
| Payload.HandleDownload | server/src/LogicSystem.cpp:311-349 | the response packs the file, or an empty one if there is none |
| Payload.Save | client/include/ClientSession.hpp:317-351 | the client's file becomes what the response held, or its undecompressed content if it does not decompress |
| Payload.PreservedIff | client/include/YFTPClient.hpp:92-102 | a file comes out of its packet as it went in exactly when zlib, if used, undoes itself on it |
| Payload.DownloadPreserves | client/include/ClientSession.hpp:322-339 | a downloaded file is saved as the server had it, through every branch |
| Payload.SavedExactly | client/include/ClientSession.hpp:325-339 | whatever zlib does, what is saved is the file if it was sent plain, what decompression gives if it succeeds, and the compressed bytes if not |
| Payload.UnpacksUnless | server/src/LogicSystem.cpp:265-279 | every upload unpacks unless it says it is compressed and does not decompress |
| Payload.ArrivesIff | server/src/Session.cpp:149-165 | a text sent arrives whole and in its place exactly when it has at most 32763 bytes and the receiver's limit allows it |
| Payload.UploadArrives | server/src/LogicSystem.cpp:265-281 | an upload request arrives exactly when its text has at most 2048 bytes, and the file in it is the client's |
| Payload.UploadLimit | server/src/Session.cpp:161-165 | no request for a file whose packed form exceeds 1536 bytes arrives, whatever its length: nothing is sent, or the server stops at its header, or it is handed only as much of the text's beginning as the narrowed length says |
| Payload.DownloadArrives | client/include/ClientSession.hpp:317-339 | a download response arrives exactly when its text has at most 32763 bytes, and what is saved is the server's file |
| Paths.Session.ResolvePath | server/src/Session.cpp:257-284 | the two loops hand on the stack of the joined path's components, put together again; an absolute path skips them |
| Paths.Session.HandleCd | server/src/LogicSystem.cpp:370-408 | the session moves exactly to the path resolved if that is a directory, and stays where it was on every failure |
| Paths.Session.ServeCds | server/src/LogicSystem.cpp:370-444 | PWD after any run of CD requests, failures among them, reports where the run leads, and each request was answered from where those before it led |
| Paths.StackFollowsWalk | server/src/Session.cpp:265-276 | the stack is the root followed by the walk's position for as long as the walk never asks for the parent of the root, and holds no root at all once it has |
| Paths.ResolvesLikeWalk | server/src/Session.cpp:257-284 | a relative path is handed on as an absolute one exactly when it never asks for the parent of the root, and then the answer leads to its place in the directory tree: it is that place if that is a directory, and otherwise the path handed on, which is the place but for a trailing slash |
| Paths.HandedExactly | server/src/Session.cpp:263-281 | below the root the path handed on is exactly the place, with a slash behind it if the path is empty or ends in one and the place is not the root |
| Paths.DotsByName | server/src/Session.cpp:266-276 | from `/a/b`, `.././c` is handed on as `/a/c` |
| Paths.HandedIsDotless | server/src/Session.cpp:266-276 | the path handed on has no `.` and no `..` |
| Paths.ResolvingTwice | server/src/Session.cpp:257-284 | an answer resolves to the same place from every working directory; to itself always for a relative path or one without dots, and for an absolute path exactly if it is stable: something is found at it, or it does not end in dots or a slash, or it leads to the root or to no directory |
| Paths.DotlessIsStable | server/src/Session.cpp:281-284 | an absolute path without dots is always stable |
| Paths.AnswerCanMove | server/src/Session.cpp:258-261 | in a file system without any symbolic link, where `/etc` is a directory and `/etc/new` is not there, `/etc/new/..` resolves to `/etc/`, and that to `/etc` |
| Paths.AbsoluteCd | server/src/LogicSystem.cpp:377-382 | an absolute CD, from wherever the session is, moves it to what `weakly_canonical` makes of the path exactly if that answers and the place is a directory, and fails otherwise |
| Paths.RelativeCd | server/src/LogicSystem.cpp:377-382 | a relative CD below the root moves the session to exactly the place, and succeeds exactly if `weakly_canonical` answers and the place is a directory |
| Paths.CdsFollow | server/src/LogicSystem.cpp:370-408 | a run of relative CD requests, failures and changes of the file system among them, leads where the joined path of the successful ones leads |
| Paths.CdsCompose | server/src/LogicSystem.cpp:370-408 | one CD with that joined path comes to the same place, on every file system where it is a directory and `weakly_canonical` answers, and fails on every other |
| Paths.RootCanBeLost | server/src/Session.cpp:270-273 | from `/home`, `../../x` is handed on as the relative path `x`, where the directory tree has `/x` |

## Left out

- Negative length fields: the parser has a verdict of its own for them, at which the model stops. In the program -1 writes outside its allocation and every other one throws.
- SendQueue.Writer.Send: a length that narrows to a negative number counts as a throw; from -1 to -5 what the program does is undefined instead.
- Reader.Reader.Serve: reads of no bytes are not among its chunks; `HandleRead` says what they do, which is to arm nothing.
- Reader.Reader.HandleRead: the client keeps no list of sessions, so that the session is dropped means something on the server only.
- Reader.Reader.Complete: the client's `processMessage` is assumed to return, and is modelled only for downloads (`Payload.Save`).
- Paths.ResolvesLikeWalk: symbolic links on the way are not modelled, nor what `weakly_canonical` makes of a relative path. That the library's function meets `NoLinks` where there are none is assumed, at the paths it is handed; it may throw at any.
- Paths.Session.HandleCd: resolving and asking for the directory see one state of the file system, and a path is its list of components, not its text.
- Payload.PreservedIff: zlib is a pair of functions; `UploadArrives` and `DownloadArrives` assume that it and the JSON text undo themselves on the file at hand.
- Payload.UploadLimit: assumes that the JSON text is at least as long as the base64 string in it. What the handler makes of the beginning of a text is not modelled.
- Service.ResponsesInOrder: a handler is one step that makes at most one response, of any body that fits a frame; `getRemoteIp` throwing is not modelled. EXIT's closing of the socket is modelled; a read completed before it counts as delivered before it. After a failed read or write the other half of the session may go on, which the program does not let it.
- Service.ResponseIdsFollowRequestIds: is about the id in the frame header. The response to a greeting has no `msg_id` in its JSON text, so the client does not recognise it as one.
- The handlers' assertions that the id in a request's JSON text is the one in its header.
- LogicSystem.LogicSystem.constructor: `registerCallBacks` is three methods instead of one; starting the thread is the initial state of `Dispatcher`.
- Dispatcher.WorkerLeaves: counts steps, and does not say that the scheduler runs them. `b_stop_` is read and written as one indivisible step, although the program does not guard it.
- Sockets, Asio and threads: only the completion of reads and writes, the movement of bytes and the steps of the dispatcher remain. The handlers of one session's reads do not overlap, since each context has one thread.
- A bound on the receive queue: `MAX_RECVQUE` is never used by the program.
- The server's map of sessions: sessions start before they are put in it, so the two need not agree.
- Configuration, logging, directory listing, the file utilities and the command line: input, output and easy members only.

/** Uploads and downloads: how a file's bytes travel inside a message, from the reading of the
    file on one side to the writing of the file on the other. zlib and the JSON text are functions
    about which only one thing is assumed, each time for the one file at hand: that reading undoes
    writing. */
module Payload {
  import opened Wire
  import opened FrameParser
  import opened Options
  import Base64

  const MSG_UPLOAD := 1005
  const MSG_DOWNLOAD := 1006

  /** `CompressUtil::compress` and `decompress`; None is their returning false. */
  datatype Zlib = Zlib(
    compress: seq<byte> -> Option<seq<byte>>,
    decompress: (seq<byte>, nat) -> Option<seq<byte>>)
  {
    /** What was compressed is got back by decompressing to the original size. */
    predicate Undoes(file: seq<byte>) {
      compress(file).Some? ==> decompress(compress(file).value, |file|) == Some(file)
    }
  }

  /** The fields of the JSON object a file travels in. */
  datatype Packet = Packet(compressed: bool, originalSize: nat, content: seq<byte>)

  /** The JSON text of a packet, and a packet read from a text. */
  datatype Json = Json(render: Packet -> seq<byte>, parse: seq<byte> -> Option<Packet>)
  {
    predicate Undoes(p: Packet) {
      parse(render(p)) == Some(p)
    }
  }

  /** The bytes of a file as they go into base64, and whether zlib made them. */
  function Packed(z: Zlib, file: seq<byte>, compressing: bool): (bool, seq<byte>) {
    if compressing && z.compress(file).Some? then (true, z.compress(file).value) else (false, file)
  }

  function Pack(z: Zlib, file: seq<byte>, compressing: bool): Packet {
    var (compressed, bytes) := Packed(z, file, compressing);
    Packet(compressed, |file|, Base64.Rfc(bytes))
  }

  /** The file in a packet; None when its content does not decompress. */
  function Unpack(z: Zlib, p: Packet): Option<seq<byte>> {
    if p.compressed then z.decompress(Base64.Decoded(p.content), p.originalSize)
    else Some(Base64.Decoded(p.content))
  }

  /** What the client saves of a packet: content that does not decompress is saved as it is. */
  function Salvage(z: Zlib, p: Packet): seq<byte> {
    if Unpack(z, p).Some? then Unpack(z, p).value else Base64.Decoded(p.content)
  }

  /** The files of one machine. */
  class Disk {
    var files: map<string, seq<byte>>

    constructor ()
      ensures files == map[]
    {
      files := map[];
    }

    /** `FileUtil::readFile`: a file that cannot be opened reads as empty. */
    method ReadFile(path: string) returns (content: seq<byte>)
      ensures content == if path in files then files[path] else []
    {
      content := [];
      if path in files {
        content := files[path];
      }
    }

    /** Writing a whole file through a stream that may have failed to open. */
    method WriteFile(path: string, content: seq<byte>, opens: bool)
      modifies this
      ensures files == if opens then old(files)[path := content] else old(files)
    {
      if opens {
        files := files[path := content];
      }
    }
  }

  /** `compress` as both sides try it, and the packet they make of the outcome. */
  method MakePacket(z: Zlib, file: seq<byte>, compressing: bool) returns (p: Packet)
    ensures p == Pack(z, file, compressing)
  {
    if compressing {
      var compressed := z.compress(file);
      if compressed.Some? {
        var text := Base64.Encode(compressed.value);
        return Packet(true, |file|, text);
      }
    }
    var text := Base64.Encode(file);
    p := Packet(false, |file|, text);
  }

  /** The client's `uploadFile`: no request is made for a missing or empty file. */
  method UploadFile(z: Zlib, disk: Disk, local: string) returns (request: Option<Packet>)
    ensures request.Some? <==> local in disk.files && disk.files[local] != []
    ensures request.Some? ==> request.value == Pack(z, disk.files[local], true)
  {
    if local !in disk.files {
      return None;
    }
    var content := disk.ReadFile(local);
    if content == [] {
      return None;
    }
    var p := MakePacket(z, content, true);
    request := Some(p);
  }

  /** The server's upload handler. It reports success whenever the content decompresses, whether
      or not the file could be opened. */
  method HandleUpload(z: Zlib, disk: Disk, p: Packet, path: string, opens: bool) returns (success: bool)
    modifies disk
    ensures success <==> Unpack(z, p).Some?
    ensures disk.files ==
      if success && opens then old(disk.files)[path := Unpack(z, p).value] else old(disk.files)
  {
    var bytes := Base64.Decode(p.content);
    var content;
    if p.compressed {
      var whole := z.decompress(bytes, p.originalSize);
      if whole.None? {
        return false;
      }
      content := whole.value;
    } else {
      content := bytes;
    }
    disk.WriteFile(path, content, opens);
    success := true;
  }

  /** The server's download handler: a missing file is sent as an empty one. */
  method HandleDownload(z: Zlib, disk: Disk, path: string, compressing: bool) returns (response: Packet)
    ensures response == Pack(z, if path in disk.files then disk.files[path] else [], compressing)
  {
    var content := disk.ReadFile(path);
    response := MakePacket(z, content, compressing);
  }

  /** The client's handling of a download response, saving to `current_download_file_`. */
  method Save(z: Zlib, disk: Disk, p: Packet, local: string, opens: bool)
    modifies disk
    ensures disk.files == if opens then old(disk.files)[local := Salvage(z, p)] else old(disk.files)
  {
    if opens {
      var bytes := Base64.Decode(p.content);
      if p.compressed {
        var whole := z.decompress(bytes, p.originalSize);
        if whole.Some? {
          disk.WriteFile(local, whole.value, true);
        } else {
          disk.WriteFile(local, bytes, true);
        }
      } else {
        disk.WriteFile(local, bytes, true);
      }
    }
  }

  /** Preservation: a file comes out of its packet as it went in exactly when zlib, if it was
      used at all, undoes itself on that file. base64 and the packet lose nothing. */
  lemma {:induction false} PreservedIff(z: Zlib, file: seq<byte>, compressing: bool)
    ensures Unpack(z, Pack(z, file, compressing)) == Some(file) <==> !compressing || z.Undoes(file)
  {
    hide Base64.Rfc, Base64.Decoded;
    Base64.RoundTrip(Packed(z, file, compressing).1);
  }

  lemma {:induction false} DownloadPreserves(z: Zlib, file: seq<byte>, compressing: bool)
    requires compressing ==> z.Undoes(file)
    ensures Salvage(z, Pack(z, file, compressing)) == file
  {
    hide Unpack, Pack;
    PreservedIff(z, file, compressing);
  }

  /** Every packet unpacks, whoever made it, unless it says it is compressed and does not decompress
      to its original size. */
  lemma UnpacksUnless(z: Zlib, p: Packet)
    ensures Unpack(z, p).None? <==> p.compressed && z.decompress(Base64.Decoded(p.content), p.originalSize).None?
    ensures !p.compressed ==> Unpack(z, p) == Some(Base64.Decoded(p.content))
  {
  }

  /** What the client saves of a file that was packed for it, whatever zlib does: the file itself if
      it was sent plain, what decompression gives if it succeeds, and the compressed bytes if not. */
  lemma SavedExactly(z: Zlib, file: seq<byte>, compressing: bool)
    ensures var saved := Salvage(z, Pack(z, file, compressing));
      if !compressing || z.compress(file).None? then saved == file
      else
        var small := z.compress(file).value;
        saved == if z.decompress(small, |file|).Some? then z.decompress(small, |file|).value else small
  {
    hide Base64.Rfc, Base64.Decoded;
    Base64.RoundTrip(Packed(z, file, compressing).1);
  }

  /** What comes out of the text of a message: None when it is not a packet or does not decompress. */
  function Delivered(z: Zlib, json: Json, text: seq<byte>): Option<seq<byte>> {
    var p := json.parse(text);
    if p.None? then None else Unpack(z, p.value)
  }

  /** One frame behind others is parsed, or stops the parser, as its length says. */
  lemma OverTheWire(limit: int, m: Msg, before: seq<Msg>, after: seq<byte>)
    requires AllWithin(limit, before) && IsShort(m.id) && m.id <= limit && |m.body| <= MAX_BODY
    ensures
      var p := Parse(limit, Frames(before) + Encode(m) + after);
      p == if |m.body| <= limit then Prepend(before + [m], Parse(limit, after))
           else Parsed(before, Encode(m) + after, Rejected)
  {
    var s := Encode(m) + after;
    assert Frames(before) + s == Frames(before) + Encode(m) + after;
    HeaderFields(m.id, |m.body|, m.body + after);
    assert s == Header(m.id, |m.body|) + (m.body + after);
    assert |m.body| > limit ==> HeaderOver(limit, s);
    hide Frames, Parse, Encode, HeaderOver, Header;
    if |m.body| <= limit {
      ParseFrames(limit, before, s);
      ParseFrame(limit, m, after);
      PrependTwice(before, [m], Parse(limit, after));
    } else {
      RejectionCuts(limit, before, s);
    }
  }

  /** `send(text, id)`, behind whatever was sent before and ahead of whatever is sent after, hands
      the reader that message, whole and in its place. */
  predicate Arrives(limit: int, id: int, text: seq<byte>, before: seq<Msg>, after: seq<byte>) {
    && Framable(ToShort(|text|))
    && Parse(limit, Frames(before) + Encode(Narrowed(text, id)) + after)
       == Prepend(before + [Msg(id, text)], Parse(limit, after))
  }

  lemma {:induction false} ArrivesIff(limit: int, id: int, text: seq<byte>, before: seq<Msg>, after: seq<byte>)
    requires AllWithin(limit, before) && IsShort(id) && id <= limit
    ensures Arrives(limit, id, text, before, after) <==> |text| <= limit && |text| <= 32763
  {
    hide Frames, Parse, Encode;
    NarrowedIsWhole(text, id);
    if Framable(ToShort(|text|)) {
      var m, m' := Narrowed(text, id), Msg(id, text);
      OverTheWire(limit, m, before, after);
      var more := Parse(limit, after).msgs;
      assert |m.body| <= limit ==> (before + [m] + more)[|before|] == m;
      assert (before + [m'] + more)[|before|] == m';
      assert |before + [m'] + more| > |before|;
    }
  }

  /** An upload over the wire: the request arrives exactly when its text has at most 2048 bytes,
      and what the handler finds in it is the client's file. */
  lemma {:induction false} UploadArrives(z: Zlib, json: Json, file: seq<byte>, before: seq<Msg>, after: seq<byte>)
    requires z.Undoes(file) && json.Undoes(Pack(z, file, true)) && AllWithin(MAX_LENGTH, before)
    ensures
      var text := json.render(Pack(z, file, true));
      && (Arrives(MAX_LENGTH, 1005, text, before, after) <==> |text| <= 2048)
      && Delivered(z, json, text) == Some(file)
  {
    hide Pack, Unpack, Arrives;
    PreservedIff(z, file, true);
    ArrivesIff(MAX_LENGTH, MSG_UPLOAD, json.render(Pack(z, file, true)), before, after);
  }

  /** Since the text holds the base64 content, no file whose packed form exceeds 1536 bytes arrives.
      By the length of the text as a `short`, nothing is sent, or the server rejects the header and
      drops the connection, or the server is handed that much of the beginning of the text. */
  lemma {:induction false} UploadLimit(z: Zlib, json: Json, file: seq<byte>, before: seq<Msg>, after: seq<byte>)
    requires AllWithin(MAX_LENGTH, before)
    requires |Pack(z, file, true).content| <= |json.render(Pack(z, file, true))|
    requires 1536 < |Packed(z, file, true).1|
    ensures
      var text := json.render(Pack(z, file, true));
      var length := ToShort(|text|);
      && !Arrives(MAX_LENGTH, MSG_UPLOAD, text, before, after)
      && (Framable(length) ==>
            var m := Narrowed(text, MSG_UPLOAD);
            var p := Parse(MAX_LENGTH, Frames(before) + Encode(m) + after);
            && (length > MAX_LENGTH ==> p == Parsed(before, Encode(m) + after, Rejected))
            && (length <= MAX_LENGTH ==>
                  && p == Prepend(before + [m], Parse(MAX_LENGTH, after))
                  && m.body == text[..length] && length < |text|))
  {
    var text := json.render(Pack(z, file, true));
    Base64.RfcLength(Packed(z, file, true).1);
    hide Base64.Rfc, Frames, Parse, Encode, Arrives;
    ArrivesIff(MAX_LENGTH, MSG_UPLOAD, text, before, after);
    if Framable(ToShort(|text|)) {
      OverTheWire(MAX_LENGTH, Narrowed(text, MSG_UPLOAD), before, after);
    }
  }

  /** A download over the wire: the response arrives exactly when its text has at most 32763
      bytes, and what the client saves of it is the server's file. */
  lemma {:induction false} DownloadArrives(
      z: Zlib, json: Json, file: seq<byte>, compressing: bool, before: seq<Msg>, after: seq<byte>)
    requires compressing ==> z.Undoes(file)
    requires json.Undoes(Pack(z, file, compressing)) && AllWithin(NO_LIMIT, before)
    ensures
      var text := json.render(Pack(z, file, compressing));
      && (Arrives(NO_LIMIT, 1006, text, before, after) <==> |text| <= 32763)
      && json.parse(text).Some? && Salvage(z, json.parse(text).value) == file
  {
    hide Pack, Salvage, Arrives;
    DownloadPreserves(z, file, compressing);
    ArrivesIff(NO_LIMIT, MSG_DOWNLOAD, json.render(Pack(z, file, compressing)), before, after);
  }
}

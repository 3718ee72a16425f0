/**
  lucp_frame_t and the functions that fill it and move it through byte buffers
  (lucplib/lucp.h, lines 47-57; lucplib/lucp.c, lines 62-210).
 */
module FrameIO {
  import opened ByteOrder
  import opened Codec
  import opened Sequences

  class FrameStruct {
    var magic: bv32
    var versionMajor: byte
    var versionMinor: byte
    var seqNum: bv32
    var msgType: byte
    var status: byte
    var textInfoLen: bv16
    const textInfo: array<byte>

    ghost predicate Valid()
    {
      textInfo.Length == MAX_TEXT
    }

    /** The frame held, with the text cut at the capacity of the array. */
    ghost function Value(): Frame
      requires Valid()
      reads this, textInfo
    {
      Frame(magic, versionMajor, versionMinor, seqNum, msgType, status, textInfoLen,
            textInfo[..if Size(textInfoLen) <= MAX_TEXT then Size(textInfoLen) else MAX_TEXT])
    }

    constructor ()
      ensures Valid() && fresh(textInfo)
    {
      textInfo := new byte[MAX_TEXT];
    }
  }

  /** memcpy between byte arrays that do not overlap, or memmove within one. */
  method CopyBytes(dst: array<byte>, at: nat, src: array<byte>, from: nat, count: nat)
    requires at + count <= dst.Length && from + count <= src.Length
    modifies dst
    ensures dst[..] == Overwrite(old(dst[..]), at, old(src[from..from + count]))
  {
    forall i | 0 <= i < count {
      dst[at + i] := src[from + i];
    }
  }

  /** memcpy of a few bytes held in a word or a field. */
  method PutBytes(buf: array<byte>, at: nat, bytes: seq<byte>)
    requires at + |bytes| <= buf.Length
    modifies buf
    ensures buf[..] == Overwrite(old(buf[..]), at, bytes)
  {
    forall i | 0 <= i < |bytes| {
      buf[at + i] := bytes[i];
    }
  }

  function Image32(m: Mem32): (s: seq<byte>)
    ensures |s| == 4
  {
    [m.b0, m.b1, m.b2, m.b3]
  }

  function Image16(m: Mem16): (s: seq<byte>)
    ensures |s| == 2
  {
    [m.b0, m.b1]
  }

  lemma HeaderInPieces(f: Frame)
    ensures Header(f) == Image32(Network32(f.magic)) + [f.major, f.minor] + Image32(Network32(f.seqNum))
                         + [f.msgType, f.status] + Image16(Network16(f.textLen))
  {
    hide Network32, Network16;
  }

  method PackHeader(host: Host, frame: FrameStruct, buf: array<byte>) returns (offset: nat)
    requires frame.Valid() && HEADER_SIZE <= buf.Length && buf != frame.textInfo
    modifies buf
    ensures offset == HEADER_SIZE
    ensures buf[..] == Overwrite(old(buf[..]), 0, Header(frame.Value()))
  {
    hide Network32, Network16, HostToNet32, HostToNet16, Store32, Store16, Header, Image32, Image16, Overwrite;
    ghost var b := buf[..];
    var magic := Image32(Store32(host, HostToNet32(host, frame.magic)));
    var seqNum := Image32(Store32(host, HostToNet32(host, frame.seqNum)));
    var plen := Image16(Store16(host, HostToNet16(host, frame.textInfoLen)));
    var version, kind := [frame.versionMajor, frame.versionMinor], [frame.msgType, frame.status];
    PutBytes(buf, 0, magic);
    PutBytes(buf, 4, version);
    OverwriteAppend(b, magic, version);
    PutBytes(buf, 6, seqNum);
    OverwriteAppend(b, magic + version, seqNum);
    PutBytes(buf, 10, kind);
    OverwriteAppend(b, magic + version + seqNum, kind);
    PutBytes(buf, 12, plen);
    OverwriteAppend(b, magic + version + seqNum + kind, plen);
    HeaderInPieces(frame.Value());
    PackedBytesAreBigEndian(host, frame.magic, frame.textInfoLen);
    PackedBytesAreBigEndian(host, frame.seqNum, frame.textInfoLen);
    return 14;
  }

  /** lucp_frame_pack: -1 and an untouched buffer, or the encoding at the start of the buffer. */
  method Pack(host: Host, frame: FrameStruct, buf: array<byte>, buflen: nat) returns (n: int)
    requires frame.Valid() && buflen <= buf.Length && buf != frame.textInfo
    modifies buf
    ensures n == -1 <==> buflen < HEADER_SIZE + Size(frame.textInfoLen) || Size(frame.textInfoLen) > MAX_TEXT
    ensures n == -1 ==> buf[..] == old(buf[..])
    ensures n != -1 ==> n == |Encode(frame.Value())| <= buflen
                        && buf[..] == Overwrite(old(buf[..]), 0, Encode(frame.Value()))
  {
    hide Header, Overwrite, Size;
    if buflen < HEADER_SIZE + Size(frame.textInfoLen) {
      return -1;
    }
    if Size(frame.textInfoLen) > MAX_TEXT {
      return -1;
    }
    var offset := PackHeader(host, frame, buf);
    ghost var f := frame.Value();
    OverwriteAppend(old(buf[..]), Header(f), f.text);
    if Size(frame.textInfoLen) > 0 {
      CopyBytes(buf, offset, frame.textInfo, 0, Size(frame.textInfoLen));
      offset := offset + Size(frame.textInfoLen);
    } else {
      assert f.text == [];
      assert Encode(f) == Header(f);
    }
    return offset;
  }

  /** The header fields of a frame, copied out of a buffer that holds a header. */
  method UnpackHeader(host: Host, frame: FrameStruct, buf: array<byte>)
    requires HEADER_SIZE <= buf.Length
    modifies frame
    ensures frame.magic == MagicOf(buf[..]) && frame.textInfoLen == TextLenOf(buf[..])
    ensures frame.versionMajor == buf[4] && frame.versionMinor == buf[5]
    ensures frame.msgType == buf[10] && frame.status == buf[11]
    ensures frame.seqNum == FromNetwork32(Mem32(buf[6], buf[7], buf[8], buf[9]))
  {
    hide FromNetwork32, FromNetwork16, NetToHost32, NetToHost16, Load32, Load16;
    var m := Mem32(buf[0], buf[1], buf[2], buf[3]);
    var q := Mem32(buf[6], buf[7], buf[8], buf[9]);
    var l := Mem16(buf[12], buf[13]);
    LoadedBytesAreBigEndian(host, m, l);
    LoadedBytesAreBigEndian(host, q, l);
    frame.magic := NetToHost32(host, Load32(host, m));
    frame.versionMajor := buf[4];
    frame.versionMinor := buf[5];
    frame.seqNum := NetToHost32(host, Load32(host, q));
    frame.msgType := buf[10];
    frame.status := buf[11];
    frame.textInfoLen := NetToHost16(host, Load16(host, l));
  }

  /** The magic number at the start of a buffer. */
  method UnpackMagic(host: Host, buf: array<byte>) returns (magic: bv32)
    requires HEADER_SIZE <= buf.Length
    ensures magic == MagicOf(buf[..])
  {
    hide FromNetwork32, FromNetwork16, NetToHost32, NetToHost16, Load32, Load16;
    var m := Mem32(buf[0], buf[1], buf[2], buf[3]);
    LoadedBytesAreBigEndian(host, m, Mem16(0, 0));
    return NetToHost32(host, Load32(host, m));
  }

  lemma HeaderOfPrefix(s: seq<byte>, n: nat)
    requires HEADER_SIZE <= n <= |s|
    ensures MagicOf(s[..n]) == MagicOf(s) && TextLenOf(s[..n]) == TextLenOf(s)
  {
    hide FromNetwork32, FromNetwork16;
  }

  /**
    lucp_frame_unpack: the verdict of the decoder on the first buflen bytes; a complete
    frame is stored, text past its length is left as it was.
   */
  method Unpack(host: Host, frame: FrameStruct, buf: array<byte>, buflen: nat) returns (n: int)
    requires frame.Valid() && buflen <= buf.Length && buf != frame.textInfo
    modifies frame, frame.textInfo
    ensures match Decode(buf[..buflen])
            case Incomplete => n == 0
            case Corrupt => n == -1
            case Got(f, size) => n == size > 0 && frame.Value() == f
                                 && frame.textInfo[size - HEADER_SIZE..] == old(frame.textInfo[size - HEADER_SIZE..])
    ensures n <= 0 ==> frame.textInfo[..] == old(frame.textInfo[..])
  {
    hide FromNetwork32, MagicOf, TextLenOf, Size, Overwrite;
    if buflen < HEADER_SIZE {
      return 0;
    }
    HeaderOfPrefix(buf[..], buflen);
    var magic := UnpackMagic(host, buf);
    if magic != MAGIC {
      return -1;
    }
    UnpackHeader(host, frame, buf);
    var len := Size(frame.textInfoLen);
    if len > MAX_TEXT {
      return -1;
    }
    if buflen < HEADER_SIZE + len {
      return 0;
    }
    ghost var text := buf[..buflen][HEADER_SIZE..HEADER_SIZE + len];
    OverwriteStart(frame.textInfo[..], text);
    if len > 0 && len <= MAX_TEXT {
      SliceOfPrefix(buf[..], buflen, HEADER_SIZE, HEADER_SIZE + len);
      CopyBytes(frame.textInfo, 0, buf, HEADER_SIZE, len);
    }
    assert frame.textInfo[..len] == frame.textInfo[..][..len] == text;
    assert frame.textInfo[len..] == frame.textInfo[..][len..];
    return HEADER_SIZE + len;
  }

  /** A text length cut at the capacity. */
  function Clamped(n: bv16): (len: bv16)
    ensures Size(len) == if Size(n) > MAX_TEXT then MAX_TEXT else Size(n)
  {
    if Size(n) > MAX_TEXT then 1010 else n
  }

  /** The frame lucp_frame_make builds from a text of n bytes. */
  function Made(seqNum: bv32, msgType: byte, status: byte, text: seq<byte>, n: bv16): (f: Frame)
    requires Size(Clamped(n)) <= |text|
    ensures Valid(f)
  {
    var len := Clamped(n);
    Frame(MAGIC, VERSION_MAJOR, VERSION_MINOR, seqNum, msgType, status, len, text[..Size(len)])
  }

  /** A frame made has the given fields, and as its text the first bytes of the given one, at most 1010. */
  lemma MadeOf(seqNum: bv32, msgType: byte, status: byte, text: seq<byte>, n: bv16)
    requires Size(Clamped(n)) <= |text|
    ensures var f := Made(seqNum, msgType, status, text, n);
      && f.magic == 0x4C554350 && f.major == 1 && f.minor == 0
      && f.seqNum == seqNum && f.msgType == msgType && f.status == status
      && f.text == text[..if Size(n) > 1010 then 1010 else Size(n)] && Size(f.textLen) == |f.text|
  {
  }

  /** lucp_frame_make; without a text only the length is set, and the bytes already in the frame become its text. */
  method Make(frame: FrameStruct, seqNum: bv32, msgType: byte, status: byte, textInfo: array?<byte>, textInfoLen: bv16)
    requires frame.Valid() && textInfo != frame.textInfo
    requires textInfo != null ==> Size(Clamped(textInfoLen)) <= textInfo.Length
    modifies frame, frame.textInfo
    ensures Valid(frame.Value())
    ensures frame.magic == 0x4C554350 && frame.versionMajor == 1 && frame.versionMinor == 0
    ensures frame.seqNum == seqNum && frame.msgType == msgType && frame.status == status
    ensures var n := Size(frame.textInfoLen);
      && n == (if Size(textInfoLen) > 1010 then 1010 else Size(textInfoLen))
      && frame.textInfo[..n] == (if textInfo != null then textInfo[..n] else old(frame.textInfo[..n]))
      && frame.textInfo[n..] == old(frame.textInfo[n..])
    ensures var text := if textInfo != null then textInfo[..] else old(frame.textInfo[..]);
      frame.Value() == Made(seqNum, msgType, status, text, textInfoLen)
  {
    hide Size, Clamped, Overwrite;
    var len := Clamped(textInfoLen);
    frame.magic := MAGIC;
    frame.versionMajor := VERSION_MAJOR;
    frame.versionMinor := VERSION_MINOR;
    frame.seqNum := seqNum;
    frame.msgType := msgType;
    frame.status := status;
    frame.textInfoLen := len;
    if textInfo != null && Size(len) > 0 {
      OverwriteStart(frame.textInfo[..], textInfo[..Size(len)]);
      CopyBytes(frame.textInfo, 0, textInfo, 0, Size(len));
    }
  }
}

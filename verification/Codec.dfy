/**
  The LUCP frame format as a pure codec: what lucp_frame_pack and
  lucp_frame_unpack (lucplib/lucp.c, lines 62-176) compute, on values.
 */
module Codec {
  import opened ByteOrder
  import opened Sequences

  const MAGIC: bv32 := 0x4C554350
  const VERSION_MAJOR: byte := 1
  const VERSION_MINOR: byte := 0
  const HEADER_SIZE := 14
  const MAX_TEXT := 1010
  const MAX_FRAME := 1024

  /** A frame; only the first textLen bytes of the source's text array belong to it. */
  datatype Frame = Frame(
    magic: bv32,
    major: byte,
    minor: byte,
    seqNum: bv32,
    msgType: byte,
    status: byte,
    textLen: bv16,
    text: seq<byte>)

  /** A length field as a number of bytes. */
  function Size(n: bv16): nat {
    n as int
  }

  /** The frames lucp_frame_pack accepts. */
  predicate Packable(f: Frame) {
    |f.text| == Size(f.textLen) <= MAX_TEXT
  }

  /** The packable frames a receiver accepts. */
  predicate Valid(f: Frame) {
    Packable(f) && f.magic == MAGIC
  }

  function Header(f: Frame): (h: seq<byte>)
    ensures |h| == HEADER_SIZE
  {
    var m := Network32(f.magic);
    var q := Network32(f.seqNum);
    var n := Network16(f.textLen);
    [m.b0, m.b1, m.b2, m.b3, f.major, f.minor, q.b0, q.b1, q.b2, q.b3, f.msgType, f.status, n.b0, n.b1]
  }

  function Encode(f: Frame): (s: seq<byte>)
    ensures |s| == HEADER_SIZE + |f.text|
  {
    Header(f) + f.text
  }

  datatype Verdict = Incomplete | Corrupt | Got(frame: Frame, size: nat)

  function MagicOf(s: seq<byte>): bv32
    requires |s| >= HEADER_SIZE
  {
    FromNetwork32(Mem32(s[0], s[1], s[2], s[3]))
  }

  function TextLenOf(s: seq<byte>): bv16
    requires |s| >= HEADER_SIZE
  {
    FromNetwork16(Mem16(s[12], s[13]))
  }

  function FrameAt(s: seq<byte>): Frame
    requires |s| >= HEADER_SIZE
    requires HEADER_SIZE + Size(TextLenOf(s)) <= |s|
  {
    Frame(MagicOf(s), s[4], s[5], FromNetwork32(Mem32(s[6], s[7], s[8], s[9])), s[10], s[11],
          TextLenOf(s), s[HEADER_SIZE..HEADER_SIZE + Size(TextLenOf(s))])
  }

  /** The decision of lucp_frame_unpack on the bytes received so far. */
  function Decode(s: seq<byte>): Verdict {
    if |s| < HEADER_SIZE then Incomplete
    else if MagicOf(s) != MAGIC then Corrupt
    else if Size(TextLenOf(s)) > MAX_TEXT then Corrupt
    else if |s| < HEADER_SIZE + Size(TextLenOf(s)) then Incomplete
    else Got(FrameAt(s), HEADER_SIZE + Size(TextLenOf(s)))
  }

  // ---- The wire format ----

  lemma LongSize(n: bv16)
    requires n > 1010
    ensures Size(n) > 1010
  {
  }

  lemma ShortSize(n: bv16)
    requires n <= 1010
    ensures Size(n) <= 1010
  {
  }

  lemma Exceeds(a: byte, b: byte)
    ensures Join16(a, b) > 1010 <==> a > 3 || (a == 3 && b > 0xF2)
  {
  }

  lemma SizeExceeds(a: byte, b: byte)
    ensures Size(Join16(a, b)) > 1010 <==> a > 3 || (a == 3 && b > 0xF2)
  {
    hide Size, Join16;
    Exceeds(a, b);
    if Join16(a, b) > 1010 {
      LongSize(Join16(a, b));
    } else {
      ShortSize(Join16(a, b));
    }
  }

  lemma MagicIs(a: byte, b: byte, c: byte, d: byte)
    ensures Join32(a, b, c, d) == MAGIC <==> a == 0x4C && b == 0x55 && c == 0x43 && d == 0x50
  {
  }

  /**
    The format, byte by byte: a header is corrupt exactly if it does not start with
    'LUCP' or announces more than 1010 (0x03F2) bytes of text, and a frame delivered has
    each field where the format puts it.
   */
  lemma WireFormat(s: seq<byte>)
    requires |s| >= 14
    ensures Decode(s).Corrupt? <==> s[..4] != [0x4C, 0x55, 0x43, 0x50] || s[12] > 3 || (s[12] == 3 && s[13] > 0xF2)
    ensures Decode(s).Got? ==>
      var f, n := Decode(s).frame, Decode(s).size;
      && n <= |s| && f.text == s[14..n] && Network16(f.textLen) == Mem16(s[12], s[13])
      && f.major == s[4] && f.minor == s[5] && Network32(f.seqNum) == Mem32(s[6], s[7], s[8], s[9])
      && f.msgType == s[10] && f.status == s[11]
  {
    hide Network32, Network16, Join32, Join16, Size;
    MagicIs(s[0], s[1], s[2], s[3]);
    SizeExceeds(s[12], s[13]);
    Network32Inverse(0, Mem32(s[6], s[7], s[8], s[9]));
    Network16Inverse(0, Mem16(s[12], s[13]));
    assert s[..4] == [s[0], s[1], s[2], s[3]];
  }

  // ---- Round trips ----

  lemma HeaderFields(f: Frame, s: seq<byte>)
    requires |s| >= HEADER_SIZE && s[..HEADER_SIZE] == Header(f)
    ensures MagicOf(s) == f.magic && TextLenOf(s) == f.textLen
    ensures FromNetwork32(Mem32(s[6], s[7], s[8], s[9])) == f.seqNum
    ensures s[4] == f.major && s[5] == f.minor && s[10] == f.msgType && s[11] == f.status
  {
    hide Network32, FromNetwork32, Network16, FromNetwork16, Size;
    var h := Header(f);
    assert forall i :: 0 <= i < HEADER_SIZE ==> s[i] == h[i];
    var m, q, n := Mem32(h[0], h[1], h[2], h[3]), Mem32(h[6], h[7], h[8], h[9]), Mem16(h[12], h[13]);
    assert m == Network32(f.magic) && q == Network32(f.seqNum) && n == Network16(f.textLen);
    Network32Inverse(f.magic, m);
    Network32Inverse(f.seqNum, q);
    Network16Inverse(f.textLen, n);
  }

  /** Unpacking what was packed returns the same frame and consumes exactly its bytes. */
  lemma DecodeOfEncode(f: Frame, rest: seq<byte>)
    requires Valid(f)
    ensures Decode(Encode(f) + rest) == Got(f, |Encode(f)|)
  {
    hide Network32, FromNetwork32, Network16, FromNetwork16, Size;
    var s := Encode(f) + rest;
    assert s[..HEADER_SIZE] == Header(f);
    HeaderFields(f, s);
    assert s[HEADER_SIZE..HEADER_SIZE + |f.text|] == f.text;
  }

  /** Re-packing an unpacked prefix reproduces its bytes. */
  lemma EncodeOfDecode(s: seq<byte>)
    requires Decode(s).Got?
    ensures Valid(Decode(s).frame)
    ensures Decode(s).size == |Encode(Decode(s).frame)| <= |s|
    ensures s[..Decode(s).size] == Encode(Decode(s).frame)
  {
    hide Network32, FromNetwork32, Network16, FromNetwork16, Size;
    var f, n := Decode(s).frame, Decode(s).size;
    Network32Inverse(f.magic, Mem32(s[0], s[1], s[2], s[3]));
    Network32Inverse(f.seqNum, Mem32(s[6], s[7], s[8], s[9]));
    Network16Inverse(f.textLen, Mem16(s[12], s[13]));
    assert s[..HEADER_SIZE] == Header(f);
    assert s[..n] == s[..HEADER_SIZE] + s[HEADER_SIZE..n];
  }

  // ---- The verdict depends on the stream alone ----

  lemma HeaderStable(s: seq<byte>, t: seq<byte>)
    requires |s| >= HEADER_SIZE
    ensures MagicOf(s + t) == MagicOf(s) && TextLenOf(s + t) == TextLenOf(s)
  {
    hide FromNetwork32, FromNetwork16;
  }

  /** A verdict is never revised by bytes that arrive later. */
  lemma DecodeStable(s: seq<byte>, t: seq<byte>)
    requires !Decode(s).Incomplete?
    ensures Decode(s + t) == Decode(s)
  {
    hide Network32, FromNetwork32, Network16, FromNetwork16, Size;
    var u := s + t;
    assert forall i :: 0 <= i < HEADER_SIZE ==> u[i] == s[i];
    if Decode(s).Got? {
      assert u[HEADER_SIZE..Decode(s).size] == s[HEADER_SIZE..Decode(s).size];
    }
  }

  /** An undecided prefix leaves at least 1025 of the 2048 receive bytes free. */
  lemma IncompleteIsShort(s: seq<byte>)
    ensures Decode(s).Incomplete? ==> |s| < MAX_FRAME
    ensures Decode(s).Corrupt? ==> |s| >= HEADER_SIZE
  {
  }

  function Zeros(n: nat): (z: seq<byte>)
    ensures |z| == n
  {
    seq(n, i => 0)
  }

  /** Some valid frame whose encoding extends s. */
  function Completion(s: seq<byte>): Frame
    requires |s| >= HEADER_SIZE
  {
    var n := Size(TextLenOf(s));
    HeaderStable(s, Zeros(n));
    FrameAt(s + Zeros(n))
  }

  lemma CompletionDecodes(s: seq<byte>)
    requires |s| >= HEADER_SIZE && Decode(s).Incomplete?
    ensures Decode(s + Zeros(Size(TextLenOf(s)))) == Got(Completion(s), HEADER_SIZE + Size(TextLenOf(s)))
  {
    hide MagicOf, TextLenOf, FrameAt;
    HeaderStable(s, Zeros(Size(TextLenOf(s))));
  }

  lemma CompletionExtends(s: seq<byte>)
    requires |s| >= HEADER_SIZE && Decode(s).Incomplete?
    ensures Valid(Completion(s)) && s < Encode(Completion(s))
  {
    var n := Size(TextLenOf(s));
    var u, m := s + Zeros(n), HEADER_SIZE + n;
    assert |s| < m;
    CompletionDecodes(s);
    hide *;
    EncodeOfDecode(u);
    assert u[..m] == Encode(Completion(s));
    PrefixOfPrefix(s, Zeros(n), m);
    assert |u[..m]| == m;
  }

  /**
    The decoder against the set of valid encodings: it delivers f exactly when s
    starts with the encoding of f, and past the header it waits exactly when s can
    still grow into a valid encoding; every other input is corrupt.
   */
  lemma DecodeCharacterised(s: seq<byte>, f: Frame)
    ensures Decode(s) == Got(f, |Encode(f)|) <==> Valid(f) && Encode(f) <= s
    ensures Decode(s).Got? ==> Decode(s).size == |Encode(Decode(s).frame)|
    ensures Decode(s).Incomplete? <==> |s| < HEADER_SIZE || exists g :: Valid(g) && s < Encode(g)
  {
    hide Encode, Valid, FrameAt, MagicOf, TextLenOf;
    if Valid(f) && Encode(f) <= s {
      DecodeOfEncode(f, s[|Encode(f)|..]);
      assert s == Encode(f) + s[|Encode(f)|..];
    }
    if Decode(s).Got? {
      EncodeOfDecode(s);
    }
    if |s| >= HEADER_SIZE && Decode(s).Incomplete? {
      CompletionExtends(s);
    }
    if g :| Valid(g) && s < Encode(g) && !Decode(s).Incomplete? {
      DecodeStable(s, Encode(g)[|s|..]);
      assert s + Encode(g)[|s|..] == Encode(g) + [];
      DecodeOfEncode(g, []);
      assert false;
    }
  }
}

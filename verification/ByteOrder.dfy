/**
  Host and network byte order (lucplib/lucp.c, lines 29-60).

  A word's object representation is modelled as the tuple of its bytes in
  increasing address order, for both a little-endian and a big-endian host.
  `memcpy` between a word and a byte buffer is `Store`/`Load` on that tuple.
 */
module ByteOrder {

  type byte = bv8

  datatype Host = LittleEndian | BigEndian

  datatype Mem32 = Mem32(b0: byte, b1: byte, b2: byte, b3: byte)

  datatype Mem16 = Mem16(b0: byte, b1: byte)

  // ---- Network order: most significant byte first (RFC 791, Appendix B) ----

  function Network32(w: bv32): Mem32 {
    Mem32(((w >> 24) & 0xFF) as byte, ((w >> 16) & 0xFF) as byte, ((w >> 8) & 0xFF) as byte, (w & 0xFF) as byte)
  }

  function Join32(a: byte, b: byte, c: byte, d: byte): bv32 {
    ((a as bv32) << 24) | ((b as bv32) << 16) | ((c as bv32) << 8) | (d as bv32)
  }

  function FromNetwork32(m: Mem32): bv32 {
    Join32(m.b0, m.b1, m.b2, m.b3)
  }

  function Network16(w: bv16): Mem16 {
    Mem16(((w >> 8) & 0xFF) as byte, (w & 0xFF) as byte)
  }

  function Join16(a: byte, b: byte): bv16 {
    ((a as bv16) << 8) | (b as bv16)
  }

  function FromNetwork16(m: Mem16): bv16 {
    Join16(m.b0, m.b1)
  }

  // ---- Object representation on a host ----

  function Reversed32(m: Mem32): Mem32 {
    Mem32(m.b3, m.b2, m.b1, m.b0)
  }

  function Store32(host: Host, w: bv32): Mem32 {
    var n := Network32(w);
    match host
    case BigEndian => n
    case LittleEndian => Reversed32(n)
  }

  function Load32(host: Host, m: Mem32): bv32 {
    match host
    case BigEndian => FromNetwork32(m)
    case LittleEndian => FromNetwork32(Reversed32(m))
  }

  function Store16(host: Host, w: bv16): Mem16 {
    var n := Network16(w);
    match host
    case BigEndian => n
    case LittleEndian => Mem16(n.b1, n.b0)
  }

  function Load16(host: Host, m: Mem16): bv16 {
    match host
    case BigEndian => FromNetwork16(m)
    case LittleEndian => FromNetwork16(Mem16(m.b1, m.b0))
  }

  // ---- The conversions of the source ----

  /** Reads the first byte of the object representation of a known word. */
  predicate IsBigEndian(host: Host) {
    Store32(host, 0x01020304).b0 == 0x01
  }

  /** The manual reversal used on a little-endian host. */
  function Swap32(w: bv32): bv32 {
    ((w & 0xFF000000) >> 24) | ((w & 0x00FF0000) >> 8) | ((w & 0x0000FF00) << 8) | ((w & 0x000000FF) << 24)
  }

  function HostToNet32(host: Host, w: bv32): bv32 {
    if IsBigEndian(host) then w else Swap32(w)
  }

  function NetToHost32(host: Host, w: bv32): bv32 {
    HostToNet32(host, w)
  }

  function Swap16(w: bv16): bv16 {
    (w >> 8) | (w << 8)
  }

  function HostToNet16(host: Host, w: bv16): bv16 {
    if IsBigEndian(host) then w else Swap16(w)
  }

  function NetToHost16(host: Host, w: bv16): bv16 {
    HostToNet16(host, w)
  }

  // ---- What the conversions mean ----

  lemma DetectsByteOrder(host: Host)
    ensures IsBigEndian(host) <==> host == BigEndian
  {
  }

  lemma SwapOfJoin32(a: byte, b: byte, c: byte, d: byte)
    ensures Swap32(Join32(d, c, b, a)) == Join32(a, b, c, d)
  {
  }

  lemma SwapOfJoin16(a: byte, b: byte)
    ensures Swap16(Join16(b, a)) == Join16(a, b)
  {
  }

  lemma SplitOfSwap32(w: bv32)
    ensures Network32(Swap32(w)) == Reversed32(Network32(w))
  {
  }

  lemma SplitOfSwap16(h: bv16)
    ensures Network16(Swap16(h)) == Mem16(Network16(h).b1, Network16(h).b0)
  {
  }

  /** On either host a converted word lies in memory most significant byte first. */
  lemma PackedBytesAreBigEndian(host: Host, w: bv32, h: bv16)
    ensures Store32(host, HostToNet32(host, w)) == Network32(w)
    ensures Store16(host, HostToNet16(host, h)) == Network16(h)
  {
    DetectsByteOrder(host);
    match host {
      case BigEndian =>
      case LittleEndian =>
        SplitOfSwap32(w);
        SplitOfSwap16(h);
    }
  }

  /** On either host loading network-order bytes and converting reads them most significant byte first. */
  lemma LoadedBytesAreBigEndian(host: Host, m: Mem32, k: Mem16)
    ensures NetToHost32(host, Load32(host, m)) == FromNetwork32(m)
    ensures NetToHost16(host, Load16(host, k)) == FromNetwork16(k)
  {
    DetectsByteOrder(host);
    match host {
      case BigEndian =>
      case LittleEndian =>
        SwapOfJoin32(m.b0, m.b1, m.b2, m.b3);
        SwapOfJoin16(k.b0, k.b1);
    }
  }

  lemma Network32Inverse(w: bv32, m: Mem32)
    ensures FromNetwork32(Network32(w)) == w
    ensures Network32(FromNetwork32(m)) == m
  {
  }

  lemma Network16Inverse(w: bv16, m: Mem16)
    ensures FromNetwork16(Network16(w)) == w
    ensures Network16(FromNetwork16(m)) == m
  {
  }

  /** A word written by one host is read as the same word by any other host. */
  lemma CrossHost(writer: Host, reader: Host, w: bv32, h: bv16)
    ensures NetToHost32(reader, Load32(reader, Store32(writer, HostToNet32(writer, w)))) == w
    ensures NetToHost16(reader, Load16(reader, Store16(writer, HostToNet16(writer, h)))) == h
  {
    PackedBytesAreBigEndian(writer, w, h);
    LoadedBytesAreBigEndian(reader, Network32(w), Network16(h));
    Network32Inverse(w, Network32(w));
    Network16Inverse(h, Network16(h));
  }
}

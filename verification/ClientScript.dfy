/** The client's script (demo/lucp_client_demo.c, lines 32-136): what a run may send after what it received. */
module ClientScript {
  import opened ByteOrder
  import opened Codec
  import opened FrameIO
  import opened Session

  const SEQ: bv32 := 10001
  const FTP_LOGIN_FAILED: byte := 0x20
  const FTP_DOWNLOAD_FAILED: byte := 0x21
  const REQUEST_TEXT := "Request log preparation"

  lemma RequestLength()
    ensures Size(23) == |REQUEST_TEXT|
  {
  }

  function Request(): (f: Frame)
    ensures Valid(f) && f.msgType == UPLOAD_REQUEST && f.seqNum == SEQ && f.major == VERSION_MAJOR
  {
    RequestLength();
    Made(SEQ, UPLOAD_REQUEST, 0, Ascii(REQUEST_TEXT), 23)
  }

  /** A result message of this client; its text is whatever the payload buffer holds. */
  predicate IsResult(f: Frame, msgType: byte, failure: byte) {
    Valid(f) && f.msgType == msgType && f.seqNum == SEQ && (f.status == STAT_SUCCESS || f.status == failure)
  }

  predicate IsLogin(f: Frame) {
    IsResult(f, FTP_LOGIN_RESULT, FTP_LOGIN_FAILED)
  }

  predicate IsDownload(f: Frame) {
    IsResult(f, FTP_DOWNLOAD_RESULT, FTP_DOWNLOAD_FAILED)
  }

  predicate AckReceived(e: Event) {
    e.Rx? && e.frame.msgType == ACK_START
  }

  predicate LogReady(e: Event) {
    e.Rx? && e.frame.msgType == NOTIFY_DONE && e.frame.status == STAT_SUCCESS
  }

  /** The order of the script: each event only after the one before it went well. */
  predicate Scripted(tr: seq<Event>) {
    && |tr| <= 5
    && (|tr| > 0 ==> tr[0] == Tx(Request()))
    && (|tr| > 1 ==> tr[1].Rx?)
    && (|tr| > 2 ==> tr[2].Rx? && AckReceived(tr[1]))
    && (|tr| > 3 ==> tr[3].Tx? && IsLogin(tr[3].frame) && LogReady(tr[2]))
    && (|tr| > 4 ==> tr[4].Tx? && IsDownload(tr[4].frame) && tr[3].frame.status == STAT_SUCCESS)
  }

  /** Whether the script waits for a frame. */
  predicate Awaits(tr: seq<Event>) {
    |tr| == 1 || (|tr| == 2 && AckReceived(tr[1]))
  }

  /** Whether the script may send f next. */
  predicate MaySend(tr: seq<Event>, f: Frame) {
    || (|tr| == 0 && f == Request())
    || (|tr| == 3 && LogReady(tr[2]) && IsLogin(f))
    || (|tr| == 4 && tr[3].frame.status == STAT_SUCCESS && IsDownload(f))
  }

  /** The characters of the request's text, as numbers. */
  const REQUEST_CODES: seq<int> :=
    [0x52, 0x65, 0x71, 0x75, 0x65, 0x73, 0x74, 0x20, 0x6C, 0x6F, 0x67, 0x20,
     0x70, 0x72, 0x65, 0x70, 0x61, 0x72, 0x61, 0x74, 0x69, 0x6F, 0x6E]

  lemma RequestText()
    ensures |REQUEST_TEXT| == |REQUEST_CODES| == 23
    ensures forall i :: 0 <= i < 23 ==> REQUEST_TEXT[i] as int == REQUEST_CODES[i] < 128
  {
  }

  /** The request as it goes over the wire: 'LUCP', version 1.0, 10001, type 1, status 0, and 23 bytes of text. */
  lemma RequestOnTheWire()
    ensures |Encode(Request())| == 37
    ensures Encode(Request())[..14] == [0x4C, 0x55, 0x43, 0x50, 0x01, 0x00, 0x00, 0x00, 0x27, 0x11, 0x01, 0x00, 0x00, 0x17]
    ensures forall i :: 0 <= i < 23 ==> Encode(Request())[14 + i] as int == REQUEST_CODES[i]
  {
    hide Ascii;
    RequestLength();
    MadeOnTheWire(SEQ, UPLOAD_REQUEST, 0, REQUEST_TEXT, 23, 23);
    RequestText();
    hide *;
    forall i | 0 <= i < 23 ensures Encode(Request())[14 + i] as int == REQUEST_CODES[i] {
      AsciiBytes(REQUEST_TEXT, i);
    }
  }
}

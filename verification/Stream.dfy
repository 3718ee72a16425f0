/**
  Lists of frames as byte streams: concatenated encodings, unique decodability,
  and the reference decoder of a whole stream.
 */
module Stream {
  import opened ByteOrder
  import opened Codec
  import opened Sequences

  predicate AllValid(fs: seq<Frame>) {
    forall i :: 0 <= i < |fs| ==> Valid(fs[i])
  }

  function EncodeAll(fs: seq<Frame>): seq<byte> {
    if fs == [] then [] else Encode(fs[0]) + EncodeAll(fs[1..])
  }

  lemma EncodeAllCons(f: Frame, fs: seq<Frame>)
    ensures EncodeAll([f] + fs) == Encode(f) + EncodeAll(fs)
  {
    hide Encode;
    assert ([f] + fs)[1..] == fs;
  }

  lemma EncodeAllSingle(f: Frame)
    ensures EncodeAll([f]) == Encode(f)
  {
    hide Encode;
    assert [f][1..] == [];
    assert Encode(f) + [] == Encode(f);
  }

  lemma {:induction false} EncodeAllConcat(fs: seq<Frame>, gs: seq<Frame>)
    ensures EncodeAll(fs + gs) == EncodeAll(fs) + EncodeAll(gs)
  {
    hide Encode;
    if fs == [] {
      assert fs + gs == gs;
    } else {
      EncodeAllConcat(fs[1..], gs);
      EncodeAllCons(fs[0], fs[1..] + gs);
      assert fs + gs == [fs[0]] + (fs[1..] + gs);
      ConcatAssoc(Encode(fs[0]), EncodeAll(fs[1..]), EncodeAll(gs));
    }
  }

  /**
    The code is prefix-free: when the bytes of one frame list begin the bytes of
    another, the first list begins the second, and what is left over begins the bytes
    of the remaining frames.
   */
  lemma {:induction false} PrefixFree(fs: seq<Frame>, gs: seq<Frame>, tail: seq<byte>)
    requires AllValid(fs) && AllValid(gs)
    requires EncodeAll(fs) + tail <= EncodeAll(gs)
    ensures fs <= gs
    ensures tail <= EncodeAll(gs[|fs|..])
  {
    hide Encode, Decode, Valid;
    if fs == [] {
      assert gs[0..] == gs && [] + tail == tail;
    } else {
      var e, x := Encode(fs[0]), EncodeAll(fs[1..]) + tail;
      ConcatAssoc(e, EncodeAll(fs[1..]), tail);
      assert gs != [];
      var y := EncodeAll(gs[1..]);
      DecodeOfEncode(fs[0], EncodeAll(gs)[|e|..]);
      assert e <= EncodeAll(gs);
      PrefixMeansConcat(e, EncodeAll(gs));
      DecodeOfEncode(gs[0], y);
      PrefixCancel(e, x, y);
      PrefixFree(fs[1..], gs[1..], tail);
      DropDrop(gs, 1, |fs| - 1);
    }
  }

  /** Two valid frame lists with equal bytes are equal. */
  lemma UniquelyDecodable(fs: seq<Frame>, gs: seq<Frame>)
    requires AllValid(fs) && AllValid(gs)
    requires EncodeAll(fs) == EncodeAll(gs)
    ensures fs == gs
  {
    hide Encode, Decode, Valid;
    assert EncodeAll(fs) + [] == EncodeAll(gs) && EncodeAll(gs) + [] == EncodeAll(fs);
    PrefixFree(fs, gs, []);
    PrefixFree(gs, fs, []);
  }

  // ---- Decoding a whole stream at once ----

  datatype Parsed = Parsed(frames: seq<Frame>, rest: seq<byte>)

  /** All frames up to the first incomplete or corrupt position. */
  function Parse(s: seq<byte>): Parsed
    decreases |s|
  {
    match Decode(s)
    case Got(f, n) =>
      var p := Parse(s[n..]);
      Parsed([f] + p.frames, p.rest)
    case _ => Parsed([], s)
  }

  /** Parsing inverts encoding: the frames are recovered and the remainder is parsed on its own. */
  lemma {:induction false} ParseOfEncodeAll(fs: seq<Frame>, tail: seq<byte>)
    requires AllValid(fs)
    ensures Parse(EncodeAll(fs) + tail) == Parsed(fs + Parse(tail).frames, Parse(tail).rest)
  {
    hide Encode, Decode, Valid;
    if fs == [] {
      assert EncodeAll(fs) + tail == tail;
    } else {
      var e, x := Encode(fs[0]), EncodeAll(fs[1..]) + tail;
      ConcatAssoc(e, EncodeAll(fs[1..]), tail);
      DecodeOfEncode(fs[0], x);
      DropPrefix(e, x);
      ParseOfEncodeAll(fs[1..], tail);
      ConcatAssoc([fs[0]], fs[1..], Parse(tail).frames);
      assert fs == [fs[0]] + fs[1..];
    }
  }

  /** The parse accounts for every byte, and stops only where no further frame can be taken. */
  lemma {:induction false} ParseAccounts(s: seq<byte>)
    ensures AllValid(Parse(s).frames)
    ensures s == EncodeAll(Parse(s).frames) + Parse(s).rest
    ensures !Decode(Parse(s).rest).Got?
    decreases |s|
  {
    hide Encode, Decode, Valid;
    match Decode(s) {
      case Got(f, n) =>
        EncodeOfDecode(s);
        var p := Parse(s[n..]);
        ParseAccounts(s[n..]);
        SplitAt(s, n);
        EncodeAllCons(f, p.frames);
        ConcatAssoc(Encode(f), EncodeAll(p.frames), p.rest);
      case _ =>
        assert [] + s == s;
    }
  }

  /** Bytes that arrive later only add frames, and none once the stream is corrupt. */
  lemma ParseGrows(s: seq<byte>, t: seq<byte>)
    ensures Parse(s).frames <= Parse(s + t).frames
    ensures Decode(Parse(s).rest).Corrupt? ==> Parse(s + t) == Parsed(Parse(s).frames, Parse(s).rest + t)
  {
    hide Encode, Decode, Valid;
    var p := Parse(s);
    ParseAccounts(s);
    ConcatAssoc(EncodeAll(p.frames), p.rest, t);
    ParseOfEncodeAll(p.frames, p.rest + t);
    if Decode(p.rest).Corrupt? {
      DecodeStable(p.rest, t);
    }
  }
}

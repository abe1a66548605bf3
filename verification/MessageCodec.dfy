/** The message class itself: loops that build and take apart bit vectors, each proved against the
    message format of module `Message`. */
module MessageCodec {
  import opened Bytes
  import opened Message
  import Rcs

  lemma ByteOfSum(b: seq<bit>)
    requires |b| == 8
    ensures var v: seq<int> := b;
            ByteOf(b) == 128 * v[0] + 64 * v[1] + 32 * v[2] + 16 * v[3] + 8 * v[4] + 4 * v[5] + 2 * v[6] + v[7]
  {
    assert b[..7][..6] == b[..6] && b[..6][..5] == b[..5] && b[..5][..4] == b[..4];
    assert b[..4][..3] == b[..3] && b[..3][..2] == b[..2] && b[..2][..1] == b[..1] && b[..1][..0] == [];
    assert Value(b[..1]) == b[0];
    assert Value(b[..2]) == 2 * Value(b[..1]) + b[1];
    assert Value(b[..3]) == 2 * Value(b[..2]) + b[2];
    assert Value(b[..4]) == 2 * Value(b[..3]) + b[3];
    assert Value(b[..5]) == 2 * Value(b[..4]) + b[4];
    assert Value(b[..6]) == 2 * Value(b[..5]) + b[5];
    assert Value(b[..7]) == 2 * Value(b[..6]) + b[6];
  }

  /** Assembles a buffer from whole octets of bits. */
  method PackBits(bits: seq<bit>) returns (buffer: seq<byte>)
    requires |bits| % 8 == 0
    ensures buffer == Pack(bits)
  {
    buffer := [];
    var k := 0;
    for i := 0 to |bits| / 8
      invariant k == 8 * i && buffer == Pack(bits)[..i]
    {
      var v: seq<int> := bits[k..k + 8];
      ByteOfSum(bits[k..k + 8]);
      var b := 128 * v[0] + 64 * v[1] + 32 * v[2] + 16 * v[3] + 8 * v[4] + 4 * v[5] + 2 * v[6] + v[7];
      assert b == Pack(bits)[i];
      buffer := buffer + [b];
      k := k + 8;
    }
  }

  /** Spreads a buffer into a vector of bits. */
  method UnpackBits(msg: seq<byte>) returns (bits: seq<bit>)
    ensures bits == Bits(msg)
  {
    bits := [];
    for i := 0 to |msg|
      invariant bits == Bits(msg)[..8 * i]
    {
      var j := 8;
      while j > 0
        invariant 0 <= j <= 8 && bits == Bits(msg)[..8 * i + 8 - j]
      {
        j := j - 1;
        NatBitAt(msg[i], 8, 7 - j);
        assert Bits(msg)[8 * i + 7 - j] == ByteBits(msg[i])[7 - j] by {
          assert (8 * i + 7 - j) / 8 == i && (8 * i + 7 - j) % 8 == 7 - j;
        }
        bits := bits + [msg[i] / Pow2(j) % 2];
      }
    }
  }

  /** Reading one section: the window noted, its row overwritten, the rest still to read. */
  lemma SectionStep(all: seq<bit>, n: nat, rows: seq<seq<bit>>, noted: seq<nat>)
    requires n > 0 && |all| >= 65 * n
    ensures var w := WindowNumber(all[0], all[1]);
            ReadSections(all, n, rows).AckContents? ==>
              && HasRow(rows, w)
              && all[2..][..63] == all[2..65] && all[2..][63..] == all[65..]
              && OverwriteRow(rows, w, all[2..65]) == rows[w := all[2..][..63] + rows[w][63..]]
              && var rest := ReadSections(all[65..], n - 1, OverwriteRow(rows, w, all[2..65]));
                 && rest.AckContents? && rest.rows == ReadSections(all, n, rows).rows
                 && noted + [w] + rest.windows == noted + ReadSections(all, n, rows).windows
  {
    assert all[2..][..63] == all[2..65] && all[2..][63..] == all[65..];
  }

  lemma SectionsStep(windows: seq<nat>, rows: seq<seq<bit>>, i: nat, before: seq<bit>, w: nat)
    requires i < |windows| && Reportable(windows, rows) && w == windows[i]
    ensures before + Sections(windows[i..], rows)
         == before + [w / 2 % 2, w % 2] + rows[w][..WINDOW_SIZE] + Sections(windows[i + 1..], rows)
  {
    assert windows[i..][1..] == windows[i + 1..];
  }

  class SchcMessage {
    var w: nat
    var fcn: nat
    var c: bit
    var payload: seq<byte>
    var rcs: Rcs.word
    var windowsWithError: seq<nat>

    constructor ()
      ensures windowsWithError == []
    {
      w, fcn, c, payload, rcs, windowsWithError := 0, 0, 0, [], Rcs.ZERO, [];
    }

    /** `create_schc_ack` */
    method CreateSchcAck(w: nat, c: bit, bitmap: seq<bit>, mustCompress: bool) returns (buffer: seq<byte>)
      requires c == 0 ==> bitmap != []
      ensures buffer == if c == 1 then PositiveAckMsg(w) else NegativeAckMsg(w, bitmap, mustCompress)
    {
      if c == 1 {
        return [Header(w, 32)];
      }
      var vector;
      if mustCompress {
        vector := CompressBitmap(bitmap);
      } else {
        vector := PadWith(bitmap, 0, 8 - (|bitmap| + 3) % 8);
      }
      var bits: seq<bit> := [w / 2 % 2, w % 2, c] + vector;
      assert bits == WindowNumberBits(w) + [0] + vector;
      if |bits| % 8 == 0 {
        buffer := PackBits(bits);
      } else {
        assert false;
        buffer := [];
      }
    }

    method CompressBitmap(bitmap: seq<bit>) returns (vector: seq<bit>)
      requires bitmap != []
      ensures vector == CompressedBitmap(bitmap)
    {
      var lastZero: nat := 0;
      for i := 0 to |bitmap|
        invariant lastZero == LastZero(bitmap[..i])
      {
        assert bitmap[..i + 1][..i] == bitmap[..i];
        if bitmap[i] == 0 {
          lastZero := i;
        }
      }
      assert bitmap[..|bitmap|] == bitmap;
      LastZeroMeaning(bitmap);
      vector := [];
      for i := 0 to lastZero + 1
        invariant vector == bitmap[..i]
      {
        vector := vector + [bitmap[i]];
      }
      vector := PadWith(vector, 1, 8 - (|vector| + 3) % 8);
    }

    method PadWith(bits: seq<bit>, filler: bit, n: nat) returns (padded: seq<bit>)
      ensures padded == bits + Repeat(filler, n)
    {
      padded := bits;
      for i := 0 to n
        invariant padded == bits + Repeat(filler, i)
      {
        padded := padded + [filler];
      }
    }

    /** `create_schc_ack_compound` */
    method CreateSchcAckCompound(lastWindow: nat, windows: seq<nat>, rows: seq<seq<bit>>) returns (buffer: seq<byte>)
      requires Reportable(windows, rows)
      ensures buffer == CompoundAckMsg(lastWindow, windows, rows)
    {
      if windows == [] {
        return [Header(lastWindow, 32)];
      }
      var bits: seq<bit> := [];
      var first := true;
      for i := 0 to |windows|
        invariant first <==> i == 0
        invariant i == 0 ==> bits == []
        invariant i > 0 ==> bits + Sections(windows[i..], rows) == CompoundBody(windows, rows)
      {
        var w := windows[i];
        if first {
          bits := bits + [w / 2 % 2, w % 2] + [0];
          first := false;
        } else {
          SectionsStep(windows, rows, i, bits, w);
          bits := bits + [w / 2 % 2, w % 2];
        }
        bits := AppendRow(bits, rows[w]);
      }
      assert windows[|windows|..] == [] && bits == CompoundBody(windows, rows);
      bits := PadWith(bits, 0, 8 - |bits| % 8);
      buffer := PackBits(bits);
    }

    method AppendRow(bits: seq<bit>, row: seq<bit>) returns (longer: seq<bit>)
      requires |row| >= WINDOW_SIZE
      ensures longer == bits + row[..WINDOW_SIZE]
    {
      longer := bits;
      for j := 0 to WINDOW_SIZE
        invariant longer == bits + row[..j]
      {
        longer := longer + [row[j]];
      }
    }

    /** `get_msg_type` on an arriving message, which also notes the header fields. */
    method ClassifyMsg(p: ProtocolType, ruleId: nat, msg: seq<byte>) returns (t: MsgType)
      requires msg != []
      modifies this`w, this`fcn, this`c
      ensures t == GetMsgType(p, ruleId, msg)
      ensures w == WOf(msg) && fcn == FcnOf(msg) && c == COf(msg)
    {
      w, fcn, c := msg[0] / 64, msg[0] % 64, msg[0] / 32 % 2;
      t := Unclassified;
      if p == Lorawan || p == Myriota {
        if ruleId == 20 && c == 1 && |msg| == 2 { t := ReceiverAbort; }
        else if ruleId == 20 && c == 1 { t := Ack; }
        else if ruleId == 20 && c == 0 && |msg| > 9 { t := CompoundAck; }
        else if ruleId == 20 && c == 0 { t := Ack; }
        else if ruleId == 21 && |msg| == 1 && fcn == 0 { t := AckRequest; }
        else if ruleId == 21 && |msg| == 1 && fcn == 63 { t := SenderAbort; }
        else if ruleId == 21 && |msg| > 1 && fcn == 63 { t := AllOneFragment; }
        else if ruleId == 21 && |msg| > 1 { t := RegularFragment; }
      } else if p == LorawanNs || p == MyriotaNs {
        if ruleId == 20 && |msg| == 1 && fcn == 0 { t := AckRequest; }
        else if ruleId == 20 && |msg| == 1 && fcn == 63 { t := SenderAbort; }
        else if ruleId == 20 && |msg| > 1 && fcn == 63 { t := AllOneFragment; }
        else if ruleId == 20 && |msg| > 1 { t := RegularFragment; }
        else if ruleId == 21 && c == 1 && |msg| == 2 { t := ReceiverAbort; }
        else if ruleId == 21 && c == 1 { t := Ack; }
        else if ruleId == 21 && c == 0 && |msg| > 9 { t := CompoundAck; }
        else if ruleId == 21 && c == 0 { t := Ack; }
      }
    }

    /** `decodeMsg` on a fragment. */
    method DecodeFragment(msg: seq<byte>)
      requires msg != []
      requires FragmentType(msg) == AllOneFragment ==> |msg| >= 5
      modifies this
      ensures w == WOf(msg) && fcn == FcnOf(msg)
      ensures FragmentType(msg) == AllOneFragment ==> rcs == RcsOf(msg) && payload == LastTileOf(msg)
      ensures FragmentType(msg) == RegularFragment ==> payload == PayloadOf(msg)
    {
      w, fcn, c := msg[0] / 64, msg[0] % 64, msg[0] / 32 % 2;
      if |msg| > 1 && fcn == 63 {
        rcs := UnpackBits(msg[1..5]);
        payload := msg[5..];
      } else if |msg| > 1 {
        payload := msg[1..];
      }
    }

    /** `decodeMsg` on an acknowledgement, with the caller's bitmaps passed in and handed back. */
    method DecodeAck(msg: seq<byte>, mechanism: AckMechanism, bitmapArray: seq<seq<bit>>) returns (bitmaps: seq<seq<bit>>)
      requires msg != [] && ReadAck(msg, mechanism, bitmapArray).AckContents?
      modifies this
      ensures w == WOf(msg) && c == COf(msg)
      ensures bitmaps == ReadAck(msg, mechanism, bitmapArray).rows
      ensures windowsWithError == old(windowsWithError) + ReadAck(msg, mechanism, bitmapArray).windows
    {
      w, fcn, c := msg[0] / 64, msg[0] % 64, msg[0] / 32 % 2;
      bitmaps := bitmapArray;
      if c == 1 && |msg| == 2 && msg[1] == 0xFF {
        // Receiver-Abort: nothing to decode
      } else if c == 1 {
        if mechanism == EndOfWindow || mechanism == EndOfSession || mechanism == Compound {
          var row := bitmaps[w];
          for i := 0 to WINDOW_SIZE
            invariant |row| == |bitmaps[w]| && row == Repeat(1, i) + bitmaps[w][i..]
          {
            row := row[i := 1];
          }
          assert row == Repeat(1, WINDOW_SIZE) + bitmaps[w][WINDOW_SIZE..];
          bitmaps := bitmaps[w := row];
        }
      } else if mechanism == EndOfWindow || mechanism == EndOfSession {
        var received := UnpackBits(msg);
        var row := bitmaps[w];
        for i := 3 to |received|
          invariant row == bitmaps[w] + received[3..i]
        {
          row := row + [received[i]];
        }
        assert row == bitmaps[w] + received[3..];
        bitmaps := bitmaps[w := row];
      } else if mechanism == Compound {
        bitmaps := DecodeCompound(msg, bitmaps);
      }
    }

    method DecodeCompound(msg: seq<byte>, bitmapArray: seq<seq<bit>>) returns (bitmaps: seq<seq<bit>>)
      requires msg != [] && w == WOf(msg) && ReadCompound(msg, bitmapArray).AckContents?
      modifies this`windowsWithError
      ensures bitmaps == ReadCompound(msg, bitmapArray).rows
      ensures windowsWithError == old(windowsWithError) + ReadCompound(msg, bitmapArray).windows
    {
      bitmaps := bitmapArray;
      var nWindows := (8 * |msg| - 1) / 65;
      var bitVector := UnpackBits(msg);
      ghost var all := bitVector[..2] + bitVector[3..];
      ghost var contents := ReadSections(all, nWindows, bitmaps);
      HeaderWindow(msg);
      for i := 0 to nWindows
        invariant |all| >= 65 * (nWindows - i)
        invariant i == 0 ==> bitVector == Bits(msg) && all == bitVector[..2] + bitVector[3..]
        invariant i > 0 ==> bitVector == all
        invariant ReadSections(all, nWindows - i, bitmaps).AckContents?
        invariant ReadSections(all, nWindows - i, bitmaps).rows == contents.rows
        invariant windowsWithError + ReadSections(all, nWindows - i, bitmaps).windows == old(windowsWithError) + contents.windows
      {
        var win;
        if i == 0 {
          win := w;
          bitVector := bitVector[3..];
        } else {
          win := WindowNumber(bitVector[0], bitVector[1]);
          bitVector := bitVector[2..];
        }
        assert win == WindowNumber(all[0], all[1]) && bitVector == all[2..];
        SectionStep(all, nWindows - i, bitmaps, windowsWithError);
        windowsWithError := windowsWithError + [win];
        bitmaps := bitmaps[win := bitVector[..63] + bitmaps[win][63..]];
        bitVector := bitVector[63..];
        all := all[65..];
      }
    }

    lemma HeaderWindow(msg: seq<byte>)
      requires msg != []
      ensures WOf(msg) == WindowNumber(Bits(msg)[0], Bits(msg)[1])
    {
      var b := msg[0];
      assert Pow2(7) == 128 && Pow2(6) == 64;
      NatBitAt(b, 8, 0);
      NatBitAt(b, 8, 1);
      TopBits(b);
    }
  }
}

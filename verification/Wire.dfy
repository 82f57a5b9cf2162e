/**
 * Telegrams read with literal bytes alone: what a connection request and a setup job carry, what each
 * reply of the PLC says, and what the client makes of any reply, rejections included.
 */
module Wire {
  import opened Bytes
  import opened Telegrams
  import opened Simulator
  import opened Tpkt

  // ----- Connection requests -----

  /** The variable part of a connection TPDU (RFC 905, section 13.2.3): code, length, value, repeated. */
  function Parameters(f: Frame, at: nat): Option<seq<(Byte, seq<Byte>)>>
    requires at <= |f|
    decreases |f| - at
  {
    if at == |f| then Some([])
    else if at + 2 > |f| || at + 2 + f[at + 1] > |f| then None
    else
      match Parameters(f, at + 2 + f[at + 1])
      case None => None
      case Some(rest) => Some([(f[at], f[at + 2..at + 2 + f[at + 1]])] + rest)
  }

  /** One parameter in front of others that are known. */
  lemma {:induction false} ParameterHead(f: Frame, at: nat, code: Byte, value: seq<Byte>, rest: seq<(Byte, seq<Byte>)>)
    requires at + 2 + |value| <= |f| && |value| <= 255 && f[at] == code && f[at + 1] == |value|
    requires f[at + 2..at + 2 + |value|] == value && Parameters(f, at + 2 + |value|) == Some(rest)
    ensures Parameters(f, at) == Some([(code, value)] + rest)
  {
  }

  /** A recovered first value is never longer than its length byte can say. */
  lemma {:induction false} ParameterShort(f: Frame, at: nat, code: Byte, value: seq<Byte>, rest: seq<(Byte, seq<Byte>)>)
    requires at <= |f| && Parameters(f, at) == Some([(code, value)] + rest)
    ensures at + 2 <= |f| && |value| == f[at + 1] && at + 2 + |value| <= |f|
    ensures Parameters(f, at + 2 + |value|) == Some(rest)
  {
    var len := f[at + 1];
    var tail := Parameters(f, at + 2 + len).value;
    var head := (f[at], f[at + 2..at + 2 + len]);
    assert ([head] + tail)[0] == ([(code, value)] + rest)[0];
    assert ([head] + tail)[1..] == tail && ([(code, value)] + rest)[1..] == rest;
  }

  lemma {:induction false} CrBytes(lsap: seq<Byte>, rsap: seq<Byte>)
    ensures var f, pos := CotpCr(lsap, rsap), 16 + |lsap|;
      && f[..2] == [0x03, 0x00] && f[4..15] == [0x11, 0xE0, 0, 0, 0, 2, 0, 0xC0, 0x01, 0x0A, 0xC1]
      && 256 * (f[2] as int) + f[3] == |f| % 65536
      && f[15] == |lsap| % 256 && f[16..pos] == lsap
      && f[pos] == 0xC2 && f[pos + 1] == |rsap| % 256 && f[pos + 2..] == rsap
  {
    hide Hi8, Lo8;
    SplitJoin(18 + |lsap| + |rsap|);
    var h := CrHead(18 + |lsap| + |rsap|, |lsap|);
    var f := CotpCr(lsap, rsap);
    assert f[..16] == h;
    assert forall k: nat {:trigger f[k]} | k < 16 :: f[k] == h[k];
    ByteOf(|lsap|);
    ByteOf(|rsap|);
    CrTail(h, lsap, [0xC2, Lo8(|rsap|)], rsap);
  }

  lemma {:induction false} ByteOf(n: nat)
    ensures Lo8(n) == n % 256
  {
  }

  lemma {:induction false} CrTail(h: seq<Byte>, a: seq<Byte>, m: seq<Byte>, b: seq<Byte>)
    requires |h| == 16 && |m| == 2
    ensures var f, pos := h + a + m + b, 16 + |a|;
      f[16..pos] == a && f[pos] == m[0] && f[pos + 1] == m[1] && f[pos + 2..] == b
  {
  }

  function Tsaps(lsap: seq<Byte>, rsap: seq<Byte>): seq<(Byte, seq<Byte>)> {
    [(0xC0, [0x0A]), (0xC1, lsap), (0xC2, rsap)]
  }

  lemma {:induction false} TsapsSplit(lsap: seq<Byte>, rsap: seq<Byte>)
    ensures Tsaps(lsap, rsap) == [(0xC0, [0x0A])] + ([(0xC1, lsap)] + ([(0xC2, rsap)] + []))
  {
  }

  lemma {:induction false} TsapsRecovered(lsap: seq<Byte>, rsap: seq<Byte>)
    requires |lsap| <= 255 && |rsap| <= 255
    ensures Parameters(CotpCr(lsap, rsap), 11) == Some(Tsaps(lsap, rsap))
  {
    hide CotpCr, Parameters, Tsaps;
    var f, pos := CotpCr(lsap, rsap), 16 + |lsap|;
    CrBytes(lsap, rsap);
    var p := f[4..15];
    assert f[11] == p[7] && f[12] == p[8] && f[13] == p[9] && f[14] == p[10];
    assert f[pos + 2..pos + 2 + |rsap|] == rsap && f[13..14] == [0x0A];
    ParametersEnd(f);
    ParameterHead(f, pos, 0xC2, rsap, []);
    ParameterHead(f, 14, 0xC1, lsap, [(0xC2, rsap)] + []);
    ParameterHead(f, 11, 0xC0, [0x0A], [(0xC1, lsap)] + ([(0xC2, rsap)] + []));
    TsapsSplit(lsap, rsap);
  }

  lemma {:induction false} TsapsFit(lsap: seq<Byte>, rsap: seq<Byte>)
    requires Parameters(CotpCr(lsap, rsap), 11) == Some(Tsaps(lsap, rsap))
    ensures |lsap| <= 255 && |rsap| <= 255
  {
    hide CotpCr, Parameters, Tsaps;
    var f := CotpCr(lsap, rsap);
    TsapsSplit(lsap, rsap);
    ParameterShort(f, 11, 0xC0, [0x0A], [(0xC1, lsap)] + ([(0xC2, rsap)] + []));
    ParameterShort(f, 14, 0xC1, lsap, [(0xC2, rsap)] + []);
    ParameterShort(f, 16 + |lsap|, 0xC2, rsap, []);
  }

  /**
   * A connection request states TPDU size 0x0A, the local TSAP as calling and the remote one as called,
   * and a reader that walks by the length bytes recovers exactly these three, iff both TSAPs fit their
   * length byte.
   */
  lemma {:induction false} RequestCarriesTsaps(lsap: seq<Byte>, rsap: seq<Byte>)
    ensures Parameters(CotpCr(lsap, rsap), 11) == Some([(0xC0, [0x0A]), (0xC1, lsap), (0xC2, rsap)])
      <==> |lsap| <= 255 && |rsap| <= 255
  {
    hide CotpCr, Parameters;
    if |lsap| <= 255 && |rsap| <= 255 {
      TsapsRecovered(lsap, rsap);
    } else if Parameters(CotpCr(lsap, rsap), 11) == Some(Tsaps(lsap, rsap)) {
      TsapsFit(lsap, rsap);
    }
  }

  lemma {:induction false} ParametersEnd(f: Frame)
    ensures Parameters(f, |f|) == Some([])
  {
  }

  /** The constant length indicator 0x11 is right exactly for TSAPs of four bytes together, as the defaults are. */
  lemma {:induction false} LengthIndicatorExact(lsap: seq<Byte>, rsap: seq<Byte>)
    ensures var f := CotpCr(lsap, rsap);
      && f[5..11] == [0xE0, 0, 0, 0, 2, 0]
      && (f[4] == |f| - 5 <==> |lsap| + |rsap| == 4)
      && (256 * (f[2] as int) + f[3] == |f| <==> |f| < 65536)
  {
    CrBytes(lsap, rsap);
    hide CotpCr;
    var f := CotpCr(lsap, rsap);
    var p := f[4..15];
    assert f[4] == p[0];
    assert f[5] == p[1] && f[6] == p[2] && f[7] == p[3] && f[8] == p[4] && f[9] == p[5] && f[10] == p[6];
  }

  /** The simulator's confirmation carries TPDU size 0x03 and both TSAPs as 01 00. */
  lemma {:induction false} ConfirmationCarries()
    ensures Parameters(CotpCc(), 11) == Some([(0xC0, [0x03]), (0xC1, [0x01, 0x00]), (0xC2, [0x01, 0x00])])
    ensures CotpCc()[..11] == [0x03, 0, 0, 22, 0x11, 0xD0, 0, 1, 0, 0, 0]
  {
    hide Parameters;
    var f := CotpCc();
    ParametersEnd(f);
    assert f[20..22] == [0x01, 0x00] && f[16..18] == [0x01, 0x00] && f[13..14] == [0x03];
    ParameterHead(f, 18, 0xC2, [0x01, 0x00], []);
    ParameterHead(f, 14, 0xC1, [0x01, 0x00], [(0xC2, [0x01, 0x00])] + []);
    var called, calling: seq<(Byte, seq<Byte>)> := [(0xC2, [0x01, 0x00])], [(0xC1, [0x01, 0x00]), (0xC2, [0x01, 0x00])];
    assert called + [] == called && [(0xC1, [0x01, 0x00])] + called == calling;
    ParameterHead(f, 11, 0xC0, [0x03], calling);
    assert [(0xC0, [0x03])] + calling == [(0xC0, [0x03]), (0xC1, [0x01, 0x00]), (0xC2, [0x01, 0x00])];
  }

  /** The client takes exactly the frames that look like a confirmation with length indicator 0x11. */
  lemma {:induction false} ConfirmationAcceptedIff(f: Frame)
    ensures ParseCotpCc(f) == Ok(1024) <==> |f| >= 7 && f[0] == 0x03 && f[4] == 17 && f[5] == 0xD0
    ensures ParseCotpCc(f) == Err(InvalidPdu("Not CC")) <==> |f| >= 7 && f[0] == 0x03 && (f[4] != 17 || f[5] != 0xD0)
  {
  }

  // ----- Setup -----

  /** The setup job asks for one PDU size, 960, and eight jobs each way. */
  lemma {:induction false} SetupAsksFor960()
    ensures SetupFrame()
      == [0x03, 0x00, 0x00, 25, 0x02, 0xF0, 0x80, 0x32, 0x01, 0, 0, 0, 0, 0, 8, 0, 0, 0xF0, 0, 0, 8, 0, 8, 0x03, 0xC0]
    ensures 256 * (SetupFrame()[23] as int) + SetupFrame()[24] == 960
  {
    var h := JobHead(25, 0, 8, 0);
    assert h == [0x03, 0x00, 0x00, 25, 0x02, 0xF0, 0x80, 0x32, 0x01, 0, 0, 0, 0, 0, 8, 0, 0];
  }

  // ----- What the client makes of any reply -----

  /** The first S7 header of a frame: 0x32 and a message type, its error flag aside. */
  predicate FirstHeader(f: Frame, s: nat) {
    && s + 1 < |f| && f[s] == 0x32 && f[s + 1] in {0x01, 0x03, 0x07, 0x81, 0x83, 0x87}
    && forall i | 0 <= i < s :: f[i] != 0x32 || f[i + 1] !in {0x01, 0x03, 0x07, 0x81, 0x83, 0x87}
  }

  lemma {:induction false} HeaderCodes(f: Frame, i: nat)
    ensures HeaderAt(f, i, true)
      <==> i + 1 < |f| && f[i] == 0x32 && f[i + 1] in {0x01, 0x03, 0x07, 0x81, 0x83, 0x87}
  {
  }

  /** The scan finds the first header if there is one. */
  lemma {:induction false} FindIsFirst(f: Frame)
    ensures FindS7(f) >= 0 ==> FirstHeader(f, FindS7(f))
    ensures FindS7(f) == -1 || FindS7(f) >= 0
    ensures forall s: nat | FirstHeader(f, s) :: FindS7(f) == s
  {
    var r := FindS7(f);
    if r >= 0 {
      HeaderCodes(f, r);
      forall i: nat | i < r ensures f[i] != 0x32 || f[i + 1] !in {0x01, 0x03, 0x07, 0x81, 0x83, 0x87} {
        HeaderCodes(f, i);
      }
    }
    forall s: nat | FirstHeader(f, s) ensures r == s {
      HeaderCodes(f, s);
    }
  }

  /**
   * A reply whose first header is at `s`: with the error flag it reports the error class and code; too
   * short a frame is refused; otherwise byte `s + 14` decides between the payload and the PLC's own
   * return code.
   */
  lemma {:induction false} ReadReplyMeans(f: Frame, s: nat)
    requires FirstHeader(f, s)
    ensures f[s + 1] >= 0x80
      ==> ParseResponse(f) == Err(PlcError(if s + 12 < |f| then 256 * (f[s + 10] as int) + f[s + 11] else 0))
    ensures f[s + 1] < 0x80 && |f| < s + 18 ==> ParseResponse(f) == Err(InvalidPdu("Too short"))
    ensures f[s + 1] < 0x80 && |f| >= s + 18
      ==> ParseResponse(f) == if f[s + 14] == 0xFF then Ok([f[s + 18..]]) else Err(PlcError(f[s + 14]))
  {
    FindIsFirst(f);
    hide FindS7;
  }

  /** The usual reply, header at byte 7: return code at 21, payload from 25, error class and code at 17. */
  lemma {:induction false} ReadReplyAtSeven(f: Frame)
    requires FirstHeader(f, 7)
    ensures f[8] == 0x03 && |f| >= 25 ==> (ParseResponse(f) == Ok([f[25..]]) <==> f[21] == 0xFF)
    ensures f[8] == 0x03 && |f| >= 25 && f[21] != 0xFF ==> ParseResponse(f) == Err(PlcError(f[21]))
    ensures f[8] == 0x83 && |f| >= 20 ==> ParseResponse(f) == Err(PlcError(256 * (f[17] as int) + f[18]))
    ensures f[8] < 0x80 && |f| < 25 ==> ParseResponse(f) == Err(InvalidPdu("Too short"))
  {
    ReadReplyMeans(f, 7);
    hide ParseResponse, FirstHeader;
  }

  /** An answer shorter than 0x3200 bytes has its first header at byte 7. */
  lemma {:induction false} HeaderFirstAtSeven(f: Frame)
    requires 13 <= |f| < 0x3200 && f[0] == 3 && f[1] == 0 && 256 * (f[2] as int) + f[3] == |f|
    requires f[4] == 0x02 && f[5] == 0xF0 && f[6] == 0x80 && f[7] == 0x32 && f[8] == 0x03
    ensures FirstHeader(f, 7)
  {
    assert f[2] < 0x32;
    forall i | 0 <= i < 7 ensures f[i] != 0x32 || f[i + 1] !in {0x01, 0x03, 0x07, 0x81, 0x83, 0x87} {
      if i == 3 {
        assert f[i + 1] == 0x02;
      }
    }
  }

  /** A write answer is read at byte `s + 14`, whatever the message type. */
  lemma {:induction false} WriteReplyMeans(f: Frame, s: nat)
    requires FirstHeader(f, s)
    ensures |f| <= s + 14 ==> CheckWriteAck(f) == Err(InvalidPdu("Bad write response"))
    ensures |f| > s + 14
      ==> CheckWriteAck(f) == if f[s + 14] == 0xFF then Ok(()) else Err(PlcError(f[s + 14]))
  {
    FindIsFirst(f);
    hide FindS7;
  }

  /** The announced size sits at bytes 25 and 26 wherever the header is; shorter answers mean 480. */
  lemma {:induction false} SetupReplyMeans(f: Frame)
    ensures ParseSetupResp(f).Ok? <==> |f| >= 22 && exists s: nat :: FirstHeader(f, s)
    ensures ParseSetupResp(f).Ok?
      ==> ParseSetupResp(f).value == if |f| >= 28 then 256 * (f[25] as int) + f[26] else 480
  {
    FindIsFirst(f);
    hide FindS7, FirstHeader;
  }

  // ----- What the replies of the PLC say -----

  /** A read reply by its length fields and literal codes alone: PDU reference and payload. */
  function StrictReply(f: Frame): Option<(nat, seq<Byte>)> {
    if |f| < 25 || f[0] != 0x03 || f[1] != 0x00 || 256 * (f[2] as int) + f[3] != |f| then None
    else if f[4] != 0x02 || f[5] != 0xF0 || f[6] != 0x80 || f[7] != 0x32 || f[8] != 0x03 then None
    else if f[9] != 0 || f[10] != 0 || f[13] != 0 || f[14] != 4 then None
    else if 21 + 256 * (f[15] as int) + f[16] != |f| || f[17] != 0 || f[18] != 0 || f[19] != 0 || f[20] != 0 then None
    else if f[21] != 0xFF || f[22] != 0x04 || 25 + 256 * (f[23] as int) + f[24] != |f| then None
    else Some((256 * (f[11] as int) + f[12], f[25..]))
  }

  lemma {:induction false} AckHeadFields(total: nat, refn: int)
    ensures var h := AckHead(total, refn);
      && h[0] == 3 && h[1] == 0 && 256 * (h[2] as int) + h[3] == total % 65536
      && h[4] == 0x02 && h[5] == 0xF0 && h[6] == 0x80 && h[7] == 0x32 && h[8] == 0x03 && h[9] == 0 && h[10] == 0
      && 256 * (h[11] as int) + h[12] == refn % 65536
  {
    hide Hi8, Lo8;
    Split16(total);
    Split16(refn);
  }

  lemma {:induction false} ItemHeaderFields(n: nat)
    ensures var h := ItemHeader(n);
      && h[0] == 0 && h[1] == 4 && 256 * (h[2] as int) + h[3] == (4 + n) % 65536
      && h[4] == 0 && h[5] == 0 && h[6] == 0 && h[7] == 0 && h[8] == 0xFF && h[9] == 4
      && 256 * (h[10] as int) + h[11] == n % 65536
  {
    hide Hi8, Lo8;
    Split16(4 + n);
    Split16(n);
  }

  lemma {:induction false} ReadRespFields(data: seq<Byte>, refn: int)
    ensures var f := ReadResp(data, refn);
      && f[0] == 3 && f[1] == 0 && 256 * (f[2] as int) + f[3] == |f| % 65536
      && f[4] == 0x02 && f[5] == 0xF0 && f[6] == 0x80 && f[7] == 0x32 && f[8] == 0x03 && f[9] == 0 && f[10] == 0
      && 256 * (f[11] as int) + f[12] == refn % 65536 && f[13] == 0 && f[14] == 4
      && 256 * (f[15] as int) + f[16] == (4 + |data|) % 65536
      && f[17] == 0 && f[18] == 0 && f[19] == 0 && f[20] == 0 && f[21] == 0xFF && f[22] == 4
      && 256 * (f[23] as int) + f[24] == |data| % 65536 && f[25..] == data
  {
    hide AckHead, ItemHeader;
    AckHeadFields(25 + |data|, refn);
    ItemHeaderFields(|data|);
    var h, t, f := AckHead(25 + |data|, refn), ItemHeader(|data|), ReadResp(data, refn);
    assert forall k: nat {:trigger f[k]} | k < 13 :: f[k] == h[k];
    assert forall k: nat {:trigger f[k]} | 13 <= k < 25 :: f[k] == t[k - 13];
  }

  /** A read reply is lossless, reference and every length field included, iff it fits its TPKT length. */
  lemma {:induction false} ReplyIsLossless(data: seq<Byte>, refn: int)
    ensures StrictReply(ReadResp(data, refn)) == Some((refn % 65536, data)) <==> 25 + |data| < 65536
  {
    ReadRespFields(data, refn);
    hide ReadResp;
  }

  predicate IsAnswer(f: Frame, total: nat, refn: int) {
    && |f| == total && total >= 13
    && f[0] == 3 && f[1] == 0 && 256 * (f[2] as int) + f[3] == total
    && f[4] == 0x02 && f[5] == 0xF0 && f[6] == 0x80 && f[7] == 0x32 && f[8] == 0x03 && f[9] == 0 && f[10] == 0
    && 256 * (f[11] as int) + f[12] == refn % 65536
  }

  lemma {:induction false} AnswerOf(refn: int, tail: seq<Byte>)
    requires 13 + |tail| < 65536
    ensures var f := AckHead(13 + |tail|, refn) + tail; IsAnswer(f, 13 + |tail|, refn) && f[13..] == tail
  {
    hide AckHead;
    AckHeadFields(13 + |tail|, refn);
    var h := AckHead(13 + |tail|, refn);
    assert forall k: nat {:trigger h[k]} | k < 13 :: (h + tail)[k] == h[k];
  }

  /** The write answer: one item, with the return code as its last byte. */
  lemma {:induction false} WriteAnswer(refn: int, code: Byte)
    ensures var f := WriteResp(refn, code);
      IsAnswer(f, 22, refn) && f[13..] == [0, 2, 0, 1, 0, 0, 0x05, 0x01, code]
  {
    hide AckHead, IsAnswer;
    AnswerOf(refn, [0, 2, 0, 1, 0, 0, 0x05, 0x01, code]);
  }

  /** The setup answer: the announced size in bytes 25 and 26. */
  lemma {:induction false} SetupAnswer(refn: int, pdu: nat)
    ensures var f := SetupResp(refn, pdu);
      && IsAnswer(f, 28, refn)
      && f[13..] == [0, 2, 0, 9, 0, 0, 0xF0, 0, 0, 1, 0, 1, f[25], f[26], 0]
      && 256 * (f[25] as int) + f[26] == pdu % 65536
  {
    hide AckHead, IsAnswer, Hi8, Lo8;
    var tail := [0, 2, 0, 9, 0, 0, 0xF0, 0, 0, 1, 0, 1, Hi8(pdu), Lo8(pdu), 0];
    AnswerOf(refn, tail);
    Split16(pdu);
    var f := SetupResp(refn, pdu);
    assert f[25] == f[13..][12] && f[26] == f[13..][13];
  }

  predicate Reads(f: seq<Byte>, at: nat, text: string) {
    at + |text| <= |f| && f[at..at + |text|] == Ascii(text)
  }

  lemma {:induction false} StatusAnswer(refn: int)
    ensures var f := StatusResp(refn);
      && WellFramed(f) && f[7] == 0x32 && f[8] == 0x07 && 256 * (f[11] as int) + f[12] == refn % 65536 && f[44] == 0x08
      && f[13..25] == [0, 8, 0, 8, 0, 1, 0x12, 4, 0x11, 0x44, 1, 0] && f[25..31] == [0xFF, 9, 0, 4, 4, 0x24]
      && forall i | 31 <= i < 44 :: f[i] == 0
  {
    hide Hi8, Lo8, Zeros;
    SplitJoin(refn);
  }

  lemma {:induction false} PatchReads(bytes: seq<Byte>, off: nat, text: string)
    requires off + |text| <= |bytes|
    ensures Reads(Patch(bytes, off, Ascii(text)), off, text)
  {
  }

  lemma {:induction false} PatchKeepsText(bytes: seq<Byte>, off: nat, data: seq<Byte>, at: nat, text: string)
    requires Reads(bytes, at, text) && (at + |text| <= off || off + |data| <= at)
    ensures Reads(Patch(bytes, off, data), at, text)
  {
  }

  lemma {:induction false} CpuNames()
    ensures var p := CpuInfo();
      && Reads(p, 2, "MOONBIT-AS") && Reads(p, 36, "CPU1214C-DEMO") && Reads(p, 104, "Copyright MoonBit 2026")
      && Reads(p, 138, "SZ-00000001") && Reads(p, 172, "CPU 1214C")
  {
    hide Zeros, Patch, Ascii, Reads;
    var p1 := Patch(Zeros(205), 2, Ascii("MOONBIT-AS"));
    var p2 := Patch(p1, 36, Ascii("CPU1214C-DEMO"));
    var p3 := Patch(p2, 104, Ascii("Copyright MoonBit 2026"));
    var p4 := Patch(p3, 138, Ascii("SZ-00000001"));
    PatchReads(Zeros(205), 2, "MOONBIT-AS");
    PatchReads(p1, 36, "CPU1214C-DEMO");
    PatchReads(p2, 104, "Copyright MoonBit 2026");
    PatchReads(p3, 138, "SZ-00000001");
    PatchReads(p4, 172, "CPU 1214C");
    PatchKeepsText(p1, 36, Ascii("CPU1214C-DEMO"), 2, "MOONBIT-AS");
    PatchKeepsText(p2, 104, Ascii("Copyright MoonBit 2026"), 2, "MOONBIT-AS");
    PatchKeepsText(p2, 104, Ascii("Copyright MoonBit 2026"), 36, "CPU1214C-DEMO");
    PatchKeepsText(p3, 138, Ascii("SZ-00000001"), 2, "MOONBIT-AS");
    PatchKeepsText(p3, 138, Ascii("SZ-00000001"), 36, "CPU1214C-DEMO");
    PatchKeepsText(p3, 138, Ascii("SZ-00000001"), 104, "Copyright MoonBit 2026");
    PatchKeepsText(p4, 172, Ascii("CPU 1214C"), 2, "MOONBIT-AS");
    PatchKeepsText(p4, 172, Ascii("CPU 1214C"), 36, "CPU1214C-DEMO");
    PatchKeepsText(p4, 172, Ascii("CPU 1214C"), 104, "Copyright MoonBit 2026");
    PatchKeepsText(p4, 172, Ascii("CPU 1214C"), 138, "SZ-00000001");
  }

  lemma {:induction false} ReadsBehind(h: seq<Byte>, p: seq<Byte>, at: nat, text: string)
    requires Reads(p, at, text)
    ensures Reads(h + p, |h| + at, text)
  {
    assert (h + p)[|h| + at..|h| + at + |text|] == p[at..at + |text|];
  }

  lemma {:induction false} SzlAnswer(refn: int)
    ensures var f := SzlResp(refn);
      && WellFramed(f) && f[7] == 0x32 && f[8] == 0x07 && 256 * (f[11] as int) + f[12] == refn % 65536
      && f[13..25] == [0, 8, 0, 209, 0, 1, 0x12, 8, 0x12, 0x44, 1, 0]
      && f[25..41] == [0xFF, 0, 0, 209, 0xFF, 0, 0, 213, 0, 0, 0, 0, 0, 2, 0, 1] && f[41..] == CpuInfo()
  {
    hide Hi8, Lo8, CpuInfo;
    SplitJoin(refn);
  }

  // ----- What the PLC makes of any request -----

  /** The first S7 header as the simulator looks for it: no error flag is masked. */
  predicate FirstRequest(f: Frame, s: nat) {
    && s + 1 < |f| && f[s] == 0x32 && f[s + 1] in {0x01, 0x03, 0x07}
    && forall i | 0 <= i < s :: f[i] != 0x32 || f[i + 1] !in {0x01, 0x03, 0x07}
  }

  lemma {:induction false} RequestHeader(f: Frame)
    ensures FindFrom(f, 0, false) >= 0 ==> FirstRequest(f, FindFrom(f, 0, false))
    ensures FindFrom(f, 0, false) == -1 || FindFrom(f, 0, false) >= 0
    ensures forall s: nat | FirstRequest(f, s) :: FindFrom(f, 0, false) == s
  {
    var r := FindFrom(f, 0, false);
    if r >= 0 {
      forall i: nat | i < r ensures f[i] != 0x32 || f[i + 1] !in {0x01, 0x03, 0x07} {
        assert !HeaderAt(f, i, false);
      }
    }
    forall s: nat | FirstRequest(f, s) ensures r == s {
      assert HeaderAt(f, s, false);
    }
  }

  /**
   * A request with its first header at `s`: type, reference and section lengths at their fixed places,
   * both sections cut at the end of the frame. A frame that ends inside its header is malformed.
   */
  lemma {:induction false} RequestMeans(f: Frame, s: nat)
    requires FirstRequest(f, s)
    ensures ParseRequest(f).Malformed? <==> |f| <= s + 9
    ensures |f| > s + 9
      ==> var plen, dlen := 256 * (f[s + 6] as int) + f[s + 7], 256 * (f[s + 8] as int) + f[s + 9];
          var cut, end := Min(s + 10 + plen, |f|), Min(s + 10 + plen + dlen, |f|);
          ParseRequest(f) == Parsed(Request(f[s + 1], 256 * (f[s + 4] as int) + f[s + 5], f[s + 10..cut], f[cut..end]))
  {
    RequestHeader(f);
    hide FindFrom;
  }

  /** Without a header the PLC answers ten zero bytes under reference 1; a malformed frame gets no answer. */
  lemma {:induction false} OddFramesAnswered(mem: Memory, f: Frame)
    ensures (forall s: nat :: !FirstRequest(f, s))
      ==> Respond(mem, f) == (mem, Reply(ReadResp([0, 0, 0, 0, 0, 0, 0, 0, 0, 0], 1)))
    ensures forall s: nat | FirstRequest(f, s) && |f| <= s + 9 :: Respond(mem, f) == (mem, Dropped)
  {
    hide FindFrom, ReadResp, Handle, FirstRequest;
    RequestHeader(f);
    assert Zeros(10) == [0, 0, 0, 0, 0, 0, 0, 0, 0, 0];
    forall s: nat | FirstRequest(f, s) && |f| <= s + 9 ensures Respond(mem, f) == (mem, Dropped) {
      RequestMeans(f, s);
    }
  }

  /** A userdata request by its literal bytes. */
  predicate AsksUserdata(params: seq<Byte>) {
    |params| >= 6 && params[..3] == [0x00, 0x01, 0x12] && params[4..6] == [0x11, 0x44]
  }

  lemma {:induction false} UserdataByBytes(params: seq<Byte>)
    ensures IsUserdata(params) <==> AsksUserdata(params)
  {
    if |params| >= 6 {
      var a, b := params[..3], params[4..6];
      assert a == [params[0], params[1], params[2]] && b == [params[4], params[5]];
    }
  }

  /** A status request is answered with RUN, every other userdata request with the CPU description. */
  lemma {:induction false} UserdataAnswers(req: Request)
    ensures var f := UserdataResp(req);
      && WellFramed(f) && f[7] == 0x32 && f[8] == 0x07 && 256 * (f[11] as int) + f[12] == req.refn % 65536
      && if |req.data| >= 6 && req.data[4] == 0x04 && req.data[5] == 0x24 then |f| == 45 && f[44] == 0x08
         else
           && |f| == 246
           && Reads(f, 43, "MOONBIT-AS") && Reads(f, 77, "CPU1214C-DEMO") && Reads(f, 145, "Copyright MoonBit 2026")
           && Reads(f, 179, "SZ-00000001") && Reads(f, 213, "CPU 1214C")
  {
    hide StatusResp, SzlResp, CpuInfo, Reads, WellFramed;
    StatusAnswer(req.refn);
    SzlAnswer(req.refn);
    CpuNames();
    var f := SzlResp(req.refn);
    var h := f[..41];
    assert f == h + CpuInfo();
    ReadsBehind(h, CpuInfo(), 2, "MOONBIT-AS");
    ReadsBehind(h, CpuInfo(), 36, "CPU1214C-DEMO");
    ReadsBehind(h, CpuInfo(), 104, "Copyright MoonBit 2026");
    ReadsBehind(h, CpuInfo(), 138, "SZ-00000001");
    ReadsBehind(h, CpuInfo(), 172, "CPU 1214C");
  }

  lemma {:induction false} AsksLong(params: seq<Byte>)
    ensures AsksUserdata(params) ==> |params| >= 6
  {
  }

  /**
   * A userdata request gets its answer; a job that is neither that, a read nor a write is answered with
   * ten zero bytes and changes nothing.
   */
  lemma {:induction false} OtherJobsAnswered(mem: Memory, req: Request)
    ensures AsksUserdata(req.params) ==> Handle(mem, req) == (mem, Reply(UserdataResp(req)))
    ensures |req.params| < 2 || (!AsksUserdata(req.params) && req.params[0] != 0x04 && req.params[0] != 0x05)
      ==> Handle(mem, req) == (mem, Reply(ReadResp([0, 0, 0, 0, 0, 0, 0, 0, 0, 0], req.refn)))
  {
    hide IsUserdata, AsksUserdata, ReadResp, UserdataResp;
    UserdataByBytes(req.params);
    AsksLong(req.params);
    assert Zeros(10) == [0, 0, 0, 0, 0, 0, 0, 0, 0, 0];
  }
}

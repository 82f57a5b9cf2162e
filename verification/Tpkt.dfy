/**
 * TPKT framing over a byte stream (RFC 1006, section 6): `read_exactly` and `read_tpkt` of
 * transport/tcp.mbt on a socket that delivers bytes in arbitrary segments.
 */
module Tpkt {
  import opened Bytes
  import opened Telegrams

  /** What the front of a byte stream holds. */
  datatype Front = Incomplete | Bad(error: S7Error) | Got(frame: Frame, rest: seq<Byte>)

  function Take(stream: seq<Byte>): Front {
    if |stream| < 4 then Incomplete
    else if stream[0] != 0x03 then Bad(InvalidPdu("Bad TPKT"))
    else
      var total := U16(stream[2], stream[3]);
      if total < 4 then Bad(InvalidPdu("Invalid TPKT length"))
      else if |stream| < total then Incomplete
      else Got(stream[..total], stream[total..])
  }

  /** A frame whose TPKT header states its own length. */
  predicate WellFramed(f: Frame) {
    |f| >= 4 && f[0] == 0x03 && U16(f[2], f[3]) == |f|
  }

  /** A frame is cut off the stream exactly, and leaves exactly the rest, iff it is well framed. */
  lemma {:induction false} TakeExact(f: Frame, rest: seq<Byte>)
    ensures Take(f + rest) == Got(f, rest) <==> WellFramed(f)
  {
    var s := f + rest;
    if WellFramed(f) {
      assert s[..|f|] == f && s[|f|..] == rest;
    }
  }

  /** The two errors of the reader, by the header alone. */
  lemma {:induction false} BadHeaders(stream: seq<Byte>)
    ensures Take(stream) == Bad(InvalidPdu("Bad TPKT")) <==> |stream| >= 4 && stream[0] != 3
    ensures Take(stream) == Bad(InvalidPdu("Invalid TPKT length"))
      <==> |stream| >= 4 && stream[0] == 3 && stream[2] == 0 && stream[3] < 4
    ensures Take(stream).Bad? <==> |stream| >= 4 && (stream[0] != 3 || (stream[2] == 0 && stream[3] < 4))
  {
  }

  /** A proper prefix of a well-framed frame is incomplete: the reader waits, it never misreads. */
  lemma {:induction false} PrefixWaits(f: Frame, n: nat)
    requires WellFramed(f) && n < |f|
    ensures Take(f[..n]) == Incomplete
  {
  }

  function Flatten(segments: seq<seq<Byte>>): seq<Byte> {
    if segments == [] then [] else segments[0] + Flatten(segments[1..])
  }

  /** The frames read by `k` successive calls, with the unread rest; `None` if one call fails. */
  function TakeMany(stream: seq<Byte>, k: nat): Option<(seq<Frame>, seq<Byte>)> {
    if k == 0 then Some(([], stream))
    else
      match Take(stream)
      case Got(f, rest) =>
        (match TakeMany(rest, k - 1)
         case None => None
         case Some((fs, rest')) => Some(([f] + fs, rest')))
      case _ => None
  }

  /** One call reads `f` off the front, and the rest of the calls read the rest. */
  lemma {:induction false} TakeManyHead(f: Frame, tail: seq<Byte>, fs: seq<Frame>, rest: seq<Byte>)
    ensures TakeMany(f + tail, 1 + |fs|) == Some(([f] + fs, rest))
      <==> WellFramed(f) && TakeMany(tail, |fs|) == Some((fs, rest))
  {
    TakeExact(f, tail);
    TakeSplits(f + tail);
    hide Take, WellFramed;
    var many := TakeMany(f + tail, 1 + |fs|);
    if many == Some(([f] + fs, rest)) {
      var got := Take(f + tail);
      var (gs, rest') := TakeMany(got.rest, |fs|).value;
      assert ([got.frame] + gs)[0] == f && ([got.frame] + gs)[1..] == fs;
      assert (f + tail)[|f|..] == tail;
    }
  }

  lemma {:induction false} TakeSplits(stream: seq<Byte>)
    ensures Take(stream).Got? ==> Take(stream).frame + Take(stream).rest == stream
    ensures Take(stream).Got?
      ==> |Take(stream).frame| <= |stream| && Take(stream).rest == stream[|Take(stream).frame|..]
  {
  }

  /**
   * For every list of frames and every segmentation of their concatenation, successive reads return
   * exactly those frames and leave exactly the bytes that follow, iff every frame is well framed.
   */
  lemma {:induction false} DeframingExact(frames: seq<Frame>, rest: seq<Byte>, segments: seq<seq<Byte>>)
    requires Flatten(segments) == Flatten(frames) + rest
    ensures TakeMany(Flatten(segments), |frames|) == Some((frames, rest))
      <==> forall i | 0 <= i < |frames| :: WellFramed(frames[i])
  {
    hide Take, WellFramed;
    if frames == [] {
      assert Flatten(frames) + rest == rest;
    } else {
      var f, tail := frames[0], Flatten(frames[1..]) + rest;
      assert Flatten(segments) == f + tail;
      assert Flatten([tail]) == tail + [] == tail;
      DeframingExact(frames[1..], rest, [tail]);
      TakeManyHead(f, tail, frames[1..], rest);
      assert frames == [f] + frames[1..];
      hide TakeMany, Flatten;
    }
  }

  /** A connected socket; `segments` is what the network will still deliver, in order. */
  class Socket {
    var segments: seq<seq<Byte>>

    ghost function Unread(): seq<Byte>
      reads this
    {
      Flatten(segments)
    }

    constructor (segments: seq<seq<Byte>>)
      ensures this.segments == segments
    {
      this.segments := segments;
    }

    /** `None` when the stream ends first, which the library raises as an error. */
    method ReadExactly(n: nat) returns (r: Option<seq<Byte>>)
      modifies this
      ensures n <= |old(Unread())| ==> r == Some(old(Unread())[..n]) && Unread() == old(Unread())[n..]
      ensures n > |old(Unread())| ==> r == None && Unread() == []
    {
      var buf: seq<Byte> := [];
      while |buf| < n && segments != []
        invariant |buf| <= n && buf + Unread() == old(Unread())
        decreases n - |buf|, |segments|
      {
        var seg, need := segments[0], n - |buf|;
        if |seg| <= need {
          buf := buf + seg;
          segments := segments[1..];
        } else {
          buf := buf + seg[..need];
          segments := [seg[need..]] + segments[1..];
        }
      }
      r := if |buf| == n then Some(buf) else None;
    }

    method ReadTpkt() returns (r: Result<Frame>)
      modifies this
      ensures match Take(old(Unread()))
        case Incomplete => r == Err(ConnectionClosed) && Unread() == []
        case Bad(e) => r == Err(e) && Unread() == old(Unread())[4..]
        case Got(f, rest) => r == Ok(f) && Unread() == rest
    {
      ghost var stream := Unread();
      var hdr := ReadExactly(4);
      if hdr.None? {
        return Err(ConnectionClosed);
      }
      if hdr.value[0] != 0x03 {
        return Err(InvalidPdu("Bad TPKT"));
      }
      var total := U16(hdr.value[2], hdr.value[3]);
      if total < 4 {
        return Err(InvalidPdu("Invalid TPKT length"));
      }
      var body := ReadExactly(total - 4);
      if body.None? {
        return Err(ConnectionClosed);
      }
      var result: seq<Byte> := [];
      for i := 0 to 4
        invariant result == hdr.value[..i]
      {
        result := result + [hdr.value[i]];
      }
      for i := 0 to |body.value|
        invariant result == hdr.value + body.value[..i]
      {
        result := result + [body.value[i]];
      }
      assert result == stream[..total];
      r := Ok(result);
    }

    /** Reads `k` frames from a socket that will deliver well-framed frames. */
    method ReadFrames(k: nat, ghost frames: seq<Frame>, ghost rest: seq<Byte>) returns (got: seq<Frame>)
      requires k == |frames| && forall i | 0 <= i < k :: WellFramed(frames[i])
      requires Unread() == Flatten(frames) + rest
      modifies this
      ensures got == frames && Unread() == rest
    {
      got := [];
      for i := 0 to k
        invariant got == frames[..i] && Unread() == Flatten(frames[i..]) + rest
      {
        TakeExact(frames[i], Flatten(frames[i + 1..]) + rest);
        assert Unread() == frames[i] + (Flatten(frames[i + 1..]) + rest);
        var r := ReadTpkt();
        got := got + [r.value];
      }
      assert Flatten(frames[k..]) + rest == rest;
    }
  }
}

/**
 * A log segment as bytes: frames of a length and a payload (src/node_wal_codec.rs), and what reading
 * one finds when the last frame was cut off by a crash.
 */
module WalFrames {
  import opened Bytes

  type Payload = seq<Byte>

  const MAX_FRAME_LEN := 16 * 1024 * 1024

  datatype Error = Empty | TooLarge | Truncated

  predicate Fits(p: Payload) {
    0 < |p| <= MAX_FRAME_LEN
  }

  function FrameBytes(p: Payload): (s: seq<Byte>)
    ensures |s| == 4 + |p|
  {
    ToLe(|p|, 4) + p
  }

  function FramesBytes(ps: seq<Payload>): seq<Byte> {
    if ps == [] then [] else FrameBytes(ps[0]) + FramesBytes(ps[1..])
  }

  /** The frame at the front of `s`; none at the end of the file or inside a length field. */
  function ReadFrame(s: seq<Byte>): (r: Result<Option<Payload>, Error>)
    ensures r.Ok? && r.value.Some? ==> 0 < |r.value.value| && 4 + |r.value.value| <= |s|
  {
    if |s| < 4 then Ok(None)
    else
      var len := ReadLe(s, 0, 4);
      if len == 0 then Err(Empty)
      else if len > MAX_FRAME_LEN then Err(TooLarge)
      else if |s| < 4 + len then Err(Truncated)
      else Ok(Some(s[4..4 + len]))
  }

  /** All frames up to the end of the file or the first error, and that error. */
  ghost function ReadFrames(s: seq<Byte>): (seq<Payload>, Option<Error>)
    decreases |s|
  {
    match ReadFrame(s)
    case Err(e) => ([], Some(e))
    case Ok(None) => ([], None)
    case Ok(Some(p)) => var (rest, e) := ReadFrames(s[4 + |p|..]); ([p] + rest, e)
  }

  lemma FrameReads(p: Payload, rest: seq<Byte>)
    requires Fits(p)
    ensures ReadFrame(FrameBytes(p) + rest) == Ok(Some(p)) && (FrameBytes(p) + rest)[4 + |p|..] == rest
  {
    Pow256Values();
    LeRoundTrip(|p|, 4);
    hide ToLe, FromLe;
    var s := FrameBytes(p) + rest;
    assert s[0..4] == ToLe(|p|, 4) && s[4..4 + |p|] == p;
  }

  /** What is read is a whole frame, byte for byte, and every whole frame is read. */
  lemma ReadsOnlyFrames(s: seq<Byte>, p: Payload)
    ensures ReadFrame(s) == Ok(Some(p)) <==> Fits(p) && FrameBytes(p) <= s
    ensures ReadFrame(s) == Ok(None) <==> |s| < 4
    ensures ReadFrame(s) == Err(Empty) <==> |s| >= 4 && ReadLe(s, 0, 4) == 0
    ensures ReadFrame(s) == Err(TooLarge) <==> |s| >= 4 && ReadLe(s, 0, 4) > MAX_FRAME_LEN
  {
    hide ToLe, FromLe;
    if Fits(p) && FrameBytes(p) <= s {
      FrameReads(p, s[4 + |p|..]);
      assert s == FrameBytes(p) + s[4 + |p|..];
    }
    if ReadFrame(s) == Ok(Some(p)) {
      LeOf(s[0..4]);
      assert s[..4 + |p|] == s[0..4] + s[4..4 + |p|];
    }
  }

  /**
   * Reading a segment takes whole frames off its front until fewer than 4 bytes are left, or the
   * bytes left start with no whole frame, which is an error.
   */
  lemma {:induction false} SegmentExactly(s: seq<Byte>)
    ensures var (ps, e) := ReadFrames(s);
            && FramesBytes(ps) <= s && (forall i :: 0 <= i < |ps| ==> Fits(ps[i]))
            && (e == None <==> |s[|FramesBytes(ps)|..]| < 4)
            && (e.Some? ==> forall p :: Fits(p) ==> !(FrameBytes(p) <= s[|FramesBytes(ps)|..]))
    decreases |s|
  {
    hide FrameBytes, ReadFrame, Fits;
    var (ps, e) := ReadFrames(s);
    ReadsOnlyFrames(s, []);
    match ReadFrame(s)
    case Ok(Some(p)) =>
      ReadsOnlyFrames(s, p);
      var rest := s[4 + |p|..];
      SegmentExactly(rest);
      assert ps[1..] == ReadFrames(rest).0;
      assert s == FrameBytes(p) + rest;
      assert s[|FramesBytes(ps)|..] == rest[|FramesBytes(ps[1..])|..];
    case Ok(None) =>
      assert s[0..] == s;
    case Err(x) =>
      assert s[0..] == s;
      forall p | Fits(p) ensures !(FrameBytes(p) <= s) {
        ReadsOnlyFrames(s, p);
      }
  }

  lemma CutReads(p: Payload, cut: nat)
    requires Fits(p) && cut < 4 + |p|
    ensures ReadFrame(FrameBytes(p)[..cut]) == if cut < 4 then Ok(None) else Err(Truncated)
  {
    Pow256Values();
    LeRoundTrip(|p|, 4);
    hide ToLe, FromLe;
    if cut >= 4 {
      assert FrameBytes(p)[..cut][0..4] == ToLe(|p|, 4);
    }
  }

  /**
   * A segment of whole frames and the first `cut` bytes of one more: the whole frames are read, and
   * reading then ends as at the end of the file exactly when the cut is inside the length field or
   * at the frame's end; anywhere else it fails, and opening the node with it.
   */
  lemma {:induction false} CutSegment(ps: seq<Payload>, p: Payload, cut: nat)
    requires (forall i :: 0 <= i < |ps| ==> Fits(ps[i])) && Fits(p) && cut <= 4 + |p|
    ensures ReadFrames(FramesBytes(ps) + FrameBytes(p)[..cut]) ==
            if cut < 4 then (ps, None) else if cut < 4 + |p| then (ps, Some(Truncated)) else (ps + [p], None)
    decreases |ps|
  {
    hide FrameBytes, ReadFrame;
    var tail := FrameBytes(p)[..cut];
    if ps == [] {
      assert [] + tail == tail;
      if cut < 4 + |p| {
        CutReads(p, cut);
      } else {
        FrameReads(p, []);
        assert FrameBytes(p) + [] == FrameBytes(p) == tail && FramesBytes(ps) + tail == tail;
        NoFrames();
        assert ReadFrames(tail) == ([p] + [], None);
        assert ps + [p] == [p] == [p] + [];
      }
    } else {
      var rest := FramesBytes(ps[1..]) + tail;
      assert FramesBytes(ps) + tail == FrameBytes(ps[0]) + rest;
      FrameReads(ps[0], rest);
      CutSegment(ps[1..], p, cut);
      assert [ps[0]] + ps[1..] == ps && [ps[0]] + (ps[1..] + [p]) == ps + [p];
    }
  }

  lemma NoFrames()
    ensures ReadFrames([]) == ([], None)
  {
  }

  /** The reading loop. */
  method ReadSegment(s: seq<Byte>) returns (ps: seq<Payload>, e: Option<Error>)
    ensures (ps, e) == ReadFrames(s)
  {
    hide ReadFrame;
    ps := [];
    var at := 0;
    assert s[0..] == s && [] + ReadFrames(s).0 == ReadFrames(s).0;
    while true
      invariant 0 <= at <= |s| && ReadFrames(s) == (ps + ReadFrames(s[at..]).0, ReadFrames(s[at..]).1)
      decreases |s| - at
    {
      match ReadFrame(s[at..])
      case Err(x) =>
        assert ps + [] == ps;
        return ps, Some(x);
      case Ok(None) =>
        assert ps + [] == ps;
        return ps, None;
      case Ok(Some(p)) =>
        assert s[at..][4 + |p|..] == s[at + 4 + |p|..];
        assert ps + ([p] + ReadFrames(s[at + 4 + |p|..]).0) == ps + [p] + ReadFrames(s[at + 4 + |p|..]).0;
        ps, at := ps + [p], at + 4 + |p|;
    }
  }
}

/** Cutting a byte stream into DSMSG frames: the incremental `FrameScanner` (internal/qnxdbg/decode.go)
    and the blocking `readFrame` (internal/qnxdbg/client.go), both against one left-to-right
    definition of which octets lie between delimiters. */
module DsmsgScanner {
  import opened Sequences
  import opened Bytes
  import opened DsmsgFraming

  // ----- the reference segmentation -----

  /** The non-empty delimiter-free runs that `s` closes, when `partial` is already open. */
  function Contents(partial: seq<byte>, s: seq<byte>): (cs: seq<seq<byte>>)
    ensures forall c | c in cs :: c != []
    decreases |s|
  {
    if s == [] then []
    else if s[0] == FRAME_CHAR then (if partial == [] then [] else [partial]) + Contents([], s[1..])
    else Contents(partial + [s[0]], s[1..])
  }

  /** The run still open at the end of `s`. */
  function Remainder(partial: seq<byte>, s: seq<byte>): seq<byte>
    decreases |s|
  {
    if s == [] then partial
    else if s[0] == FRAME_CHAR then Remainder([], s[1..])
    else Remainder(partial + [s[0]], s[1..])
  }

  /** The unescaped run without its last octet, the checksum. */
  function StripChecksum(content: seq<byte>): seq<byte> {
    var dec := Unescape(content);
    if dec == [] then [] else dec[..|dec| - 1]
  }

  function Payloads(cs: seq<seq<byte>>): seq<seq<byte>> {
    seq(|cs|, i requires 0 <= i < |cs| => StripChecksum(cs[i]))
  }

  function Raws(cs: seq<seq<byte>>): seq<seq<byte>> {
    seq(|cs|, i requires 0 <= i < |cs| => [FRAME_CHAR] + cs[i] + [FRAME_CHAR])
  }

  lemma PayloadsConcat(a: seq<seq<byte>>, b: seq<seq<byte>>)
    ensures Payloads(a + b) == Payloads(a) + Payloads(b)
    ensures Raws(a + b) == Raws(a) + Raws(b)
  {
  }

  lemma {:induction false} ContentsConcat(partial: seq<byte>, a: seq<byte>, b: seq<byte>)
    ensures Contents(partial, a + b) == Contents(partial, a) + Contents(Remainder(partial, a), b)
    ensures Remainder(partial, a + b) == Remainder(Remainder(partial, a), b)
    decreases |a|
  {
    if a == [] {
      assert a + b == b;
    } else {
      assert (a + b)[1..] == a[1..] + b;
      ContentsConcat(if a[0] == FRAME_CHAR then [] else partial + [a[0]], a[1..], b);
    }
  }

  lemma {:induction false} ContentsPlain(partial: seq<byte>, c: seq<byte>)
    requires NoDelimiter(c)
    ensures Contents(partial, c) == []
    ensures Remainder(partial, c) == partial + c
    decreases |c|
  {
    if c != [] {
      ContentsPlain(partial + [c[0]], c[1..]);
      assert partial + [c[0]] + c[1..] == partial + c;
    } else {
      assert partial + c == partial;
    }
  }

  /** A delimiter-free run followed by a delimiter is emitted, and scanning goes on at the delimiter. */
  lemma ContentsRun(c: seq<byte>, t: seq<byte>)
    requires c != [] && NoDelimiter(c)
    requires t != [] && t[0] == FRAME_CHAR
    ensures Contents([], c + t) == [c] + Contents([], t[1..])
    ensures Remainder([], c + t) == Remainder([], t[1..])
    ensures Contents([], t) == Contents([], t[1..]) && Remainder([], t) == Remainder([], t[1..])
  {
    ContentsConcat([], c, t);
    ContentsPlain([], c);
    assert [] + c == c;
  }

  lemma {:induction false} SkipDelimiters(s: seq<byte>, i: nat)
    requires i <= |s| && forall k | 0 <= k < i :: s[k] == FRAME_CHAR
    ensures Contents([], s) == Contents([], s[i..])
    ensures Remainder([], s) == Remainder([], s[i..])
    decreases i
  {
    if i == 0 {
      assert s[0..] == s;
    } else {
      SkipDelimiters(s[1..], i - 1);
      assert s[1..][i - 1..] == s[i..];
    }
  }

  /** One round of the scanner: after `i` delimiters, the run up to the delimiter at `j` is emitted. */
  lemma ScanRound(s: seq<byte>, i: nat, j: nat)
    requires i < j < |s| && s[j] == FRAME_CHAR
    requires forall k | 0 <= k < i :: s[k] == FRAME_CHAR
    requires NoDelimiter(s[i..j])
    ensures Contents([], s) == [s[i..j]] + Contents([], s[j..])
    ensures Remainder([], s) == Remainder([], s[j..])
  {
    SkipDelimiters(s, i);
    assert s[i..] == s[i..j] + s[j..];
    ContentsRun(s[i..j], s[j..]);
  }

  /** The scanner's last round: a run without closing delimiter is kept. */
  lemma ScanEnd(s: seq<byte>, i: nat)
    requires i <= |s| && NoDelimiter(s[i..])
    requires forall k | 0 <= k < i :: s[k] == FRAME_CHAR
    ensures Contents([], s) == [] && Remainder([], s) == s[i..]
  {
    SkipDelimiters(s, i);
    ContentsPlain([], s[i..]);
    assert [] + s[i..] == s[i..];
  }

  lemma {:induction false} RemainderHasNoDelimiter(partial: seq<byte>, s: seq<byte>)
    requires NoDelimiter(partial)
    ensures NoDelimiter(Remainder(partial, s))
    decreases |s|
  {
    if s != [] {
      RemainderHasNoDelimiter(if s[0] == FRAME_CHAR then [] else partial + [s[0]], s[1..]);
    }
  }

  /** One frame closes whatever run was open, then contributes its own content. */
  lemma ScanFrame(partial: seq<byte>, payload: seq<byte>)
    ensures Contents(partial, Frame(payload)) == Contents(partial, [FRAME_CHAR]) + [FrameContent(payload)]
    ensures Remainder(partial, Frame(payload)) == []
  {
    var c := FrameContent(payload);
    FrameContentRoundTrip(payload);
    var t := c + [FRAME_CHAR];
    assert Frame(payload) == [FRAME_CHAR] + t;
    ContentsConcat(partial, [FRAME_CHAR], t);
    ContentsRun(c, [FRAME_CHAR]);
    assert [c] + Contents([], []) == [c];
  }

  // ----- the incremental scanner -----

  /** Retained octets and new data are scanned as one stream. */
  lemma FeedStart(buf: seq<byte>, data: seq<byte>)
    requires NoDelimiter(buf)
    ensures Contents([], buf + data) == Contents(buf, data)
    ensures Remainder([], buf + data) == Remainder(buf, data)
    ensures NoDelimiter(Remainder(buf, data))
  {
    ContentsConcat([], buf, data);
    ContentsPlain([], buf);
    assert [] + buf == buf;
    RemainderHasNoDelimiter(buf, data);
  }

  lemma EmitRound(done: seq<seq<byte>>, content: seq<byte>, later: seq<seq<byte>>)
    ensures done + ([content] + later) == (done + [content]) + later
    ensures Payloads(done + [content]) == Payloads(done) + [StripChecksum(content)]
    ensures Raws(done + [content]) == Raws(done) + [[FRAME_CHAR] + content + [FRAME_CHAR]]
  {
    PayloadsConcat(done, [content]);
  }

  class FrameScanner {
    var buf: seq<byte>

    /** Between calls the retained octets never hold a delimiter. */
    ghost predicate Valid()
      reads this
    {
      NoDelimiter(buf)
    }

    constructor ()
      ensures Valid() && buf == []
    {
      buf := [];
    }

    method Feed(data: seq<byte>) returns (payloads: seq<seq<byte>>, raws: seq<seq<byte>>)
      requires Valid()
      modifies this
      ensures Valid()
      ensures payloads == Payloads(Contents(old(buf), data))
      ensures raws == Raws(Contents(old(buf), data))
      ensures buf == Remainder(old(buf), data)
    {
      ghost var all, last := Contents(buf, data), Remainder(buf, data);
      FeedStart(buf, data);
      payloads, raws := [], [];
      ghost var done: seq<seq<byte>> := [];
      buf := buf + data;
      while true
        invariant done + Contents([], buf) == all
        invariant Remainder([], buf) == last
        invariant payloads == Payloads(done) && raws == Raws(done)
        decreases |buf|
      {
        var i := SkipLeading(buf);
        if i >= |buf| {
          ScanEnd(buf, i);
          buf := [];
          return;
        }
        var j := FindClosing(buf, i);
        if j >= |buf| {
          assert buf[i..j] == buf[i..];
          ScanEnd(buf, i);
          buf := buf[i..];
          return;
        }
        var content := buf[i..j];
        ScanRound(buf, i, j);
        EmitRound(done, content, Contents([], buf[j..]));
        var raw := [FRAME_CHAR] + content + [FRAME_CHAR];
        var dec := ComputeUnescape(content);
        if |dec| >= 1 {
          payloads := payloads + [dec[..|dec| - 1]];
          raws := raws + [raw];
        }
        done := done + [content];
        buf := buf[j..];
      }
    }

    static method SkipLeading(s: seq<byte>) returns (i: nat)
      ensures i <= |s| && (forall k | 0 <= k < i :: s[k] == FRAME_CHAR)
      ensures i < |s| ==> s[i] != FRAME_CHAR
    {
      i := 0;
      while i < |s| && s[i] == FRAME_CHAR
        invariant i <= |s|
        invariant forall k | 0 <= k < i :: s[k] == FRAME_CHAR
      {
        i := i + 1;
      }
    }

    static method FindClosing(s: seq<byte>, i: nat) returns (j: nat)
      requires i < |s| && s[i] != FRAME_CHAR
      ensures i < j <= |s| && NoDelimiter(s[i..j])
      ensures j < |s| ==> s[j] == FRAME_CHAR
    {
      j := i;
      while j < |s| && s[j] != FRAME_CHAR
        invariant i <= j <= |s|
        invariant NoDelimiter(s[i..j])
      {
        assert s[i..j + 1] == s[i..j] + [s[j]];
        j := j + 1;
      }
    }

    /** The scanner over a stream cut into arbitrary pieces, one `Feed` each. */
    method FeedAll(chunks: seq<seq<byte>>) returns (payloads: seq<seq<byte>>, raws: seq<seq<byte>>)
      requires Valid()
      modifies this
      ensures Valid()
      ensures payloads == Payloads(Contents(old(buf), Flatten(chunks)))
      ensures raws == Raws(Contents(old(buf), Flatten(chunks)))
      ensures buf == Remainder(old(buf), Flatten(chunks))
    {
      payloads, raws := [], [];
      ghost var start := buf;
      for k := 0 to |chunks|
        invariant Valid()
        invariant payloads == Payloads(ContentsOfChunks(start, chunks[..k]))
        invariant raws == Raws(ContentsOfChunks(start, chunks[..k]))
        invariant buf == Remainder(start, Flatten(chunks[..k]))
      {
        OneMoreChunk(start, chunks, k);
        var p, r := Feed(chunks[k]);
        payloads, raws := payloads + p, raws + r;
      }
      assert chunks[..|chunks|] == chunks;
      ChunkIndependence(start, chunks);
    }
  }

  function Flatten(chunks: seq<seq<byte>>): seq<byte> {
    if chunks == [] then [] else chunks[0] + Flatten(chunks[1..])
  }

  lemma {:induction false} FlattenLast(chunks: seq<seq<byte>>)
    requires chunks != []
    ensures Flatten(chunks) == Flatten(chunks[..|chunks| - 1]) + chunks[|chunks| - 1]
  {
    var n := |chunks| - 1;
    if n == 0 {
      assert chunks[1..] == [] && chunks[..0] == [];
      assert chunks[0] + [] == chunks[0] == [] + chunks[0];
    } else {
      FlattenLast(chunks[1..]);
      assert chunks[1..][..n - 1] == chunks[..n][1..];
      Regroup(chunks[0], Flatten(chunks[..n][1..]), chunks[n]);
    }
  }

  /** What successive `Feed` calls emit in total: each continues from the octets the previous one kept. */
  function ContentsOfChunks(partial: seq<byte>, chunks: seq<seq<byte>>): seq<seq<byte>>
    decreases |chunks|
  {
    if chunks == [] then []
    else
      var n := |chunks| - 1;
      ContentsOfChunks(partial, chunks[..n]) + Contents(Remainder(partial, Flatten(chunks[..n])), chunks[n])
  }

  lemma OneMoreChunk(partial: seq<byte>, chunks: seq<seq<byte>>, k: nat)
    requires k < |chunks|
    ensures var kept := Remainder(partial, Flatten(chunks[..k]));
      var was := ContentsOfChunks(partial, chunks[..k]);
      var now := ContentsOfChunks(partial, chunks[..k + 1]);
      && Payloads(now) == Payloads(was) + Payloads(Contents(kept, chunks[k]))
      && Raws(now) == Raws(was) + Raws(Contents(kept, chunks[k]))
      && Remainder(kept, chunks[k]) == Remainder(partial, Flatten(chunks[..k + 1]))
  {
    var before := Flatten(chunks[..k]);
    assert chunks[..k + 1][..k] == chunks[..k];
    FlattenLast(chunks[..k + 1]);
    ContentsConcat(partial, before, chunks[k]);
    PayloadsConcat(ContentsOfChunks(partial, chunks[..k]), Contents(Remainder(partial, before), chunks[k]));
  }

  /** However a stream is cut, the frames emitted are those of one call on the whole stream. */
  lemma {:induction false} ChunkIndependence(partial: seq<byte>, chunks: seq<seq<byte>>)
    ensures ContentsOfChunks(partial, chunks) == Contents(partial, Flatten(chunks))
    decreases |chunks|
  {
    if chunks != [] {
      var n := |chunks| - 1;
      ChunkIndependence(partial, chunks[..n]);
      FlattenLast(chunks);
      ContentsConcat(partial, Flatten(chunks[..n]), chunks[n]);
    }
  }

  // ----- the blocking reader -----

  datatype Segment = NoFrame | Segment(content: seq<byte>, rest: seq<byte>)

  datatype FrameResult = Payload(payload: seq<byte>) | BadChecksum | EmptyFrame | EndOfInput

  /** The first non-empty delimited run of `s` and the stream after its closing delimiter. */
  function NextSegment(s: seq<byte>): (r: Segment)
    ensures r.Segment? ==> r.content != [] && NoDelimiter(r.content) && |r.rest| < |s|
  {
    if s == [] then NoFrame
    else if s[0] == FRAME_CHAR then NextSegment(s[1..])
    else
      var k := IndexOf(s, FRAME_CHAR);
      if k == |s| then NoFrame else Segment(s[..k], s[k + 1..])
  }

  /** What `readFrame` makes of one run: its payload, or a checksum complaint. A run is never
      empty, so the empty-frame complaint never arises. */
  function CheckedPayload(content: seq<byte>): (r: FrameResult)
    ensures content != [] ==> r.Payload? || r.BadChecksum?
  {
    var dec := Unescape(content);
    var n := |dec| - 1;
    if dec == [] then EmptyFrame
    else if Checksum(dec[..n]) == dec[n] then Payload(dec[..n])
    else BadChecksum
  }

  lemma {:induction false} NextSegmentIsFirstContent(s: seq<byte>)
    ensures NextSegment(s).NoFrame? ==> Contents([], s) == []
    ensures NextSegment(s).Segment? ==>
      Contents([], s) == [NextSegment(s).content] + Contents([], NextSegment(s).rest)
  {
    if s != [] {
      if s[0] == FRAME_CHAR {
        NextSegmentIsFirstContent(s[1..]);
      } else {
        var k := IndexOf(s, FRAME_CHAR);
        if k == |s| {
          assert s[..k] == s;
          ContentsPlain([], s);
        } else {
          assert s == s[..k] + s[k..];
          assert s[k..][1..] == s[k + 1..];
          ContentsRun(s[..k], s[k..]);
        }
      }
    }
  }

  /** The two loops of `readFrame`: skip delimiters, then collect up to the next one. */
  method ReadSegment(s: seq<byte>) returns (r: Segment)
    ensures r == NextSegment(s)
  {
    var i := 0;
    while i < |s| && s[i] == FRAME_CHAR
      invariant 0 <= i <= |s|
      invariant NextSegment(s) == NextSegment(s[i..])
    {
      assert s[i..][1..] == s[i + 1..];
      i := i + 1;
    }
    if i >= |s| {
      return NoFrame;
    }
    r := CollectRun(s[i..]);
  }

  /** The second loop, after the first content octet. */
  method CollectRun(t: seq<byte>) returns (r: Segment)
    requires t != [] && t[0] != FRAME_CHAR
    ensures r == NextSegment(t)
  {
    var content := [t[0]];
    var j := 1;
    while j < |t| && t[j] != FRAME_CHAR
      invariant 0 < j <= |t|
      invariant content == t[..j] && NoDelimiter(content)
    {
      content := content + [t[j]];
      j := j + 1;
    }
    if j >= |t| {
      assert content == t;
      return NoFrame;
    }
    assert t == content + [FRAME_CHAR] + t[j + 1..];
    IndexOfAfter(content, FRAME_CHAR, t[j + 1..]);
    r := Segment(content, t[j + 1..]);
  }

  /** Every result repeated `readFrame` calls give on `s` before the stream ends. */
  function ReadAll(s: seq<byte>): seq<FrameResult>
    decreases |s|
  {
    match NextSegment(s)
    case NoFrame => []
    case Segment(content, rest) => [CheckedPayload(content)] + ReadAll(rest)
  }

  /** A frame is good when its last octet is the checksum of the payload the scanner hands out. */
  function Verdict(content: seq<byte>): FrameResult {
    var p := StripChecksum(content);
    if Unescape(content) == p + [Checksum(p)] then Payload(p) else BadChecksum
  }

  lemma CheckedPayloadIsVerdict(content: seq<byte>)
    requires content != []
    ensures CheckedPayload(content) == Verdict(content)
  {
    var dec := Unescape(content);
    assert dec == dec[..|dec| - 1] + [dec[|dec| - 1]];
  }

  /** `readFrame` and the scanner cut the stream identically, and `readFrame` differs only in
      rejecting the frames whose checksum is wrong. */
  lemma {:induction false} ReaderAgreesWithScanner(s: seq<byte>)
    ensures |ReadAll(s)| == |Contents([], s)|
    ensures forall i | 0 <= i < |ReadAll(s)| :: ReadAll(s)[i] == Verdict(Contents([], s)[i])
    decreases |s|
  {
    NextSegmentIsFirstContent(s);
    match NextSegment(s)
    case NoFrame =>
    case Segment(content, rest) =>
      ReaderAgreesWithScanner(rest);
      CheckedPayloadIsVerdict(content);
  }

  lemma NextSegmentOf(c: seq<byte>, rest: seq<byte>)
    requires c != [] && NoDelimiter(c)
    ensures NextSegment([FRAME_CHAR] + c + [FRAME_CHAR] + rest) == Segment(c, rest)
  {
    var t := c + [FRAME_CHAR] + rest;
    assert ([FRAME_CHAR] + c + [FRAME_CHAR] + rest)[1..] == t;
    IndexOfAfter(c, FRAME_CHAR, rest);
    assert t[..|c|] == c && t[|c| + 1..] == rest;
  }

  lemma ReadFrameOfFrame(payload: seq<byte>, rest: seq<byte>)
    ensures NextSegment(Frame(payload) + rest) == Segment(FrameContent(payload), rest)
    ensures CheckedPayload(FrameContent(payload)) == Payload(payload)
  {
    FrameContentRoundTrip(payload);
    NextSegmentOf(FrameContent(payload), rest);
    assert (payload + [Checksum(payload)])[..|payload|] == payload;
  }

  // ----- round trip with resynchronisation -----

  function Frames(payloads: seq<seq<byte>>): seq<byte> {
    if payloads == [] then [] else Frame(payloads[0]) + Frames(payloads[1..])
  }

  lemma {:induction false} FramesConcat(a: seq<seq<byte>>, b: seq<seq<byte>>)
    ensures Frames(a + b) == Frames(a) + Frames(b)
  {
    if a == [] {
      assert a + b == b;
    } else {
      assert (a + b)[1..] == a[1..] + b;
      FramesConcat(a[1..], b);
      Regroup(Frame(a[0]), Frames(a[1..]), Frames(b));
    }
  }

  lemma FramesOfOne(payload: seq<byte>)
    ensures Frames([payload]) == Frame(payload)
  {
    assert Frame(payload) + [] == Frame(payload);
  }

  /** What a scanner that starts on `s` hands out. */
  function Scan(s: seq<byte>): seq<seq<byte>> {
    Payloads(Contents([], s))
  }

  lemma StripChecksumOfFrame(payload: seq<byte>)
    ensures StripChecksum(FrameContent(payload)) == payload
  {
    FrameContentRoundTrip(payload);
  }

  lemma FirstPayload(p: seq<byte>, cs: seq<seq<byte>>)
    ensures Payloads([FrameContent(p)] + cs) == [p] + Payloads(cs)
  {
    StripChecksumOfFrame(p);
    PayloadsConcat([FrameContent(p)], cs);
  }

  lemma FirstFrame(p: seq<byte>, rest: seq<byte>)
    ensures Contents([], Frame(p) + rest) == [FrameContent(p)] + Contents([], rest)
    ensures Remainder([], Frame(p) + rest) == Remainder([], rest)
  {
    ScanFrame([], p);
    ContentsConcat([], Frame(p), rest);
  }

  lemma {:induction false} ScanFrames(payloads: seq<seq<byte>>)
    ensures Scan(Frames(payloads)) == payloads
    ensures Remainder([], Frames(payloads)) == []
  {
    if payloads != [] {
      var p, rest := payloads[0], Frames(payloads[1..]);
      ScanFrames(payloads[1..]);
      FirstFrame(p, rest);
      FirstPayload(p, Contents([], rest));
    }
  }

  lemma ContentsAfterGarbage(garbage: seq<byte>, payload: seq<byte>, rest: seq<byte>)
    ensures Contents([], garbage + (Frame(payload) + rest))
         == Contents([], garbage + [FRAME_CHAR]) + ([FrameContent(payload)] + Contents([], rest))
  {
    var open := Remainder([], garbage);
    ContentsConcat([], garbage, Frame(payload) + rest);
    ContentsConcat([], garbage, [FRAME_CHAR]);
    ContentsConcat(open, Frame(payload), rest);
    ScanFrame(open, payload);
  }

  /** Any garbage in front of a list of frames costs nothing but its own segments: the opening
      delimiter of the first frame closes the garbage, and every payload follows in order. */
  lemma Resynchronise(garbage: seq<byte>, payloads: seq<seq<byte>>)
    requires payloads != []
    ensures Scan(garbage + Frames(payloads)) == Scan(garbage + [FRAME_CHAR]) + payloads
  {
    var p, rest := payloads[0], Frames(payloads[1..]);
    assert Frames(payloads) == Frame(p) + rest;
    ContentsAfterGarbage(garbage, p, rest);
    var after := [FrameContent(p)] + Contents([], rest);
    PayloadsConcat(Contents([], garbage + [FRAME_CHAR]), after);
    assert Payloads(after) == payloads by {
      ScanFrames(payloads[1..]);
      StripChecksumOfFrame(p);
      PayloadsConcat([FrameContent(p)], Contents([], rest));
      assert payloads == [p] + payloads[1..];
    }
  }

  // ----- corruption -----

  /** One changed content octet, neither the old nor the new one a delimiter or an escape, always
      makes `readFrame` report a bad checksum. */
  lemma CorruptionIsCaught(content: seq<byte>, k: nat, x: byte)
    requires k < |content| && NoDelimiter(content)
    requires CheckedPayload(content).Payload?
    requires x != content[k] && content[k] != ESC_CHAR
    requires x != FRAME_CHAR && x != ESC_CHAR
    ensures NoDelimiter(content[k := x])
    ensures CheckedPayload(content[k := x]) == BadChecksum
  {
    var dec, bad := Unescape(content), Unescape(content[k := x]);
    var n := |dec| - 1;
    var j := UnescapeUpdate(content, k, x);
    if j < n {
      assert bad[..n] == dec[..n][j := bad[j]];
      SumUpdate(dec[..n], j, bad[j]);
      DifferentSums(Sum(bad[..n]), Sum(dec[..n]));
    } else {
      assert bad[..n] == dec[..n];
    }
  }

  lemma DifferentSums(s: nat, t: nat)
    requires s != t && -256 < s - t < 256
    ensures s % 256 != t % 256
  {
  }

  lemma UpdateInsideFrame(c: seq<byte>, k: nat, x: byte)
    requires 0 < k <= |c|
    ensures ([FRAME_CHAR] + c + [FRAME_CHAR])[k] == c[k - 1]
    ensures ([FRAME_CHAR] + c + [FRAME_CHAR])[k := x] == [FRAME_CHAR] + c[k - 1 := x] + [FRAME_CHAR]
  {
  }

  /** The same for a frame as sent, through the delimiters. */
  lemma CorruptFrameIsRejected(payload: seq<byte>, k: nat, x: byte, rest: seq<byte>)
    requires 0 < k < |Frame(payload)| - 1
    requires x != Frame(payload)[k] && Frame(payload)[k] != ESC_CHAR
    requires x != FRAME_CHAR && x != ESC_CHAR
    ensures var s := NextSegment(Frame(payload)[k := x] + rest);
      s.Segment? && s.rest == rest && CheckedPayload(s.content) == BadChecksum
  {
    var c := FrameContent(payload);
    UpdateInsideFrame(c, k, x);
    FrameContentRoundTrip(payload);
    ReadFrameOfFrame(payload, rest);
    CorruptionIsCaught(c, k - 1, x);
    NextSegmentOf(c[k - 1 := x], rest);
  }
}

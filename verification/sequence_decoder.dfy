/**
 * `parseBinarySequence`: header, frame and joint counts, model and root joint
 * names, then one rotation track per joint, each sample stored into the
 * sparse frames map under the joint's tag. Decoding stops after the last
 * joint track; bytes after it are never looked at.
 */
module SequenceDecoder {
  import opened Wrappers
  import opened BigEndian
  import opened ByteCursor
  import opened Header
  import opened JointTags
  import opened Frames

  /** The object returned: `{totalNFrames, nJoints, modelName, rootJointTag, frames}`. */
  datatype Sequence = Sequence(
    totalNFrames: int,
    nJoints: int,
    modelName: string,
    rootJointTag: Option<int>,
    frames: Frames)

  /** The only record length a joint track may declare: four 32-bit words. */
  const QUAT_DATA_LENGTH: int := 16

  /** How often `for (k = 0; k < n; k++)` runs: never when `n` is zero or negative. */
  function IterationCount(n: int): (c: nat)
    ensures n <= 0 ==> c == 0
    ensures n > 0 ==> c == n
  {
    if n > 0 then n else 0
  }

  /**
   * The `for` loop `for (k = 0; k < n; k++)`, counting its turns. It runs `n`
   * times for a positive `n` and never otherwise, which is `IterationCount(n)`.
   */
  method CountTurns(n: int) returns (turns: nat)
    ensures turns == IterationCount(n)
    ensures n > 0 ==> turns == n
    ensures n <= 0 ==> turns == 0
  {
    var k := 0;
    turns := 0;
    while k < n
      invariant 0 <= k && turns == k
      invariant k <= IterationCount(n)
      decreases n - k
    {
      turns := turns + 1;
      k := k + 1;
    }
  }

  /**
   * The sample stored in the 20 bytes at offset `j`, attributed to `tag`: the
   * signed frame number, then the bit patterns of the four quaternion floats.
   */
  function SampleAt(buf: seq<Byte>, j: nat, tag: Option<int>): Write
    requires j + 20 <= |buf|
  {
    Write(Int32At(buf, j), tag, Quat(Unsigned32At(buf, j + 4), Unsigned32At(buf, j + 8), Unsigned32At(buf, j + 12), Unsigned32At(buf, j + 16)))
  }

  /** The writes of `n` consecutive samples starting at offset `i`. */
  function SampleWrites(buf: seq<Byte>, i: nat, n: nat, tag: Option<int>): (ws: seq<Write>)
    requires i + 20 * n <= |buf|
    ensures |ws| == n
    decreases n
  {
    if n == 0 then [] else [SampleAt(buf, i, tag)] + SampleWrites(buf, i + 20, n - 1, tag)
  }

  /** The k-th sample of a run lies 20·k bytes after its start. */
  lemma {:induction false} SampleWritesAt(buf: seq<Byte>, i: nat, n: nat, tag: Option<int>, k: nat)
    requires i + 20 * n <= |buf| && k < n
    ensures SampleWrites(buf, i, n, tag)[k] == SampleAt(buf, i + 20 * k, tag)
    decreases n
  {
    var rest := SampleWrites(buf, i + 20, n - 1, tag);
    assert SampleWrites(buf, i, n, tag) == [SampleAt(buf, i, tag)] + rest;
    if k > 0 {
      SampleWritesAt(buf, i + 20, n - 1, tag, k - 1);
      assert (i + 20) + 20 * (k - 1) == i + 20 * k;
    }
  }

  /**
   * One sample: the frame number, then the words of w, x, y and z, each a
   * big-endian 32-bit word read right after the previous one.
   */
  function ReadSample(buf: seq<Byte>, i: nat, tag: Option<int>): (r: Read<Write>)
    ensures r.Ok? <==> i + 20 <= |buf|
    ensures r.Ok? ==> r.value.next == i + 20
    ensures r.Ok? ==> r.value.value.frameNb == Int32At(buf, i) && r.value.value.tag == tag
    ensures r.Ok? ==> r.value.value.q == Quat(Unsigned32At(buf, i + 4), Unsigned32At(buf, i + 8),
                                              Unsigned32At(buf, i + 12), Unsigned32At(buf, i + 16))
    ensures r.Err? ==> r.error == Underrun
  {
    if i + 20 <= |buf| then Ok(Parsed(SampleAt(buf, i, tag), i + 20)) else Err(Underrun)
  }

  /**
   * The inner loop over the samples of one joint track: each sample consumes
   * exactly 20 bytes and asks for one assignment `frames[frameNb][tag] = q`.
   * The loop yields those assignments in stream order; `Decode` performs
   * them.
   */
  function DecodeSamples(buf: seq<Byte>, i: nat, n: nat, tag: Option<int>): (r: Read<seq<Write>>)
    requires i <= |buf|
    ensures r.Ok? <==> i + 20 * n <= |buf|
    ensures r.Ok? ==> r.value.next == i + 20 * n && |r.value.value| == n
    ensures r.Err? ==> r.error == Underrun
    decreases n
  {
    if n == 0 then
      Ok(Parsed([], i))
    else
      var sample :- ReadSample(buf, i, tag);
      var rest :- DecodeSamples(buf, sample.next, n - 1, tag);
      Ok(Parsed([sample.value] + rest.value, rest.next))
  }

  /** What the sample loop yields: the samples found at offsets i, i + 20, ..., in order. */
  lemma {:induction false} DecodeSamplesWrites(buf: seq<Byte>, i: nat, n: nat, tag: Option<int>)
    requires i + 20 * n <= |buf|
    ensures DecodeSamples(buf, i, n, tag) == Ok(Parsed(SampleWrites(buf, i, n, tag), i + 20 * n))
    decreases n
  {
    if n > 0 {
      DecodeSamplesWrites(buf, i + 20, n - 1, tag);
    }
  }

  /** Offset just past the length-prefixed name starting at `i`. */
  function NameEnd(buf: seq<Byte>, i: nat): nat
    requires i + 2 <= |buf|
  {
    i + 2 + U16At(buf, i)
  }

  /**
   * One joint track: name, declared record length (must be 16), sample
   * count, samples. A track takes at least 10 bytes and never reads past the
   * end of the buffer.
   */
  function DecodeTrack(buf: seq<Byte>, i: nat): (r: Read<seq<Write>>)
    requires i <= |buf|
    ensures r.Ok? ==> i + 10 <= r.value.next <= |buf|
    ensures ReadString(buf, i, JointName).Err? ==> r == Err(MissingNul(JointName))
  {
    var jointName :- ReadString(buf, i, JointName);
    // A record length cut off by the end of the buffer is NaN, which is not 16 either.
    var iteLength := ReadInt32(buf, jointName.next);
    if iteLength.Err? || iteLength.value.value != QUAT_DATA_LENGTH then
      Err(UnexpectedDataLength)
    else
      var nFrames :- ReadInt32(buf, iteLength.value.next);
      DecodeSamples(buf, nFrames.next, IterationCount(nFrames.value), Tag(jointName.value))
  }

  /** A track whose name reads and whose record length is 16 goes on to its samples. */
  lemma {:induction false} DecodeTrackSamples(buf: seq<Byte>, i: nat)
    requires i <= |buf| && ReadString(buf, i, JointName).Ok? && NameEnd(buf, i) + 8 <= |buf|
    requires Int32At(buf, NameEnd(buf, i)) == QUAT_DATA_LENGTH
    ensures DecodeTrack(buf, i) ==
      DecodeSamples(buf, NameEnd(buf, i) + 8, IterationCount(Int32At(buf, NameEnd(buf, i) + 4)),
                    Tag(ReadString(buf, i, JointName).value.value))
  {
    hide Tag;
  }

  /**
   * A track whose name, record length 16, sample count and samples read as
   * given decodes to those samples and ends after the last of them.
   */
  lemma {:induction false} DecodeTrackOfFields(buf: seq<Byte>, i: nat, name: string, n: nat, ws: seq<Write>)
    requires i <= |buf| && ReadString(buf, i, JointName) == Ok(Parsed(name, i + |name| + 3))
    requires i + |name| + 11 <= |buf|
    requires Int32At(buf, i + |name| + 3) == QUAT_DATA_LENGTH && Int32At(buf, i + |name| + 7) == n
    requires DecodeSamples(buf, i + |name| + 11, n, Tag(name)) == Ok(Parsed(ws, i + |name| + 11 + 20 * n))
    ensures DecodeTrack(buf, i) == Ok(Parsed(ws, i + |name| + 11 + 20 * n))
  {
    hide Tag;
  }

  /**
   * Byte accounting of one track: after a track whose name length is L and
   * whose sample count is n the cursor has moved by 2 + L + 8 + 20·n, with no
   * samples when n <= 0.
   */
  lemma {:induction false} DecodeTrackAdvance(buf: seq<Byte>, i: nat)
    requires i <= |buf| && DecodeTrack(buf, i).Ok?
    ensures ReadString(buf, i, JointName).Ok? && NameEnd(buf, i) + 8 <= |buf|
    ensures Int32At(buf, NameEnd(buf, i)) == QUAT_DATA_LENGTH
    ensures DecodeTrack(buf, i).value.next ==
      NameEnd(buf, i) + 8 + 20 * IterationCount(Int32At(buf, NameEnd(buf, i) + 4))
  {
    hide Tag;
  }

  /**
   * A declared record length other than 16, or one cut off by the end of the
   * buffer, aborts the track, whatever sample count follows it.
   */
  lemma {:induction false} DecodeTrackBadLength(buf: seq<Byte>, i: nat)
    requires i <= |buf| && ReadString(buf, i, JointName).Ok?
    requires NameEnd(buf, i) + 4 > |buf| || Int32At(buf, NameEnd(buf, i)) != QUAT_DATA_LENGTH
    ensures DecodeTrack(buf, i) == Err(UnexpectedDataLength)
  {
    hide Tag;
  }

  /**
   * The outer loop: `n` joint tracks one after the other, their assignments
   * in stream order. Every track takes at least 10 bytes. (Like the other
   * loops it starts from a cursor inside the buffer, which every successful
   * read leaves it.)
   */
  function DecodeJoints(buf: seq<Byte>, i: nat, n: nat): (r: Read<seq<Write>>)
    requires i <= |buf|
    ensures r.Ok? ==> i + 10 * n <= r.value.next <= |buf|
    ensures n == 0 ==> r == Ok(Parsed([], i))
    decreases n
  {
    if n == 0 then
      Ok(Parsed([], i))
    else
      var track :- DecodeTrack(buf, i);
      var rest :- DecodeJoints(buf, track.next, n - 1);
      Ok(Parsed(track.value + rest.value, rest.next))
  }

  /** The assignments `ws` performed before those of `r`, when `r` succeeded. */
  function Prepend(ws: seq<Write>, r: Read<seq<Write>>): (r': Read<seq<Write>>)
    ensures r'.Ok? <==> r.Ok?
    ensures r.Err? ==> r' == r
  {
    match r
    case Ok(p) => Ok(Parsed(ws + p.value, p.next))
    case Err(e) => Err(e)
  }

  lemma {:induction false} PrependNil(r: Read<seq<Write>>)
    ensures Prepend([], r) == r
  {
    if r.Ok? {
      assert [] + r.value.value == r.value.value;
    }
  }

  lemma {:induction false} PrependTwice(a: seq<Write>, b: seq<Write>, r: Read<seq<Write>>)
    ensures Prepend(a, Prepend(b, r)) == Prepend(a + b, r)
  {
    if r.Ok? {
      assert a + (b + r.value.value) == (a + b) + r.value.value;
    }
  }

  /**
   * The whole decode. It fails with `MissingHeader` unless the magic is
   * present; otherwise the frame count is the u16 at bytes 4-5 and the joint
   * count the int32 at bytes 6-9, a joint count of zero or less meaning no
   * joint track is read. The root joint is reported by its tag, the frames
   * are what the assignments of all tracks leave when performed in order on
   * an empty object, and any failure along the way leaves no partial result.
   */
  function Decode(buf: seq<Byte>): (r: Result<Sequence, DecodeError>)
    ensures !HasMagic(buf) ==> r == Err(MissingHeader)
    ensures HasMagic(buf) && |buf| < 12 ==> r == Err(MissingNul(ModelName))
    ensures HasMagic(buf) && |buf| >= 10 && ReadString(buf, 10, ModelName).Err? ==> r == Err(MissingNul(ModelName))
    ensures && HasMagic(buf) && |buf| >= 12 && ReadString(buf, 10, ModelName).Ok?
            && ReadString(buf, NameEnd(buf, 10), RootJointName).Err?
            ==> r == Err(MissingNul(RootJointName))
    ensures r.Ok? ==> ReadString(buf, 10, ModelName).Ok? && ReadString(buf, NameEnd(buf, 10), RootJointName).Ok?
    ensures r.Ok? ==> HasMagic(buf) && |buf| >= 10
    ensures r.Ok? ==> r.value.totalNFrames == U16At(buf, 4) && IsUint16(r.value.totalNFrames)
    ensures r.Ok? ==> r.value.nJoints == Int32At(buf, 6) && IsInt32(r.value.nJoints)
    ensures r.Ok? && r.value.nJoints <= 0 ==> r.value.frames == map[]
    ensures r.Ok? && r.value.rootJointTag.Some? ==> IsJointTag(r.value.rootJointTag.value)
  {
    var start :- MatchHeader(buf);
    if start + 6 > |buf| then
      // The counts run off the end of the buffer: the source reads them as NaN
      // and goes on, but then the model name's length is cut off as well.
      Err(MissingNul(ModelName))
    else
      var totalNFrames := U16At(buf, start);
      var nJoints := Int32At(buf, start + 2);
      var modelName :- ReadString(buf, start + 6, ModelName);
      var rootJointName :- ReadString(buf, modelName.next, RootJointName);
      var rootJointTag := Tag(rootJointName.value);
      var writes :- DecodeJoints(buf, rootJointName.next, IterationCount(nJoints));
      Ok(Sequence(totalNFrames, nJoints, modelName.value, rootJointTag, ApplyAll(map[], writes.value)))
  }

  /** One turn of the joint loop, after a track decoded to `track`. */
  lemma {:induction false} DecodeJointsStep(buf: seq<Byte>, i: nat, n: nat, n1: nat, ws: seq<Write>, j: nat)
    requires i <= |buf| && n == n1 + 1 && DecodeTrack(buf, i) == Ok(Parsed(ws, j))
    ensures j <= |buf|
    ensures DecodeJoints(buf, i, n) == Prepend(ws, DecodeJoints(buf, j, n1))
  {
    hide DecodeTrack;
    var rest := DecodeJoints(buf, j, n1);
    assert n - 1 == n1;
    if rest.Ok? {
      assert DecodeJoints(buf, i, n) == Ok(Parsed(ws + rest.value.value, rest.value.next));
    }
  }

  /**
   * Chaining the joint loop: a track read at `i` that ends at `j`, followed by
   * `n1` more turns that yield `rest` ahead of whatever `tail` holds.
   */
  lemma {:induction false} DecodeJointsCons(buf: seq<Byte>, i: nat, j: nat, n: nat, n1: nat,
                                            ws: seq<Write>, rest: seq<Write>, tail: Read<seq<Write>>)
    requires i <= |buf| && j <= |buf| && n == n1 + 1 && DecodeTrack(buf, i) == Ok(Parsed(ws, j))
    requires DecodeJoints(buf, j, n1) == Prepend(rest, tail)
    ensures DecodeJoints(buf, i, n) == Prepend(ws + rest, tail)
  {
    hide DecodeTrack;
    DecodeJointsStep(buf, i, n, n1, ws, j);
    PrependTwice(ws, rest, tail);
  }

  /**
   * A run of joint tracks lying back to back: each link holds what its track
   * assigns and where the track ends, which is where the next one starts.
   */
  datatype TrackChain = End | Link(writes: seq<Write>, next: nat, rest: TrackChain)

  function ChainLength(c: TrackChain): nat {
    match c
    case End => 0
    case Link(_, _, rest) => 1 + ChainLength(rest)
  }

  /** The assignments of all tracks of the run, track after track. */
  function ChainWrites(c: TrackChain): seq<Write> {
    match c
    case End => []
    case Link(ws, _, rest) => ws + ChainWrites(rest)
  }

  /** Where a run starting at `i` stops. */
  function ChainEnd(i: nat, c: TrackChain): nat
    decreases c
  {
    match c
    case End => i
    case Link(_, j, rest) => ChainEnd(j, rest)
  }

  /** The run `c` is what the tracks of `buf` from offset `i` on decode to. */
  predicate ChainAt(buf: seq<Byte>, i: nat, c: TrackChain)
    decreases c
  {
    && i <= |buf|
    && match c
       case End => true
       case Link(ws, j, rest) => DecodeTrack(buf, i) == Ok(Parsed(ws, j)) && ChainAt(buf, j, rest)
  }

  /** One link of a run: its track, then the rest of the run ahead of `tail`. */
  lemma {:induction false} DecodeJointsLink(buf: seq<Byte>, i: nat, j: nat, n: nat, n1: nat,
                                            ws: seq<Write>, rest: TrackChain, tail: Read<seq<Write>>)
    requires i <= |buf| && j <= |buf| && n == n1 + 1 && DecodeTrack(buf, i) == Ok(Parsed(ws, j))
    requires DecodeJoints(buf, j, n1) == Prepend(ChainWrites(rest), tail)
    ensures DecodeJoints(buf, i, n) == Prepend(ChainWrites(Link(ws, j, rest)), tail)
  {
    hide DecodeTrack;
    DecodeJointsCons(buf, i, j, n, n1, ws, ChainWrites(rest), tail);
  }

  /**
   * The joint loop over a run of tracks: it reads them all, in order, and
   * hands over to the remaining `m` turns where the run ends.
   */
  lemma {:induction false} DecodeJointsChain(buf: seq<Byte>, i: nat, c: TrackChain, m: nat, n: nat, e: nat)
    requires ChainAt(buf, i, c) && n == ChainLength(c) + m && e == ChainEnd(i, c)
    ensures e <= |buf|
    ensures DecodeJoints(buf, i, n) == Prepend(ChainWrites(c), DecodeJoints(buf, e, m))
    decreases c
  {
    hide DecodeTrack;
    match c
    case End =>
      PrependNil(DecodeJoints(buf, e, m));
    case Link(ws, j, rest) =>
      DecodeJointsChain(buf, j, rest, m, n - 1, e);
      DecodeJointsLink(buf, i, j, n, n - 1, ws, rest, DecodeJoints(buf, e, m));
  }

  /** A joint loop whose first track fails fails with the same error. */
  lemma {:induction false} DecodeJointsFirstFails(buf: seq<Byte>, i: nat, n: nat)
    requires i <= |buf| && n > 0 && DecodeTrack(buf, i).Err?
    ensures DecodeJoints(buf, i, n) == Err(DecodeTrack(buf, i).error)
  {
    hide DecodeTrack;
  }

  lemma {:induction false} ReadSampleExtend(buf: seq<Byte>, extra: seq<Byte>, i: nat, tag: Option<int>)
    requires ReadSample(buf, i, tag).Ok?
    ensures ReadSample(buf + extra, i, tag) == ReadSample(buf, i, tag)
  {
    var big := buf + extra;
    assert forall j :: i <= j < i + 20 ==> big[j] == buf[j];
    assert SampleAt(big, i, tag) == SampleAt(buf, i, tag);
  }

  lemma {:induction false} DecodeSamplesExtend(buf: seq<Byte>, extra: seq<Byte>, i: nat, n: nat, tag: Option<int>)
    requires i <= |buf| && DecodeSamples(buf, i, n, tag).Ok?
    ensures DecodeSamples(buf + extra, i, n, tag) == DecodeSamples(buf, i, n, tag)
    decreases n
  {
    if n > 0 {
      ReadSampleExtend(buf, extra, i, tag);
      DecodeSamplesExtend(buf, extra, i + 20, n - 1, tag);
    }
  }

  lemma {:induction false} DecodeTrackExtend(buf: seq<Byte>, extra: seq<Byte>, i: nat)
    requires i <= |buf| && DecodeTrack(buf, i).Ok?
    ensures DecodeTrack(buf + extra, i) == DecodeTrack(buf, i)
  {
    hide DecodeTrack, DecodeSamples, ReadString, Tag;
    var big := buf + extra;
    DecodeTrackAdvance(buf, i);
    ReadStringExtend(buf, extra, i, JointName);
    var e := NameEnd(buf, i);
    assert NameEnd(big, i) == e;
    assert Int32At(big, e) == Int32At(buf, e);
    assert Int32At(big, e + 4) == Int32At(buf, e + 4);
    var n := IterationCount(Int32At(buf, e + 4));
    var tag := Tag(ReadString(buf, i, JointName).value.value);
    DecodeTrackSamples(buf, i);
    DecodeTrackSamples(big, i);
    DecodeSamplesExtend(buf, extra, e + 8, n, tag);
  }

  /** A joint loop that succeeds decoded its first track, and the rest of the loop succeeds after it. */
  lemma {:induction false} DecodeJointsFirstTrack(buf: seq<Byte>, i: nat, n: nat) returns (track: Parsed<seq<Write>>)
    requires i <= |buf| && n > 0 && DecodeJoints(buf, i, n).Ok?
    ensures DecodeTrack(buf, i) == Ok(track) && track.next <= |buf|
    ensures DecodeJoints(buf, track.next, n - 1).Ok?
  {
    hide DecodeTrack;
    track := DecodeTrack(buf, i).value;
  }

  lemma {:induction false} DecodeJointsExtend(buf: seq<Byte>, extra: seq<Byte>, i: nat, n: nat)
    requires i <= |buf| && DecodeJoints(buf, i, n).Ok?
    ensures DecodeJoints(buf + extra, i, n) == DecodeJoints(buf, i, n)
    decreases n
  {
    hide DecodeTrack;
    if n > 0 {
      var track := DecodeJointsFirstTrack(buf, i, n);
      DecodeJointsExtend(buf, extra, track.next, n - 1);
      DecodeTrackExtend(buf, extra, i);
      DecodeJointsStep(buf, i, n, n - 1, track.value, track.next);
      DecodeJointsStep(buf + extra, i, n, n - 1, track.value, track.next);
    }
  }

  /** Offset just past the root joint name, the start of the first joint track. */
  function TracksStart(buf: seq<Byte>): nat
    requires |buf| >= 12 && NameEnd(buf, 10) + 2 <= |buf|
  {
    NameEnd(buf, NameEnd(buf, 10))
  }

  /** Once the header and both names read, the result is that of the joint loop. */
  lemma {:induction false} DecodeJointsAfterNames(buf: seq<Byte>)
    requires HasMagic(buf) && |buf| >= 10
    requires ReadString(buf, 10, ModelName).Ok?
    requires ReadString(buf, NameEnd(buf, 10), RootJointName).Ok?
    ensures TracksStart(buf) <= |buf|
    ensures Decode(buf) ==
      match DecodeJoints(buf, TracksStart(buf), IterationCount(Int32At(buf, 6)))
      case Ok(writes) =>
        Ok(Sequence(U16At(buf, 4), Int32At(buf, 6), ReadString(buf, 10, ModelName).value.value,
                    Tag(ReadString(buf, NameEnd(buf, 10), RootJointName).value.value),
                    ApplyAll(map[], writes.value)))
      case Err(e) => Err(e)
  {
    hide DecodeJoints, DecodeTrack, ApplyAll, Tag;
  }

  /**
   * Truncated input fails where the source throws: a buffer holding only the
   * magic fails the model name's nul check, a joint name whose length is cut
   * off fails its nul check, and a record length cut off fails the
   * data-length check.
   */
  lemma {:induction false} TruncatedInputExamples()
    ensures Decode([0x7F, 0x7F, 0x7F, 0x79]) == Err(MissingNul(ModelName))
    ensures DecodeTrack([0x00], 0) == Err(MissingNul(JointName))
    ensures DecodeTrack([0x00, 0x01, 0x00, 0x00, 0x00], 0) == Err(UnexpectedDataLength)
  {
    var b := [0x00, 0x01, 0x00, 0x00, 0x00];
    assert ReadString(b, 0, JointName).Ok? && NameEnd(b, 0) == 3;
    DecodeTrackBadLength(b, 0);
  }

  /**
   * Decoding ends after the last joint track: a buffer that decodes still
   * decodes to the same sequence whatever bytes are appended to it.
   */
  lemma {:induction false} DecodeIgnoresTrailingBytes(buf: seq<Byte>, extra: seq<Byte>)
    requires Decode(buf).Ok?
    ensures Decode(buf + extra) == Decode(buf)
  {
    var big := buf + extra;
    assert HasMagic(big);
    assert U16At(big, 4) == U16At(buf, 4);
    assert Int32At(big, 6) == Int32At(buf, 6);
    ReadStringExtend(buf, extra, 10, ModelName);
    var m := NameEnd(buf, 10);
    assert NameEnd(big, 10) == m;
    ReadStringExtend(buf, extra, m, RootJointName);
    assert TracksStart(big) == TracksStart(buf);
    DecodeJointsAfterNames(buf);
    DecodeJointsAfterNames(big);
    DecodeJointsExtend(buf, extra, TracksStart(buf), IterationCount(Int32At(buf, 6)));
  }

  /**
   * A joint count of zero or less runs the joint loop no times: once the two
   * names are read, decoding succeeds with no frames and nothing after the
   * root joint name is read.
   */
  lemma {:induction false} NonPositiveJointCount(buf: seq<Byte>)
    requires HasMagic(buf) && |buf| >= 10 && Int32At(buf, 6) <= 0
    requires ReadString(buf, 10, ModelName).Ok?
    requires ReadString(buf, ReadString(buf, 10, ModelName).value.next, RootJointName).Ok?
    ensures Decode(buf).Ok?
    ensures Decode(buf).value.frames == map[]
    ensures Decode(buf).value.nJoints == Int32At(buf, 6)
    ensures Decode(buf).value.modelName == ReadString(buf, 10, ModelName).value.value
  {
  }
}

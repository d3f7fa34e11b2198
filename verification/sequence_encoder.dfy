/**
 * The inverse of the decoder, written only to state what decoding promises:
 * a sequence laid out in the binary format decodes back to its header
 * fields and to the frames its samples describe.
 */
module SequenceEncoder {
  import opened Wrappers
  import opened BigEndian
  import opened ByteCursor
  import opened Header
  import opened JointTags
  import opened Frames
  import opened SequenceDecoder

  datatype Sample = Sample(frameNb: int, q: Quat)

  datatype JointTrack = JointTrack(name: string, samples: seq<Sample>)

  /** A name the format can carry: single-byte characters, length with terminator below 2^16. */
  predicate ValidName(s: string) {
    IsLatin1(s) && |s| < 0xFFFF
  }

  predicate ValidSample(s: Sample) {
    IsInt32(s.frameNb) && IsUint32(s.q.w) && IsUint32(s.q.x) && IsUint32(s.q.y) && IsUint32(s.q.z)
  }

  predicate ValidSamples(ss: seq<Sample>) {
    forall k :: 0 <= k < |ss| ==> ValidSample(ss[k])
  }

  predicate ValidTrack(t: JointTrack) {
    ValidName(t.name) && |t.samples| < TWO_31 && ValidSamples(t.samples)
  }

  predicate ValidTracks(ts: seq<JointTrack>) {
    forall k :: 0 <= k < |ts| ==> ValidTrack(ts[k])
  }

  function EncodeSample(s: Sample): (bs: seq<Byte>)
    requires ValidSample(s)
    ensures |bs| == 20
  {
    EncodeInt32(s.frameNb) + EncodeUint32(s.q.w) + EncodeUint32(s.q.x) + EncodeUint32(s.q.y) + EncodeUint32(s.q.z)
  }

  function EncodeSamples(ss: seq<Sample>): (bs: seq<Byte>)
    requires ValidSamples(ss)
    ensures |bs| == 20 * |ss|
  {
    if |ss| == 0 then [] else EncodeSample(ss[0]) + EncodeSamples(ss[1..])
  }

  /** A joint track with the only record length the decoder accepts. */
  function EncodeTrack(name: string, ss: seq<Sample>): (bs: seq<Byte>)
    requires ValidName(name) && |ss| < TWO_31 && ValidSamples(ss)
    ensures |bs| == |name| + 11 + 20 * |ss|
  {
    EncodeString(name) + EncodeInt32(QUAT_DATA_LENGTH) + EncodeInt32(|ss|) + EncodeSamples(ss)
  }

  function EncodeTracks(ts: seq<JointTrack>): seq<Byte>
    requires ValidTracks(ts)
  {
    if |ts| == 0 then [] else EncodeTrack(ts[0].name, ts[0].samples) + EncodeTracks(ts[1..])
  }

  /** Magic, frame count, joint count and the two names: everything before the first track. */
  function EncodePreamble(magic: nat, totalNFrames: int, nJoints: int, modelName: string, rootName: string): (bs: seq<Byte>)
    requires magic < |HeaderPatterns| && IsUint16(totalNFrames) && IsInt32(nJoints)
    requires ValidName(modelName) && ValidName(rootName)
    ensures |bs| == 16 + |modelName| + |rootName|
  {
    HeaderPatterns[magic] + EncodeU16(totalNFrames) + EncodeInt32(nJoints) + EncodeString(modelName) + EncodeString(rootName)
  }

  function EncodeSequence(magic: nat, totalNFrames: int, modelName: string, rootName: string, tracks: seq<JointTrack>): seq<Byte>
    requires magic < |HeaderPatterns| && IsUint16(totalNFrames) && |tracks| < TWO_31
    requires ValidName(modelName) && ValidName(rootName) && ValidTracks(tracks)
  {
    EncodePreamble(magic, totalNFrames, |tracks|, modelName, rootName) + EncodeTracks(tracks)
  }

  /** The assignments the samples of one track ask for, in order. */
  function SamplesWrites(ss: seq<Sample>, tag: Option<int>): (ws: seq<Write>)
    ensures |ws| == |ss|
  {
    if |ss| == 0 then [] else [Write(ss[0].frameNb, tag, ss[0].q)] + SamplesWrites(ss[1..], tag)
  }

  /** The assignments of all tracks, track after track, each under its joint's tag. */
  function TracksWrites(ts: seq<JointTrack>): seq<Write> {
    if |ts| == 0 then [] else SamplesWrites(ts[0].samples, Tag(ts[0].name)) + TracksWrites(ts[1..])
  }

  /** The run of tracks `ts` forms when laid out from offset `i`. */
  function EncodedChain(i: nat, ts: seq<JointTrack>): (c: TrackChain)
    requires ValidTracks(ts)
    ensures ChainLength(c) == |ts| && ChainEnd(i, c) == i + |EncodeTracks(ts)|
    ensures ChainWrites(c) == TracksWrites(ts)
    decreases |ts|
  {
    if |ts| == 0 then End else
      var next := i + |EncodeTrack(ts[0].name, ts[0].samples)|;
      Link(SamplesWrites(ts[0].samples, Tag(ts[0].name)), next, EncodedChain(next, ts[1..]))
  }

  lemma {:induction false} AtPrefix(enc: seq<Byte>, rest: seq<Byte>)
    ensures At(enc + rest, 0, enc)
  {
    assert (enc + rest)[..|enc|] == enc;
  }

  lemma {:induction false} DecodeEncodedSample(buf: seq<Byte>, i: nat, s: Sample, tag: Option<int>)
    requires ValidSample(s) && At(buf, i, EncodeSample(s))
    ensures SampleAt(buf, i, tag) == Write(s.frameNb, tag, s.q)
  {
    var a, b, c, d, e := EncodeInt32(s.frameNb), EncodeUint32(s.q.w), EncodeUint32(s.q.x), EncodeUint32(s.q.y), EncodeUint32(s.q.z);
    AtConcat(buf, i, a + b + c + d, e);
    AtConcat4(buf, i, a, b, c, d);
    ReadInt32Encoded(buf, i, s.frameNb);
    Uint32Encoded(buf, i + 4, s.q.w);
    Uint32Encoded(buf, i + 8, s.q.x);
    Uint32Encoded(buf, i + 12, s.q.y);
    Uint32Encoded(buf, i + 16, s.q.z);
  }

  /** Encoded samples are read back as the writes they describe. */
  lemma {:induction false} EncodedSampleWrites(buf: seq<Byte>, i: nat, ss: seq<Sample>, tag: Option<int>)
    requires ValidSamples(ss)
    requires At(buf, i, EncodeSamples(ss))
    ensures i + 20 * |ss| <= |buf|
    ensures SampleWrites(buf, i, |ss|, tag) == SamplesWrites(ss, tag)
    decreases |ss|
  {
    if |ss| > 0 {
      AtConcat(buf, i, EncodeSample(ss[0]), EncodeSamples(ss[1..]));
      DecodeEncodedSample(buf, i, ss[0], tag);
      EncodedSampleWrites(buf, i + 20, ss[1..], tag);
    }
  }

  lemma {:induction false} DecodeEncodedSamples(buf: seq<Byte>, i: nat, ss: seq<Sample>, tag: Option<int>)
    requires ValidSamples(ss)
    requires At(buf, i, EncodeSamples(ss))
    ensures i + 20 * |ss| <= |buf|
    ensures DecodeSamples(buf, i, |ss|, tag) == Ok(Parsed(SamplesWrites(ss, tag), i + 20 * |ss|))
  {
    EncodedSampleWrites(buf, i, ss, tag);
    DecodeSamplesWrites(buf, i, |ss|, tag);
  }

  /** Splitting a placed concatenation of four parts. */
  lemma {:induction false} AtConcat4(buf: seq<Byte>, i: nat, a: seq<Byte>, b: seq<Byte>, c: seq<Byte>, d: seq<Byte>)
    requires At(buf, i, a + b + c + d)
    ensures At(buf, i, a) && At(buf, i + |a|, b) && At(buf, i + |a| + |b|, c) && At(buf, i + |a| + |b| + |c|, d)
  {
    AtConcat(buf, i, a + b + c, d);
    AtConcat(buf, i, a + b, c);
    AtConcat(buf, i, a, b);
  }

  /** Where the parts of an encoded track lie. */
  lemma {:induction false} TrackLayout(buf: seq<Byte>, i: nat, name: string, ss: seq<Sample>)
    requires ValidName(name) && |ss| < TWO_31 && ValidSamples(ss) && At(buf, i, EncodeTrack(name, ss))
    ensures At(buf, i, EncodeString(name))
    ensures At(buf, i + |name| + 3, EncodeInt32(QUAT_DATA_LENGTH))
    ensures At(buf, i + |name| + 7, EncodeInt32(|ss|))
    ensures At(buf, i + |name| + 11, EncodeSamples(ss))
  {
    AtConcat4(buf, i, EncodeString(name), EncodeInt32(QUAT_DATA_LENGTH), EncodeInt32(|ss|), EncodeSamples(ss));
  }

  lemma {:induction false} EncodedTrackName(buf: seq<Byte>, i: nat, name: string, ss: seq<Sample>)
    requires ValidName(name) && |ss| < TWO_31 && ValidSamples(ss) && At(buf, i, EncodeTrack(name, ss))
    ensures ReadString(buf, i, JointName) == Ok(Parsed(name, i + |name| + 3))
  {
    TrackLayout(buf, i, name, ss);
    ReadStringEncoded(buf, i, name, JointName);
  }

  lemma {:induction false} EncodedTrackRecordLength(buf: seq<Byte>, i: nat, name: string, ss: seq<Sample>)
    requires ValidName(name) && |ss| < TWO_31 && ValidSamples(ss) && At(buf, i, EncodeTrack(name, ss))
    ensures i + |name| + 7 <= |buf| && Int32At(buf, i + |name| + 3) == QUAT_DATA_LENGTH
  {
    TrackLayout(buf, i, name, ss);
    ReadInt32Encoded(buf, i + |name| + 3, QUAT_DATA_LENGTH);
  }

  lemma {:induction false} EncodedTrackSampleCount(buf: seq<Byte>, i: nat, name: string, ss: seq<Sample>)
    requires ValidName(name) && |ss| < TWO_31 && ValidSamples(ss) && At(buf, i, EncodeTrack(name, ss))
    ensures i + |name| + 11 <= |buf| && Int32At(buf, i + |name| + 7) == |ss|
  {
    TrackLayout(buf, i, name, ss);
    ReadInt32Encoded(buf, i + |name| + 7, |ss|);
  }

  /** The samples of an encoded track are read back by the sample loop, under any tag. */
  lemma {:induction false} EncodedTrackSamples(buf: seq<Byte>, i: nat, name: string, ss: seq<Sample>, tag: Option<int>)
    requires ValidName(name) && |ss| < TWO_31 && ValidSamples(ss) && At(buf, i, EncodeTrack(name, ss))
    ensures i + |name| + 11 + 20 * |ss| <= |buf|
    ensures DecodeSamples(buf, i + |name| + 11, |ss|, tag) == Ok(Parsed(SamplesWrites(ss, tag), i + |name| + 11 + 20 * |ss|))
  {
    TrackLayout(buf, i, name, ss);
    DecodeEncodedSamples(buf, i + |name| + 11, ss, tag);
  }

  /**
   * A track laid out by `EncodeTrack` with `n` samples is consumed exactly and
   * yields its samples under the joint's tag.
   */
  lemma {:induction false} DecodeEncodedTrack(buf: seq<Byte>, i: nat, name: string, ss: seq<Sample>, n: nat, e: nat)
    requires ValidName(name) && |ss| < TWO_31 && ValidSamples(ss) && At(buf, i, EncodeTrack(name, ss))
    requires n == |ss| && e == i + |name| + 11 + 20 * n
    ensures DecodeTrack(buf, i) == Ok(Parsed(SamplesWrites(ss, Tag(name)), e))
  {
    EncodedTrackName(buf, i, name, ss);
    EncodedTrackRecordLength(buf, i, name, ss);
    EncodedTrackSampleCount(buf, i, name, ss);
    EncodedTrackSamples(buf, i, name, ss, Tag(name));
    DecodeTrackOfFields(buf, i, name, n, SamplesWrites(ss, Tag(name)));
  }

  /** Encoded tracks lie back to back, each decoding to its own samples. */
  lemma {:induction false} EncodedTrackChain(buf: seq<Byte>, i: nat, ts: seq<JointTrack>)
    requires ValidTracks(ts) && At(buf, i, EncodeTracks(ts))
    ensures ChainAt(buf, i, EncodedChain(i, ts))
    decreases |ts|
  {
    hide DecodeTrack, EncodeTrack, SamplesWrites, Tag;
    if |ts| > 0 {
      var name, ss, rest := ts[0].name, ts[0].samples, ts[1..];
      var next := i + |EncodeTrack(name, ss)|;
      AtConcat(buf, i, EncodeTrack(name, ss), EncodeTracks(rest));
      DecodeEncodedTrack(buf, i, name, ss, |ss|, next);
      EncodedTrackChain(buf, next, rest);
      assert EncodedChain(i, ts) == Link(SamplesWrites(ss, Tag(name)), next, EncodedChain(next, rest));
    } else {
      assert EncodedChain(i, ts) == End;
    }
  }

  /**
   * Joint tracks laid out one after the other are decoded in order, and the
   * joint loop carries on after them exactly where they end: whatever the
   * remaining `m` turns yield, or the error they fail with, comes after the
   * assignments of the laid-out tracks.
   */
  lemma {:induction false} DecodeEncodedTracks(buf: seq<Byte>, i: nat, ts: seq<JointTrack>, m: nat, n: nat, j: nat)
    requires ValidTracks(ts) && At(buf, i, EncodeTracks(ts)) && n == |ts| + m && j == i + |EncodeTracks(ts)|
    ensures j <= |buf|
    ensures DecodeJoints(buf, i, n) == Prepend(TracksWrites(ts), DecodeJoints(buf, j, m))
  {
    hide DecodeTrack;
    EncodedTrackChain(buf, i, ts);
    DecodeJointsChain(buf, i, EncodedChain(i, ts), m, n, j);
  }

  /** Encoded tracks followed by a track that fails: the joint loop fails with its error, whatever the tracks were. */
  lemma {:induction false} BadTrackAfterEncoded(buf: seq<Byte>, i: nat, ts: seq<JointTrack>, m: nat, j: nat)
    requires ValidTracks(ts) && At(buf, i, EncodeTracks(ts)) && m > 0 && j == i + |EncodeTracks(ts)|
    requires j <= |buf| && DecodeTrack(buf, j).Err?
    ensures DecodeJoints(buf, i, |ts| + m) == Err(DecodeTrack(buf, j).error)
  {
    hide DecodeTrack;
    DecodeEncodedTracks(buf, i, ts, m, |ts| + m, j);
    DecodeJointsFirstFails(buf, j, m);
  }

  /** The preamble decodes to its fields and leaves the cursor at the first track. */
  lemma {:induction false} DecodeEncodedPreamble(buf: seq<Byte>, magic: nat, totalNFrames: int, nJoints: int, modelName: string, rootName: string)
    requires magic < |HeaderPatterns| && IsUint16(totalNFrames) && IsInt32(nJoints)
    requires ValidName(modelName) && ValidName(rootName)
    requires At(buf, 0, EncodePreamble(magic, totalNFrames, nJoints, modelName, rootName))
    ensures HasMagic(buf) && |buf| >= 10
    ensures U16At(buf, 4) == totalNFrames && Int32At(buf, 6) == nJoints
    ensures ReadString(buf, 10, ModelName) == Ok(Parsed(modelName, 13 + |modelName|))
    ensures ReadString(buf, 13 + |modelName|, RootJointName) == Ok(Parsed(rootName, 16 + |modelName| + |rootName|))
  {
    var h, a, b, c, d := HeaderPatterns[magic], EncodeU16(totalNFrames), EncodeInt32(nJoints), EncodeString(modelName), EncodeString(rootName);
    AtConcat(buf, 0, h + a + b + c, d);
    AtConcat(buf, 0, h + a + b, c);
    AtConcat(buf, 0, h + a, b);
    AtConcat(buf, 0, h, a);
    assert buf[..4] == h;
    assert buf[0] == h[0] && buf[1] == h[1] && buf[2] == h[2] && buf[3] == h[3];
    ReadU16Encoded(buf, 4, totalNFrames);
    ReadInt32Encoded(buf, 6, nJoints);
    ReadStringEncoded(buf, 10, modelName, ModelName);
    ReadStringEncoded(buf, 13 + |modelName|, rootName, RootJointName);
  }

  /**
   * Round trip: a sequence laid out in the binary format, followed by any
   * bytes at all, decodes to its frame count, its joint count, its model
   * name, the tag of its root joint, and the frames obtained by applying the
   * samples of all tracks in order.
   */
  lemma {:induction false} RoundTrip(magic: nat, totalNFrames: int, modelName: string, rootName: string,
                  tracks: seq<JointTrack>, trailing: seq<Byte>)
    requires magic < |HeaderPatterns| && IsUint16(totalNFrames) && |tracks| < TWO_31
    requires ValidName(modelName) && ValidName(rootName) && ValidTracks(tracks)
    ensures Decode(EncodeSequence(magic, totalNFrames, modelName, rootName, tracks) + trailing) ==
      Ok(Sequence(totalNFrames, |tracks|, modelName, Tag(rootName), ApplyAll(map[], TracksWrites(tracks))))
  {
    hide Decode, DecodeJoints, DecodeTrack, ApplyAll, Tag, ReadString, EncodeTracks, EncodeString, Latin1Bytes;
    var pre := EncodePreamble(magic, totalNFrames, |tracks|, modelName, rootName);
    var buf := EncodeSequence(magic, totalNFrames, modelName, rootName, tracks) + trailing;
    assert buf == pre + (EncodeTracks(tracks) + trailing);
    AtPrefix(pre, EncodeTracks(tracks) + trailing);
    DecodeEncodedPreamble(buf, magic, totalNFrames, |tracks|, modelName, rootName);
    assert NameEnd(buf, 10) == 13 + |modelName|;
    assert TracksStart(buf) == |pre|;
    assert buf[|pre|..] == EncodeTracks(tracks) + trailing;
    assert At(buf, |pre|, EncodeTracks(tracks)) by {
      assert buf[|pre|..|pre| + |EncodeTracks(tracks)|] == (EncodeTracks(tracks) + trailing)[..|EncodeTracks(tracks)|];
    }
    DecodeJointsAfterNames(buf);
    DecodeEncodedTracks(buf, |pre|, tracks, 0, |tracks|, |pre| + |EncodeTracks(tracks)|);
    assert TracksWrites(tracks) + [] == TracksWrites(tracks);
  }
}

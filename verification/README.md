# AW sequence decoder in Dafny

This project models the binary decoder of the Active Worlds avatar animation
sequence format, `parseBinarySequence` in `src/AWSequenceParser.js`, together
with the helpers it relies on: the header patterns and `contentMatch`, and
the `RWXtag` joint-tag table. The decoder takes an already-loaded byte buffer
and does the following:

- It recognises one of two 4-byte magic prefixes.
- It reads a big-endian 16-bit frame count and a 32-bit joint count.
- It reads two length-prefixed, nul-terminated names: the model name and the
  root joint name.
- It reads one joint track per joint. A track is a name, a record length that
  must be 16, a sample count, and that many 20-byte samples. Each sample is a
  frame number and four 32-bit quaternion words.
- Every sample is stored in the sparse object `frames[frameNb][tag]`, where
  `tag` is the case-insensitive `RWXtag` lookup of the joint name.

Any failure (missing header, missing nul terminator, a record length other
than 16) aborts the whole decode and leaves no partial result.

Modules, one per file:

- `Wrappers` (`wrappers.dfy`): `Option` and `Result`.
- `BigEndian` (`big_endian.dfy`): the `Byte` type. JavaScript's signed 32-bit
  `<<` operator as the source uses it. Big-endian u16 and int32 assembly and
  their encoders.
- `ByteCursor` (`byte_cursor.dfy`): bounds-checked primitive reads and the
  length-prefixed string read. A read yields a value and the cursor just past
  it, or an error.
- `Header` (`header.dfy`): `headerPatterns`, `contentMatch` (its `every`
  callback as a recursive function) and the header check built on it.
- `JointTags` (`joint_tags.dfy`): the `RWXtag` table, its lookup and the
  ASCII `toUpperCase`.
- `Frames` (`frames.dfy`): the keyframe object and the single assignment
  performed per sample.
- `SequenceDecoder` (`sequence_decoder.dfy`): the sample loop, the joint
  track, the joint loop and the whole decode.
  - The two loops are pure functions that return the assignments they ask
    for, in stream order.
  - `Decode` then performs those assignments on an empty object.
  - Performing them in order is exactly the source's interleaving of reads
    and assignments, because a read never looks at `frames`.
- `SequenceEncoder` (`sequence_encoder.dfy`): a layout function, written
  only to state the round trip. It shows that a buffer laid out in the format
  decodes to exactly its fields and samples.

## Model

| member | source | states |
|---|---|---|
| Header.ContentMatch | src/AWSequenceParser.js:62-77 | Returns the index just past `pattern` when every byte of it occurs at `i` inside the buffer, and `i` itself otherwise, including when the pattern runs off the end of the buffer. |
| Header.MatchFrom | src/AWSequenceParser.js:67-74 | The `every` over the pattern bytes, once the first k have matched: it returns the index past the pattern when the whole pattern lies at `i`, and `i` as soon as one byte is missing or differs. |
| Header.FirstAdvancing | src/AWSequenceParser.js:85-94 | The pattern chosen is the first for which `contentMatch` moves the cursor forward. It matches at the cursor, and every earlier pattern is empty or does not match. When none advances, none of them matches. |
| Header.MagicIsAPattern | src/AWSequenceParser.js:60 | The two `headerPatterns` match at offset 0 exactly for the magic 7F 7F 7F 79 and 7F 7F 7F 7A respectively. |
| Header.FirstPatternWins | src/AWSequenceParser.js:85-94 | On a buffer with the magic, the search stops at the pattern its fourth byte selects. |
| Header.MatchHeader | src/AWSequenceParser.js:81-98 | The header check succeeds exactly when the buffer starts with one of the two magics, and then leaves the cursor at 4. Otherwise it fails with the missing-header error. |
| BigEndian.ToInt32 | src/AWSequenceParser.js:101 | The ECMAScript ToInt32 conversion: a signed 32-bit value congruent to the input modulo 2^32, and the input itself when it is already in range. |
| BigEndian.U16AtIsShiftSum | src/AWSequenceParser.js:101 | `(b0 << 8) + b1` with JavaScript's signed shift is the unsigned 16-bit big-endian value. |
| BigEndian.Int32AtIsShiftSum | src/AWSequenceParser.js:104 | `(b0 << 24) + (b1 << 16) + (b2 << 8) + b3` is the two's-complement value of the four bytes. It is negative exactly when the first byte is 0x80 or more. |
| BigEndian.Int32AtBitPattern | src/AWSequenceParser.js:159-161 | The signed word given to `setInt32` and the unsigned bit pattern it stores agree modulo 2^32. |
| BigEndian.U16RoundTrip | src/AWSequenceParser.js:101 | Reading back two bytes laid out for a 16-bit value gives that value. |
| BigEndian.U16Bijective | src/AWSequenceParser.js:101 | Every pair of bytes is the layout of the value read from it, so the reading loses nothing. |
| BigEndian.Int32RoundTrip | src/AWSequenceParser.js:104 | Reading back four bytes laid out for a signed 32-bit value gives that value. |
| BigEndian.Int32Bijective | src/AWSequenceParser.js:104 | Every four bytes are the layout of the signed value read from them. |
| BigEndian.Uint32RoundTrip | src/AWSequenceParser.js:159-171 | Reading back the four bytes of an unsigned word gives the word. |
| BigEndian.Uint32Bijective | src/AWSequenceParser.js:159-171 | Every four bytes are the layout of the unsigned word read from them. |
| ByteCursor.ReadU16 | src/AWSequenceParser.js:101 | Succeeds exactly when two bytes remain, yielding the big-endian value and moving the cursor by 2. |
| ByteCursor.ReadInt32 | src/AWSequenceParser.js:104 | Succeeds exactly when four bytes remain, yielding a signed 32-bit value that is negative iff the first byte has its top bit set, and moving the cursor by 4. |
| ByteCursor.ReadString | src/AWSequenceParser.js:106-114 | Reads a u16 length L. It succeeds exactly when the byte at offset L-1 after the length exists and is 0, or when L is 0. It yields the L-1 bytes before that byte, one character each, and moves the cursor by 2+L. A missing terminator gives the field's missing-nul error, and so does a length cut off by the end of the buffer (NaN in the source, which indexes `undefined`). |
| ByteCursor.ReadStringEncoded | src/AWSequenceParser.js:106-114 | A name laid out as length, bytes and nul reads back as the same name, and the cursor lands just after the nul. |
| ByteCursor.ReadStringExtend | src/AWSequenceParser.js:113 | A successful string read looks only inside the buffer: appending bytes does not change it. |
| JointTags.TableEntry | src/AWSequenceParser.js:13-58 | Every row of `RWXtag` carries a tag in 1..42, 100 or 200, and the row is recovered from its tag. |
| JointTags.LookupFromFirstMatch | src/AWSequenceParser.js:13-58 | Scanning the table from row k yields the tag of the first row from k on whose name is the key, and nothing exactly when no row from k on has that name. |
| JointTags.RwxTagFirstMatch | src/AWSequenceParser.js:13-58 | For a key without lower-case letters, which is every key the decoder forms with `toUpperCase`, `RWXtag[key]` is the tag of the row named `key`, and undefined exactly when no row has that name. |
| JointTags.RwxTagInjective | src/AWSequenceParser.js:13-58 | No two joint names of the table share a tag. |
| JointTags.TableNamesDistinct | src/AWSequenceParser.js:13-58 | No two rows of the table carry the same name, so the object literal has no repeated key and a first-match scan agrees with JavaScript's last-key-wins rule. |
| JointTags.RwxTagOfRow | src/AWSequenceParser.js:13-58 | Looking up the name of any row of the table returns that row's tag. |
| JointTags.UpperChar | src/AWSequenceParser.js:126 | `toUpperCase` of one character: an ASCII lower-case letter becomes its upper-case letter and every other character is unchanged. |
| JointTags.ToUpper | src/AWSequenceParser.js:126 | Upper-cases a name character by character, keeping its length. |
| JointTags.Tag | src/AWSequenceParser.js:126 | `RWXtag[name.toUpperCase()]`: a known name gives a tag in 1..42, 100 or 200, and an upper-case name is looked up as is. |
| JointTags.TagCaseInsensitive | src/AWSequenceParser.js:126 | Names that differ only in ASCII letter case get the same tag. |
| JointTags.SameTagSameJoint | src/AWSequenceParser.js:177 | Two names with the same known tag are the same name up to case, so distinct joints never share a slot of a frame. |
| JointTags.PelvisExamples | src/AWSequenceParser.js:14 | "pelvis", "PELVIS" and "PeLvIs" all map to tag 1. |
| JointTags.SignExample | src/AWSequenceParser.js:56 | "Sign" maps to the attachment tag 100. |
| JointTags.PictureExample | src/AWSequenceParser.js:57 | "picture" maps to the attachment tag 200. |
| JointTags.UnknownExamples | src/AWSequenceParser.js:126 | A name not in the table ("Root") and the empty name both give undefined. |
| Frames.Store | src/AWSequenceParser.js:173-177 | One sample creates its frame entry when it is absent, then sets the slot of its tag. An earlier value there is overwritten, and every other frame and every other slot is left unchanged. |
| Frames.ApplyAllLastWrite | src/AWSequenceParser.js:155-178 | After a run of samples each slot holds the value of the last sample aimed at it, and keeps its former value when none was. |
| Frames.ApplyAllKeys | src/AWSequenceParser.js:173-175 | Frames are created lazily: exactly the frames already present or named by some sample exist afterwards. |
| Frames.ApplyAllAppend | src/AWSequenceParser.js:131-179 | Performing two runs of samples one after the other is performing their concatenation. |
| SequenceDecoder.CountTurns | src/AWSequenceParser.js:131 | The `for` loop `for (k = 0; k < n; k++)`, run as a counting loop, turns n times when n is positive and never otherwise, which is the closed form both decoder loops use. |
| SequenceDecoder.SampleWritesAt | src/AWSequenceParser.js:155-171 | The k-th sample of a track is read from the 20 bytes found 20·k bytes after the first one. |
| SequenceDecoder.ReadSample | src/AWSequenceParser.js:157-171 | A sample takes exactly 20 bytes: the signed frame number at its start, then the 32-bit words of w, x, y and z at offsets 4, 8, 12 and 16, stored under the track's tag. |
| SequenceDecoder.DecodeSamples | src/AWSequenceParser.js:155-178 | The sample loop over n samples succeeds exactly when 20·n bytes remain, moves the cursor by 20·n and yields one assignment per sample. |
| SequenceDecoder.DecodeSamplesWrites | src/AWSequenceParser.js:155-178 | The sample loop yields the samples at offsets i, i+20, ..., in stream order. |
| SequenceDecoder.DecodeTrack | src/AWSequenceParser.js:133-178 | A joint name without its nul, or with its length cut off, fails the track with the joint name's missing-nul error. A successful joint track takes at least 10 bytes and never reads past the end of the buffer. |
| SequenceDecoder.DecodeTrackAdvance | src/AWSequenceParser.js:133-157 | A track whose name length is L and whose sample count is n moves the cursor by 2+L+8+20·n, with no samples when n <= 0. Its declared record length was 16. |
| SequenceDecoder.DecodeTrackBadLength | src/AWSequenceParser.js:145-149 | A declared record length other than 16, or one cut off by the end of the buffer (NaN in the source), fails the track with the data-length error, whatever follows. |
| SequenceDecoder.DecodeTrackSamples | src/AWSequenceParser.js:145-155 | After the name and a record length of 16, the track is the sample loop over the declared count, under the tag of the name. |
| SequenceDecoder.DecodeTrackOfFields | src/AWSequenceParser.js:133-178 | A track whose fields read as given decodes to those samples and ends after the last of them. |
| SequenceDecoder.DecodeJoints | src/AWSequenceParser.js:131-179 | The joint loop over n tracks that succeeds consumes at least 10·n bytes and stays inside the buffer. With n = 0 it reads nothing. |
| SequenceDecoder.DecodeJointsFirstFails | src/AWSequenceParser.js:131-149 | A failing track aborts the joint loop with its own error. |
| SequenceDecoder.DecodeJointsChain | src/AWSequenceParser.js:131-179 | The joint loop over tracks lying back to back yields their samples in order, then carries on where the last of them ends. |
| SequenceDecoder.DecodeJointsExtend | src/AWSequenceParser.js:131-179 | A successful joint loop is unchanged by bytes appended to the buffer. |
| SequenceDecoder.Decode | src/AWSequenceParser.js:80-182 | The whole decode. Without the magic it fails with the missing-header error. With the magic, a model name without its nul (including one whose length is cut off, as in any buffer under 12 bytes) fails with the model name's missing-nul error, and after a good model name a root joint name without its nul fails with the root name's missing-nul error. A successful decode read both names. On success the frame count is the u16 at bytes 4-5, the joint count is the int32 at bytes 6-9, a joint count of zero or less leaves `frames` empty, and a known root joint carries a table tag. |
| SequenceDecoder.DecodeJointsAfterNames | src/AWSequenceParser.js:116-131 | Once header and names read, the decode is the result of the joint loop, applied to an empty frames object, or its error. |
| SequenceDecoder.DecodeIgnoresTrailingBytes | src/AWSequenceParser.js:80-182 | A buffer that decodes decodes to the same sequence whatever bytes are appended. |
| SequenceDecoder.TruncatedInputExamples | src/AWSequenceParser.js:106-149 | Cut-off input fails where the source throws: only the magic gives the model name's nul error, a cut-off joint name length gives the joint name's nul error, and a cut-off record length gives the data-length error. |
| SequenceDecoder.NonPositiveJointCount | src/AWSequenceParser.js:103-131 | With a joint count of zero or less, a buffer whose names read decodes successfully to no frames. |
| SequenceEncoder.DecodeEncodedSample | src/AWSequenceParser.js:157-175 | A sample laid out as frame number and four words reads back as the assignment of that frame number and quaternion under the track's tag. |
| SequenceEncoder.DecodeEncodedTrack | src/AWSequenceParser.js:133-178 | A laid-out joint track decodes to its samples under its name's tag and ends after 2+L+8+20·n bytes. |
| SequenceEncoder.DecodeEncodedTracks | src/AWSequenceParser.js:131-179 | Laid-out joint tracks are decoded in order, and the loop continues exactly where they end. |
| SequenceEncoder.BadTrackAfterEncoded | src/AWSequenceParser.js:131-149 | One failing track after any number of good ones aborts the whole joint loop with its error. |
| SequenceEncoder.DecodeEncodedPreamble | src/AWSequenceParser.js:81-124 | A laid-out preamble yields the magic, frame count, joint count and both names, leaving the cursor at the first track. |
| SequenceEncoder.RoundTrip | src/AWSequenceParser.js:80-182 | A laid-out sequence, followed by any bytes, decodes to its frame count, joint count, model name, the root joint's tag and the frames its samples build in order. |

## Left out

- Reading the bytes (`parseSequence`: network fetch, zip extraction, file extension and `FileType` dispatch) and `async`: the decoder takes an already-loaded buffer.
- Float reinterpretation of the quaternion words (`getFloat32`): each component is kept as the unsigned 32-bit pattern `setInt32` stores, which determines the float exactly.
- ByteCursor.ReadU16: a read past the end of the buffer fails with `Underrun`, where the source reads `undefined` and computes NaN. Its only caller, `ReadString`, turns that into the field's missing-nul error, as the source's nul check on `undefined` does. `Decode` likewise reports cut-off counts as the model name's missing-nul error, since the model name's length then lies past the end too.
- ByteCursor.ReadInt32: same `Underrun` for a cut-off 32-bit field. A cut-off record length is reported as the data-length error, as `NaN != 16` makes the source do.
- SequenceDecoder.DecodeTrack: a sample count cut off by the end of the buffer fails with `Underrun`. In the source the count is NaN, the sample loop runs no times and the cursor moves past the end. The decode then succeeds if this was the last joint, and otherwise fails the next joint name's nul check.
- SequenceDecoder.ReadSample: a cut-off sample fails with `Underrun`. The source instead keeps going: a cut-off frame number becomes the key "NaN", a cut-off word is stored as 0 (`setInt32` of NaN), and the remaining turns of the sample loop are read the same way. Frames keyed by NaN are not modelled.
- Header.ContentMatch: for an empty pattern the source returns `undefined` and the model returns `i`. The header loop reads both as "no advance", and the two patterns in use are non-empty.
- JointTags.UpperChar: only ASCII letters are upper-cased. `toUpperCase` on other characters is not modelled; it can also change the length, which `ToUpper` never does. This cannot change a tag. A name decoded from bytes holds only characters up to 0xFF. Among those, every lower-case letter except `ß` upper-cases to a non-ASCII character, which no table name contains. `ß` becomes the ASCII `SS`, and no table name contains `SS`.
- JointTags.RwxTag: keys inherited from `Object.prototype` (`constructor`, `toString`, `__proto__` and the like) are not modelled. The object returns those members, where the model returns `None`. The decoder never reaches them: it looks up only upper-cased names, and every such property name contains a lower-case letter.
- Location (root-translation) tracks: `parseBinarySequence` reads no location tracks and returns right after the joint loop (src/AWSequenceParser.js:179-181), so the decoded object has no location data. The model follows the code and reads nothing after the last joint track.
- The object keys: JavaScript turns the frame number and the tag into property-name strings. The model keys by the integer and by `Option<int>`, with `None` standing for the key "undefined". This is the same partition of keys.
- The text format flag (`FileType.TEXT`) is never implemented in the source.

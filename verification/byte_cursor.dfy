/**
 * The decoder's forward-only cursor over the input buffer: bounds-checked
 * big-endian reads and the length-prefixed, nul-terminated string read that
 * the model name, the root joint name and every joint name use.
 */
module ByteCursor {
  import opened Wrappers
  import opened BigEndian

  /** Which of the three string fields a missing terminator was detected in. */
  datatype StringField = ModelName | RootJointName | JointName

  /** Every way a decode can be aborted. */
  datatype DecodeError =
    | MissingHeader
    | MissingNul(field: StringField)
    | UnexpectedDataLength
    | Underrun

  /** A value read at some cursor position, with the cursor just past it. */
  datatype Parsed<+T> = Parsed(value: T, next: nat)

  type Read<T> = Result<Parsed<T>, DecodeError>

  /** `enc` occurs in `buf` starting at offset `i`. */
  predicate At(buf: seq<Byte>, i: nat, enc: seq<Byte>) {
    i + |enc| <= |buf| && forall k :: 0 <= k < |enc| ==> buf[i + k] == enc[k]
  }

  function ReadU16(buf: seq<Byte>, i: nat): (r: Read<int>)
    ensures r.Ok? <==> i + 2 <= |buf|
    ensures r.Ok? ==> r.value.next == i + 2 && r.value.value == (buf[i] as int) * 0x100 + buf[i + 1]
    ensures r.Err? ==> r.error == Underrun
  {
    if i + 2 <= |buf| then Ok(Parsed(U16At(buf, i), i + 2)) else Err(Underrun)
  }

  function ReadInt32(buf: seq<Byte>, i: nat): (r: Read<int>)
    ensures r.Ok? <==> i + 4 <= |buf|
    ensures r.Ok? ==> r.value.next == i + 4 && IsInt32(r.value.value)
    ensures r.Ok? ==> (r.value.value < 0 <==> buf[i] >= 0x80)
    ensures r.Err? ==> r.error == Underrun
  {
    if i + 4 <= |buf| then Ok(Parsed(Int32At(buf, i), i + 4)) else Err(Underrun)
  }

  /**
   * `String.fromCharCode(...buf.slice(start, end))` with `end` within bounds:
   * one character per byte, and empty when `end <= start`.
   */
  function Latin1Slice(buf: seq<Byte>, start: nat, end: int): (s: string)
    requires end <= |buf|
    ensures |s| == if end <= start then 0 else end - start
    ensures forall k {:trigger s[k]} :: 0 <= k < |s| ==> s[k] as int == buf[start + k]
    decreases if end <= start then 0 else end - start
  {
    if end <= start then [] else Latin1Slice(buf, start, end - 1) + [buf[end - 1] as char]
  }

  /**
   * A string stored with a 16-bit big-endian length L counting its nul
   * terminator. Only the byte at offset L-1 after the length is checked: when
   * it is missing or non-zero the read fails. For L == 0 that byte is the low
   * length byte itself, which is zero, so the read yields the empty string.
   * A length cut off by the end of the buffer is NaN in the source, and the
   * byte it indexes is `undefined`, so that case fails the nul check too.
   */
  function ReadString(buf: seq<Byte>, i: nat, field: StringField): (r: Read<string>)
    ensures r.Ok? <==>
      i + 2 <= |buf| && (U16At(buf, i) == 0 || (i + 2 + U16At(buf, i) <= |buf| && buf[i + 1 + U16At(buf, i)] == 0))
    ensures r.Ok? ==> r.value.next == i + 2 + U16At(buf, i)
    ensures r.Ok? ==> |r.value.value| == if U16At(buf, i) == 0 then 0 else U16At(buf, i) - 1
    ensures r.Ok? ==> forall k :: 0 <= k < |r.value.value| ==> r.value.value[k] as int == buf[i + 2 + k]
    ensures r.Err? ==> r.error == MissingNul(field)
  {
    match ReadU16(buf, i)
    case Err(_) => Err(MissingNul(field))
    case Ok(len) =>
      var nulAt := len.next + len.value - 1;
      if nulAt >= |buf| || buf[nulAt] != 0 then
        Err(MissingNul(field))
      else
        Ok(Parsed(Latin1Slice(buf, len.next, nulAt), len.next + len.value))
  }

  /** Every character of `s` is a single byte, as `String.fromCharCode` produces. */
  predicate IsLatin1(s: string) {
    forall k :: 0 <= k < |s| ==> s[k] as int < 0x100
  }

  function Latin1Bytes(s: string): (bs: seq<Byte>)
    requires IsLatin1(s)
    ensures |bs| == |s| && forall k :: 0 <= k < |s| ==> bs[k] == s[k] as int
  {
    seq(|s|, k requires 0 <= k < |s| => s[k] as int)
  }

  /** A string in the layout `ReadString` expects: length with terminator, bytes, nul. */
  function EncodeString(s: string): (bs: seq<Byte>)
    requires IsLatin1(s) && |s| < 0xFFFF
    ensures |bs| == |s| + 3
  {
    EncodeU16(|s| + 1) + Latin1Bytes(s) + [0]
  }

  /** Splitting a placed concatenation into its two placed parts. */
  lemma {:induction false} AtConcat(buf: seq<Byte>, i: nat, a: seq<Byte>, b: seq<Byte>)
    requires At(buf, i, a + b)
    ensures At(buf, i, a) && At(buf, i + |a|, b)
  {
    forall k | 0 <= k < |a|
      ensures buf[i + k] == a[k]
    {
      assert (a + b)[k] == a[k];
    }
    forall k | 0 <= k < |b|
      ensures buf[i + |a| + k] == b[k]
    {
      assert (a + b)[|a| + k] == b[k];
    }
  }

  lemma {:induction false} AtIndex(buf: seq<Byte>, i: nat, enc: seq<Byte>, k: nat)
    requires At(buf, i, enc) && k < |enc|
    ensures buf[i + k] == enc[k]
  {
  }

  lemma {:induction false} ReadU16Encoded(buf: seq<Byte>, i: nat, v: int)
    requires IsUint16(v) && At(buf, i, EncodeU16(v))
    ensures ReadU16(buf, i) == Ok(Parsed(v, i + 2))
  {
    U16RoundTrip(v);
    assert buf[i] == EncodeU16(v)[0] && buf[i + 1] == EncodeU16(v)[1];
  }

  lemma {:induction false} Uint32Encoded(buf: seq<Byte>, i: nat, u: int)
    requires IsUint32(u) && At(buf, i, EncodeUint32(u))
    ensures Unsigned32At(buf, i) == u
  {
    var e := EncodeUint32(u);
    Uint32RoundTrip(u);
    assert buf[i] == e[0] && buf[i + 1] == e[1] && buf[i + 2] == e[2] && buf[i + 3] == e[3];
  }

  lemma {:induction false} ReadInt32Encoded(buf: seq<Byte>, i: nat, v: int)
    requires IsInt32(v) && At(buf, i, EncodeInt32(v))
    ensures ReadInt32(buf, i) == Ok(Parsed(v, i + 4))
  {
    var e := EncodeInt32(v);
    Int32RoundTrip(v);
    assert buf[i] == e[0] && buf[i + 1] == e[1] && buf[i + 2] == e[2] && buf[i + 3] == e[3];
    assert Int32At(buf, i) == Int32At(e, 0);
  }

  /** Reading back a string written by `EncodeString` yields it and skips exactly its bytes. */
  lemma {:induction false} ReadStringEncoded(buf: seq<Byte>, i: nat, s: string, field: StringField)
    requires IsLatin1(s) && |s| < 0xFFFF && At(buf, i, EncodeString(s))
    ensures ReadString(buf, i, field) == Ok(Parsed(s, i + |s| + 3))
  {
    AtConcat(buf, i, EncodeU16(|s| + 1) + Latin1Bytes(s), [0]);
    AtConcat(buf, i, EncodeU16(|s| + 1), Latin1Bytes(s));
    ReadU16Encoded(buf, i, |s| + 1);
    AtIndex(buf, i + 2 + |s|, [0], 0);
    var r := ReadString(buf, i, field);
    assert r.Ok?;
    var name := r.value.value;
    forall k | 0 <= k < |s|
      ensures name[k] == s[k]
    {
      AtIndex(buf, i + 2, Latin1Bytes(s), k);
    }
    assert name == s;
  }

  /** A successful read only looks at bytes inside the buffer, so appending bytes changes nothing. */
  lemma {:induction false} ReadStringExtend(buf: seq<Byte>, extra: seq<Byte>, i: nat, field: StringField)
    requires ReadString(buf, i, field).Ok?
    ensures ReadString(buf + extra, i, field) == ReadString(buf, i, field)
  {
    var big := buf + extra;
    assert U16At(big, i) == U16At(buf, i);
    var r1 := ReadString(buf, i, field).value.value;
    var r2 := ReadString(big, i, field).value.value;
    assert r1 == r2;
  }
}

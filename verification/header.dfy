/**
 * Header recognition: the two accepted magic prefixes, tried in order at
 * offset 0 with `contentMatch`.
 */
module Header {
  import opened Wrappers
  import opened BigEndian
  import opened ByteCursor

  /** `headerPatterns`, in the order they are tried. */
  const HeaderPatterns: seq<seq<Byte>> := [[0x7F, 0x7F, 0x7F, 0x79], [0x7F, 0x7F, 0x7F, 0x7A]]

  /**
   * The `every` callback of `contentMatch` from the `k`-th pattern byte on,
   * the first `k` bytes having matched: it stops at the first byte that is
   * past the end of `base` or differs, returning `i`, and returns the index
   * just past the pattern when none does.
   */
  function MatchFrom(base: seq<Byte>, i: nat, pattern: seq<Byte>, k: nat): (next: nat)
    requires k <= |pattern|
    requires forall j :: 0 <= j < k ==> i + j < |base| && base[i + j] == pattern[j]
    ensures At(base, i, pattern) ==> next == i + |pattern|
    ensures !At(base, i, pattern) ==> next == i
    decreases |pattern| - k
  {
    if k == |pattern| then
      assert k > 0 ==> pattern[k - 1] in pattern && i + (k - 1) < |base|;
      i + |pattern|
    else if i + k >= |base| || base[i + k] != pattern[k] then i
    else MatchFrom(base, i, pattern, k + 1)
  }

  /**
   * `contentMatch`: the index just past `pattern` when it occurs at `i`,
   * otherwise `i` itself. (For an empty pattern the source returns
   * `undefined`; both that and `i` read as "no advance" to the caller.)
   */
  function ContentMatch(base: seq<Byte>, i: nat, pattern: seq<Byte>): (next: nat)
    ensures At(base, i, pattern) ==> next == i + |pattern|
    ensures !At(base, i, pattern) ==> next == i
  {
    MatchFrom(base, i, pattern, 0)
  }

  /**
   * The header loop from pattern `from` on: the first pattern for which
   * `contentMatch` moves the cursor past `i`, which is a non-empty pattern
   * that matches at `i`.
   */
  function FirstAdvancing(buf: seq<Byte>, i: nat, patterns: seq<seq<Byte>>, from: nat): (r: Option<nat>)
    requires from <= |patterns|
    ensures r.Some? ==>
              && from <= r.value < |patterns|
              && |patterns[r.value]| > 0
              && At(buf, i, patterns[r.value])
    ensures r.Some? ==> forall j :: from <= j < r.value ==> |patterns[j]| == 0 || !At(buf, i, patterns[j])
    ensures r.None? ==> forall j :: from <= j < |patterns| ==> |patterns[j]| == 0 || !At(buf, i, patterns[j])
    decreases |patterns| - from
  {
    if from == |patterns| then None
    else if i < ContentMatch(buf, i, patterns[from]) then Some(from)
    else FirstAdvancing(buf, i, patterns, from + 1)
  }

  /** The first four bytes are one of the two accepted magic prefixes. */
  predicate HasMagic(buf: seq<Byte>) {
    |buf| >= 4 && buf[0] == 0x7F && buf[1] == 0x7F && buf[2] == 0x7F && (buf[3] == 0x79 || buf[3] == 0x7A)
  }

  /**
   * Header validation: succeeds exactly when the buffer starts with
   * 7F 7F 7F 79 or 7F 7F 7F 7A, leaving the cursor at 4; otherwise the
   * decode is aborted with `MissingHeader`.
   */
  function MatchHeader(buf: seq<Byte>): (r: Result<nat, DecodeError>)
    ensures r.Ok? <==> HasMagic(buf)
    ensures r.Ok? ==> r.value == 4
    ensures r.Err? ==> r.error == MissingHeader
  {
    MagicIsAPattern(buf);
    match FirstAdvancing(buf, 0, HeaderPatterns, 0)
    case Some(k) => Ok(|HeaderPatterns[k]|)
    case None => Err(MissingHeader)
  }

  /** Which of the two patterns, if any, matches at offset 0. */
  lemma {:induction false} MagicIsAPattern(buf: seq<Byte>)
    ensures At(buf, 0, HeaderPatterns[0]) <==> HasMagic(buf) && buf[3] == 0x79
    ensures At(buf, 0, HeaderPatterns[1]) <==> HasMagic(buf) && buf[3] == 0x7A
  {
    var p0, p1 := HeaderPatterns[0], HeaderPatterns[1];
    if |buf| >= 4 {
      assert At(buf, 0, p0) <== buf[0] == p0[0] && buf[1] == p0[1] && buf[2] == p0[2] && buf[3] == p0[3];
      assert At(buf, 0, p1) <== buf[0] == p1[0] && buf[1] == p1[1] && buf[2] == p1[2] && buf[3] == p1[3];
    }
  }

  /** The second pattern is tried only when the first fails, and both are never matched at once. */
  lemma {:induction false} FirstPatternWins(buf: seq<Byte>)
    requires HasMagic(buf)
    ensures FirstAdvancing(buf, 0, HeaderPatterns, 0) == Some(if buf[3] == 0x79 then 0 else 1)
  {
    MagicIsAPattern(buf);
  }
}

/**
 * The sparse keyframe structure `frames[frameNb][tag]` and the single
 * assignment the decoder performs on it for every sample.
 */
module Frames {
  import opened Wrappers

  /**
   * A rotation sample: the four 32-bit words read for w, x, y and z, each
   * kept as the unsigned bit pattern that `DataView.setInt32` stores and
   * `getFloat32` reinterprets (the float reading itself is not modelled).
   */
  datatype Quat = Quat(w: int, x: int, y: int, z: int)

  /** The inner object of one frame, keyed by joint tag; `None` is the key "undefined". */
  type FrameEntry = map<Option<int>, Quat>

  /** The outer object, keyed by frame number. */
  type Frames = map<int, FrameEntry>

  /** One assignment `frames[frameNb][tag] = q` performed by the decoder. */
  datatype Write = Write(frameNb: int, tag: Option<int>, q: Quat)

  /** The entry of frame `f`, or the empty object when it has not been created yet. */
  function EntryOf(frames: Frames, f: int): FrameEntry {
    if f in frames then frames[f] else map[]
  }

  function Lookup(frames: Frames, f: int, t: Option<int>): Option<Quat> {
    if f in frames && t in frames[f] then Some(frames[f][t]) else None
  }

  /**
   * One sample: creates the frame entry if it is absent, then sets the slot of
   * the tag, overwriting an earlier value; every other frame and every other
   * slot of this frame is left as it was.
   */
  function Store(frames: Frames, w: Write): (r: Frames)
    ensures r.Keys == frames.Keys + {w.frameNb}
    ensures Lookup(r, w.frameNb, w.tag) == Some(w.q)
    ensures r[w.frameNb].Keys == EntryOf(frames, w.frameNb).Keys + {w.tag}
    ensures forall t :: t in r[w.frameNb] && t != w.tag ==> r[w.frameNb][t] == frames[w.frameNb][t]
    ensures forall f :: f in frames && f != w.frameNb ==> r[f] == frames[f]
  {
    frames[w.frameNb := EntryOf(frames, w.frameNb)[w.tag := w.q]]
  }

  /** The writes performed in order. */
  function ApplyAll(frames: Frames, ws: seq<Write>): Frames
    decreases |ws|
  {
    if |ws| == 0 then frames else ApplyAll(Store(frames, ws[0]), ws[1..])
  }

  /** The value of the last write aimed at slot `(f, t)`, found by searching from the end. */
  function LastWrite(ws: seq<Write>, f: int, t: Option<int>): Option<Quat>
    decreases |ws|
  {
    if |ws| == 0 then None
    else if ws[|ws| - 1].frameNb == f && ws[|ws| - 1].tag == t then Some(ws[|ws| - 1].q)
    else LastWrite(ws[..|ws| - 1], f, t)
  }

  /** The frame numbers some write mentions. */
  function FrameNumbers(ws: seq<Write>): set<int> {
    set k | 0 <= k < |ws| :: ws[k].frameNb
  }

  /** Peeling the first write off: it only decides the slot when no later write does. */
  lemma {:induction false} LastWriteCons(w: Write, ws: seq<Write>, f: int, t: Option<int>)
    ensures LastWrite([w] + ws, f, t) ==
      if LastWrite(ws, f, t).Some? then LastWrite(ws, f, t)
      else if w.frameNb == f && w.tag == t then Some(w.q)
      else None
    decreases |ws|
  {
    if |ws| > 0 {
      assert ([w] + ws)[..|ws|] == [w] + ws[..|ws| - 1];
      LastWriteCons(w, ws[..|ws| - 1], f, t);
    }
  }

  /**
   * Later samples overwrite earlier ones: after a sequence of writes a slot
   * holds the value of the last write aimed at it, and keeps its former value
   * when no write touched it.
   */
  lemma {:induction false} ApplyAllLastWrite(frames: Frames, ws: seq<Write>, f: int, t: Option<int>)
    ensures Lookup(ApplyAll(frames, ws), f, t) ==
      if LastWrite(ws, f, t).Some? then LastWrite(ws, f, t) else Lookup(frames, f, t)
    decreases |ws|
  {
    if |ws| > 0 {
      ApplyAllLastWrite(Store(frames, ws[0]), ws[1..], f, t);
      assert ws == [ws[0]] + ws[1..];
      LastWriteCons(ws[0], ws[1..], f, t);
    }
  }

  /** Frame entries are created lazily: exactly the frames already present or written to exist. */
  lemma {:induction false} ApplyAllKeys(frames: Frames, ws: seq<Write>)
    ensures ApplyAll(frames, ws).Keys == frames.Keys + FrameNumbers(ws)
    decreases |ws|
  {
    if |ws| > 0 {
      ApplyAllKeys(Store(frames, ws[0]), ws[1..]);
      assert FrameNumbers(ws) == {ws[0].frameNb} + FrameNumbers(ws[1..]) by {
        forall n | n in FrameNumbers(ws) ensures n in {ws[0].frameNb} + FrameNumbers(ws[1..]) {
          var k :| 0 <= k < |ws| && ws[k].frameNb == n;
          if k > 0 {
            assert ws[1..][k - 1].frameNb == n;
          }
        }
        forall n | n in FrameNumbers(ws[1..]) ensures n in FrameNumbers(ws) {
          var k :| 0 <= k < |ws[1..]| && ws[1..][k].frameNb == n;
          assert ws[k + 1].frameNb == n;
        }
      }
    }
  }

  /** Applying two runs of writes one after the other is applying their concatenation. */
  lemma {:induction false} ApplyAllAppend(frames: Frames, a: seq<Write>, b: seq<Write>)
    ensures ApplyAll(frames, a + b) == ApplyAll(ApplyAll(frames, a), b)
    decreases |a|
  {
    if |a| > 0 {
      assert (a + b)[1..] == a[1..] + b;
      ApplyAllAppend(Store(frames, a[0]), a[1..], b);
    } else {
      assert a + b == b;
    }
  }
}

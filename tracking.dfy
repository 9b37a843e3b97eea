/**
 What one pass of `FaceSwapper::trackExistingFaces` does to the track list, as
 a function of the tracks before the pass.

 A track is one entry of the parallel vectors `mFaces` and `mMisdetect`: a face
 box and the number of consecutive passes in which the detector found no face
 in its search region. The detector is an oracle `detect` from a search region
 to the boxes it finds there, in coordinates local to the region. Between two
 full scans the tracker's detector always looks at the grayscale frame of the
 last scan, so its answer depends on the region alone.
 */
module Tracking {
  import opened Wrappers
  import opened Geometry

  datatype Track = Track(face: Rect, misses: nat)

  /** The miss counter a full scan gives every new track; a track that misses while
      its counter has this value is erased. */
  const EvictAt: nat := 3

  /** The track list a full scan produces from the detector's boxes. */
  function Fresh(detections: seq<Rect>): (ts: seq<Track>)
    ensures |ts| == |detections|
    ensures forall i :: 0 <= i < |ts| ==> ts[i].face == detections[i] && ts[i].misses == EvictAt
    ensures CountersBounded(ts)
    ensures forall i :: 0 <= i < |ts| ==> MissStep(ts[i]).None?
  {
    seq(|detections|, i requires 0 <= i < |detections| => Track(detections[i], EvictAt))
  }

  /** A miss: erase the track if its counter is at the threshold, else count the miss. */
  function MissStep(t: Track): (r: Option<Track>)
    ensures r.None? <==> t.misses == EvictAt
    ensures r.Some? ==> r.value.face == t.face && r.value.misses == t.misses + 1
    ensures t.misses <= EvictAt && r.Some? ==> r.value.misses <= EvictAt
  {
    if t.misses == EvictAt then None else Some(Track(t.face, t.misses + 1))
  }

  /**
   One track in a pass: search twice the box around it; on a hit take the first
   box found, moved back to frame coordinates, with the counter reset to 0.
   */
  function Step(t: Track, frame: Size, detect: Rect -> seq<Rect>): (r: Option<Track>)
    ensures r.None? <==> |detect(DoubleRectSize(t.face, frame))| == 0 && t.misses == EvictAt
    ensures |detect(DoubleRectSize(t.face, frame))| > 0 ==> r.Some? && r.value.misses == 0
    ensures t.misses <= EvictAt && r.Some? ==> r.value.misses <= EvictAt
  {
    var roi := DoubleRectSize(t.face, frame);
    var found := detect(roi);
    if |found| > 0 then Some(Track(Translate(found[0], roi), 0)) else MissStep(t)
  }

  function Kept(r: Option<Track>): (s: seq<Track>)
  {
    if r.Some? then [r.value] else []
  }

  /** A whole pass: every track in order, the erased ones dropped. */
  function TrackAll(ts: seq<Track>, frame: Size, detect: Rect -> seq<Rect>): (r: seq<Track>)
    ensures CountersBounded(ts) ==> CountersBounded(r)
    decreases |ts|
  {
    if |ts| == 0 then []
    else TrackAll(ts[..|ts| - 1], frame, detect) + Kept(Step(ts[|ts| - 1], frame, detect))
  }

  /** A pass treats each track independently of the others: passes over two halves concatenate. */
  lemma {:induction false} TrackAllAppend(a: seq<Track>, b: seq<Track>, frame: Size, detect: Rect -> seq<Rect>)
    ensures TrackAll(a + b, frame, detect) == TrackAll(a, frame, detect) + TrackAll(b, frame, detect)
    decreases |b|
  {
    if |b| == 0 {
      assert a + b == a;
    } else {
      var b', t := b[..|b| - 1], b[|b| - 1];
      assert (a + b)[..|a + b| - 1] == a + b';
      assert (a + b)[|a + b| - 1] == t;
      TrackAllAppend(a, b', frame, detect);
    }
  }

  /** Where track i of the list ends up: its survivors before it give its new position. */
  function Rank(ts: seq<Track>, i: nat, frame: Size, detect: Rect -> seq<Rect>): nat
    requires i <= |ts|
  {
    |TrackAll(ts[..i], frame, detect)|
  }

  /**
   Track i is erased exactly when its search finds nothing while its counter is at
   the threshold; otherwise it takes position Rank(i) of the new list with the
   outcome of its own step.
   */
  lemma {:induction false} TrackAllAt(ts: seq<Track>, i: nat, frame: Size, detect: Rect -> seq<Rect>)
    requires i < |ts|
    ensures Rank(ts, i + 1, frame, detect) == Rank(ts, i, frame, detect) + |Kept(Step(ts[i], frame, detect))|
    ensures Step(ts[i], frame, detect).Some? ==>
      Rank(ts, i, frame, detect) < |TrackAll(ts, frame, detect)| &&
      TrackAll(ts, frame, detect)[Rank(ts, i, frame, detect)] == Step(ts[i], frame, detect).value
  {
    assert ts[..i + 1][..i] == ts[..i];
    assert ts[..i + 1][i] == ts[i];
    assert ts == ts[..i + 1] + ts[i + 1..];
    TrackAllAppend(ts[..i + 1], ts[i + 1..], frame, detect);
  }

  /** A hit replaces the box with the first detection shifted by the search region's origin and resets the counter. */
  lemma TrackHit(ts: seq<Track>, i: nat, frame: Size, detect: Rect -> seq<Rect>)
    requires i < |ts|
    requires |detect(DoubleRectSize(ts[i].face, frame))| > 0
    ensures var roi := DoubleRectSize(ts[i].face, frame);
      Rank(ts, i, frame, detect) < |TrackAll(ts, frame, detect)| &&
      TrackAll(ts, frame, detect)[Rank(ts, i, frame, detect)] == Track(Translate(detect(roi)[0], roi), 0)
  {
    TrackAllAt(ts, i, frame, detect);
  }

  /** A miss erases the track when its counter is 3 and otherwise keeps the box and counts the miss. */
  lemma TrackMiss(ts: seq<Track>, i: nat, frame: Size, detect: Rect -> seq<Rect>)
    requires i < |ts|
    requires |detect(DoubleRectSize(ts[i].face, frame))| == 0
    ensures ts[i].misses == EvictAt ==> Rank(ts, i + 1, frame, detect) == Rank(ts, i, frame, detect)
    ensures ts[i].misses != EvictAt ==>
      Rank(ts, i + 1, frame, detect) == Rank(ts, i, frame, detect) + 1 &&
      Rank(ts, i, frame, detect) < |TrackAll(ts, frame, detect)| &&
      TrackAll(ts, frame, detect)[Rank(ts, i, frame, detect)] == Track(ts[i].face, ts[i].misses + 1)
  {
    TrackAllAt(ts, i, frame, detect);
  }

  /** Track i is erased if and only if it misses while its counter is 3. */
  lemma TrackErased(ts: seq<Track>, i: nat, frame: Size, detect: Rect -> seq<Rect>)
    requires i < |ts|
    ensures Rank(ts, i + 1, frame, detect) == Rank(ts, i, frame, detect) <==>
      |detect(DoubleRectSize(ts[i].face, frame))| == 0 && ts[i].misses == EvictAt
  {
    TrackAllAt(ts, i, frame, detect);
  }

  /** Survivors keep their relative order: a track that survives lands before every later track. */
  lemma TrackKeepsOrder(ts: seq<Track>, i: nat, j: nat, frame: Size, detect: Rect -> seq<Rect>)
    requires i < j <= |ts|
    requires Step(ts[i], frame, detect).Some?
    ensures Rank(ts, i, frame, detect) < Rank(ts, j, frame, detect)
  {
    TrackAllAt(ts, i, frame, detect);
    var pre := ts[..j];
    assert pre[..i + 1] == ts[..i + 1];
    assert pre == pre[..i + 1] + pre[i + 1..];
    TrackAllAppend(pre[..i + 1], pre[i + 1..], frame, detect);
  }

  /** Every miss counter of the list within 0..3. */
  predicate CountersBounded(ts: seq<Track>)
  {
    forall i :: 0 <= i < |ts| ==> ts[i].misses <= EvictAt
  }

  predicate AllInside(ts: seq<Track>, frame: Size)
  {
    forall i :: 0 <= i < |ts| ==> InsideFrame(ts[i].face, frame)
  }

  /** The detector reports its first box, if any, inside the search region it was given. */
  predicate DetectsInside(detect: Rect -> seq<Rect>, roi: Rect)
  {
    |detect(roi)| > 0 ==> InsideLocal(detect(roi)[0], roi)
  }

  /**
   If every track lies inside the frame and the detector answers inside the region
   it searched, every track still lies inside the frame after the pass; so every
   search region the next pass hands to the detector is a valid sub-image.
   */
  lemma {:induction false} TrackInsideFrame(ts: seq<Track>, frame: Size, detect: Rect -> seq<Rect>)
    requires AllInside(ts, frame)
    requires forall i :: 0 <= i < |ts| ==> DetectsInside(detect, DoubleRectSize(ts[i].face, frame))
    ensures AllInside(TrackAll(ts, frame, detect), frame)
    ensures forall i :: 0 <= i < |TrackAll(ts, frame, detect)| ==>
      InsideFrame(DoubleRectSize(TrackAll(ts, frame, detect)[i].face, frame), frame)
    decreases |ts|
  {
    if |ts| > 0 {
      var last := ts[|ts| - 1];
      TrackInsideFrame(ts[..|ts| - 1], frame, detect);
      DoubleRectClipping(last.face, frame);
      assert DetectsInside(detect, DoubleRectSize(last.face, frame));
    }
    var r := TrackAll(ts, frame, detect);
    forall i | 0 <= i < |r|
      ensures InsideFrame(DoubleRectSize(r[i].face, frame), frame)
    {
      DoubleRectClipping(r[i].face, frame);
    }
  }

  /** A track's fate over k consecutive passes in which its search finds nothing. */
  function Misses(t: Track, k: nat): (r: Option<Track>)
    ensures r.Some? ==> r.value.face == t.face && r.value.misses == t.misses + k
    ensures k > 0 && t.misses == EvictAt ==> r.None?
  {
    if k == 0 then Some(t)
    else match Misses(t, k - 1)
      case None => None
      case Some(u) => MissStep(u)
  }

  /**
   Eviction timing: a track whose counter is m survives exactly 3 - m passes
   without a detection and is erased on the next one — so a track fresh from a
   full scan (counter 3) goes at its first miss, and one just re-detected
   (counter 0) at its fourth.
   */
  lemma {:induction false} EvictionTiming(t: Track, k: nat)
    requires t.misses <= EvictAt
    ensures Misses(t, k).Some? <==> k <= EvictAt - t.misses
    ensures k <= EvictAt - t.misses ==> Misses(t, k) == Some(Track(t.face, t.misses + k))
  {
    if k > 0 {
      EvictionTiming(t, k - 1);
    }
  }

  /** A pass over a track whose search finds nothing is one step of `Misses`. */
  lemma StepOnMiss(t: Track, frame: Size, detect: Rect -> seq<Rect>)
    requires |detect(DoubleRectSize(t.face, frame))| == 0
    ensures Step(t, frame, detect) == Misses(t, 1)
  {
  }
}

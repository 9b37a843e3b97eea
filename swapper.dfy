/**
 The tracking state of `FaceSwapper`: the parallel vectors of face boxes and
 miss counters, the size of the grayscale frame the detector searches, and the
 frame counter that `update` keeps between calls.
 */
module Swapper {
  import opened Geometry
  import opened Tracking
  import Pairing

  /** Frames between two full scans. */
  const ScanPeriod: nat := 30

  /** Two parallel vectors read as one list of tracks. */
  function Zip(fs: seq<Rect>, ms: seq<nat>): (ts: seq<Track>)
    requires |fs| == |ms|
    ensures |ts| == |fs|
  {
    seq(|fs|, i requires 0 <= i < |fs| => Track(fs[i], ms[i]))
  }

  /** Assigning entry i of both vectors assigns track i. */
  lemma ZipSet(fs: seq<Rect>, ms: seq<nat>, i: nat, f: Rect, m: nat)
    requires |fs| == |ms| && i < |fs|
    ensures Zip(fs[i := f], ms[i := m]) == Zip(fs, ms)[i := Track(f, m)]
  {
  }

  /** Erasing entry i of both vectors erases track i. */
  lemma ZipErase(fs: seq<Rect>, ms: seq<nat>, i: nat)
    requires |fs| == |ms| && i < |fs|
    ensures Zip(fs[..i] + fs[i + 1..], ms[..i] + ms[i + 1..]) == Zip(fs, ms)[..i] + Zip(fs, ms)[i + 1..]
  {
  }

  /** The pass over one more track appends that track's outcome. */
  lemma TrackAllSnoc(ts: seq<Track>, k: nat, frame: Size, detect: Rect -> seq<Rect>)
    requires k < |ts|
    ensures TrackAll(ts[..k + 1], frame, detect) == TrackAll(ts[..k], frame, detect) + Kept(Step(ts[k], frame, detect))
  {
    assert ts[..k + 1][..k] == ts[..k];
    assert ts[..k + 1][k] == ts[k];
  }

  lemma SpliceSet<T>(a: seq<T>, b: seq<T>, t: T)
    requires |b| > 0
    ensures (a + b)[|a| := t] == a + [t] + b[1..]
  {
  }

  lemma SpliceErase<T>(a: seq<T>, b: seq<T>)
    requires |b| > 0
    ensures (a + b)[..|a|] + (a + b)[|a| + 1..] == a + b[1..]
  {
    assert (a + b)[..|a|] == a;
    assert (a + b)[|a| + 1..] == b[1..];
  }

  /**
   The tracking loop's progress on the vectors: the first k of the original
   tracks are processed, their outcomes sit at the front and the index i points
   just past them, the unprocessed tracks follow unchanged.
   */
  ghost predicate Processed(fs: seq<Rect>, ms: seq<nat>, i: nat, orig: seq<Track>, k: nat, frame: Size, detect: Rect -> seq<Rect>)
  {
    |fs| == |ms| && k <= |orig| &&
    Zip(fs, ms) == TrackAll(orig[..k], frame, detect) + orig[k..] &&
    i == |TrackAll(orig[..k], frame, detect)|
  }

  /** Index i names the next unprocessed track, which is original track k. */
  lemma ProcessedNext(fs: seq<Rect>, ms: seq<nat>, i: nat, orig: seq<Track>, k: nat, frame: Size, detect: Rect -> seq<Rect>)
    requires Processed(fs, ms, i, orig, k, frame, detect) && i < |fs|
    ensures k < |orig| && Track(fs[i], ms[i]) == orig[k]
    ensures TrackAll(orig[..k + 1], frame, detect) == TrackAll(orig[..k], frame, detect) + Kept(Step(orig[k], frame, detect))
  {
    var done := TrackAll(orig[..k], frame, detect);
    assert |Zip(fs, ms)| == |done| + |orig| - k;
    assert Zip(fs, ms)[i] == orig[k];
    TrackAllSnoc(orig, k, frame, detect);
  }

  /** A hit: assigning the moved box and a zero counter processes one more track. */
  lemma PassHit(fs: seq<Rect>, ms: seq<nat>, i: nat, orig: seq<Track>, k: nat, frame: Size, detect: Rect -> seq<Rect>)
    requires Processed(fs, ms, i, orig, k, frame, detect) && i < |fs|
    requires |detect(DoubleRectSize(fs[i], frame))| > 0
    ensures var roi := DoubleRectSize(fs[i], frame);
      Processed(fs[i := Translate(detect(roi)[0], roi)], ms[i := 0], i + 1, orig, k + 1, frame, detect)
  {
    ProcessedNext(fs, ms, i, orig, k, frame, detect);
    var roi := DoubleRectSize(fs[i], frame);
    var t := Track(Translate(detect(roi)[0], roi), 0);
    ZipSet(fs, ms, i, t.face, 0);
    SpliceSet(TrackAll(orig[..k], frame, detect), orig[k..], t);
    assert orig[k..][1..] == orig[k + 1..];
  }

  /** A miss at the threshold: erasing the entry processes one more track, and the index stays put. */
  lemma PassErase(fs: seq<Rect>, ms: seq<nat>, i: nat, orig: seq<Track>, k: nat, frame: Size, detect: Rect -> seq<Rect>)
    requires Processed(fs, ms, i, orig, k, frame, detect) && i < |fs|
    requires |detect(DoubleRectSize(fs[i], frame))| == 0 && ms[i] == EvictAt
    ensures Processed(fs[..i] + fs[i + 1..], ms[..i] + ms[i + 1..], i, orig, k + 1, frame, detect)
  {
    ProcessedNext(fs, ms, i, orig, k, frame, detect);
    ZipErase(fs, ms, i);
    SpliceErase(TrackAll(orig[..k], frame, detect), orig[k..]);
    assert orig[k..][1..] == orig[k + 1..];
  }

  /** Any other miss: counting it processes one more track. */
  lemma PassMiss(fs: seq<Rect>, ms: seq<nat>, i: nat, orig: seq<Track>, k: nat, frame: Size, detect: Rect -> seq<Rect>)
    requires Processed(fs, ms, i, orig, k, frame, detect) && i < |fs|
    requires |detect(DoubleRectSize(fs[i], frame))| == 0 && ms[i] != EvictAt
    ensures Processed(fs, ms[i := ms[i] + 1], i + 1, orig, k + 1, frame, detect)
  {
    ProcessedNext(fs, ms, i, orig, k, frame, detect);
    ZipSet(fs, ms, i, fs[i], ms[i] + 1);
    SpliceSet(TrackAll(orig[..k], frame, detect), orig[k..], Track(fs[i], ms[i] + 1));
    assert fs[i := fs[i]] == fs;
    assert orig[k..][1..] == orig[k + 1..];
  }

  /** The loop's exit: with the index past the end every track is processed. */
  lemma PassDone(fs: seq<Rect>, ms: seq<nat>, i: nat, orig: seq<Track>, k: nat, frame: Size, detect: Rect -> seq<Rect>)
    requires Processed(fs, ms, i, orig, k, frame, detect) && i >= |fs|
    ensures Zip(fs, ms) == TrackAll(orig, frame, detect)
  {
    assert |Zip(fs, ms)| == |TrackAll(orig[..k], frame, detect)| + |orig| - k;
    assert orig[..k] == orig;
  }

  /** Every miss counter within 0..3. */
  ghost predicate CountersInRange(ms: seq<nat>)
  {
    forall i :: 0 <= i < |ms| ==> ms[i] <= EvictAt
  }

  lemma CountersSet(ms: seq<nat>, i: nat, m: nat)
    requires CountersInRange(ms) && i < |ms| && m <= EvictAt
    ensures CountersInRange(ms[i := m])
  {
  }

  lemma CountersErase(ms: seq<nat>, i: nat)
    requires CountersInRange(ms) && i < |ms|
    ensures CountersInRange(ms[..i] + ms[i + 1..])
  {
  }

  class FaceSwapper {
    /** `mFaces`: one box per tracked face, in frame coordinates. */
    var faces: seq<Rect>
    /** `mMisdetect`: consecutive passes without a detection, one per face. */
    var misdetect: seq<nat>
    /** Size of `mGFrame`, the grayscale frame taken at the last full scan. */
    var grayFrame: Size
    /** The `static int frameId` of `update`: calls so far. */
    var frameId: nat

    /** The vectors stay parallel and every counter stays within 0..3. */
    ghost predicate Valid()
      reads this
    {
      |faces| == |misdetect| && CountersInRange(misdetect)
    }

    /** The tracks, face and counter side by side. */
    function Tracks(): (ts: seq<Track>)
      reads this
      requires |faces| == |misdetect|
      ensures |ts| == |faces|
      ensures forall i :: 0 <= i < |ts| ==> ts[i].face == faces[i] && ts[i].misses == misdetect[i]
    {
      Zip(faces, misdetect)
    }

    constructor ()
      ensures Valid() && faces == [] && misdetect == [] && frameId == 0 && grayFrame == Size(0, 0)
    {
      faces, misdetect := [], [];
      grayFrame := Size(0, 0);
      frameId := 0;
    }

    /**
     `detectNewFaces`: the detector's boxes over the whole frame replace the track
     list, and every counter is seeded with 3.
     */
    method DetectNewFaces(frame: Size, detections: seq<Rect>)
      requires Valid()
      modifies this
      ensures Valid() && Tracks() == Fresh(detections)
      ensures faces == detections && |misdetect| == |faces|
      ensures forall i :: 0 <= i < |misdetect| ==> misdetect[i] == EvictAt
      ensures grayFrame == frame && frameId == old(frameId)
    {
      grayFrame := frame;
      faces := detections;
      misdetect := [];
      var i := 0;
      while i < |faces|
        invariant 0 <= i <= |faces| && |misdetect| == i
        invariant forall k :: 0 <= k < i ==> misdetect[k] == EvictAt
        invariant faces == detections && grayFrame == frame && frameId == old(frameId)
      {
        misdetect := misdetect + [EvictAt];
        i := i + 1;
      }
    }

    /**
     One iteration of the loop in `trackExistingFaces`, on the track at index i:
     search twice its box; a hit moves the box to the first detection and resets
     the counter, a miss at counter 3 erases the track and leaves the index where
     it is, any other miss counts one more. Returns the index of the next track.
     */
    method TrackFace(i: nat, detect: Rect -> seq<Rect>, ghost orig: seq<Track>, ghost k: nat) returns (next: nat)
      requires Valid() && Processed(faces, misdetect, i, orig, k, grayFrame, detect) && i < |faces|
      modifies this
      ensures Valid() && Processed(faces, misdetect, next, orig, k + 1, grayFrame, detect)
      ensures var roi := DoubleRectSize(old(faces[i]), grayFrame); var found := detect(roi);
        if |found| > 0 then
          faces == old(faces)[i := Translate(found[0], roi)] && misdetect == old(misdetect)[i := 0] && next == i + 1
        else if old(misdetect[i]) == EvictAt then
          faces == old(faces[..i] + faces[i + 1..]) && misdetect == old(misdetect[..i] + misdetect[i + 1..]) && next == i
        else
          faces == old(faces) && misdetect == old(misdetect)[i := old(misdetect[i]) + 1] && next == i + 1
      ensures grayFrame == old(grayFrame) && frameId == old(frameId)
    {
      var roi := DoubleRectSize(faces[i], grayFrame);
      var found := detect(roi);
      if |found| > 0 {
        PassHit(faces, misdetect, i, orig, k, grayFrame, detect);
        CountersSet(misdetect, i, 0);
        faces := faces[i := Translate(found[0], roi)];
        misdetect := misdetect[i := 0];
        next := i + 1;
      } else if misdetect[i] == EvictAt {
        PassErase(faces, misdetect, i, orig, k, grayFrame, detect);
        CountersErase(misdetect, i);
        faces := faces[..i] + faces[i + 1..];
        misdetect := misdetect[..i] + misdetect[i + 1..];
        next := i;
      } else {
        PassMiss(faces, misdetect, i, orig, k, grayFrame, detect);
        CountersSet(misdetect, i, misdetect[i] + 1);
        misdetect := misdetect[i := misdetect[i] + 1];
        next := i + 1;
      }
    }

    /**
     `trackExistingFaces`: walks the tracks by index, one `TrackFace` step per
     track of the list it started with; the result is one tracking pass over them.
     */
    method TrackExistingFaces(detect: Rect -> seq<Rect>)
      requires Valid()
      modifies this
      ensures Valid() && Tracks() == TrackAll(old(Tracks()), grayFrame, detect)
      ensures grayFrame == old(grayFrame) && frameId == old(frameId)
    {
      ghost var orig := Tracks();
      ghost var k: nat := 0;
      var i: nat := 0;
      assert orig[..0] == [] && orig[0..] == orig;
      while i < |faces|
        invariant Valid() && Processed(faces, misdetect, i, orig, k, grayFrame, detect)
        invariant grayFrame == old(grayFrame) && frameId == old(frameId)
        decreases |orig| - k
      {
        ProcessedNext(faces, misdetect, i, orig, k, grayFrame, detect);
        i := TrackFace(i, detect, orig, k);
        k := k + 1;
      }
      PassDone(faces, misdetect, i, orig, k, grayFrame, detect);
    }

    /**
     `update`: a full scan on every call whose counter is a multiple of 30, then
     the counter advances, then a tracking pass; the result is the list of
     (donor box, receiver box) pairs that `swapFaces` then composites.
     */
    method Update(frame: Size, detections: seq<Rect>, detect: Rect -> seq<Rect>) returns (pairs: seq<(Rect, Rect)>)
      requires Valid()
      modifies this
      ensures Valid() && frameId == old(frameId) + 1
      ensures old(frameId) % ScanPeriod == 0 ==>
        grayFrame == frame && Tracks() == TrackAll(Fresh(detections), frame, detect)
      ensures old(frameId) % ScanPeriod != 0 ==>
        grayFrame == old(grayFrame) && Tracks() == TrackAll(old(Tracks()), old(grayFrame), detect)
      ensures pairs == Pairing.SwapPairs(faces)
    {
      if frameId % ScanPeriod == 0 {
        DetectNewFaces(frame, detections);
      }
      frameId := frameId + 1;
      TrackExistingFaces(detect);
      pairs := Pairing.SwapPairs(faces);
    }
  }
}

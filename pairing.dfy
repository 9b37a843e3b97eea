/**
 The index logic of `FaceSwapper::swapFaces`: for n tracks, iteration i takes
 the face of track i from a copy of the frame made before the loop and blends
 it onto the region of track (i + 1) % n in the live frame. The image work
 itself (resizing, colour transfer, mask, blend) is not part of this module.
 */
module Pairing {

  /** The track that receives track i's face. */
  function Receiver(i: nat, n: nat): (j: nat)
    requires i < n
    ensures j < n
  {
    (i + 1) % n
  }

  /** The track whose face track j receives. */
  function Donor(j: nat, n: nat): (i: nat)
    requires j < n
    ensures i < n
  {
    (j + n - 1) % n
  }

  /** The remainder of a + k * n, for a below n and k either 0 or 1. */
  lemma ModWrap(a: int, n: int, k: int)
    requires 0 <= a < n && (k == 0 || k == 1)
    ensures (a + k * n) % n == a
  {
    var m := a + k * n;
    var q, r := m / n, m % n;
    assert q * n + r == m && 0 <= r < n;
  }

  /** `Receiver` is a bijection on 0..n-1 with `Donor` its inverse: every track receives exactly one face and gives exactly one. */
  lemma ReceiverBijective(n: nat, i: nat, j: nat)
    requires i < n && j < n
    ensures Donor(Receiver(i, n), n) == i
    ensures Receiver(Donor(j, n), n) == j
    ensures Receiver(i, n) == Receiver(j, n) ==> i == j
  {
    ReceiverValue(n, i);
    ReceiverValue(n, j);
    DonorValue(n, j);
    DonorValue(n, Receiver(i, n));
    ReceiverValue(n, Donor(j, n));
  }

  lemma ReceiverValue(n: nat, i: nat)
    requires i < n
    ensures Receiver(i, n) == if i + 1 == n then 0 else i + 1
  {
    if i + 1 == n {
      ModWrap(0, n, 1);
    } else {
      ModWrap(i + 1, n, 0);
    }
  }

  lemma DonorValue(n: nat, j: nat)
    requires j < n
    ensures Donor(j, n) == if j == 0 then n - 1 else j - 1
  {
    if j == 0 {
      ModWrap(n - 1, n, 0);
    } else {
      ModWrap(j - 1, n, 1);
    }
  }

  /** With two or more tracks no track receives its own face. */
  lemma ReceiverNoFixedPoint(n: nat, i: nat)
    requires 2 <= n && i < n
    ensures Receiver(i, n) != i
  {
    ReceiverValue(n, i);
  }

  /** A single track is paired with itself. */
  lemma ReceiverSingle()
    ensures Receiver(0, 1) == 0
  {
  }

  /** The (donor box, receiver box) pairs in the order the loop visits them; none when there are no tracks. */
  function SwapPairs<T>(faces: seq<T>): (pairs: seq<(T, T)>)
    ensures |pairs| == |faces|
  {
    seq(|faces|, i requires 0 <= i < |faces| => (faces[i], faces[Receiver(i, |faces|)]))
  }

  /**
   The donors are the tracks in order and the receivers are the tracks rotated
   left by one, so each track is a donor once and a receiver once.
   */
  lemma SwapPairsRotate<T>(faces: seq<T>)
    requires |faces| > 0
    ensures forall i :: 0 <= i < |faces| ==> SwapPairs(faces)[i].0 == faces[i]
    ensures forall i :: 0 <= i < |faces| ==> SwapPairs(faces)[i].1 == (faces[1..] + faces[..1])[i]
    ensures multiset(seq(|faces|, i requires 0 <= i < |faces| => SwapPairs(faces)[i].1)) == multiset(faces)
  {
    var n := |faces|;
    var rotated := faces[1..] + faces[..1];
    forall i | 0 <= i < n
      ensures SwapPairs(faces)[i].1 == rotated[i]
    {
      ReceiverValue(n, i);
    }
    var receivers := seq(n, i requires 0 <= i < n => SwapPairs(faces)[i].1);
    assert receivers == rotated;
    assert faces == faces[..1] + faces[1..];
  }

  /** One track: a single pair of the track with itself. No tracks: no pair. */
  lemma SwapPairsSmall<T>(f: T)
    ensures SwapPairs([f]) == [(f, f)]
    ensures SwapPairs<T>([]) == []
  {
  }
}

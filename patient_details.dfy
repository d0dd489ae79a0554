/**
 * The patient details view: the ledger figures it shows and the image
 * viewer's state, the selected image and its CSS transform (a rotation in
 * degrees and a horizontal flip).
 */
module PatientDetails {
  import opened Ledger

  datatype Transform = Transform(rotation: int, flipped: bool)

  /** `{ rotation: 0, flipped: false }`. */
  const Upright := Transform(0, false)

  function RotatedLeft(t: Transform): Transform { t.(rotation := t.rotation - 90) }
  function RotatedRight(t: Transform): Transform { t.(rotation := t.rotation + 90) }
  function Flipped(t: Transform): Transform { t.(flipped := !t.flipped) }

  /** JavaScript's `a % n` for a positive `n`: the remainder takes the sign of `a`. */
  function JsRem(a: int, n: int): int
    requires n > 0
  {
    if a >= 0 then a % n else -((-a) % n)
  }

  /** `(i + 1) % n`. */
  function NextIndex(i: int, n: int): (next: int)
    requires n > 0
    ensures 0 <= i + 1 ==> 0 <= next < n
    ensures 0 <= i + 1 < n ==> next == i + 1
  {
    JsRem(i + 1, n)
  }

  /** `(i - 1 + n) % n`. */
  function PrevIndex(i: int, n: int): (prev: int)
    requires n > 0
    ensures 0 <= i - 1 + n ==> 0 <= prev < n
    ensures 0 <= i - 1 < n ==> prev == i - 1
  {
    JsRem(i - 1 + n, n)
  }

  /** `k` presses of the next button. */
  function Advance(i: int, n: int, k: nat): int
    requires n > 0
  {
    if k == 0 then i else NextIndex(Advance(i, n, k - 1), n)
  }

  lemma ModBelow(x: int, n: int)
    requires 0 <= x < n
    ensures x % n == x
  {
  }

  lemma ModOnce(x: int, n: int)
    requires 0 < n <= x < 2 * n
    ensures x % n == x - n
  {
    assert x == n + (x - n);
  }

  /** Next wraps from the last image to the first and otherwise moves one on. */
  lemma NextIndexValue(i: int, n: int)
    requires 0 <= i < n
    ensures NextIndex(i, n) == if i == n - 1 then 0 else i + 1
    ensures 0 <= NextIndex(i, n) < n
  {
    if i + 1 < n { ModBelow(i + 1, n); } else { ModOnce(i + 1, n); }
  }

  /** Previous wraps from the first image to the last and otherwise moves one back. */
  lemma PrevIndexValue(i: int, n: int)
    requires 0 <= i < n
    ensures PrevIndex(i, n) == if i == 0 then n - 1 else i - 1
    ensures 0 <= PrevIndex(i, n) < n
  {
    if i == 0 { ModBelow(n - 1, n); } else { ModOnce(i - 1 + n, n); }
  }

  /** Previous undoes next and next undoes previous. */
  lemma PrevNextInverse(i: int, n: int)
    requires 0 <= i < n
    ensures PrevIndex(NextIndex(i, n), n) == i
    ensures NextIndex(PrevIndex(i, n), n) == i
  {
    NextIndexValue(i, n);
    PrevIndexValue(i, n);
    NextIndexValue(PrevIndex(i, n), n);
    PrevIndexValue(NextIndex(i, n), n);
  }

  lemma {:induction false} MulAtLeast(n: int, c: int)
    requires 0 < n && 1 <= c
    ensures n * c >= n
  {
    if c > 1 {
      MulAtLeast(n, c - 1);
      assert n * c == n * (c - 1) + n;
    }
  }

  lemma {:induction false} MulAtMost(n: int, c: int)
    requires 0 < n && c <= -1
    decreases -c
    ensures n * c <= -n
  {
    if c < -1 {
      MulAtMost(n, c + 1);
      assert n * c == n * (c + 1) - n;
    }
  }

  /** The remainder is periodic in `n`. */
  lemma ModShift(x: int, n: int)
    requires 0 < n
    ensures (x + n) % n == x % n
  {
    var a, b := (x + n) / n, x / n;
    var c := a - b - 1;
    assert n * c == n * a - n * b - n;
    assert n * c == x % n - (x + n) % n;
    if c >= 1 {
      MulAtLeast(n, c);
    } else if c <= -1 {
      MulAtMost(n, c);
    }
  }

  /** One more step on a non-negative count: the remainder moves one on, wrapping at `n`. */
  lemma {:induction false} ModSucc(x: int, n: int)
    requires 0 <= x && 0 < n
    ensures (x + 1) % n == if x % n == n - 1 then 0 else x % n + 1
  {
    if x + 1 < n {
      ModBelow(x, n);
      ModBelow(x + 1, n);
    } else if x + 1 == n {
      ModBelow(x, n);
      ModOnce(x + 1, n);
    } else {
      ModSucc(x - n, n);
      ModShift(x - n, n);
      ModShift(x + 1 - n, n);
    }
  }

  /** After `k` presses of next the index has moved `k` places round the ring. */
  lemma {:induction false} AdvanceSteps(i: int, n: int, k: nat)
    requires 0 <= i < n
    ensures Advance(i, n, k) == (i + k) % n
  {
    if k == 0 {
      ModBelow(i, n);
    } else {
      AdvanceSteps(i, n, k - 1);
      NextIndexValue((i + k - 1) % n, n);
      ModSucc(i + k - 1, n);
    }
  }

  /** `n` presses of next bring the viewer back to the image it started on. */
  lemma FullCycle(i: int, n: int)
    requires 0 <= i < n
    ensures Advance(i, n, n) == i
  {
    AdvanceSteps(i, n, n);
    ModOnce(i + n, n);
  }

  /** Rotating left then right, or right then left, restores the rotation; flipping twice restores the flip. */
  lemma TransformInverses(t: Transform)
    ensures RotatedRight(RotatedLeft(t)) == t && RotatedLeft(RotatedRight(t)) == t
    ensures Flipped(Flipped(t)) == t
  {
  }

  /** The viewer of one patient's images. */
  class ImageViewer {
    const patient: PatientData
    var selectedImage: int
    var transform: Transform

    /** The selection is a valid position whenever there are images. */
    ghost predicate Valid()
      reads this
    {
      if patient.images == [] then selectedImage == 0 else 0 <= selectedImage < |patient.images|
    }

    constructor (p: PatientData)
      ensures patient == p && Valid()
      ensures selectedImage == 0 && transform == Upright
    {
      patient := p;
      selectedImage := 0;
      transform := Upright;
    }

    /** `nextImage`: one on round the ring, transform reset. */
    method NextImage()
      requires Valid() && |patient.images| > 0
      modifies this
      ensures Valid()
      ensures selectedImage == NextIndex(old(selectedImage), |patient.images|)
      ensures transform == Upright
    {
      NextIndexValue(selectedImage, |patient.images|);
      selectedImage := NextIndex(selectedImage, |patient.images|);
      transform := Upright;
    }

    /** `prevImage`: one back round the ring, transform reset. */
    method PrevImage()
      requires Valid() && |patient.images| > 0
      modifies this
      ensures Valid()
      ensures selectedImage == PrevIndex(old(selectedImage), |patient.images|)
      ensures transform == Upright
    {
      PrevIndexValue(selectedImage, |patient.images|);
      selectedImage := PrevIndex(selectedImage, |patient.images|);
      transform := Upright;
    }

    /** A thumbnail click: select that image, transform reset. */
    method SelectThumbnail(index: int)
      requires 0 <= index < |patient.images|
      modifies this
      ensures Valid()
      ensures selectedImage == index && transform == Upright
    {
      selectedImage := index;
      transform := Upright;
    }

    method RotateLeft()
      modifies this
      ensures transform == RotatedLeft(old(transform)) && selectedImage == old(selectedImage)
    {
      transform := RotatedLeft(transform);
    }

    method RotateRight()
      modifies this
      ensures transform == RotatedRight(old(transform)) && selectedImage == old(selectedImage)
    {
      transform := RotatedRight(transform);
    }

    method Flip()
      modifies this
      ensures transform == Flipped(old(transform)) && selectedImage == old(selectedImage)
    {
      transform := Flipped(transform);
    }

    method Reset()
      modifies this
      ensures transform == Upright && selectedImage == old(selectedImage)
    {
      transform := Upright;
    }
  }
}

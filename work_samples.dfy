/** The lightbox of the work-samples gallery: an open flag and the index of the
    image shown, moved cyclically through a fixed list of images. */
module Lightbox {

  /** One gallery image. */
  datatype WorkSampleImage = WorkSampleImage(src: string, alt: string)

  /** The index after `i` in a list of `n` images: the last wraps to the first.
      An in-range index stays in range, moving as the step `(i + 1) mod n`. */
  function NextIndex(i: int, n: int): (j: int)
    ensures 0 <= i < n ==> 0 <= j < n && j == (i + 1) % n
  {
    if i == n - 1 then 0 else i + 1
  }

  /** The index before `i` in a list of `n` images: the first wraps to the last.
      An in-range index stays in range, moving as the step `(i - 1) mod n`. */
  function PreviousIndex(i: int, n: int): (j: int)
    ensures 0 <= i < n ==> 0 <= j < n && j == (i - 1) % n
  {
    if i == 0 then n - 1 else i - 1
  }

  /** Forward then back, or back then forward, returns to the same image. */
  lemma NextPreviousInverse(i: int, n: int)
    requires 0 <= i < n
    ensures PreviousIndex(NextIndex(i, n), n) == i
    ensures NextIndex(PreviousIndex(i, n), n) == i
  {
  }

  /** The index reached after `k` steps forward. */
  function NextIndexTimes(i: int, n: int, k: nat): int {
    if k == 0 then i else NextIndex(NextIndexTimes(i, n, k - 1), n)
  }

  /** `a + b` steps forward are `a` steps, then `b` more. */
  lemma {:induction false} NextIndexTimesAdd(i: int, n: int, a: nat, b: nat)
    ensures NextIndexTimes(i, n, a + b) == NextIndexTimes(NextIndexTimes(i, n, a), n, b)
  {
    if b > 0 {
      NextIndexTimesAdd(i, n, a, b - 1);
    }
  }

  /** Short of the end of the list, `k` steps forward add `k` to the index. */
  lemma {:induction false} NextIndexTimesAdvances(i: int, n: int, k: nat)
    requires 0 <= i && i + k < n
    ensures NextIndexTimes(i, n, k) == i + k
  {
    if k > 0 {
      NextIndexTimesAdvances(i, n, k - 1);
    }
  }

  /** `n` steps forward go once around the gallery, back to the start. */
  lemma FullCycleReturns(i: int, n: int)
    requires 0 <= i < n
    ensures NextIndexTimes(i, n, n) == i
  {
    NextIndexTimesAdvances(i, n, n - i - 1);
    assert NextIndexTimes(i, n, n - i) == 0;
    NextIndexTimesAdd(i, n, n - i, i);
    NextIndexTimesAdvances(0, n, i);
  }

  const EscapeKey := "Escape"
  const ArrowLeftKey := "ArrowLeft"
  const ArrowRightKey := "ArrowRight"

  /** The gallery component. `bodyOverflow` stands for the page's
      `document.body.style.overflow`, which the lightbox locks while open. */
  class WorkSamples {
    var images: seq<WorkSampleImage>
    var isLightboxOpen: bool
    var currentImageIndex: int
    var bodyOverflow: string

    /** The index names an image of the list. */
    ghost predicate IndexInRange()
      reads this
    {
      0 <= currentImageIndex < |images|
    }

    /** A closed lightbox on the first image; `images` is the component's input. */
    constructor (images: seq<WorkSampleImage>, bodyOverflow: string)
      ensures this.images == images && !isLightboxOpen && currentImageIndex == 0
      ensures this.bodyOverflow == bodyOverflow
      ensures |images| > 0 ==> IndexInRange()
    {
      this.images := images;
      isLightboxOpen := false;
      currentImageIndex := 0;
      this.bodyOverflow := bodyOverflow;
    }

    /** Shows image `index` and locks page scrolling. */
    method OpenLightbox(index: int)
      modifies this
      ensures currentImageIndex == index && isLightboxOpen && bodyOverflow == "hidden"
      ensures images == old(images)
      ensures IndexInRange() <==> 0 <= index < |images|
    {
      currentImageIndex := index;
      isLightboxOpen := true;
      bodyOverflow := "hidden";
    }

    /** Hides the lightbox and restores scrolling; the index is kept. */
    method CloseLightbox()
      modifies this
      ensures !isLightboxOpen && bodyOverflow == ""
      ensures currentImageIndex == old(currentImageIndex) && images == old(images)
    {
      isLightboxOpen := false;
      bodyOverflow := "";
    }

    /** Steps back one image, from the first to the last. */
    method PreviousImage()
      modifies this
      ensures currentImageIndex == PreviousIndex(old(currentImageIndex), |images|)
      ensures isLightboxOpen == old(isLightboxOpen) && images == old(images) && bodyOverflow == old(bodyOverflow)
      ensures old(IndexInRange()) ==> IndexInRange()
    {
      currentImageIndex := if currentImageIndex == 0 then |images| - 1 else currentImageIndex - 1;
    }

    /** Steps forward one image, from the last to the first. */
    method NextImage()
      modifies this
      ensures currentImageIndex == NextIndex(old(currentImageIndex), |images|)
      ensures isLightboxOpen == old(isLightboxOpen) && images == old(images) && bodyOverflow == old(bodyOverflow)
      ensures old(IndexInRange()) ==> IndexInRange()
    {
      currentImageIndex := if currentImageIndex == |images| - 1 then 0 else currentImageIndex + 1;
    }

    /** The document-wide key handler: ignored while the lightbox is closed;
        when open, Escape closes it and the arrow keys move through the images. */
    method HandleKeyboardEvent(key: string)
      modifies this
      ensures images == old(images)
      ensures !old(isLightboxOpen) ==>
                isLightboxOpen == old(isLightboxOpen) && currentImageIndex == old(currentImageIndex) &&
                bodyOverflow == old(bodyOverflow)
      ensures old(isLightboxOpen) && key == EscapeKey ==>
                !isLightboxOpen && currentImageIndex == old(currentImageIndex) && bodyOverflow == ""
      ensures old(isLightboxOpen) && key == ArrowLeftKey ==>
                isLightboxOpen && currentImageIndex == PreviousIndex(old(currentImageIndex), |images|) &&
                bodyOverflow == old(bodyOverflow)
      ensures old(isLightboxOpen) && key == ArrowRightKey ==>
                isLightboxOpen && currentImageIndex == NextIndex(old(currentImageIndex), |images|) &&
                bodyOverflow == old(bodyOverflow)
      ensures key != EscapeKey && key != ArrowLeftKey && key != ArrowRightKey ==>
                isLightboxOpen == old(isLightboxOpen) && currentImageIndex == old(currentImageIndex) &&
                bodyOverflow == old(bodyOverflow)
      ensures old(IndexInRange()) ==> IndexInRange()
    {
      if !isLightboxOpen {
        return;
      }
      if key == EscapeKey {
        CloseLightbox();
      } else if key == ArrowLeftKey {
        PreviousImage();
      } else if key == ArrowRightKey {
        NextImage();
      }
    }
  }
}

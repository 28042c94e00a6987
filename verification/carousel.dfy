/**
  The photo carousel `showPhotos` opens: the index of the photo on show,
  the `df-carousel__slide--visible` class of every main slide and of every
  thumbnail, and the handlers that move between photos.
*/
module Carousel {
  import opened Wrappers
  import opened JsStrings

  /** One photo: its large and its thumbnail URL, both non-empty. */
  datatype Photo = Photo(full: string, thumb: string)

  /** `handleNext`: one step forward, from the last photo back to the first. */
  function NextIndex(i: nat, n: nat): (j: nat)
    requires i < n
    ensures j < n
  {
    if i < n - 1 then i + 1 else 0
  }

  /** `handlePrev`: one step back, from the first photo to the last. */
  function PrevIndex(i: nat, n: nat): (j: nat)
    requires i < n
    ensures j < n
  {
    if i > 0 then i - 1 else n - 1
  }

  /** Both steps agree with counting modulo the number of photos. */
  lemma StepsAreModular(i: nat, n: nat)
    requires i < n
    ensures NextIndex(i, n) == (i + 1) % n
    ensures PrevIndex(i, n) == (i + n - 1) % n
  {
    if i < n - 1 {
      SmallRemainder(i + 1, n);
    } else {
      ShiftedRemainder(0, n);
    }
    if i > 0 {
      ShiftedRemainder(i - 1, n);
      assert i + n - 1 == (i - 1) + n;
    } else {
      SmallRemainder(n - 1, n);
    }
  }

  lemma SmallRemainder(a: nat, n: nat)
    requires a < n
    ensures a % n == a
  {
  }

  lemma ShiftedRemainder(a: nat, n: nat)
    requires a < n
    ensures (a + n) % n == a
  {
    var q, r := (a + n) / n, (a + n) % n;
    assert a + n == q * n + r && 0 <= r < n;
    assert 0 < q * n < 2 * n;
    assert q == 1;
  }

  /** Forward then back, or back then forward, returns to the same photo. */
  lemma StepsAreInverse(i: nat, n: nat)
    requires i < n
    ensures PrevIndex(NextIndex(i, n), n) == i
    ensures NextIndex(PrevIndex(i, n), n) == i
  {
  }

  /** Exactly slide `k` of `n` carries the visible class. */
  function OnlyAt(n: nat, k: nat): seq<bool> {
    seq(n, i requires 0 <= i < n => i == k)
  }

  /** One slide of the `n` carries the visible class: counted, the flags
      hold `true` once. */
  lemma OnlyAtOneVisible(n: nat, k: nat)
    requires k < n
    ensures multiset(OnlyAt(n, k))[true] == 1
    ensures multiset(OnlyAt(n, k))[false] == n - 1
  {
    var flags := OnlyAt(n, k);
    var before, after := flags[..k], flags[k + 1..];
    assert flags == before + [true] + after;
    assert true !in before && true !in after;
    assert before == seq(k, _ => false);
    assert after == seq(n - k - 1, _ => false);
    AllFalseCount(k);
    AllFalseCount(n - k - 1);
  }

  lemma {:induction false} AllFalseCount(n: nat)
    ensures multiset(seq(n, _ => false))[false] == n
  {
    if n > 0 {
      assert seq(n, _ => false) == seq(n - 1, _ => false) + [false];
      AllFalseCount(n - 1);
    }
  }

  /** `changeSlide` as written: add the class at `newIdx`, then remove it at `oldIdx`. */
  function MoveVisibleAsWritten(flags: seq<bool>, oldIdx: nat, newIdx: nat): seq<bool>
    requires oldIdx < |flags| && newIdx < |flags|
  {
    flags[newIdx := true][oldIdx := false]
  }

  /** `changeSlide` as intended: moving to the photo already on show changes nothing. */
  function MoveVisible(flags: seq<bool>, oldIdx: nat, newIdx: nat): (r: seq<bool>)
    requires oldIdx < |flags| && newIdx < |flags|
    ensures |r| == |flags|
    ensures r[newIdx]
    ensures oldIdx != newIdx ==> !r[oldIdx]
    ensures forall i :: 0 <= i < |flags| && i != oldIdx && i != newIdx ==> r[i] == flags[i]
  {
    if oldIdx == newIdx then flags[newIdx := true]
    else flags[newIdx := true][oldIdx := false]
  }

  /** Moving keeps exactly one slide visible, the new one. */
  lemma MoveKeepsOneVisible(n: nat, oldIdx: nat, newIdx: nat)
    requires oldIdx < n && newIdx < n
    ensures MoveVisible(OnlyAt(n, oldIdx), oldIdx, newIdx) == OnlyAt(n, newIdx)
  {
  }

  /** Between two different photos the written code already does the intended thing. */
  lemma AsWrittenAgreesWhenMoving(flags: seq<bool>, oldIdx: nat, newIdx: nat)
    requires oldIdx < |flags| && newIdx < |flags| && oldIdx != newIdx
    ensures MoveVisibleAsWritten(flags, oldIdx, newIdx) == MoveVisible(flags, oldIdx, newIdx)
  {
  }

  /** With a single photo, "next" and "previous" both move from photo 0 to
      photo 0, and the written `changeSlide` then hides the only photo. */
  lemma SinglePhotoVanishes()
    ensures NextIndex(0, 1) == 0 && PrevIndex(0, 1) == 0
    ensures MoveVisibleAsWritten(OnlyAt(1, 0), 0, 0) == [false]
    ensures MoveVisible(OnlyAt(1, 0), 0, 0) == [true]
  {
    assert OnlyAt(1, 0) == [true];
  }

  /** The `data-imgid` attribute thumbnail `k` carries: the numeral of `k`. */
  predicate IsThumbnailId(imgId: string, n: nat) {
    exists k :: 0 <= k < n && imgId == NumberToString(k)
  }

  class Carousel {
    const photos: seq<Photo>
    /** `currentIdx`. */
    var current: nat
    /** Which main slides carry the visible class. */
    var slides: seq<bool>
    /** Which thumbnails carry the visible class. */
    var thumbnails: seq<bool>

    /** Exactly the current photo's slide and thumbnail are visible. */
    ghost predicate Valid()
      reads this`current, this`slides, this`thumbnails
    {
      && current < |photos|
      && slides == OnlyAt(|photos|, current)
      && thumbnails == slides
    }

    /** The carousel as rendered: the first slide and thumbnail visible. */
    constructor(photos: seq<Photo>)
      requires |photos| >= 1
      ensures this.photos == photos && current == 0
      ensures Valid()
    {
      this.photos := photos;
      current := 0;
      slides := OnlyAt(|photos|, 0);
      thumbnails := OnlyAt(|photos|, 0);
    }

    /** `changeSlide`, as intended. */
    method ChangeSlide(oldIdx: nat, newIdx: nat)
      requires oldIdx < |photos| && newIdx < |photos|
      requires |slides| == |photos| && |thumbnails| == |photos|
      modifies this`current, this`slides, this`thumbnails
      ensures slides == MoveVisible(old(slides), oldIdx, newIdx)
      ensures thumbnails == MoveVisible(old(thumbnails), oldIdx, newIdx)
      ensures current == newIdx
    {
      slides := MoveVisible(slides, oldIdx, newIdx);
      thumbnails := MoveVisible(thumbnails, oldIdx, newIdx);
      current := newIdx;
    }

    /** `handleNext`. */
    method HandleNext()
      requires Valid()
      modifies this`current, this`slides, this`thumbnails
      ensures Valid() && current == NextIndex(old(current), |photos|)
    {
      var newIdx := if current < |photos| - 1 then current + 1 else 0;
      ChangeSlide(current, newIdx);
      MoveKeepsOneVisible(|photos|, old(current), newIdx);
    }

    /** `handlePrev`. */
    method HandlePrev()
      requires Valid()
      modifies this`current, this`slides, this`thumbnails
      ensures Valid() && current == PrevIndex(old(current), |photos|)
    {
      var newIdx := if current > 0 then current - 1 else |photos| - 1;
      ChangeSlide(current, newIdx);
      MoveKeepsOneVisible(|photos|, old(current), newIdx);
    }

    /** `handleThumbnailClick`: `imgId` is the clicked element's `data-imgid`,
        absent when the click landed beside an image. */
    method HandleThumbnailClick(imgId: Option<string>)
      requires Valid()
      requires imgId.Some? ==> IsThumbnailId(imgId.value, |photos|)
      modifies this`current, this`slides, this`thumbnails
      ensures Valid()
      ensures imgId.None? ==> current == old(current)
      ensures imgId.Some? ==> ParseInt(imgId.value).Some? && current == ParseInt(imgId.value).value
      ensures current == old(current) ==> slides == old(slides) && thumbnails == old(thumbnails)
    {
      if imgId.Some? {
        ghost var k :| 0 <= k < |photos| && imgId.value == NumberToString(k);
        ParseNumeral(k);
        var parsed := ParseInt(imgId.value);
        var newIdx: nat := parsed.value;
        if newIdx != current {
          ChangeSlide(current, newIdx);
          MoveKeepsOneVisible(|photos|, old(current), newIdx);
        }
      }
    }

    /** The dialog's `keydown` listener. */
    method HandleKey(key: string)
      requires Valid()
      modifies this`current, this`slides, this`thumbnails
      ensures Valid()
      ensures key == "ArrowRight" ==> current == NextIndex(old(current), |photos|)
      ensures key == "ArrowLeft" ==> current == PrevIndex(old(current), |photos|)
      ensures key != "ArrowRight" && key != "ArrowLeft" ==>
        current == old(current) && slides == old(slides) && thumbnails == old(thumbnails)
    {
      if key == "ArrowRight" {
        HandleNext();
      } else if key == "ArrowLeft" {
        HandlePrev();
      }
    }
  }
}

/**
 * The gallery page's lightbox: which of the sixteen images is open (if
 * any), and stepping to the next or previous image with wrap-around.
 */
module Gallery {
  import opened Wrappers

  datatype Image = Image(src: string, title: string, desc: string)

  /** The fixed list of images the gallery shows, in grid order. */
  const Images: seq<Image> := [
    Image("/images/jakarta-1.jpg", "Jakarta Skyline", "Modern cityscape at sunset"),
    Image("/images/jakarta-2.png", "Monas Monument", "National monument in golden hour"),
    Image("/images/jakarta-3.jpg", "Kota Tua", "Historic old town district"),
    Image("/images/jakarta-4.jpg", "Ancol Beach", "Coastal recreation area"),
    Image("/images/jakarta-5.jpeg", "Jakarta Night", "City lights after dark"),
    Image("/images/sejarah-jakarta-1.jpeg", "Colonial Heritage", "Dutch colonial architecture"),
    Image("/images/sejarah-jakarta-2.jpg", "Historical Street", "Traditional street scene"),
    Image("/images/sejarah-jakarta-3.jpeg", "Cultural Heritage", "Preserved historical sites"),
    Image("/images/transport-jakarta-1.jpg", "MRT Jakarta", "Modern metro system"),
    Image("/images/transport-jakarta-2.jpg", "TransJakarta", "Bus rapid transit"),
    Image("/images/transport-jakarta-3.jpg", "KRL Commuter", "Commuter rail network"),
    Image("/images/transport-jakarta-4.webp", "Airport Express", "High-speed airport connection"),
    Image("/images/kuliner-jakarta-1.jpg", "Street Food", "Local culinary delights"),
    Image("/images/kuliner-jakarta-2.jpeg", "Traditional Cuisine", "Authentic Indonesian dishes"),
    Image("/images/kuliner-jakarta-3.jpg", "Modern Dining", "Contemporary restaurants"),
    Image("/images/kuliner-jakarta-4.webp", "Culinary Scene", "Diverse food culture")
  ]

  /** `images.length` */
  const ImageCount: nat := |Images|

  /** The index after `selectedImage`, wrapping the last image round to the first. */
  function Next(selected: Option<nat>): (r: Option<nat>)
    ensures r.None? <==> selected.None?
    ensures r.Some? ==> r.value < ImageCount
    ensures selected.Some? && selected.value + 1 < ImageCount ==> r == Some(selected.value + 1)
    ensures selected == Some(ImageCount - 1) ==> r == Some(0)
  {
    match selected
    case None => None
    case Some(i) => Some((i + 1) % ImageCount)
  }

  /** The index before `selectedImage`, wrapping the first image round to the last. */
  function Prev(selected: Option<nat>): (r: Option<nat>)
    ensures r.None? <==> selected.None?
    ensures selected.Some? && selected.value < ImageCount ==> r.value < ImageCount
    ensures selected.Some? && selected.value > 0 ==> r == Some(selected.value - 1)
    ensures selected == Some(0) ==> r == Some(ImageCount - 1)
  {
    match selected
    case None => None
    case Some(i) => Some(if i == 0 then ImageCount - 1 else i - 1)
  }

  /** A selection that is none or names one of the images. */
  predicate InRange(selected: Option<nat>) {
    selected.Some? ==> selected.value < ImageCount
  }

  /** Stepping back after stepping forward returns to the same image. */
  lemma {:induction false} PrevAfterNext(selected: Option<nat>)
    requires InRange(selected)
    ensures Prev(Next(selected)) == selected
  {
  }

  /** Stepping forward after stepping back returns to the same image. */
  lemma {:induction false} NextAfterPrev(selected: Option<nat>)
    requires InRange(selected)
    ensures Next(Prev(selected)) == selected
  {
  }

  /** `k` presses of the next button. */
  function NextTimes(selected: Option<nat>, k: nat): (r: Option<nat>)
    ensures r.None? <==> selected.None?
    ensures InRange(selected) ==> InRange(r)
  {
    if k == 0 then selected else Next(NextTimes(selected, k - 1))
  }

  /** `k` presses of the next button move `k` places forward round the ring of images. */
  lemma {:induction false} NextTimesAdvances(i: nat, k: nat)
    requires i < ImageCount
    ensures NextTimes(Some(i), k) == Some((i + k) % ImageCount)
  {
    if k > 0 {
      NextTimesAdvances(i, k - 1);
      var m := (i + k - 1) % ImageCount;
      assert (m + 1) % ImageCount == (i + k) % ImageCount by {
        var q := (i + k - 1) / ImageCount;
        assert i + k == q * ImageCount + m + 1;
        if m + 1 < ImageCount {
          ModOfMultiplePlus(q, m + 1);
        } else {
          ModOfMultiplePlus(q + 1, 0);
        }
      }
    }
  }

  /** `(q * n + r) % n == r` for the image count `n` and `r < n`. */
  lemma {:induction false} ModOfMultiplePlus(q: int, r: nat)
    requires r < ImageCount
    ensures (q * ImageCount + r) % ImageCount == r
  {
  }

  /** As many presses of the next button as there are images come back to the start. */
  lemma {:induction false} NextFullCircle(selected: Option<nat>)
    requires InRange(selected)
    ensures NextTimes(selected, ImageCount) == selected
  {
    if selected.Some? {
      NextTimesAdvances(selected.value, ImageCount);
      assert (selected.value + ImageCount) % ImageCount == selected.value by {
        ModOfMultiplePlus(1, selected.value);
      }
    }
  }

  /** The lightbox state of the gallery page. */
  class Lightbox {
    /** `selectedImage`: the open image's index, or none while the lightbox is closed. */
    var selectedImage: Option<nat>

    ghost predicate Valid()
      reads this
    {
      InRange(selectedImage)
    }

    /** The page as first rendered: nothing open. */
    constructor ()
      ensures Valid() && selectedImage == None
    {
      selectedImage := None;
    }

    /** Clicking image `index` of the grid opens it. */
    method SelectImage(index: nat)
      requires index < ImageCount
      modifies this
      ensures Valid() && selectedImage == Some(index)
    {
      selectedImage := Some(index);
    }

    /** The close button and a click on the backdrop both close the lightbox. */
    method CloseLightbox()
      modifies this
      ensures Valid() && selectedImage == None
    {
      selectedImage := None;
    }

    /** `nextImage` */
    method NextImage()
      requires Valid()
      modifies this
      ensures Valid() && selectedImage == Next(old(selectedImage))
    {
      if selectedImage != None {
        selectedImage := Some((selectedImage.value + 1) % ImageCount);
      }
    }

    /** `prevImage` */
    method PrevImage()
      requires Valid()
      modifies this
      ensures Valid() && selectedImage == Prev(old(selectedImage))
    {
      if selectedImage != None {
        selectedImage := Some(if selectedImage.value == 0 then ImageCount - 1 else selectedImage.value - 1);
      }
    }

    /** The image shown in the open lightbox and its "i of n" counter. */
    method Shown() returns (image: Image, position: nat, total: nat)
      requires Valid() && selectedImage.Some?
      ensures image == Images[selectedImage.value]
      ensures 1 <= position <= total && total == ImageCount
      ensures position - 1 == selectedImage.value
    {
      image := Images[selectedImage.value];
      position := selectedImage.value + 1;
      total := |Images|;
    }
  }
}

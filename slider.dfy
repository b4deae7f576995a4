/**
 * The home page (script.js): the reviews slider, whose position and number
 * of visible cards are closure variables updated by the arrow buttons, the
 * dots and window resizes, and the choice of books in the library preview.
 *
 * The window width is a parameter; card widths, the CSS transform and the
 * dot elements themselves are outside the model.
 */
module Slider {
  import opened Text

  /** getCardsPerView: one card up to 768 pixels, two up to 992, else three. */
  function CardsPerView(width: int): (r: nat)
    ensures 1 <= r <= 3
  {
    if width <= 992 && width > 768 then 2
    else if width <= 768 then 1
    else 3
  }

  /** A wider window never shows fewer cards, and each width band gets its count. */
  lemma CardsPerViewMonotone(w1: int, w2: int)
    requires w1 <= w2
    ensures CardsPerView(w1) <= CardsPerView(w2)
    ensures w2 <= 768 ==> CardsPerView(w2) == 1
    ensures w1 > 992 ==> CardsPerView(w1) == 3
  {
  }

  /** The last position the slider can show: Math.max(0, cards - perView). */
  function MaxIndex(cards: nat, perView: nat): (r: nat)
  {
    Max(0, cards - perView)
  }

  /** The number of dots: Math.max(1, cards - perView + 1). */
  function TotalDots(cards: nat, perView: nat): (r: nat)
  {
    Max(1, cards - perView + 1)
  }

  /** There is at least one dot, one per position the slider can show, so
      dot i stands for index i and exactly one dot is active. */
  lemma DotsMatchPositions(cards: nat, perView: nat)
    ensures TotalDots(cards, perView) >= 1
    ensures TotalDots(cards, perView) == MaxIndex(cards, perView) + 1
    ensures perView >= cards ==> TotalDots(cards, perView) == 1
  {
  }

  /** The reviews slider's state: the first visible card and how many show. */
  class ReviewsSlider {
    /** reviewCards.length */
    const cards: nat
    var currentIndex: int
    var cardsPerView: nat

    /** The first visible card is between 0 and the last position. */
    predicate Valid()
      reads this
    {
      0 <= currentIndex <= MaxIndex(cards, cardsPerView)
    }

    /** initReviewsSlider, ending with its first updateSlider. */
    constructor(cards: nat, width: int)
      ensures this.cards == cards && cardsPerView == CardsPerView(width)
      ensures currentIndex == 0
      ensures Valid()
    {
      this.cards := cards;
      currentIndex := 0;
      cardsPerView := CardsPerView(width);
    }

    /** updateSlider: pull the index back into [0, maxIndex]; the previous
        button is disabled at the start and the next one at the end. */
    method UpdateSlider() returns (prevDisabled: bool, nextDisabled: bool)
      modifies this`currentIndex
      ensures Valid()
      ensures old(currentIndex) > MaxIndex(cards, cardsPerView) ==> currentIndex == MaxIndex(cards, cardsPerView)
      ensures old(currentIndex) < 0 ==> currentIndex == 0
      ensures 0 <= old(currentIndex) <= MaxIndex(cards, cardsPerView) ==> currentIndex == old(currentIndex)
      ensures prevDisabled <==> currentIndex == 0
      ensures nextDisabled <==> currentIndex == MaxIndex(cards, cardsPerView)
      ensures prevDisabled && nextDisabled <==> cards <= cardsPerView
    {
      var maxIndex := MaxIndex(cards, cardsPerView);
      if currentIndex > maxIndex {
        currentIndex := maxIndex;
      }
      if currentIndex < 0 {
        currentIndex := 0;
      }
      prevDisabled := currentIndex == 0;
      nextDisabled := currentIndex >= maxIndex;
    }

    /** goToSlide: the requested index clamped into [0, maxIndex]. */
    method GoToSlide(index: int)
      modifies this`currentIndex
      ensures Valid()
      ensures 0 <= index <= MaxIndex(cards, cardsPerView) ==> currentIndex == index
      ensures index < 0 ==> currentIndex == 0
      ensures index > MaxIndex(cards, cardsPerView) ==> currentIndex == MaxIndex(cards, cardsPerView)
    {
      var maxIndex := MaxIndex(cards, cardsPerView);
      currentIndex := Max(0, Min(index, maxIndex));
      var _, _ := UpdateSlider();
    }

    /** The previous button: one card back unless already at the start. */
    method Prev()
      modifies this`currentIndex
      ensures old(currentIndex) > 0 && old(Valid()) ==> currentIndex == old(currentIndex) - 1
      ensures old(currentIndex) <= 0 ==> currentIndex == old(currentIndex)
      ensures old(Valid()) ==> Valid()
    {
      if currentIndex > 0 {
        currentIndex := currentIndex - 1;
        var _, _ := UpdateSlider();
      }
    }

    /** The next button: one card on unless already at the last position. */
    method Next()
      modifies this`currentIndex
      ensures old(currentIndex) < MaxIndex(cards, cardsPerView) && old(Valid()) ==>
        currentIndex == old(currentIndex) + 1
      ensures old(currentIndex) >= MaxIndex(cards, cardsPerView) ==> currentIndex == old(currentIndex)
      ensures old(Valid()) ==> Valid()
    {
      var maxIndex := MaxIndex(cards, cardsPerView);
      if currentIndex < maxIndex {
        currentIndex := currentIndex + 1;
        var _, _ := UpdateSlider();
      }
    }

    /** handleResize: recount the visible cards for the new width, then pull
        the index back inside the new range. */
    method HandleResize(width: int)
      modifies this`currentIndex, this`cardsPerView
      ensures cardsPerView == CardsPerView(width)
      ensures Valid()
      ensures currentIndex == Max(0, Min(old(currentIndex), MaxIndex(cards, cardsPerView)))
    {
      cardsPerView := CardsPerView(width);
      var _, _ := UpdateSlider();
    }
  }

  // ---------------------------------------------------------------------------
  // showBooksPreview
  // ---------------------------------------------------------------------------

  function Reverse<T>(s: seq<T>): (r: seq<T>)
    ensures |r| == |s|
    ensures forall i :: 0 <= i < |s| ==> r[i] == s[|s| - 1 - i]
  {
    if s == [] then [] else Reverse(s[1..]) + [s[0]]
  }

  /** books.slice(-3).reverse(): the last three books, newest first. */
  function BooksPreview<T>(books: seq<T>): (r: seq<T>)
  {
    Reverse(books[Max(0, |books| - 3)..])
  }

  /** The preview shows min(3, n) books: the last one stored first, then the
      one before it, and so on. */
  lemma BooksPreviewNewestFirst<T>(books: seq<T>)
    ensures var r := BooksPreview(books);
      && |r| == Min(3, |books|)
      && forall i :: 0 <= i < |r| ==> r[i] == books[|books| - 1 - i]
  {
  }
}

/** The projects carousel and its detail modal, `src/components/projects.jsx`.

    The page holds a cursor over a fixed list of three projects, moves it
    with previous / next arrows (wrapping at both ends) and with one indicator
    button per project, and opens a modal with the current project's details.
    Opening the modal locks page scrolling by setting the body's `overflow`
    style; closing it sets `overflow` to `unset`. */
module Carousel {
  import LazyImage

  // ---------------------------------------------------------------------------
  // The project data
  // ---------------------------------------------------------------------------

  /** A project record. The long description text is not modelled. */
  datatype Project = Project(title: string, images: seq<string>, skills: seq<string>)

  const Projects: seq<Project> := [
    Project("JeepSieLog – Jeepney Travel Time Tracking System",
      ["joshua-portfolio/jeepsielog/1.png", "joshua-portfolio/jeepsielog/2.png",
       "joshua-portfolio/jeepsielog/3.png", "joshua-portfolio/jeepsielog/4.png",
       "joshua-portfolio/jeepsielog/5.png", "joshua-portfolio/jeepsielog/6.png",
       "joshua-portfolio/jeepsielog/7.png", "joshua-portfolio/jeepsielog/8.png"],
      ["React Js", "JavaScript (ES6+)", "CSS3", "Google Maps API", "Geolocation API"]),
    Project("NIA Employee Documents Management",
      ["joshua-portfolio/nia/1.png", "joshua-portfolio/nia/2.png", "joshua-portfolio/nia/3.png",
       "joshua-portfolio/nia/4.png", "joshua-portfolio/nia/5.png", "joshua-portfolio/nia/6.png",
       "joshua-portfolio/nia/7.png", "joshua-portfolio/nia/8.png", "joshua-portfolio/nia/9.png"],
      ["React Js", "JavaScript (ES6+)", "TailwindCSS", "Node.js", "Express.js", "MariaDB"]),
    Project("Fluiguard - Sustainable Hybrid Control of Water Aeration System for Aquaponics with Real-time Tilapia Behavior Monitoring",
      ["joshua-portfolio/fluiguard/1.png", "joshua-portfolio/fluiguard/2.png",
       "joshua-portfolio/fluiguard/3.png", "joshua-portfolio/fluiguard/4.png",
       "joshua-portfolio/fluiguard/5.png", "joshua-portfolio/fluiguard/6.png",
       "joshua-portfolio/fluiguard/7.png", "joshua-portfolio/fluiguard/8.png",
       "joshua-portfolio/fluiguard/9.png", "joshua-portfolio/fluiguard/10.png"],
      ["Python", "Raspberry", "IoT", "Machine Learning", "Data Analysis", "Hardware Integration"])
  ]

  /** The carousel's `length`. */
  const Length: nat := |Projects|

  // ---------------------------------------------------------------------------
  // Cursor arithmetic
  // ---------------------------------------------------------------------------

  /** `prevSlide`: the first project steps back to the last. Within range it is
      a step back modulo the length. */
  function Prev(length: int, current: int): (r: int)
    ensures 0 <= current < length ==> 0 <= r < length && r == (current - 1) % length
  {
    if current == 0 then length - 1 else current - 1
  }

  /** `nextSlide`: the last project steps on to the first. Within range it is
      a step forward modulo the length. */
  function Next(length: int, current: int): (r: int)
    ensures 0 <= current < length ==> 0 <= r < length && r == (current + 1) % length
  {
    if current == length - 1 then 0 else current + 1
  }

  /** The two arrows undo each other on every in-range cursor. */
  lemma PrevNextRoundTrip(length: int, i: int)
    requires 0 <= i < length
    ensures Next(length, Prev(length, i)) == i
    ensures Prev(length, Next(length, i)) == i
  {
  }

  /** The arrows wrap at both ends. */
  lemma ArrowsWrap(length: int)
    requires length > 0
    ensures Prev(length, 0) == length - 1
    ensures Next(length, length - 1) == 0
  {
  }

  /** The cursor after `k` presses of the next arrow. */
  function NextTimes(length: int, i: int, k: nat): int
    decreases k
  {
    if k == 0 then i else Next(length, NextTimes(length, i, k - 1))
  }

  /** `k` presses of the next arrow move the cursor `k` places round the
      carousel; in particular `length` presses return to the start. */
  lemma {:induction false} NextTimesIsRotation(length: int, i: int, k: nat)
    requires 0 <= i < length
    ensures NextTimes(length, i, k) == (i + k) % length
    decreases k
  {
    if k > 0 {
      NextTimesIsRotation(length, i, k - 1);
      var j := (i + k - 1) % length;
      assert NextTimes(length, i, k) == Next(length, j);
      assert Next(length, j) == (j + 1) % length;
      ModSucc(i + k - 1, length);
    }
  }

  /** A multiple of a positive `n` strictly between -n and n is zero. */
  lemma MulZero(n: int, d: int)
    requires n > 0 && -n < n * d < n
    ensures d == 0
  {
  }

  /** Quotient and remainder are unique. */
  lemma ModUnique(a: int, n: int, q: int, r: int)
    requires n > 0 && 0 <= r < n && a == n * q + r
    ensures a % n == r
  {
    var q', r' := a / n, a % n;
    assert a == n * q' + r';
    assert n * (q - q') == r' - r;
    MulZero(n, q - q');
  }

  /** ((a mod n) + 1) mod n == (a + 1) mod n. */
  lemma ModSucc(a: int, n: int)
    requires n > 0
    ensures (a % n + 1) % n == (a + 1) % n
  {
    var q, r := a / n, a % n;
    assert a == n * q + r;
    if r + 1 < n {
      ModUnique(r + 1, n, 0, r + 1);
      ModUnique(a + 1, n, q, r + 1);
    } else {
      ModUnique(r + 1, n, 1, 0);
      assert a + 1 == n * (q + 1) + 0;
      ModUnique(a + 1, n, q + 1, 0);
    }
  }

  // ---------------------------------------------------------------------------
  // The page state and its events
  // ---------------------------------------------------------------------------

  /** The body's `overflow` style: whatever the page had before any modal,
      `hidden` while locked, `unset` after a close. */
  datatype Overflow = Initial | Hidden | Unset

  datatype Page = Page(current: int, showModal: bool, overflow: Overflow)

  /** The page on mount: first project, modal closed, page scroll untouched. */
  const Start: Page := Page(0, false, Initial)

  function OpenModal(p: Page): Page
  {
    p.(showModal := true, overflow := Hidden)
  }

  function CloseModal(p: Page): Page
  {
    p.(showModal := false, overflow := Unset)
  }

  predicate ScrollLocked(p: Page)
  {
    p.overflow == Hidden
  }

  /** Opening then closing leaves the page unlocked, and closing is idempotent:
      closing twice is the same as closing once. */
  lemma ModalOpenClose(p: Page)
    ensures !CloseModal(OpenModal(p)).showModal && !ScrollLocked(CloseModal(OpenModal(p)))
    ensures CloseModal(CloseModal(p)) == CloseModal(p)
    ensures OpenModal(p).showModal && ScrollLocked(OpenModal(p))
    ensures CloseModal(OpenModal(p)).current == p.current
  {
  }

  datatype Event =
    | PrevClick
    | NextClick
    | IndicatorClick(index: int)
    | CardClick
    | CardKey(key: string)
    | BackdropClick(onBackdrop: bool)   // whether the click's target is the backdrop itself
    | ModalKey(key: string)
    | CloseButton

  /** The card opens the modal on Enter or Space. */
  predicate OpensOnKey(key: string)
  {
    key == "Enter" || key == " "
  }

  /** One event. The modal's own handlers exist only while it is shown. */
  function Step(p: Page, e: Event): Page
  {
    match e
    case PrevClick => p.(current := Prev(Length, p.current))
    case NextClick => p.(current := Next(Length, p.current))
    case IndicatorClick(i) => p.(current := i)
    case CardClick => OpenModal(p)
    case CardKey(k) => if OpensOnKey(k) then OpenModal(p) else p
    case BackdropClick(onBackdrop) => if p.showModal && onBackdrop then CloseModal(p) else p
    case ModalKey(k) => if p.showModal && k == "Escape" then CloseModal(p) else p
    case CloseButton => if p.showModal then CloseModal(p) else p
  }

  /** `goToSlide(i)` puts the cursor at exactly `i`, unchecked, and changes nothing else. */
  lemma GoToSlideExact(p: Page, i: int)
    ensures Step(p, IndicatorClick(i)) == p.(current := i)
    ensures Step(p, IndicatorClick(i)).current == i
    ensures Step(p, IndicatorClick(i)).showModal == p.showModal
    ensures Step(p, IndicatorClick(i)).overflow == p.overflow
  {
  }

  /** An open modal closes on a click whose target is the backdrop itself, on
      Escape, or on its close button, and on nothing else. */
  lemma ModalCloseConditions(p: Page, e: Event)
    requires p.showModal
    ensures !Step(p, e).showModal <==> e == BackdropClick(true) || e == ModalKey("Escape") || e == CloseButton
    ensures !Step(p, e).showModal ==> Step(p, e) == CloseModal(p)
  {
  }

  /** A closed modal opens on a click of the card, or Enter or Space on it, and
      on nothing else. */
  lemma CardOpenConditions(p: Page, e: Event)
    requires !p.showModal
    ensures Step(p, e).showModal <==> e == CardClick || e == CardKey("Enter") || e == CardKey(" ")
  {
  }

  /** The events the rendered page can produce: indicator buttons exist only
      for the projects' indices. */
  predicate Producible(e: Event)
  {
    e.IndicatorClick? ==> 0 <= e.index < Length
  }

  /** The page's invariant: the cursor is in range and the scroll lock is held
      exactly while the modal is shown. */
  predicate Inv(p: Page)
  {
    0 <= p.current < Length && (p.showModal <==> ScrollLocked(p))
  }

  function Run(p: Page, es: seq<Event>): Page
    decreases |es|
  {
    if |es| == 0 then p else Run(Step(p, es[0]), es[1..])
  }

  /** Every sequence of producible events from mount keeps the cursor in range
      and the scroll lock paired with the modal. */
  lemma {:induction false} RunKeepsInv(p: Page, es: seq<Event>)
    requires Inv(p)
    requires forall i :: 0 <= i < |es| ==> Producible(es[i])
    ensures Inv(Run(p, es))
    decreases |es|
  {
    if |es| > 0 {
      assert Producible(es[0]);
      assert Inv(Step(p, es[0]));
      RunKeepsInv(Step(p, es[0]), es[1..]);
    }
  }

  lemma StartInv()
    ensures Inv(Start)
  {
  }

  // ---------------------------------------------------------------------------
  // Indicators and the modal's images
  // ---------------------------------------------------------------------------

  /** Which indicator buttons are highlighted. */
  function Indicators(length: nat, current: int): (r: seq<bool>)
    ensures |r| == length
  {
    seq(length, idx => idx == current)
  }

  /** Indicator `idx` is highlighted exactly when it is the current project, so
      an in-range cursor lights exactly one. */
  lemma IndicatorHighlight(length: nat, current: int)
    ensures forall idx :: 0 <= idx < length ==> (Indicators(length, current)[idx] <==> idx == current)
    ensures 0 <= current < length ==> Indicators(length, current)[current]
    ensures forall a, b ::
              (0 <= a < length && 0 <= b < length && Indicators(length, current)[a] && Indicators(length, current)[b])
              ==> a == b
  {
  }

  /** The image props the modal renders for the current project: every
      screenshot lazily loaded. */
  function ModalImages(p: Page): (r: seq<LazyImage.Props>)
    requires 0 <= p.current < Length
    ensures |r| == |Projects[p.current].images|
    ensures forall k :: 0 <= k < |r| ==> r[k] == LazyImage.LazyProps(Projects[p.current].images[k])
  {
    var images := Projects[p.current].images;
    seq(|images|, k requires 0 <= k < |images| => LazyImage.LazyProps(images[k]))
  }

  /** When the modal opens, every screenshot defers to visibility: each starts
      as a skeleton, observed and not loading. */
  lemma ModalImagesWaitForView(p: Page)
    requires 0 <= p.current < Length
    ensures forall k :: 0 <= k < |ModalImages(p)| ==>
              var ip := ModalImages(p)[k];
              && !ip.priority
              && LazyImage.Render(ip, LazyImage.Mounted(ip)).Skeleton?
              && LazyImage.Mounted(ip).observer == LazyImage.Observing
              && LazyImage.Mounted(ip).inFlight == 0 && LazyImage.Mounted(ip).preloadsStarted == 0
  {
  }
}

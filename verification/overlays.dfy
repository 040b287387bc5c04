/** The page's two overlays, the lightbox and the full-gallery modal, as one
    state record: what each shows, the body's `overflow` style, the picture in
    the lightbox and the grid the modal holds. Every click or key handler of
    the script is one event. */
module Overlays {
  import opened Opt
  import Gallery

  /** `style.display` of an overlay: never set, `'block'` or `'none'`. */
  datatype Display = DisplayUnset | DisplayBlock | DisplayNone

  /** `document.body.style.overflow`: never set, `'hidden'` or `'auto'`. */
  datatype Overflow = OverflowUnset | OverflowHidden | OverflowAuto

  /** `catalogue` is the script's `allGalleryImages`, which no handler changes. */
  datatype State = State(
    lightbox: Display, modal: Display, overflow: Overflow, shown: Option<Gallery.Image>,
    grid: seq<Gallery.Image>, catalogue: seq<Gallery.Image>)

  const Initial := State(DisplayUnset, DisplayUnset, OverflowUnset, None, [], Gallery.AllGalleryImages())

  /** The handlers: a click on a page gallery item, a click on the `k`-th item
      of the modal grid, the two close buttons, clicks on the overlays (`onSelf`
      when the overlay element itself is the event target), the "view more"
      button, and a key press, which runs the lightbox's key listener and then
      the modal's. */
  datatype Event =
    | OpenFromPage(img: Gallery.Image)
    | OpenFromGrid(k: nat)
    | CloseLightboxButton
    | LightboxClick(onSelf: bool)
    | ViewMore
    | CloseModalButton
    | ModalClick(onSelf: bool)
    | KeyDown(key: string)

  /** `appendChild` for each image, one after another. */
  function AppendAll(grid: seq<Gallery.Image>, items: seq<Gallery.Image>): (r: seq<Gallery.Image>)
    ensures r == grid + items
    decreases |items|
  {
    if items == [] then grid
    else
      assert grid + items == (grid + [items[0]]) + items[1..];
      AppendAll(grid + [items[0]], items[1..])
  }

  /** `populateFullGallery`: clear the grid, then append one item per gallery
      image. Whatever the grid held before, it ends up holding exactly the
      gallery, in order. */
  function Populate(grid: seq<Gallery.Image>, catalogue: seq<Gallery.Image>): (r: seq<Gallery.Image>)
    ensures r == catalogue
  {
    AppendAll([], catalogue)
  }

  /** Re-opening the modal never accumulates items. */
  lemma PopulateIdempotent(grid: seq<Gallery.Image>, catalogue: seq<Gallery.Image>)
    ensures Populate(Populate(grid, catalogue), catalogue) == Populate(grid, catalogue)
  {
  }

  /** Hands the lightbox an image and locks scrolling. */
  function OpenLightbox(s: State, img: Gallery.Image): State {
    s.(lightbox := DisplayBlock, shown := Some(img), overflow := OverflowHidden)
  }

  /** What a close handler writes to `overflow`. As written it always writes
      `'auto'`; with `keepLock` it writes `'hidden'` while the other overlay
      is still showing. */
  function Release(s: State, keepLock: bool): State {
    if keepLock && (s.lightbox == DisplayBlock || s.modal == DisplayBlock) then s.(overflow := OverflowHidden)
    else s.(overflow := OverflowAuto)
  }

  function CloseLightbox(s: State, keepLock: bool): State {
    Release(s.(lightbox := DisplayNone), keepLock)
  }

  function CloseModal(s: State, keepLock: bool): State {
    Release(s.(modal := DisplayNone), keepLock)
  }

  /** The key listener registered with the lightbox. */
  function LightboxKey(s: State, key: string, keepLock: bool): State {
    if key == "Escape" && s.lightbox == DisplayBlock then CloseLightbox(s, keepLock) else s
  }

  /** The key listener registered with the modal: it closes the modal, then the lightbox. */
  function ModalKey(s: State, key: string, keepLock: bool): State {
    if key != "Escape" then s
    else
      var t := if s.modal == DisplayBlock then CloseModal(s, keepLock) else s;
      if t.lightbox == DisplayBlock then CloseLightbox(t, keepLock) else t
  }

  /** One handler. No handler touches the gallery list, only "view more"
      rebuilds the grid, and only the two open handlers change the picture in
      the lightbox. */
  function Handle(s: State, e: Event, keepLock: bool): (r: State)
    ensures r.catalogue == s.catalogue
    ensures e != ViewMore ==> r.grid == s.grid
    ensures !e.OpenFromPage? && !e.OpenFromGrid? ==> r.shown == s.shown
    ensures e.OpenFromGrid? && e.k < |s.grid| ==>
      r.lightbox == DisplayBlock && r.shown == Some(s.grid[e.k]) && r.overflow == OverflowHidden
    ensures e.OpenFromGrid? && e.k >= |s.grid| ==> r == s
  {
    match e
    case OpenFromPage(img) => OpenLightbox(s, img)
    case OpenFromGrid(k) => if k < |s.grid| then OpenLightbox(s, s.grid[k]) else s
    case CloseLightboxButton => CloseLightbox(s, keepLock)
    case LightboxClick(onSelf) => if onSelf then CloseLightbox(s, keepLock) else s
    case ViewMore => s.(grid := Populate(s.grid, s.catalogue), modal := DisplayBlock, overflow := OverflowHidden)
    case CloseModalButton => CloseModal(s, keepLock)
    case ModalClick(onSelf) => if onSelf then CloseModal(s, keepLock) else s
    case KeyDown(key) => ModalKey(LightboxKey(s, key, keepLock), key, keepLock)
  }

  predicate Open(s: State) {
    s.lightbox == DisplayBlock || s.modal == DisplayBlock
  }

  /** The handlers as the script has them. Opening either overlay locks
      scrolling; closing either one unlocks it, whether or not the other is
      still open. */
  function Step(s: State, e: Event): (r: State)
    ensures e.OpenFromPage? || e == ViewMore ==> r.overflow == OverflowHidden
    ensures e.OpenFromGrid? && e.k < |s.grid| ==>
      r.overflow == OverflowHidden && r.lightbox == DisplayBlock && r.shown == Some(s.grid[e.k])
    ensures e == CloseLightboxButton || e == CloseModalButton ==> r.overflow == OverflowAuto
  {
    Handle(s, e, false)
  }

  /** The handlers with the close handlers keeping the lock while the other
      overlay is showing. */
  function StepLocked(s: State, e: Event): (r: State)
    ensures Consistent(s) ==> Consistent(r)
  {
    LockedHandleConsistent(s, e);
    Handle(s, e, true)
  }

  /** A close handler that keeps the lock leaves the lock matching the overlays. */
  lemma ReleaseLockedConsistent(s: State)
    ensures Consistent(Release(s, true))
  {
  }

  lemma LockedHandleConsistent(s: State, e: Event)
    ensures Consistent(s) ==> Consistent(Handle(s, e, true))
  {
    if Consistent(s) {
      LockedEventConsistent(s, e);
    }
  }

  lemma LockedEventConsistent(s: State, e: Event)
    requires Consistent(s)
    ensures Consistent(Handle(s, e, true))
  {
    match e
    case KeyDown(key) =>
      var t := LightboxKey(s, key, true);
      if key == "Escape" && s.lightbox == DisplayBlock {
        ReleaseLockedConsistent(s.(lightbox := DisplayNone));
      }
      assert Consistent(t);
      if key == "Escape" {
        var u := if t.modal == DisplayBlock then CloseModal(t, true) else t;
        if t.modal == DisplayBlock {
          ReleaseLockedConsistent(t.(modal := DisplayNone));
        }
        if u.lightbox == DisplayBlock {
          ReleaseLockedConsistent(u.(lightbox := DisplayNone));
        }
      }
    case CloseLightboxButton =>
      ReleaseLockedConsistent(s.(lightbox := DisplayNone));
    case LightboxClick(_) =>
      ReleaseLockedConsistent(s.(lightbox := DisplayNone));
    case CloseModalButton =>
      ReleaseLockedConsistent(s.(modal := DisplayNone));
    case ModalClick(_) =>
      ReleaseLockedConsistent(s.(modal := DisplayNone));
    case _ =>
  }

  /** Scrolling is locked exactly while an overlay shows. */
  predicate Consistent(s: State) {
    s.overflow == OverflowHidden <==> Open(s)
  }

  function Run(s: State, events: seq<Event>, keepLock: bool): State
    decreases |events|
  {
    if events == [] then s else Run(Handle(s, events[0], keepLock), events[1..], keepLock)
  }

  /** With the lock kept, every sequence of events from the initial page keeps
      scrolling locked exactly while an overlay shows. */
  lemma {:induction false} LockedRunConsistent(s: State, events: seq<Event>)
    requires Consistent(s)
    ensures Consistent(Run(s, events, true))
    decreases |events|
  {
    if events != [] {
      assert Consistent(StepLocked(s, events[0]));
      LockedRunConsistent(Handle(s, events[0], true), events[1..]);
    }
  }

  /** As written, opening a picture from the modal and closing it again leaves
      the modal showing over a page that scrolls. */
  lemma ScrollUnlockedUnderModal()
    ensures var s := Run(Initial, [ViewMore, OpenFromGrid(0), CloseLightboxButton], false);
      s.modal == DisplayBlock && s.overflow == OverflowAuto && !Consistent(s)
  {
    assert |Initial.catalogue| == Gallery.PhotoCount;
    LightboxClosedUnderModal(Initial);
  }

  /** The same trace from any page whose gallery list is not empty. */
  lemma LightboxClosedUnderModal(s: State)
    requires |s.catalogue| > 0
    ensures var r := Run(s, [ViewMore, OpenFromGrid(0), CloseLightboxButton], false);
      r.modal == DisplayBlock && r.overflow == OverflowAuto
  {
    var s1 := Handle(s, ViewMore, false);
    var s2 := Handle(s1, OpenFromGrid(0), false);
    var s3 := Handle(s2, CloseLightboxButton, false);
    assert s3.modal == DisplayBlock && s3.overflow == OverflowAuto;
    RunOfThree(s, ViewMore, OpenFromGrid(0), CloseLightboxButton, false);
  }

  lemma RunOfThree(s: State, a: Event, b: Event, c: Event, keepLock: bool)
    ensures Run(s, [a, b, c], keepLock) == Handle(Handle(Handle(s, a, keepLock), b, keepLock), c, keepLock)
  {
    var s1 := Handle(s, a, keepLock);
    var s2 := Handle(s1, b, keepLock);
    assert [a, b, c][1..] == [b, c];
    assert [b, c][1..] == [c];
    assert [c][1..] == [];
    assert Run(s2, [c], keepLock) == Run(Handle(s2, c, keepLock), [], keepLock);
    assert Run(s1, [b, c], keepLock) == Run(s2, [c], keepLock);
  }

  /** Escape closes whichever overlays are showing, and with neither showing
      (or for any other key) nothing changes. */
  lemma EscapeCloses(s: State, keepLock: bool)
    ensures var r := Handle(s, KeyDown("Escape"), keepLock);
      r.lightbox != DisplayBlock && r.modal != DisplayBlock
      && (s.lightbox == DisplayBlock ==> r.lightbox == DisplayNone)
      && (s.modal == DisplayBlock ==> r.modal == DisplayNone)
      && (!Open(s) ==> r == s)
      && (Open(s) ==> r.overflow == OverflowAuto)
  {
  }

  lemma OtherKeysIgnored(s: State, key: string, keepLock: bool)
    requires key != "Escape"
    ensures Handle(s, KeyDown(key), keepLock) == s
  {
  }

  /** A click on an overlay closes it only when the overlay itself is the target. */
  lemma BackdropClick(s: State, onSelf: bool, keepLock: bool)
    ensures Handle(s, LightboxClick(onSelf), keepLock) == (if onSelf then Handle(s, CloseLightboxButton, keepLock) else s)
    ensures Handle(s, ModalClick(onSelf), keepLock) == (if onSelf then Handle(s, CloseModalButton, keepLock) else s)
  {
  }

  /** No handler touches the gallery list. */
  lemma {:induction false} RunKeepsCatalogue(s: State, events: seq<Event>, keepLock: bool)
    ensures Run(s, events, keepLock).catalogue == s.catalogue
    decreases |events|
  {
    if events != [] {
      RunKeepsCatalogue(Handle(s, events[0], keepLock), events[1..], keepLock);
    }
  }

  /** The modal holds the gallery list, once, however often it is opened. */
  lemma {:induction false} ViewMoreNeverAccumulates(s: State, n: nat)
    ensures Run(s, seq(n + 1, _ => ViewMore), false).grid == s.catalogue
    decreases n
  {
    var evs := seq(n + 1, _ => ViewMore);
    assert evs[0] == ViewMore;
    if n > 0 {
      assert evs[1..] == seq(n, _ => ViewMore);
      ViewMoreNeverAccumulates(Handle(s, ViewMore, false), n - 1);
    } else {
      assert evs[1..] == [];
    }
  }

  /** After "view more", a click on the `k`-th item of the grid shows the `k`-th gallery image. */
  lemma GridClickShowsPhoto(s: State, k: nat)
    requires k < |s.catalogue|
    ensures Handle(Handle(s, ViewMore, false), OpenFromGrid(k), false).shown == Some(s.catalogue[k])
  {
  }

  /** On the page the list is the 23 photos of the gallery. */
  lemma InitialCatalogue()
    ensures |Initial.catalogue| == Gallery.PhotoCount
    ensures forall k :: 0 <= k < |Initial.catalogue| ==> Initial.catalogue[k].src == Gallery.GalleryDir + Gallery.Stem(k) + ".JPG"
  {
  }
}

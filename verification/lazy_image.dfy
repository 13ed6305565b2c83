/** The lazy-loading image of `src/components/OptimizedImage.jsx`.

    The component keeps three flags — loaded, error, in view — and either
    starts loading its source at once (`priority`) or waits for an
    intersection observer to report the element on screen, then disconnects
    the observer and starts the preload. The browser's observer, the image
    preload and the `<img>` element's own load and error notifications are
    explicit events here; the state also records whether an observer is live,
    how many preloads are in flight and how many were ever started.

    The observer reports a batch of entries at a time. As written, the handler
    runs once per intersecting entry of the batch, so a batch with two such
    entries starts two preloads (`StepAsWritten`); the machine the rest of the
    module reasons about (`Step`) loads once per batch, as the disconnect after
    loading intends. The two agree on every batch with at most one
    intersecting entry. */
module LazyImage {
  import opened Optional
  import Performance

  /** The props that matter to the state machine and the render choice. */
  datatype Props = Props(src: string, priority: bool, placeholder: Option<string>)

  /** The props the carousel's modal passes for one screenshot. */
  function LazyProps(src: string): Props
  {
    Props(src, false, None)
  }

  datatype Observer = NoObserver | Observing | Disconnected

  datatype ImageState = ImageState(loaded: bool, error: bool, inView: bool, observer: Observer,
                                   inFlight: nat, preloadsStarted: nat, mounted: bool)

  /** The caller's callback an event invokes, if any. */
  datatype Callback = NoCallback | OnLoad | OnError

  datatype Outcome = Outcome(state: ImageState, callback: Callback)

  datatype Event =
    | Intersect(entries: seq<Performance.ObserverEntry>)  // the observer reports a batch of entries
    | PreloadResolved                              // the preload of `src` succeeded
    | PreloadRejected                              // the preload of `src` failed
    | ElementLoaded                                // the rendered <img> fired its load event
    | ElementFailed                                // the rendered <img> fired its error event
    | Unmount

  /** The state on first render: in view exactly when the image has priority. */
  function Initial(p: Props): ImageState
  {
    ImageState(false, false, p.priority, NoObserver, 0, 0, true)
  }

  /** `loadImage`: nothing without a source or once an error is recorded;
      otherwise one preload starts. */
  function LoadImage(p: Props, s: ImageState): ImageState
  {
    if p.src == "" || s.error then s
    else s.(inFlight := s.inFlight + 1, preloadsStarted := s.preloadsStarted + 1)
  }

  /** The mount effect: with priority, load at once and create no observer;
      otherwise observe the element. */
  function Mount(p: Props, s: ImageState): ImageState
  {
    if p.priority then LoadImage(p, s) else s.(observer := Observing)
  }

  /** The state once the component has rendered and its effect has run. */
  function Mounted(p: Props): ImageState
  {
    Mount(p, Initial(p))
  }

  /** Recording an error. Because `loadImage` depends on the error flag, the
      effect runs again: its cleanup disconnects the old observer, and then it
      either calls `loadImage` (which the flag now turns into a no-op) or
      creates a fresh observer. */
  function RecordError(p: Props, s: ImageState): ImageState
  {
    if s.error then s
    else
      var failed := s.(error := true);
      if p.priority then LoadImage(p, failed) else failed.(observer := Observing)
  }

  /** What the component renders. */
  datatype View = ErrorPlaceholder | Skeleton(withPlaceholder: bool) | Picture(opacity: string, loading: string)

  function Render(p: Props, s: ImageState): View
  {
    if s.error then ErrorPlaceholder
    else if !s.inView && !p.priority then Skeleton(p.placeholder.Some? && p.placeholder.value != "")
    else Picture(if s.loaded then "opacity-100" else "opacity-0", if p.priority then "eager" else "lazy")
  }

  /** The observer's handler for one intersecting entry: into view, load,
      disconnect. */
  function HandleEntry(p: Props, s: ImageState): ImageState
  {
    LoadImage(p, s.(inView := true)).(observer := Disconnected)
  }

  /** The handler run once for each delivered entry, in order, as the batch's
      `forEach` does; disconnecting does not stop a `forEach` under way. */
  function HandleEach(p: Props, s: ImageState, delivered: seq<Performance.ObserverEntry>): ImageState
    decreases |delivered|
  {
    if |delivered| == 0 then s else HandleEach(p, HandleEntry(p, s), delivered[1..])
  }

  /** One event, with the observer's batch handled once. */
  function Step(p: Props, s: ImageState, e: Event): Outcome
  {
    match e
    case Intersect(entries) =>
      if s.observer == Observing && Performance.Deliver(entries) != [] then
        Outcome(HandleEntry(p, s), NoCallback)
      else Outcome(s, NoCallback)
    case PreloadResolved =>
      if s.inFlight == 0 then Outcome(s, NoCallback)
      else
        var settled := s.(inFlight := s.inFlight - 1);
        // after unmount the state update is dropped but the callback still runs
        Outcome(if s.mounted then settled.(loaded := true) else settled, OnLoad)
    case PreloadRejected =>
      if s.inFlight == 0 then Outcome(s, NoCallback)
      else
        var settled := s.(inFlight := s.inFlight - 1);
        Outcome(if s.mounted then RecordError(p, settled) else settled, OnError)
    case ElementLoaded =>
      if s.mounted && Render(p, s).Picture? then Outcome(s.(loaded := true), OnLoad)
      else Outcome(s, NoCallback)
    case ElementFailed =>
      if s.mounted && Render(p, s).Picture? then Outcome(RecordError(p, s), OnError)
      else Outcome(s, NoCallback)
    case Unmount =>
      if !s.mounted then Outcome(s, NoCallback)
      else Outcome(s.(mounted := false, observer := if s.observer == Observing then Disconnected else s.observer),
                   NoCallback)
  }

  /** The state after `es`, with the callbacks invoked, in order. */
  datatype Trace = Trace(state: ImageState, callbacks: seq<Callback>)

  function Run(p: Props, s: ImageState, es: seq<Event>): Trace
    decreases |es|
  {
    if |es| == 0 then Trace(s, [])
    else
      var o := Step(p, s, es[0]);
      var rest := Run(p, o.state, es[1..]);
      Trace(rest.state, (if o.callback == NoCallback then [] else [o.callback]) + rest.callbacks)
  }

  /** One event as the source handles it: every intersecting entry of a batch
      runs the handler. */
  function StepAsWritten(p: Props, s: ImageState, e: Event): Outcome
  {
    if e.Intersect? && s.observer == Observing then
      Outcome(HandleEach(p, s, Performance.Deliver(e.entries)), NoCallback)
    else Step(p, s, e)
  }

  function RunAsWritten(p: Props, s: ImageState, es: seq<Event>): Trace
    decreases |es|
  {
    if |es| == 0 then Trace(s, [])
    else
      var o := StepAsWritten(p, s, es[0]);
      var rest := RunAsWritten(p, o.state, es[1..]);
      Trace(rest.state, (if o.callback == NoCallback then [] else [o.callback]) + rest.callbacks)
  }

  /** The component's invariant. */
  predicate Inv(p: Props, s: ImageState)
  {
    && s.preloadsStarted <= 1
    && s.inFlight <= s.preloadsStarted
    && (s.preloadsStarted == 1 ==> s.inView && p.src != "")
    && (p.priority ==> s.inView && s.observer != Observing)
    && (s.observer == Observing ==> s.mounted && (s.preloadsStarted == 0 || s.error))
    && (!s.inView ==> !s.error && !s.loaded && s.preloadsStarted == 0 && (s.mounted ==> s.observer == Observing))
  }

  /** The effect's first run: a priority image is in view and loads at once
      (when it has a source) without any observer; any other image is out of
      view, observed, and not loading. */
  lemma MountedStart(p: Props)
    ensures Inv(p, Mounted(p))
    ensures Mounted(p).inView == p.priority && !Mounted(p).loaded && !Mounted(p).error
    ensures p.priority ==> Mounted(p).observer == NoObserver && (Mounted(p).inFlight == 1 <==> p.src != "")
    ensures !p.priority ==> Mounted(p).observer == Observing && Mounted(p).inFlight == 0
  {
  }

  /** `loadImage` changes nothing exactly when the source is empty or an error
      is recorded; otherwise it starts one preload. */
  lemma LoadImageGuard(p: Props, s: ImageState)
    ensures LoadImage(p, s) == s <==> (p.src == "" || s.error)
    ensures !(p.src == "" || s.error) ==>
              LoadImage(p, s).inFlight == s.inFlight + 1 && LoadImage(p, s).preloadsStarted == s.preloadsStarted + 1
  {
  }

  /** A preload's success sets the loaded flag and calls `onLoad`; its failure
      sets the error flag and calls `onError`. */
  lemma PreloadOutcomes(p: Props, s: ImageState)
    requires Inv(p, s) && s.inFlight > 0 && s.mounted
    ensures Step(p, s, PreloadResolved).state.loaded && Step(p, s, PreloadResolved).callback == OnLoad
    ensures Step(p, s, PreloadRejected).state.error && Step(p, s, PreloadRejected).callback == OnError
    ensures Render(p, Step(p, s, PreloadRejected).state) == ErrorPlaceholder
  {
  }

  /** A batch with an intersecting entry, while observed, brings the image
      into view, starts its preload and disconnects the observer; a batch
      without one changes nothing. */
  lemma IntersectionStartsLoad(p: Props, s: ImageState, entries: seq<Performance.ObserverEntry>)
    requires Inv(p, s) && s.observer == Observing && !s.error && p.src != ""
    ensures Performance.Deliver(entries) != [] ==>
              var r := Step(p, s, Intersect(entries)).state;
              r.inView && r.inFlight == 1 && r.preloadsStarted == 1 && r.observer == Disconnected
    ensures Performance.Deliver(entries) == [] ==> Step(p, s, Intersect(entries)).state == s
  {
  }

  /** Every event keeps the invariant. */
  lemma StepKeepsInv(p: Props, s: ImageState, e: Event)
    requires Inv(p, s)
    ensures Inv(p, Step(p, s, e).state)
  {
  }

  /** Any sequence of events keeps the invariant. */
  lemma {:induction false} RunKeepsInv(p: Props, s: ImageState, es: seq<Event>)
    requires Inv(p, s)
    ensures Inv(p, Run(p, s, es).state)
    decreases |es|
  {
    if |es| > 0 {
      StepKeepsInv(p, s, es[0]);
      RunKeepsInv(p, Step(p, s, es[0]).state, es[1..]);
    }
  }

  /** Whatever happens, an image handled once per batch starts at most one preload. */
  lemma AtMostOnePreload(p: Props, es: seq<Event>)
    ensures Run(p, Mounted(p), es).state.preloadsStarted <= 1
  {
    MountedStart(p);
    RunKeepsInv(p, Mounted(p), es);
  }

  /** No retry: once an error is recorded it stays, and no further preload starts. */
  lemma {:induction false} NoRetryAfterError(p: Props, s: ImageState, es: seq<Event>)
    requires Inv(p, s) && s.error
    ensures Run(p, s, es).state.error
    ensures Run(p, s, es).state.preloadsStarted == s.preloadsStarted
    decreases |es|
  {
    if |es| > 0 {
      StepKeepsInv(p, s, es[0]);
      NoRetryAfterError(p, Step(p, s, es[0]).state, es[1..]);
    }
  }

  /** True when no event of `es` is an intersecting observer entry. */
  predicate NoIntersection(es: seq<Event>)
  {
    forall i :: 0 <= i < |es| ==> !(es[i].Intersect? && Performance.Deliver(es[i].entries) != [])
  }

  /** Until the observer reports the element, a lazy image renders only its
      skeleton: nothing loads and no error is shown. */
  lemma {:induction false} SkeletonUntilIntersect(p: Props, s: ImageState, es: seq<Event>)
    requires Inv(p, s) && !s.inView && NoIntersection(es)
    ensures Render(p, Run(p, s, es).state).Skeleton?
    ensures Run(p, s, es).callbacks == []
    decreases |es|
  {
    if |es| == 0 {
    } else {
      var o := Step(p, s, es[0]);
      assert !o.state.inView && o.callback == NoCallback;
      StepKeepsInv(p, s, es[0]);
      assert NoIntersection(es[1..]) by {
        forall i | 0 <= i < |es[1..]|
          ensures !(es[1..][i].Intersect? && Performance.Deliver(es[1..][i].entries) != [])
        {
          assert es[1..][i] == es[i + 1];
        }
      }
      SkeletonUntilIntersect(p, o.state, es[1..]);
    }
  }

  /** A lazy image fresh from mount shows the skeleton until intersection. */
  lemma LazyImageWaitsForView(p: Props, es: seq<Event>)
    requires !p.priority && NoIntersection(es)
    ensures Render(p, Run(p, Mounted(p), es).state).Skeleton?
  {
    MountedStart(p);
    SkeletonUntilIntersect(p, Mounted(p), es);
  }

  /** The render choice, in order: the error placeholder wins; otherwise the
      skeleton shows while a lazy image is out of view; otherwise the image
      itself, fully opaque exactly when loaded. */
  lemma RenderSelection(p: Props, s: ImageState)
    ensures Render(p, s) == ErrorPlaceholder <==> s.error
    ensures Render(p, s).Skeleton? <==> !s.error && !s.inView && !p.priority
    ensures Render(p, s).Picture? <==> !s.error && (s.inView || p.priority)
    ensures Render(p, s).Picture? ==> (Render(p, s).opacity == "opacity-100" <==> s.loaded)
    ensures Render(p, s).Picture? ==> Render(p, s).opacity in {"opacity-100", "opacity-0"}
  {
  }

  /** After unmount the observer is released and no later event revives it. */
  lemma {:induction false} UnmountReleasesObserver(p: Props, s: ImageState, es: seq<Event>)
    requires !s.mounted && s.observer != Observing
    ensures Run(p, s, es).state.observer != Observing
    ensures !Run(p, s, es).state.mounted
    decreases |es|
  {
    if |es| > 0 {
      UnmountReleasesObserver(p, Step(p, s, es[0]).state, es[1..]);
    }
  }

  /** Unmounting disconnects a live observer. */
  lemma UnmountDisconnects(p: Props, s: ImageState)
    requires s.mounted
    ensures Step(p, s, Unmount).state.observer != Observing && !Step(p, s, Unmount).state.mounted
  {
  }

  /** Once the picture renders, both the preload and the rendered element
      report success, so `onLoad` runs twice for one image: at once for a
      priority image, and after the first intersecting entry for a lazy one. */
  lemma OnLoadCanRunTwice()
    ensures var p := Props("shot.png", true, None);
            Run(p, Mounted(p), [PreloadResolved, ElementLoaded]).callbacks == [OnLoad, OnLoad]
    ensures var q := LazyProps("shot.png");
            Run(q, Mounted(q), [Intersect([Performance.ObserverEntry(0, true)]), PreloadResolved, ElementLoaded]).callbacks
              == [OnLoad, OnLoad]
  {
    var p := Props("shot.png", true, None);
    var s0 := Mounted(p);
    var s1 := Step(p, s0, PreloadResolved).state;
    assert s1.loaded && s1.mounted && Render(p, s1).Picture?;
    var es := [PreloadResolved, ElementLoaded];
    assert es[1..] == [ElementLoaded];
    assert es[1..][1..] == [];
    assert Run(p, s1, es[1..]).callbacks == [OnLoad] + [];

    var q := LazyProps("shot.png");
    var entry := Performance.ObserverEntry(0, true);
    assert Performance.Deliver([entry]) == [entry] by {
      Performance.DeliverAllIntersecting([entry]);
    }
    var t1 := Step(q, Mounted(q), Intersect([entry])).state;
    assert t1.inFlight == 1 && t1.inView && t1.mounted && !t1.error;
    var t2 := Step(q, t1, PreloadResolved).state;
    assert t2.loaded && t2.mounted && Render(q, t2).Picture?;
    var fs := [Intersect([entry]), PreloadResolved, ElementLoaded];
    assert fs[1..] == es;
    assert Run(q, t2, es[1..]).callbacks == [OnLoad] + [];
    assert Run(q, t1, es).callbacks == [OnLoad] + [OnLoad];
    assert Run(q, Mounted(q), fs).callbacks == [] + [OnLoad, OnLoad];
  }

  // The handler as written: one load per intersecting entry of a batch.

  /** Each delivered entry runs the handler: with a source and no error, each
      starts one more preload; the image comes into view and the observer is
      disconnected after the first. */
  lemma {:induction false} HandleEachCounts(p: Props, s: ImageState, d: seq<Performance.ObserverEntry>)
    ensures var r := HandleEach(p, s, d);
            && (p.src != "" && !s.error ==>
                  r.preloadsStarted == s.preloadsStarted + |d| && r.inFlight == s.inFlight + |d|)
            && (p.src == "" || s.error ==> r.preloadsStarted == s.preloadsStarted && r.inFlight == s.inFlight)
            && r.error == s.error && r.loaded == s.loaded && r.mounted == s.mounted
            && (|d| > 0 ==> r.inView && r.observer == Disconnected)
            && (|d| == 0 ==> r == s)
    decreases |d|
  {
    if |d| > 0 {
      HandleEachCounts(p, HandleEntry(p, s), d[1..]);
    }
  }

  /** As written, an observed batch starts as many preloads as it has
      intersecting entries. */
  lemma BatchPreloadsPerEntryAsWritten(p: Props, s: ImageState, entries: seq<Performance.ObserverEntry>)
    requires s.observer == Observing && p.src != "" && !s.error
    ensures var o := StepAsWritten(p, s, Intersect(entries));
            && o.callback == NoCallback
            && o.state.preloadsStarted == s.preloadsStarted + |Performance.Deliver(entries)|
            && o.state.inFlight == s.inFlight + |Performance.Deliver(entries)|
  {
    HandleEachCounts(p, s, Performance.Deliver(entries));
  }

  /** A batch with the same intersecting entry twice. */
  function DoubleEntryEvents(): seq<Event>
  {
    var e := Performance.ObserverEntry(0, true);
    [Intersect([e, e]), PreloadResolved, PreloadResolved, ElementLoaded]
  }

  /** A lazy image whose first batch holds two intersecting entries: as
      written it starts two preloads, and `onLoad` runs three times. */
  lemma DoubleEntryBatchAsWritten()
    ensures var q := LazyProps("shot.png");
            && RunAsWritten(q, Mounted(q), DoubleEntryEvents()).state.preloadsStarted == 2
            && RunAsWritten(q, Mounted(q), DoubleEntryEvents()).callbacks == [OnLoad, OnLoad, OnLoad]
  {
    var q := LazyProps("shot.png");
    var e := Performance.ObserverEntry(0, true);
    var es := DoubleEntryEvents();
    assert Performance.Deliver([e, e]) == [e, e] by {
      Performance.DeliverAllIntersecting([e, e]);
    }
    assert es[1..] == [PreloadResolved, PreloadResolved, ElementLoaded];
    assert es[1..][1..] == [PreloadResolved, ElementLoaded];
    assert es[1..][1..][1..] == [ElementLoaded];
    var a1 := StepAsWritten(q, Mounted(q), es[0]).state;
    HandleEachCounts(q, Mounted(q), [e, e]);
    assert a1.inFlight == 2 && a1.preloadsStarted == 2 && a1.inView && a1.mounted && !a1.error;
    var a2 := StepAsWritten(q, a1, PreloadResolved).state;
    assert a2.inFlight == 1 && a2.loaded && a2.mounted && a2.preloadsStarted == 2;
    var a3 := StepAsWritten(q, a2, PreloadResolved).state;
    assert a3.inFlight == 0 && a3.loaded && a3.mounted && a3.preloadsStarted == 2;
    assert Render(q, a3).Picture?;
    assert RunAsWritten(q, a3, [ElementLoaded]).callbacks == [OnLoad] + [];
    assert RunAsWritten(q, a2, es[1..][1..]).callbacks == [OnLoad] + [OnLoad];
    assert RunAsWritten(q, a1, es[1..]).callbacks == [OnLoad] + [OnLoad, OnLoad];
  }

  /** The same events handled once per batch: one preload, and `onLoad` runs
      twice. */
  lemma DoubleEntryBatchCorrected()
    ensures var q := LazyProps("shot.png");
            && Run(q, Mounted(q), DoubleEntryEvents()).state.preloadsStarted == 1
            && Run(q, Mounted(q), DoubleEntryEvents()).callbacks == [OnLoad, OnLoad]
  {
    var q := LazyProps("shot.png");
    var es := DoubleEntryEvents();
    assert es[1..] == [PreloadResolved, PreloadResolved, ElementLoaded];
    assert es[1..][1..] == [PreloadResolved, ElementLoaded];
    assert es[1..][1..][1..] == [ElementLoaded];
    var t1 := Step(q, Mounted(q), es[0]).state;
    assert t1.inFlight == 1 && t1.preloadsStarted == 1 && t1.inView && t1.mounted && !t1.error;
    var t2 := Step(q, t1, PreloadResolved).state;
    assert t2.inFlight == 0 && t2.loaded && t2.mounted && t2.preloadsStarted == 1;
    assert Step(q, t2, PreloadResolved) == Outcome(t2, NoCallback);
    assert Render(q, t2).Picture?;
    assert Run(q, t2, [ElementLoaded]).callbacks == [OnLoad] + [];
    assert Run(q, t2, es[1..][1..]).callbacks == [] + [OnLoad];
    assert Run(q, t1, es[1..]).callbacks == [OnLoad] + [OnLoad];
  }

  /** The two handlers differ only on an observed batch with more than one
      intersecting entry. */
  lemma CorrectionIsLocal(p: Props, s: ImageState, e: Event)
    requires !(e.Intersect? && s.observer == Observing && |Performance.Deliver(e.entries)| > 1)
    ensures StepAsWritten(p, s, e) == Step(p, s, e)
  {
    if e.Intersect? && s.observer == Observing {
      var d := Performance.Deliver(e.entries);
      if |d| == 1 {
        assert HandleEach(p, s, d) == HandleEach(p, HandleEntry(p, s), d[1..]);
        assert d[1..] == [];
      }
    }
  }

  /** Every batch delivers at most one intersecting entry. */
  predicate SingleEntryBatches(es: seq<Event>)
  {
    forall i :: 0 <= i < |es| ==> es[i].Intersect? ==> |Performance.Deliver(es[i].entries)| <= 1
  }

  /** From a state of the invariant, the source's handler and the corrected
      one run alike for a priority image, which never observes, and for any
      image whose batches carry at most one intersecting entry each. */
  lemma {:induction false} AsWrittenAgrees(p: Props, s: ImageState, es: seq<Event>)
    requires Inv(p, s) && (p.priority || SingleEntryBatches(es))
    ensures RunAsWritten(p, s, es) == Run(p, s, es)
    decreases |es|
  {
    if |es| > 0 {
      assert es[0] == es[0 + 0];
      CorrectionIsLocal(p, s, es[0]);
      StepKeepsInv(p, s, es[0]);
      if !p.priority {
        forall i | 0 <= i < |es[1..]| && es[1..][i].Intersect?
          ensures |Performance.Deliver(es[1..][i].entries)| <= 1
        {
          assert es[1..][i] == es[i + 1];
        }
      }
      AsWrittenAgrees(p, Step(p, s, es[0]).state, es[1..]);
    }
  }

  /** Hence, as written, such an image starts at most one preload too. */
  lemma AtMostOnePreloadAsWritten(p: Props, es: seq<Event>)
    requires p.priority || SingleEntryBatches(es)
    ensures RunAsWritten(p, Mounted(p), es).state.preloadsStarted <= 1
  {
    MountedStart(p);
    AsWrittenAgrees(p, Mounted(p), es);
    AtMostOnePreload(p, es);
  }
}

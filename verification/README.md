# Portfolio site: the sequential logic behind the pages

This project models the logic inside a React portfolio site as pure functions over immutable state, and proves properties of them. The site is mostly markup, so the model covers only its logic:

- **Typewriter** (`typewriter.dfy`): the reveal engine of `TypewriterText`.
  - The `text` prop is normalised into fragments, and each fragment is flattened from plain and styled segments into one string.
  - A tick-driven machine types the current fragment forward, waits, deletes it, pauses, and moves on to the next fragment, wrapping after the last.
  - A render function turns the displayed prefix back into per-segment pieces.
  - The cursor blinks on its own interval.
- **Carousel** (`carousel.dfy`): the projects page.
  - The cursor arithmetic of the previous, next and indicator buttons.
  - The modal flag and the body scroll lock paired with it.
  - The events that open and close the modal, the indicator highlight, and the modal's screenshot list.
- **RouteShell** (`route_shell.dfy`): the application shell.
  - The direction classes from a fixed route order, looked up with `indexOf`.
  - The transition machine: start, a 300ms commit, and cancellation by a newer navigation.
  - The active test for the navigation links.
- **Performance** (`performance.dfy`): the combinators in `utils/performance.js`.
  - `memoize`, as a map-backed cache over an abstract key function.
  - `debounce` and `throttle`, as state machines.
  - The option merge of `createIntersectionObserver` and its filter of intersecting entries.
- **LazyImage** (`lazy_image.dfy`): `OptimizedImage`.
  - The `loaded`, `error` and `inView` flags, the observer's life cycle and the preloads.
  - The observer's batches: as written each intersecting entry starts a load, and the corrected machine loads once per batch.
  - The callbacks fired, and the choice between the error placeholder, the skeleton and the picture.
- **Optional** (`optional.dfy`): the `Option` type.

Every timer expiry, intersection, image load and load failure is an explicit event. Each machine has a `Step` function and a `Run` over a sequence of events. Invariants are proved for one step and then by induction over runs.

## Model

| member | source | states |
|---|---|---|
| Typewriter.Normalize | src/components/TypewriterText.jsx:12 | There is always at least one fragment to cycle through. |
| Typewriter.NormalizeShape | src/components/TypewriterText.jsx:12 | A list whose first element is a list keeps its elements as the fragments, in order: the first a segment list, the later ones strings or segment lists. Anything else is wrapped as the single fragment `[text]`: a string as itself, a segment list as itself, and an empty list as an empty segment list. |
| Typewriter.ConcatAppend | src/components/TypewriterText.jsx:16-18 | The flattened text of a segment list is the in-order join of its segments' texts, so flattening distributes over concatenation. |
| Typewriter.DropLast | src/components/TypewriterText.jsx:31 | `slice(0, -1)` leaves a result that, with the removed last character put back, is the original string. The result is one character shorter, or empty for the empty string. |
| Typewriter.DropLastUndoesAppend | src/components/TypewriterText.jsx:27-31 | Deleting a character undoes typing it: dropping the last character of `t + [c]` gives `t`, and the empty string stays empty. |
| Typewriter.Step | src/components/TypewriterText.jsx:42 | Every event, including the advance `(prev + 1) % textArray.length`, leaves the fragment index below the fragment count. |
| Typewriter.Run | src/components/TypewriterText.jsx:47-50 | A run of events keeps the fragment index in range. |
| Typewriter.InitialInv | src/components/TypewriterText.jsx:4-8 | The initial state has an empty display at index 0, typing, and satisfies the prefix invariant. |
| Typewriter.StepKeepsInv | src/components/TypewriterText.jsx:25-44 | Each event keeps `0 <= charIndex <= len` and `display == flattened[..charIndex]`, and keeps the pending timer consistent with the phase. |
| Typewriter.RunKeepsInv | src/components/TypewriterText.jsx:24-66 | The prefix invariant holds after every run of events. |
| Typewriter.TypingTickAppends | src/components/TypewriterText.jsx:25-28 | A typing tick below the length appends `flattened[charIndex]`, increments the index, and keeps the fragment and the phase. |
| Typewriter.DeletingTickDrops | src/components/TypewriterText.jsx:29-32 | A deleting tick above 0 drops the last character and decrements the index. |
| Typewriter.FullyTypedStartsDeleting | src/components/TypewriterText.jsx:33-37 | When the fragment is fully typed, a tick only arms the delay, and the delay's expiry sets deleting and changes nothing else. |
| Typewriter.FullyDeletedAdvances | src/components/TypewriterText.jsx:38-44 | When the fragment is fully deleted, a tick arms the pause. The pause moves to `(i + 1) % count`, which is 0 after the last fragment, and resets to an empty display, typing. |
| Typewriter.LoopNeverConsulted | src/components/TypewriterText.jsx:3 | Runs with any value of the `loop` prop are identical. |
| Typewriter.TypingReveals | src/components/TypewriterText.jsx:25-28 | `k` typing ticks reveal exactly the next `k` characters. |
| Typewriter.DeletingHides | src/components/TypewriterText.jsx:29-32 | `k` deleting ticks remove exactly the last `k` characters. |
| Typewriter.FullCycle | src/components/TypewriterText.jsx:24-66 | A full cycle from a fresh fragment shows the whole flattened text, deletes it again, and starts fresh on the next fragment. |
| Typewriter.TypesAndDeletesHi | src/components/TypewriterText.jsx:3-44 | With the default props, "Hi" is typed in two ticks, then the next tick and the delay start deletion, and two more ticks clear it. |
| Typewriter.CursorBlinks | src/components/TypewriterText.jsx:52-59 | With `cursor` on, each blink flips whether the glyph shows (`cursor && showCursor`) and touches nothing else. With it off, the glyph never shows. |
| Typewriter.Truncate | src/components/TypewriterText.jsx:83-87 | A cut segment's text is the first `n` characters of the original. |
| Typewriter.RenderPiecesArePrefixes | src/components/TypewriterText.jsx:74-110 | Every emitted piece has the kind and class of the segment at its position and a prefix of its text. Only the last piece can be shorter than its segment. |
| Typewriter.RenderConcat | src/components/TypewriterText.jsx:74-110 | The emitted pieces join to the part of the segments' text that falls within the displayed length. |
| Typewriter.RenderShowsDisplay | src/components/TypewriterText.jsx:69-111 | Whenever the display is a prefix of the flattened text, the render shows exactly the display: the plain string itself, or pieces that join to it. |
| Typewriter.RenderOfStateShowsDisplay | src/components/TypewriterText.jsx:69-111 | In every reachable engine state, the render of the current fragment joins to the displayed text. |
| Typewriter.HomeTextExample | src/components/home.jsx:80-86 | With the home page's props (the four fragments of `typewriterTexts` on lines 26-31, `speed` 70, `cursor`, `loop` and `delay` 2000), there are four fragments, and the pause after the last fragment wraps to the first. The first flattens to "An aspiring Web Developer". A partly typed display keeps the highlight class on the part of the styled word already shown. |
| Carousel.Prev | src/components/projects.jsx:133-135 | Inside `[0, length)` the result stays in range and is `(current - 1) mod length`. |
| Carousel.Next | src/components/projects.jsx:137-139 | Inside `[0, length)` the result stays in range and is `(current + 1) mod length`. |
| Carousel.PrevNextRoundTrip | src/components/projects.jsx:133-139 | `next(prev(i)) == i` and `prev(next(i)) == i` for every `i` in range. |
| Carousel.ArrowsWrap | src/components/projects.jsx:133-139 | The previous button wraps 0 to `length - 1`, and the next button wraps `length - 1` to 0. |
| Carousel.NextTimesIsRotation | src/components/projects.jsx:137-139 | `k` presses of the next button move the cursor to `(i + k) mod length`. |
| Carousel.ModalOpenClose | src/components/projects.jsx:145-155 | Opening sets the flag and overflow `hidden`. Closing clears the flag and sets overflow `unset`. Closing twice equals closing once, and the cursor is kept. |
| Carousel.GoToSlideExact | src/components/projects.jsx:141-143 | An indicator click sets the cursor to exactly the index, without validation, and changes nothing else. |
| Carousel.ModalCloseConditions | src/components/projects.jsx:59-69 | With the modal open, an event closes it if and only if it is a click on the backdrop itself, the Escape key or the close button. Closing is `closeModal`. |
| Carousel.CardOpenConditions | src/components/projects.jsx:166-173 | With the modal closed, an event opens it if and only if it is a card click, Enter or Space. |
| Carousel.RunKeepsInv | src/components/projects.jsx:127-155 | Through any run of the page's own events, the cursor stays in range and the modal is open exactly while the scroll is locked. |
| Carousel.StartInv | src/components/projects.jsx:127-128 | The page starts at project 0 with the modal closed, which satisfies the invariant. |
| Carousel.Indicators | src/components/projects.jsx:212-217 | There is one indicator per project. |
| Carousel.IndicatorHighlight | src/components/projects.jsx:212-217 | Indicator `idx` is highlighted if and only if `idx == current`, so at most one is highlighted. |
| Carousel.ModalImages | src/components/projects.jsx:98-106 | The modal shows one lazy image per screenshot of the current project, and image `k` has screenshot `k` as its source, without priority. |
| Carousel.ModalImagesWaitForView | src/components/projects.jsx:98-106 | Every modal screenshot mounts as an observed skeleton, with no preload in flight and none ever started. |
| RouteShell.IndexOf | src/App.jsx:84-85 | The result is the first position of the path, or -1 exactly when the path is absent. |
| RouteShell.DirectionByPosition | src/App.jsx:88-97 | A later index gives (`slide-up`, `exit-up`), an earlier one gives (`slide-down`, `exit-down`), and an equal one gives the neutral pair, each if and only if. |
| RouteShell.NeutralOnlyWhenBothUnknown | src/App.jsx:80-97 | For two distinct paths and an order without repeats, the pair is neutral if and only if neither path is in the order. |
| RouteShell.DirectionExamples | src/App.jsx:80-97 | `/joshua-portfolio` has index -1, so the moves from it go up and the moves to it go down. Moves from index 1 to 3 go up and from 3 to 1 go down. |
| RouteShell.OrderMismatchHarmless | src/App.jsx:80 | Between any two navigation targets, the order with `/` gives the same classes as an order starting with `/joshua-portfolio`. |
| RouteShell.SameRouteChangesNoTransitionState | src/App.jsx:83 | A pathname equal to the committed route changes neither the transition flag, the classes nor the committed route. |
| RouteShell.NavigateStartsTransition | src/App.jsx:99-101 | A new path other than the committed route sets transitioning, applies the direction's classes and arms the commit for that path. |
| RouteShell.CommitCompletes | src/App.jsx:103-108 | The commit makes its target the committed route, clears the flag and both classes, and leaves nothing pending. |
| RouteShell.BootPendingInv | src/App.jsx:74-77 | On first render the committed route is the location and nothing is pending. |
| RouteShell.RunAsWrittenKeepsPendingInv | src/App.jsx:82-112 | Always, a commit is pending exactly while the location differs from the committed route, and its target is the location. |
| RouteShell.LatestTargetCommitted | src/App.jsx:110-112 | After a burst of navigations, the only pending commit targets the last path, and that path is what gets committed. |
| RouteShell.StuckTransitionAsWritten | src/App.jsx:82-112 | Going from `/projects` to `/skills` and back before the commit leaves the shell transitioning with slide-up classes and no commit pending. |
| RouteShell.RunKeepsShellInv | src/App.jsx:82-112 | In the corrected machine, the shell is transitioning exactly while a commit is pending, and when idle it carries no classes. |
| RouteShell.NeverStuck | src/App.jsx:82-112 | From boot, the corrected shell is never transitioning without a pending commit, and a commit always leaves it idle. |
| RouteShell.CorrectionIsLocal | src/App.jsx:82-112 | The corrected machine agrees with the machine as written on every event except a navigation back to the committed route. |
| RouteShell.OneActiveNavLink | src/App.jsx:57 | At most one navigation link is active, and one is active if and only if the pathname is one of the four link paths. |
| Performance.MemoCall | src/utils/performance.js:92-100 | After a call, the key is cached with the returned value, no key is lost, and no existing entry changes. |
| Performance.MemoRunKeys | src/utils/performance.js:91-99 | After a sequence of calls, a key is cached if and only if some call had that key. |
| Performance.MemoRunValues | src/utils/performance.js:93-99 | Each cached value is `fn` applied to the first call with that key. Later calls never overwrite it. |
| Performance.MemoRunInvocations | src/utils/performance.js:94-98 | `fn` has run exactly once per distinct key: a hit never invokes it. |
| Performance.MemoAnswerIsFirstResult | src/utils/performance.js:93-96 | The answer to a call is `fn` of the first call with the same key. A repeated key gets the cached value, and a new key gets `fn` of its own arguments. |
| Performance.DebounceBurstSchedulesLast | src/utils/performance.js:16-17 | A burst of calls runs nothing and leaves only the last call's arguments scheduled. |
| Performance.DebounceRunsLastOfBurst | src/utils/performance.js:11-18 | A burst followed by an expiry runs `func` exactly once, with the last arguments. |
| Performance.DebounceRunsAtMostOncePerCall | src/utils/performance.js:11-18 | Runs plus the pending invocation never exceed the number of calls, and runs never exceed the number of expiries. |
| Performance.ThrottleDropsInsideWindow | src/utils/performance.js:30 | Calls while throttled run nothing, are not queued, and leave the flag set. |
| Performance.ThrottleRunsFirstOfWindow | src/utils/performance.js:30-33 | In a window that starts unthrottled, only the first call runs, and it sets the flag. |
| Performance.ThrottleRunsSpacedCalls | src/utils/performance.js:30-33 | Calls each followed by the limit's expiry all run, in order. |
| Performance.ThrottleRateBound | src/utils/performance.js:29-35 | Runs never exceed the number of expiries plus one. |
| Performance.ObserverOptions | src/utils/performance.js:45-50 | The merged options have the default keys plus the caller's keys. Caller values win key-wise, and the defaults fill in the rest. |
| Performance.ObserverOptionsIdempotent | src/utils/performance.js:45-50 | Merging already merged options changes nothing. |
| Performance.ObserverOptionsExamples | src/utils/performance.js:45-50 | No options gives `root null`, `rootMargin '0px'` and `threshold 0.1`. The image's options give `rootMargin '50px'`, with the rest taken from the defaults. |
| Performance.Deliver | src/utils/performance.js:52-58 | The callback receives exactly the intersecting entries, and never more entries than arrived. |
| Performance.DeliverAppend | src/utils/performance.js:53-57 | Delivery preserves entry order: it distributes over concatenation. |
| Performance.DeliverAllIntersecting | src/utils/performance.js:53-57 | A batch in which every entry intersects is delivered whole and in order. |
| LazyImage.MountedStart | src/components/OptimizedImage.jsx:14-66 | `inView` starts as `priority`, with loaded and error off. A priority image preloads at once, if it has a source, and has no observer. Any other image is observed and does not load. |
| LazyImage.LoadImageGuard | src/components/OptimizedImage.jsx:31 | Loading is a no-op if and only if the source is empty or an error is recorded. Otherwise it starts one preload. |
| LazyImage.PreloadOutcomes | src/components/OptimizedImage.jsx:33-41 | A preload success sets loaded and fires `onLoad`. A failure sets error, fires `onError` and renders the error placeholder. |
| LazyImage.IntersectionStartsLoad | src/components/OptimizedImage.jsx:53-60 | In the corrected machine, an observed batch with an intersecting entry sets `inView`, starts the one preload and disconnects the observer. A batch without one changes nothing. |
| LazyImage.StepKeepsInv | src/components/OptimizedImage.jsx:20-82 | In the corrected machine, each event keeps the invariant on the observer, the preloads in flight and the flags. |
| LazyImage.RunKeepsInv | src/components/OptimizedImage.jsx:20-82 | In the corrected machine, the invariant holds after every run. |
| LazyImage.AtMostOnePreload | src/components/OptimizedImage.jsx:30-73 | From mount, the corrected machine starts at most one preload in any run of events. |
| LazyImage.NoRetryAfterError | src/components/OptimizedImage.jsx:31 | Once an error is recorded it stays, and no further preload starts. |
| LazyImage.SkeletonUntilIntersect | src/components/OptimizedImage.jsx:96-112 | Without an intersecting entry, an image not in view keeps rendering the skeleton and fires no callback. |
| LazyImage.LazyImageWaitsForView | src/components/OptimizedImage.jsx:44-112 | A non-priority image renders the skeleton until an intersecting entry arrives. |
| LazyImage.RenderSelection | src/components/OptimizedImage.jsx:84-129 | The error placeholder shows if and only if there is an error. Otherwise the skeleton shows if and only if the image is neither in view nor priority, and else the picture does. The picture's opacity is `opacity-100` if and only if it is loaded, and `opacity-0` otherwise. |
| LazyImage.UnmountReleasesObserver | src/components/OptimizedImage.jsx:76-82 | After unmount, no event brings the observer back or remounts the image. |
| LazyImage.UnmountDisconnects | src/components/OptimizedImage.jsx:68-82 | Unmounting disconnects the observer. |
| LazyImage.OnLoadCanRunTwice | src/components/OptimizedImage.jsx:20-42 | Once the picture renders, both the preload and the element's own load event fire `onLoad`. This holds for a priority image from mount, and for a lazy image after its first intersecting entry. |
| LazyImage.HandleEachCounts | src/components/OptimizedImage.jsx:53-60 | As written, each delivered entry runs the handler once. With a source and no error, each starts one more preload. The first brings the image into view and disconnects the observer, and no entry changes the loaded or error flags. |
| LazyImage.BatchPreloadsPerEntryAsWritten | src/components/OptimizedImage.jsx:52-61 | As written, an observed batch starts one preload per intersecting entry it delivers. |
| LazyImage.DoubleEntryBatchAsWritten | src/components/OptimizedImage.jsx:52-61 | As written, a lazy image whose first batch holds two intersecting entries starts two preloads, and `onLoad` runs three times. |
| LazyImage.DoubleEntryBatchCorrected | src/components/OptimizedImage.jsx:52-61 | The corrected machine, on the same events, starts one preload, and `onLoad` runs twice. |
| LazyImage.CorrectionIsLocal | src/components/OptimizedImage.jsx:52-61 | The machine as written and the corrected one agree on every event except an observed batch with more than one intersecting entry. |
| LazyImage.AsWrittenAgrees | src/components/OptimizedImage.jsx:44-61 | From the invariant, the two machines agree on every run for a priority image, and on every run whose batches each deliver at most one intersecting entry. |
| LazyImage.AtMostOnePreloadAsWritten | src/components/OptimizedImage.jsx:44-61 | As written, a priority image, or an image whose batches each deliver at most one intersecting entry, starts at most one preload from mount. |

## Left out

- Real time is not modelled. Each `setTimeout` and `setInterval` expiry is an event, and durations (the typewriter's `speed`, `delay` and 500ms pause, the shell's 300ms, debounce `wait` and throttle `limit`) only order those events.
- JSX markup, CSS classes other than the ones named in the table, SVG icons, `createPortal` and React's memoisation are presentation and framework behaviour. They are not part of this model.
- `preloadImage`, the `Image` object and `IntersectionObserver` are browser APIs. They become the events `PreloadResolved`, `PreloadRejected`, `ElementLoaded`, `ElementFailed` and `Intersect`.
- `JSON.stringify` in `memoize` is an abstract key function on the argument list. Keys are therefore as fine as the key function, and the model cannot tell two argument lists apart when they serialise alike.
- `isInViewport`, `getDistanceFromTop`, `smoothScrollTo`, `batchUpdate` and `measurePerformance` depend on DOM geometry, floating-point layout, `requestAnimationFrame`, `performance.now` and console output.
- Prop changes after mount are not modelled. This covers the typewriter's `speed`, `delay` and `text`, the image's `src` and callbacks, and the effects that re-run on them. Each machine runs with fixed props.
- Two kinds of typewriter `text` array are not modelled, and the model's `TextProp` cannot express either.
  - The model's fragment list has a segment list first, and strings or segment lists after it. A later string is a valid fragment.
  - An array whose first entry is a string but which contains a list is treated as one segment list, and line 17 then throws a `TypeError` at `item.props.children` on the inner list.
  - A JSX element used as a later fragment is flattened as itself, not as text, so `flattenedText.length` on line 25 is undefined.
- Typewriter.Step: the `delay` wait (line 35, 1000ms by default) and the 500ms pause (line 40) are the events `DelayElapsed` and `PauseElapsed`. Neither timeout is ever cancelled, so in the source each outlives an unmount or a prop change and can still fire afterwards. The model has no unmount or prop change for the typewriter, so it makes no teardown promise for them.
- Typewriter: a Dafny `string` is a sequence of Unicode scalar values, while the source counts, indexes and cuts strings in UTF-16 code units (`length`, `[currentIndex]`, `slice(0, -1)` and `substring` on lines 25, 27, 31, 79, 86, 91 and 98). The model's characters stand for code units only for text inside the Basic Multilingual Plane. Text with characters outside it, such as emoji, is out of scope: the source takes two ticks per such character and briefly shows a lone surrogate, while the model takes one.
- The wrapped functions are assumed never to throw. In the source, a `func` that throws inside `throttle` (performance.js line 31) leaves before the flag is set and the timer started, so the next call runs `func` again. An `fn` that throws inside `memoize` (line 97) caches nothing, and a throwing debounced `func` only loses that one run. The model's total functions have no such path.
- The `console.error` on a failed preload (OptimizedImage.jsx line 38) is console output and is not modelled. Only the error flag and `onError` are.
- The image's `threshold` is a single number, not an array, because fractional intersection ratios are not modelled.
- Project descriptions, titles as rendered text and the skills chips are static data. The project records keep the titles, screenshot paths and skills.
- The image's `imgRef.current` null check at line 50 is not modelled. The element is assumed to be attached when the effect runs.
- Unmounting the projects page does not release the scroll lock. The page has no unmount cleanup, so only `closeModal` sets overflow back to `unset`, and the model does the same.
- react-router's route matching is not modelled. Only the path strings, the direction logic and the active-link test are.
- The home and skills pages are not part of this model. The home page's four fragments are used as a fixture for the typewriter.

## Findings

| source | as written | input that shows it | evidently intended | confidence | as-written member | corrected member |
|---|---|---|---|---|---|---|
| src/App.jsx:83-110 | When the pathname changes back to the committed route before the 300ms commit, the cleanup cancels the timer. The effect then does nothing, because the pathname equals `currentRoute`, so `isTransitioning` and the direction classes stay set with no commit left to clear them. | From `/projects`, navigate to `/skills` and back to `/projects` within 300ms. | Returning to the committed route ends the transition: the flag clears and both classes become empty. | not executed; medium | RouteShell.StepAsWritten (RouteShell.StuckTransitionAsWritten) | RouteShell.Step (RouteShell.RunKeepsShellInv, RouteShell.NeverStuck) |
| src/components/OptimizedImage.jsx:52-61 | The observer's wrapper in `utils/performance.js` (lines 53-57) calls the handler for every intersecting entry of a batch. Each call runs `loadImage` with the same `imageError`, so each starts a preload. Disconnecting inside the handler does not stop the `forEach` already under way. | A lazy image whose first observer batch holds two intersecting entries. | One preload per image, since the observer is disconnected after the first load. | not executed; low | LazyImage.StepAsWritten (LazyImage.DoubleEntryBatchAsWritten) | LazyImage.Step (LazyImage.AtMostOnePreload, LazyImage.DoubleEntryBatchCorrected) |

Two further observations need no correction:

- Any image that renders the picture fires `onLoad` twice, once from the preload and once from the element's own load event. That is a priority image from mount, or a lazy image once it has intersected (`LazyImage.OnLoadCanRunTwice`).
- The route order lists `/`, while the home link is `/joshua-portfolio`. `/joshua-portfolio` gets index -1, which still sorts before every other route, so the directions are as intended (`RouteShell.OrderMismatchHarmless`).

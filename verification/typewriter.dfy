/** The typewriter reveal engine of `src/components/TypewriterText.jsx`.

    The component cycles through a list of text fragments, typing each one
    forward a character per tick, pausing, deleting it a character per tick,
    pausing again and moving to the next fragment. A fragment is a list of
    plain or styled segments; the engine works on the fragment's flattened
    text and re-applies the segments' styles when it renders.

    Each timer the component schedules is an explicit event here: `Tick` is
    the typing timer (period `speed`), `DelayElapsed` the wait of `delay`
    after a fragment is fully typed, `PauseElapsed` the 500ms wait after it is
    fully deleted, `CursorBlink` the cursor interval. The state records which
    of the three typing-side timers is the one pending. */
module Typewriter {

  // ---------------------------------------------------------------------------
  // Fragments and their flattened text
  // ---------------------------------------------------------------------------

  /** One run of text inside a fragment: a plain string, or an element with its
      own class that carries its text as its children. */
  datatype Segment = Plain(text: string) | Styled(className: string, children: string)

  /** A fragment as the engine stores it: a bare string, or a segment list. */
  datatype Fragment = Whole(text: string) | Parts(segments: seq<Segment>)

  /** The `text` prop: a string, a single fragment written as its segment
      list (an empty JavaScript array is the empty segment list), or a list of
      fragments. A fragment list's first entry is a segment list, since that is
      what marks it as one; its later entries are strings or segment lists. */
  datatype TextProp =
    | Str(s: string)
    | Segments(segments: seq<Segment>)
    | Fragments(first: seq<Segment>, rest: seq<Fragment>)

  /** The source's test for "a list whose first element is a list". */
  predicate IsFragmentList(text: TextProp)
  {
    text.Fragments?
  }

  /** The fragment list the engine cycles through: a fragment list is used as
      it is, anything else is wrapped as a single fragment. */
  function Normalize(text: TextProp): (r: seq<Fragment>)
    ensures |r| >= 1
  {
    match text
    case Str(s) => [Whole(s)]
    case Segments(segs) => [Parts(segs)]
    case Fragments(first, rest) => [Parts(first)] + rest
  }

  /** A fragment list keeps its fragments in order; anything else becomes the
      one fragment it is. */
  lemma NormalizeShape(text: TextProp)
    ensures var r := Normalize(text);
            && (IsFragmentList(text) ==>
                  && |r| == 1 + |text.rest| && r[0] == Parts(text.first)
                  && forall i :: 0 <= i < |text.rest| ==> r[i + 1] == text.rest[i])
            && (!IsFragmentList(text) ==> |r| == 1)
            && (text.Str? ==> r == [Whole(text.s)])
            && (text.Segments? ==> r == [Parts(text.segments)])
  {
  }

  /** The text a segment contributes: a plain segment itself, a styled one its children. */
  function SegmentText(seg: Segment): string
  {
    match seg
    case Plain(t) => t
    case Styled(_, c) => c
  }

  /** The segments' texts joined in order. */
  function Concat(segs: seq<Segment>): string
    decreases |segs|
  {
    if |segs| == 0 then "" else SegmentText(segs[0]) + Concat(segs[1..])
  }

  /** Joining is in order: the text of two lists one after the other is the
      text of the first followed by the text of the second. */
  lemma {:induction false} ConcatAppend(a: seq<Segment>, b: seq<Segment>)
    ensures Concat(a + b) == Concat(a) + Concat(b)
    decreases |a|
  {
    if |a| == 0 {
      assert a + b == b;
    } else {
      assert (a + b)[0] == a[0];
      assert (a + b)[1..] == a[1..] + b;
      ConcatAppend(a[1..], b);
    }
  }

  /** The flattened text the engine types. */
  function Flatten(f: Fragment): string
  {
    match f
    case Whole(t) => t
    case Parts(segs) => Concat(segs)
  }

  // ---------------------------------------------------------------------------
  // The tick-driven state machine
  // ---------------------------------------------------------------------------

  /** The component's props. `loop` is accepted but never read. */
  datatype Config = Config(text: TextProp, speed: nat, cursor: bool, loop: bool, delay: nat)

  /** The props with the component's defaults for everything but `text`. */
  function DefaultConfig(text: TextProp): Config
  {
    Config(text, 50, true, false, 1000)
  }

  /** Which typing-side timer is pending. */
  datatype Timer = TypingTick | DeleteDelay | AdvancePause

  datatype State = State(fragment: nat, charIndex: nat, deleting: bool, display: string,
                         showCursor: bool, timer: Timer)

  datatype Event = Tick | DelayElapsed | PauseElapsed | CursorBlink

  /** The state on mount: first fragment, nothing typed, typing timer pending. */
  const Initial: State := State(0, 0, false, "", true, TypingTick)

  function Count(cfg: Config): nat
  {
    |Normalize(cfg.text)|
  }

  /** The flattened text of the fragment the state is on. */
  function CurrentText(cfg: Config, s: State): string
    requires s.fragment < Count(cfg)
  {
    Flatten(Normalize(cfg.text)[s.fragment])
  }

  /** A string without its last character; empty stays empty. */
  function DropLast(t: string): (r: string)
    ensures |t| > 0 ==> r + [t[|t| - 1]] == t
    ensures |r| == if |t| == 0 then 0 else |t| - 1
  {
    if |t| == 0 then "" else t[..|t| - 1]
  }

  /** Dropping the last character undoes appending one, and the empty string
      has nothing to drop. */
  lemma DropLastUndoesAppend(t: string, c: char)
    ensures DropLast(t + [c]) == t
    ensures DropLast("") == ""
  {
    assert (t + [c])[..|t|] == t;
  }

  /** One event. A timer that is not the pending one cannot fire and leaves the
      state as it is. */
  function Step(cfg: Config, s: State, e: Event): (r: State)
    requires s.fragment < Count(cfg)
    ensures r.fragment < Count(cfg)
  {
    match e
    case Tick =>
      if s.timer != TypingTick then s
      else
        var flat := CurrentText(cfg, s);
        if !s.deleting && s.charIndex < |flat| then
          s.(display := s.display + [flat[s.charIndex]], charIndex := s.charIndex + 1)
        else if s.deleting && s.charIndex > 0 then
          s.(display := DropLast(s.display), charIndex := s.charIndex - 1)
        else if !s.deleting then
          // fully typed: no state changes, so no new tick; only the delay timer is pending
          s.(timer := DeleteDelay)
        else
          s.(timer := AdvancePause)
    case DelayElapsed =>
      if s.timer != DeleteDelay then s else s.(deleting := true, timer := TypingTick)
    case PauseElapsed =>
      if s.timer != AdvancePause then s
      else
        var next := (s.fragment + 1) % Count(cfg);
        if next == s.fragment then
          // a single fragment: the index does not change, so the reset effect does not run
          s.(deleting := false, timer := TypingTick)
        else
          // the fragment-change effect clears the text, the index and the phase
          State(next, 0, false, "", s.showCursor, TypingTick)
    case CursorBlink =>
      if cfg.cursor then s.(showCursor := !s.showCursor) else s
  }

  /** The state after the events `es`, in order. */
  function Run(cfg: Config, s: State, es: seq<Event>): (r: State)
    requires s.fragment < Count(cfg)
    ensures r.fragment < Count(cfg)
    decreases |es|
  {
    if |es| == 0 then s else Run(cfg, Step(cfg, s, es[0]), es[1..])
  }

  /** The engine's invariant: the displayed text is always the prefix of the
      flattened text of length `charIndex`, and a pause timer is pending only at
      the end of its phase. */
  predicate Inv(cfg: Config, s: State)
  {
    && s.fragment < Count(cfg)
    && s.charIndex <= |CurrentText(cfg, s)|
    && s.display == CurrentText(cfg, s)[..s.charIndex]
    && (s.timer == DeleteDelay ==> !s.deleting && s.charIndex == |CurrentText(cfg, s)|)
    && (s.timer == AdvancePause ==> s.deleting && s.charIndex == 0)
  }

  lemma InitialInv(cfg: Config)
    ensures Inv(cfg, Initial)
  {
  }

  /** Every event keeps the invariant. */
  lemma StepKeepsInv(cfg: Config, s: State, e: Event)
    requires Inv(cfg, s)
    ensures Inv(cfg, Step(cfg, s, e))
  {
    var flat := CurrentText(cfg, s);
    if e == Tick && s.timer == TypingTick {
      if !s.deleting && s.charIndex < |flat| {
        assert flat[..s.charIndex] + [flat[s.charIndex]] == flat[..s.charIndex + 1];
      } else if s.deleting && s.charIndex > 0 {
        assert DropLast(s.display) == flat[..s.charIndex - 1];
      }
    }
  }

  /** Any sequence of events keeps the invariant. */
  lemma {:induction false} RunKeepsInv(cfg: Config, s: State, es: seq<Event>)
    requires Inv(cfg, s)
    ensures Inv(cfg, Run(cfg, s, es))
    decreases |es|
  {
    if |es| > 0 {
      StepKeepsInv(cfg, s, es[0]);
      RunKeepsInv(cfg, Step(cfg, s, es[0]), es[1..]);
    }
  }

  /** A typing tick appends the next character of the flattened text. */
  lemma TypingTickAppends(cfg: Config, s: State)
    requires Inv(cfg, s) && s.timer == TypingTick && !s.deleting
    requires s.charIndex < |CurrentText(cfg, s)|
    ensures Step(cfg, s, Tick).display == s.display + [CurrentText(cfg, s)[s.charIndex]]
    ensures Step(cfg, s, Tick).display == CurrentText(cfg, s)[..s.charIndex + 1]
    ensures Step(cfg, s, Tick).charIndex == s.charIndex + 1
    ensures Step(cfg, s, Tick).fragment == s.fragment && !Step(cfg, s, Tick).deleting
  {
    StepKeepsInv(cfg, s, Tick);
  }

  /** A deleting tick drops the last displayed character. */
  lemma DeletingTickDrops(cfg: Config, s: State)
    requires Inv(cfg, s) && s.timer == TypingTick && s.deleting && s.charIndex > 0
    ensures Step(cfg, s, Tick).display == s.display[..|s.display| - 1]
    ensures Step(cfg, s, Tick).display == CurrentText(cfg, s)[..s.charIndex - 1]
    ensures Step(cfg, s, Tick).charIndex == s.charIndex - 1
    ensures Step(cfg, s, Tick).fragment == s.fragment && Step(cfg, s, Tick).deleting
  {
    StepKeepsInv(cfg, s, Tick);
  }

  /** Once a fragment is fully typed, the next tick only arms the delay, and
      the delay's expiry switches to deleting. */
  lemma FullyTypedStartsDeleting(cfg: Config, s: State)
    requires Inv(cfg, s) && s.timer == TypingTick && !s.deleting
    requires s.charIndex == |CurrentText(cfg, s)|
    ensures Step(cfg, s, Tick) == s.(timer := DeleteDelay)
    ensures Run(cfg, s, [Tick, DelayElapsed]) == s.(deleting := true)
  {
    assert [Tick, DelayElapsed][1..] == [DelayElapsed];
    assert [DelayElapsed][1..] == [];
  }

  /** The index after `f` among `n` fragments: one more, or back to zero
      after the last. */
  lemma NextIndexWraps(f: nat, n: nat)
    requires f < n
    ensures (f + 1) % n == if f + 1 < n then f + 1 else 0
  {
  }

  /** Once a fragment is fully deleted, the next tick only arms the pause, and
      the pause's expiry moves to the next fragment, wrapping after the last,
      with an empty display and the typing phase restored. */
  lemma FullyDeletedAdvances(cfg: Config, s: State)
    requires Inv(cfg, s) && s.timer == TypingTick && s.deleting && s.charIndex == 0
    ensures Step(cfg, s, Tick) == s.(timer := AdvancePause)
    ensures var r := Run(cfg, s, [Tick, PauseElapsed]);
            && r.fragment == (s.fragment + 1) % Count(cfg)
            && (s.fragment == Count(cfg) - 1 ==> r.fragment == 0)
            && r.charIndex == 0 && r.display == "" && !r.deleting && r.timer == TypingTick
            && r.showCursor == s.showCursor
  {
    var t := Step(cfg, s, Tick);
    assert t == s.(timer := AdvancePause);
    assert s.display == "";
    NextIndexWraps(s.fragment, Count(cfg));
    assert [Tick, PauseElapsed][1..] == [PauseElapsed];
    assert [PauseElapsed][1..] == [];
    assert Run(cfg, s, [Tick, PauseElapsed]) == Run(cfg, t, [PauseElapsed]);
    assert Run(cfg, t, [PauseElapsed]) == Step(cfg, t, PauseElapsed);
  }

  /** The `loop` prop is never consulted: runs with and without it agree. */
  lemma {:induction false} LoopNeverConsulted(cfg: Config, s: State, es: seq<Event>, loop: bool)
    requires s.fragment < Count(cfg)
    ensures Run(cfg.(loop := loop), s, es) == Run(cfg, s, es)
    decreases |es|
  {
    if |es| > 0 {
      assert Step(cfg.(loop := loop), s, es[0]) == Step(cfg, s, es[0]);
      LoopNeverConsulted(cfg, Step(cfg, s, es[0]), es[1..], loop);
    }
  }

  /** `k` typing timer events. */
  function Ticks(k: nat): (r: seq<Event>)
    ensures |r| == k
    ensures forall i :: 0 <= i < k ==> r[i] == Tick
  {
    if k == 0 then [] else [Tick] + Ticks(k - 1)
  }

  /** Running two event sequences one after the other is running their concatenation. */
  lemma {:induction false} RunAppend(cfg: Config, s: State, a: seq<Event>, b: seq<Event>)
    requires s.fragment < Count(cfg)
    ensures Run(cfg, s, a + b) == Run(cfg, Run(cfg, s, a), b)
    decreases |a|
  {
    if |a| == 0 {
      assert a + b == b;
    } else {
      assert (a + b)[0] == a[0];
      assert (a + b)[1..] == a[1..] + b;
      RunAppend(cfg, Step(cfg, s, a[0]), a[1..], b);
    }
  }

  /** `k` typing ticks reveal the next `k` characters. */
  lemma {:induction false} TypingReveals(cfg: Config, s: State, k: nat)
    requires Inv(cfg, s) && s.timer == TypingTick && !s.deleting
    requires s.charIndex + k <= |CurrentText(cfg, s)|
    ensures var r := Run(cfg, s, Ticks(k));
            && Inv(cfg, r) && r.fragment == s.fragment && !r.deleting && r.timer == TypingTick
            && r.charIndex == s.charIndex + k
            && r.display == CurrentText(cfg, s)[..s.charIndex + k]
    decreases k
  {
    if k > 0 {
      TypingTickAppends(cfg, s);
      StepKeepsInv(cfg, s, Tick);
      var s' := Step(cfg, s, Tick);
      assert Ticks(k)[1..] == Ticks(k - 1);
      assert Run(cfg, s, Ticks(k)) == Run(cfg, s', Ticks(k - 1));
      assert CurrentText(cfg, s') == CurrentText(cfg, s);
      TypingReveals(cfg, s', k - 1);
    }
  }

  /** `k` deleting ticks remove the last `k` characters. */
  lemma {:induction false} DeletingHides(cfg: Config, s: State, k: nat)
    requires Inv(cfg, s) && s.timer == TypingTick && s.deleting
    requires k <= s.charIndex
    ensures var r := Run(cfg, s, Ticks(k));
            && Inv(cfg, r) && r.fragment == s.fragment && r.deleting && r.timer == TypingTick
            && r.charIndex == s.charIndex - k
            && r.display == CurrentText(cfg, s)[..s.charIndex - k]
    decreases k
  {
    if k > 0 {
      DeletingTickDrops(cfg, s);
      StepKeepsInv(cfg, s, Tick);
      var s' := Step(cfg, s, Tick);
      assert Ticks(k)[1..] == Ticks(k - 1);
      assert Run(cfg, s, Ticks(k)) == Run(cfg, s', Ticks(k - 1));
      assert CurrentText(cfg, s') == CurrentText(cfg, s);
      DeletingHides(cfg, s', k - 1);
    }
  }

  /** The events of one whole cycle on a fragment whose text has length `n`. */
  function Cycle(n: nat): seq<Event>
  {
    Ticks(n) + [Tick, DelayElapsed] + Ticks(n) + [Tick, PauseElapsed]
  }

  /** One whole cycle: starting fresh on a fragment, typing it out shows the
      whole flattened text; after the delay it is deleted again, and after the
      pause the engine starts fresh on the next fragment, wrapping after the last. */
  lemma FullCycle(cfg: Config, s: State)
    requires Inv(cfg, s) && s.charIndex == 0 && !s.deleting && s.timer == TypingTick
    ensures var n := |CurrentText(cfg, s)|;
            Run(cfg, s, Ticks(n)).display == CurrentText(cfg, s)
    ensures var r := Run(cfg, s, Cycle(|CurrentText(cfg, s)|));
            && r.fragment == (s.fragment + 1) % Count(cfg)
            && r.charIndex == 0 && r.display == "" && !r.deleting && r.timer == TypingTick
  {
    var n := |CurrentText(cfg, s)|;
    TypingReveals(cfg, s, n);
    var typed := Run(cfg, s, Ticks(n));
    FullyTypedStartsDeleting(cfg, typed);
    var armed := Run(cfg, typed, [Tick, DelayElapsed]);
    assert armed == typed.(deleting := true);
    DeletingHides(cfg, armed, n);
    var deleted := Run(cfg, armed, Ticks(n));
    FullyDeletedAdvances(cfg, deleted);
    RunAppend(cfg, s, Ticks(n), [Tick, DelayElapsed]);
    RunAppend(cfg, s, Ticks(n) + [Tick, DelayElapsed], Ticks(n));
    RunAppend(cfg, s, Ticks(n) + [Tick, DelayElapsed] + Ticks(n), [Tick, PauseElapsed]);
  }

  /** A single two-letter fragment with the default props: two ticks type it,
      the next tick and the delay start deletion, two more ticks clear it. */
  lemma TypesAndDeletesHi()
    ensures Run(DefaultConfig(Str("Hi")), Initial, [Tick, Tick]).display == "Hi"
    ensures Run(DefaultConfig(Str("Hi")), Initial, [Tick, Tick, Tick, DelayElapsed]).deleting
    ensures Run(DefaultConfig(Str("Hi")), Initial, [Tick, Tick, Tick, DelayElapsed, Tick, Tick]).display == ""
  {
    var cfg := DefaultConfig(Str("Hi"));
    assert CurrentText(cfg, Initial) == "Hi";
    TypingReveals(cfg, Initial, 2);
    assert Ticks(2) == [Tick, Tick];
    var typed := Run(cfg, Initial, [Tick, Tick]);
    FullyTypedStartsDeleting(cfg, typed);
    RunAppend(cfg, Initial, [Tick, Tick], [Tick, DelayElapsed]);
    assert [Tick, Tick] + [Tick, DelayElapsed] == [Tick, Tick, Tick, DelayElapsed];
    var armed := Run(cfg, typed, [Tick, DelayElapsed]);
    DeletingHides(cfg, armed, 2);
    RunAppend(cfg, Initial, [Tick, Tick, Tick, DelayElapsed], [Tick, Tick]);
    assert [Tick, Tick, Tick, DelayElapsed] + [Tick, Tick] == [Tick, Tick, Tick, DelayElapsed, Tick, Tick];
  }

  // ---------------------------------------------------------------------------
  // The cursor
  // ---------------------------------------------------------------------------

  /** The cursor glyph is rendered when the prop asks for it and the blink flag is on. */
  predicate CursorShown(cfg: Config, s: State)
  {
    cfg.cursor && s.showCursor
  }

  /** With the cursor enabled each blink flips its visibility and leaves the
      typing state alone; with it disabled there is no interval and nothing shows. */
  lemma CursorBlinks(cfg: Config, s: State)
    requires s.fragment < Count(cfg)
    ensures cfg.cursor ==> (CursorShown(cfg, Step(cfg, s, CursorBlink)) <==> !CursorShown(cfg, s))
    ensures Step(cfg, s, CursorBlink).(showCursor := s.showCursor) == s
    ensures !cfg.cursor ==> !CursorShown(cfg, s) && Step(cfg, s, CursorBlink) == s
  {
  }

  // ---------------------------------------------------------------------------
  // Rendering
  // ---------------------------------------------------------------------------

  /** What the component renders for the text: a bare string when the fragment
      is a string, otherwise a list of (possibly shortened) segments. */
  datatype Rendered = Text(text: string) | Pieces(pieces: seq<Segment>)

  /** The first `n` characters of a segment, keeping its kind and class. */
  function Truncate(seg: Segment, n: nat): (r: Segment)
    requires n <= |SegmentText(seg)|
    ensures SegmentText(r) == SegmentText(seg)[..n]
  {
    match seg
    case Plain(t) => Plain(t[..n])
    case Styled(c, ch) => Styled(c, ch[..n])
  }

  /** Two segments of the same kind with the same class. */
  predicate SameStyle(a: Segment, b: Segment)
  {
    (a.Plain? && b.Plain?) || (a.Styled? && b.Styled? && a.className == b.className)
  }

  /** The walk over the segments with a running offset: a segment that ends
      within the displayed length is emitted whole, one that starts within it
      is emitted cut to the remaining length, the rest are skipped. */
  function RenderFrom(segs: seq<Segment>, offset: nat, shown: nat): seq<Segment>
    decreases |segs|
  {
    if |segs| == 0 then []
    else
      var len := |SegmentText(segs[0])|;
      var rest := RenderFrom(segs[1..], offset + len, shown);
      if offset + len <= shown then [segs[0]] + rest
      else if offset < shown then [Truncate(segs[0], shown - offset)] + rest
      else rest
  }

  function RenderTypedText(f: Fragment, display: string): Rendered
  {
    match f
    case Whole(_) => Text(display)
    case Parts(segs) => Pieces(RenderFrom(segs, 0, |display|))
  }

  /** Segments starting past the displayed length are all skipped. */
  lemma {:induction false} RenderPastEnd(segs: seq<Segment>, offset: nat, shown: nat)
    requires offset > shown
    ensures RenderFrom(segs, offset, shown) == []
    decreases |segs|
  {
    if |segs| > 0 {
      RenderPastEnd(segs[1..], offset + |SegmentText(segs[0])|, shown);
    }
  }

  /** Every emitted piece is a prefix of the segment at the same position,
      with that segment's kind and class, and only the last one can be cut. */
  lemma {:induction false} RenderPiecesArePrefixes(segs: seq<Segment>, offset: nat, shown: nat)
    ensures var r := RenderFrom(segs, offset, shown);
            && |r| <= |segs|
            && (forall k :: 0 <= k < |r| ==>
                  SameStyle(r[k], segs[k]) && SegmentText(r[k]) <= SegmentText(segs[k]))
            && (forall k :: 0 <= k < |r| - 1 ==> r[k] == segs[k])
    decreases |segs|
  {
    if |segs| > 0 {
      var len := |SegmentText(segs[0])|;
      var rest := RenderFrom(segs[1..], offset + len, shown);
      RenderPiecesArePrefixes(segs[1..], offset + len, shown);
      var r := RenderFrom(segs, offset, shown);
      if offset + len <= shown {
        assert r == [segs[0]] + rest;
        forall k | 0 <= k < |r|
          ensures SameStyle(r[k], segs[k]) && SegmentText(r[k]) <= SegmentText(segs[k])
        {
          if k > 0 {
            assert r[k] == rest[k - 1] && segs[k] == segs[1..][k - 1];
          }
        }
        forall k | 0 <= k < |r| - 1
          ensures r[k] == segs[k]
        {
          if k > 0 {
            assert r[k] == rest[k - 1] && segs[k] == segs[1..][k - 1];
          }
        }
      } else {
        RenderPastEnd(segs[1..], offset + len, shown);
        assert rest == [];
      }
    }
  }

  /** How many characters of a text of length `total`, starting at `offset`,
      fall within the displayed length. */
  function Revealed(offset: nat, shown: nat, total: nat): (r: nat)
    ensures r <= total
  {
    if shown <= offset then 0 else if shown - offset < total then shown - offset else total
  }

  /** The emitted pieces join to exactly the revealed part of the segments' text. */
  lemma {:induction false} RenderConcat(segs: seq<Segment>, offset: nat, shown: nat)
    ensures Concat(RenderFrom(segs, offset, shown)) == Concat(segs)[..Revealed(offset, shown, |Concat(segs)|)]
    decreases |segs|
  {
    if |segs| > 0 {
      var head := SegmentText(segs[0]);
      var len := |head|;
      var tail := Concat(segs[1..]);
      assert Concat(segs) == head + tail;
      var rest := RenderFrom(segs[1..], offset + len, shown);
      RenderConcat(segs[1..], offset + len, shown);
      if offset + len <= shown {
        ConcatAppend([segs[0]], rest);
        assert [segs[0]][1..] == [];
        assert Concat([segs[0]]) == head;
        var m := Revealed(offset + len, shown, |tail|);
        assert Concat(rest) == tail[..m];
        assert (head + tail)[..len + m] == head + tail[..m];
        assert Revealed(offset, shown, |head + tail|) == len + m;
      } else if offset < shown {
        RenderPastEnd(segs[1..], offset + len, shown);
        var piece := Truncate(segs[0], shown - offset);
        assert RenderFrom(segs, offset, shown) == [piece];
        assert [piece][1..] == [];
        assert Concat([piece]) == head[..shown - offset];
        assert (head + tail)[..shown - offset] == head[..shown - offset];
      } else {
        RenderPastEnd(segs[1..], offset + len, shown);
      }
    }
  }

  /** Rendering loses nothing and adds nothing: whenever the displayed text is
      a prefix of the fragment's flattened text, the rendered output joins to
      exactly the displayed text. */
  lemma RenderShowsDisplay(f: Fragment, display: string)
    requires display <= Flatten(f)
    ensures f.Whole? ==> RenderTypedText(f, display) == Text(display)
    ensures f.Parts? ==> Concat(RenderTypedText(f, display).pieces) == display
  {
    if f.Parts? {
      RenderConcat(f.segments, 0, |display|);
    }
  }

  /** Under the engine's invariant the render of the current fragment always
      shows exactly the displayed text. */
  lemma RenderOfStateShowsDisplay(cfg: Config, s: State)
    requires Inv(cfg, s)
    ensures var f := Normalize(cfg.text)[s.fragment];
            f.Parts? ==> Concat(RenderTypedText(f, s.display).pieces) == s.display
  {
    RenderShowsDisplay(Normalize(cfg.text)[s.fragment], s.display);
  }

  // ---------------------------------------------------------------------------
  // The home page's fragments
  // ---------------------------------------------------------------------------

  const Highlight: string := "text-red-500 font-bold"

  /** The four fragments the home page cycles through. */
  const HomeText: TextProp := Fragments(
    [Plain("An aspiring "), Styled(Highlight, "Web Developer")],
    [Parts([Plain("A passionate "), Styled(Highlight, "Web Developer")]),
     Parts([Plain("A growing "), Styled(Highlight, "Web Developer")]),
     Parts([Plain("A modern "), Styled(Highlight, "Web Developer")])])

  /** The props the home page passes: speed 70, the cursor, `loop` and a
      2000ms delay. */
  const HomeConfig: Config := Config(HomeText, 70, true, true, 2000)

  /** On the home page's fragments: four fragments, the first flattens to its
      full sentence, and a partly typed display keeps the highlight on the part
      of the styled word already shown. After the last fragment the engine
      wraps to the first. */
  lemma HomeTextExample()
    ensures Count(HomeConfig) == 4
    ensures forall s: State :: s.fragment == 3 && s.timer == AdvancePause ==>
              Step(HomeConfig, s, PauseElapsed).fragment == 0
    ensures Flatten(Normalize(HomeText)[0]) == "An aspiring Web Developer"
    ensures RenderTypedText(Normalize(HomeText)[0], "An aspiring We")
            == Pieces([Plain("An aspiring "), Styled(Highlight, "We")])
    ensures RenderTypedText(Normalize(HomeText)[0], "An asp") == Pieces([Plain("An asp")])
  {
    var segs := [Plain("An aspiring "), Styled(Highlight, "Web Developer")];
    assert Normalize(HomeText)[0] == Parts(segs);
    var tail := segs[1..];
    assert tail == [Styled(Highlight, "Web Developer")];
    assert tail[1..] == [];
    assert Concat(tail) == "Web Developer";
    assert Concat(segs) == "An aspiring " + "Web Developer";
    assert |"An aspiring "| == 12 && |"Web Developer"| == 13;
    assert RenderFrom(tail[1..], 25, 14) == [];
    assert "Web Developer"[..2] == "We";
    assert Truncate(Styled(Highlight, "Web Developer"), 2) == Styled(Highlight, "We");
    assert RenderFrom(tail, 12, 14) == [Styled(Highlight, "We")];
    assert RenderFrom(tail, 12, 6) == [];
    assert "An aspiring "[..6] == "An asp";
  }
}

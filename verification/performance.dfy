/** The rate-limit and cache combinators of `src/utils/performance.js`, and the
    two pure parts of its intersection-observer helper.

    Each wrapper the source builds is a closure over a little private state; that
    state is a datatype here, and every call of the wrapper, or expiry of the
    timer it scheduled, is an explicit event handled by a pure step function.
    Time itself is not modelled: an `Expire` event stands for "the timer that is
    pending now has fired". */
module Performance {
  import opened Optional

  // ---------------------------------------------------------------------------
  // memoize
  // ---------------------------------------------------------------------------

  /** The closure state of a memoized wrapper: its cache, which is never pruned,
      and how many times the wrapped function has actually run. */
  datatype Memo<K, V> = Memo(cache: map<K, V>, invocations: nat)

  /** What one call of the memoized wrapper returns, with the state after it. */
  datatype Answer<K, V> = Answer(value: V, memo: Memo<K, V>)

  /** A freshly created wrapper: empty cache, no invocation yet. */
  function EmptyMemo<K, V>(): Memo<K, V>
  {
    Memo(map[], 0)
  }

  /** One call of the wrapper with `args`. `key` stands for the serialisation
      of the argument list; `fn` is the wrapped function. */
  function MemoCall<A, K(==), V>(m: Memo<K, V>, key: A -> K, fn: A -> V, args: A): (r: Answer<K, V>)
    ensures key(args) in r.memo.cache && r.value == r.memo.cache[key(args)]
    ensures m.cache.Keys <= r.memo.cache.Keys
    ensures forall k :: k in m.cache ==> r.memo.cache[k] == m.cache[k]
  {
    var k := key(args);
    if k in m.cache then
      Answer(m.cache[k], m)
    else
      var v := fn(args);
      Answer(v, Memo(m.cache[k := v], m.invocations + 1))
  }

  /** The wrapper's state after the calls `calls`, made in order from a fresh wrapper. */
  function MemoRun<A, K(==), V>(key: A -> K, fn: A -> V, calls: seq<A>): (m: Memo<K, V>)
    decreases |calls|
  {
    if |calls| == 0 then EmptyMemo()
    else MemoCall(MemoRun(key, fn, calls[..|calls| - 1]), key, fn, calls[|calls| - 1]).memo
  }

  /** Reference definition: the position of the first call whose arguments
      serialise to `k`, or -1 when there is none. */
  function FirstWithKey<A, K(==)>(key: A -> K, calls: seq<A>, k: K): (r: int)
    ensures -1 <= r < |calls|
    ensures r == -1 <==> forall i :: 0 <= i < |calls| ==> key(calls[i]) != k
    ensures r >= 0 ==> key(calls[r]) == k && forall i :: 0 <= i < r ==> key(calls[i]) != k
    decreases |calls|
  {
    if |calls| == 0 then -1
    else
      var f := FirstWithKey(key, calls[..|calls| - 1], k);
      if f >= 0 then f
      else if key(calls[|calls| - 1]) == k then |calls| - 1
      else -1
  }

  /** One more call adds its key to the cache and keeps every earlier entry. */
  lemma MemoRunLast<A, K, V>(key: A -> K, fn: A -> V, calls: seq<A>)
    requires |calls| > 0
    ensures MemoRun(key, fn, calls).cache.Keys
            == MemoRun(key, fn, calls[..|calls| - 1]).cache.Keys + {key(calls[|calls| - 1])}
    ensures forall k :: k in MemoRun(key, fn, calls[..|calls| - 1]).cache ==>
              MemoRun(key, fn, calls).cache[k] == MemoRun(key, fn, calls[..|calls| - 1]).cache[k]
  {
  }

  /** After any sequence of calls, the cache holds exactly the keys that were called. */
  lemma {:induction false} MemoRunKeys<A, K, V>(key: A -> K, fn: A -> V, calls: seq<A>)
    ensures forall k :: k in MemoRun(key, fn, calls).cache <==> FirstWithKey(key, calls, k) >= 0
    decreases |calls|
  {
    if |calls| > 0 {
      var n := |calls| - 1;
      var prefix := calls[..n];
      MemoRunKeys(key, fn, prefix);
      MemoRunLast(key, fn, calls);
      var before := MemoRun(key, fn, prefix).cache;
      var after := MemoRun(key, fn, calls).cache;
      forall k
        ensures k in after <==> FirstWithKey(key, calls, k) >= 0
      {
        assert k in before <==> FirstWithKey(key, prefix, k) >= 0;
      }
    }
  }

  /** Each cached value is what `fn` returned for the FIRST call with that key. */
  lemma {:induction false} MemoRunValues<A, K, V>(key: A -> K, fn: A -> V, calls: seq<A>)
    ensures forall k :: k in MemoRun(key, fn, calls).cache ==>
              FirstWithKey(key, calls, k) >= 0 &&
              MemoRun(key, fn, calls).cache[k] == fn(calls[FirstWithKey(key, calls, k)])
    decreases |calls|
  {
    if |calls| > 0 {
      var n := |calls| - 1;
      var prefix := calls[..n];
      MemoRunValues(key, fn, prefix);
      MemoRunKeys(key, fn, prefix);
      MemoRunLast(key, fn, calls);
      var before := MemoRun(key, fn, prefix);
      var after := MemoRun(key, fn, calls).cache;
      forall k | k in after
        ensures FirstWithKey(key, calls, k) >= 0 && after[k] == fn(calls[FirstWithKey(key, calls, k)])
      {
        if k in before.cache {
          var f := FirstWithKey(key, prefix, k);
          assert calls[f] == prefix[f];
        } else {
          assert FirstWithKey(key, prefix, k) == -1;
          assert after == before.cache[key(calls[n]) := fn(calls[n])];
        }
      }
    }
  }

  /** `fn` has run exactly once per distinct key. */
  lemma {:induction false} MemoRunInvocations<A, K, V>(key: A -> K, fn: A -> V, calls: seq<A>)
    ensures MemoRun(key, fn, calls).invocations == |MemoRun(key, fn, calls).cache.Keys|
    decreases |calls|
  {
    if |calls| > 0 {
      var n := |calls| - 1;
      MemoRunInvocations(key, fn, calls[..n]);
      MemoRunLast(key, fn, calls);
    }
  }

  /** The value returned by the last of `calls`. */
  function LastAnswer<A, K(==), V>(key: A -> K, fn: A -> V, calls: seq<A>): V
    requires |calls| > 0
  {
    MemoCall(MemoRun(key, fn, calls[..|calls| - 1]), key, fn, calls[|calls| - 1]).value
  }

  /** A call returns what `fn` gave for the first earlier-or-equal call whose
      arguments serialise the same way; when such an earlier call exists, `fn`
      is not invoked again. */
  lemma MemoAnswerIsFirstResult<A, K, V>(key: A -> K, fn: A -> V, calls: seq<A>)
    requires |calls| > 0
    ensures LastAnswer(key, fn, calls) == fn(calls[FirstWithKey(key, calls, key(calls[|calls| - 1]))])
    ensures FirstWithKey(key, calls, key(calls[|calls| - 1])) < |calls| - 1 ==>
              MemoRun(key, fn, calls).invocations == MemoRun(key, fn, calls[..|calls| - 1]).invocations
    ensures FirstWithKey(key, calls, key(calls[|calls| - 1])) == |calls| - 1 ==>
              MemoRun(key, fn, calls).invocations == MemoRun(key, fn, calls[..|calls| - 1]).invocations + 1
  {
    var n := |calls| - 1;
    var prefix := calls[..n];
    MemoRunKeys(key, fn, prefix);
    MemoRunValues(key, fn, prefix);
    MemoRunKeys(key, fn, calls);
    MemoRunValues(key, fn, calls);
    MemoRunInvocations(key, fn, prefix);
    MemoRunInvocations(key, fn, calls);
    MemoRunLast(key, fn, calls);
    var k := key(calls[n]);
    if FirstWithKey(key, prefix, k) >= 0 {
      assert calls[FirstWithKey(key, prefix, k)] == prefix[FirstWithKey(key, prefix, k)];
    }
  }

  // ---------------------------------------------------------------------------
  // debounce and throttle
  // ---------------------------------------------------------------------------

  /** An event reaching a rate-limited wrapper: a call with its arguments, or
      the expiry of the timer the wrapper has pending. */
  datatype RateEvent<A> = Invoke(args: A) | Expire

  /** The closure state of a debounced wrapper: the arguments of the scheduled
      invocation, if one is scheduled. */
  datatype Debouncer<A> = Debouncer(pending: Option<A>)

  /** One event: a call clears the pending timeout and schedules a fresh one
      carrying its own arguments; an expiry runs the wrapped function once with
      the scheduled arguments. The second component is the invocation that ran. */
  function DebounceStep<A>(d: Debouncer<A>, e: RateEvent<A>): (Debouncer<A>, Option<A>)
  {
    match e
    case Invoke(args) => (Debouncer(Some(args)), None)
    case Expire => (Debouncer(None), d.pending)
  }

  function OptionToSeq<A>(o: Option<A>): seq<A>
  {
    match o
    case None => []
    case Some(a) => [a]
  }

  /** The state after the events `es`, with the arguments of every invocation
      of the wrapped function, in order. */
  function DebounceRun<A>(d: Debouncer<A>, es: seq<RateEvent<A>>): (Debouncer<A>, seq<A>)
    decreases |es|
  {
    if |es| == 0 then (d, [])
    else
      var step := DebounceStep(d, es[0]);
      var rest := DebounceRun(step.0, es[1..]);
      (rest.0, OptionToSeq(step.1) + rest.1)
  }

  /** The calls `xs`, one event each. */
  function Invokes<A>(xs: seq<A>): (r: seq<RateEvent<A>>)
    ensures |r| == |xs|
    ensures forall i :: 0 <= i < |xs| ==> r[i] == Invoke(xs[i])
  {
    if |xs| == 0 then [] else [Invoke(xs[0])] + Invokes(xs[1..])
  }

  function CountInvokes<A>(es: seq<RateEvent<A>>): nat
  {
    if |es| == 0 then 0 else (if es[0].Invoke? then 1 else 0) + CountInvokes(es[1..])
  }

  function CountExpires<A>(es: seq<RateEvent<A>>): nat
  {
    if |es| == 0 then 0 else (if es[0].Expire? then 1 else 0) + CountExpires(es[1..])
  }

  /** Running two event sequences one after the other is running their concatenation. */
  lemma {:induction false} DebounceRunAppend<A>(d: Debouncer<A>, a: seq<RateEvent<A>>, b: seq<RateEvent<A>>)
    ensures DebounceRun(d, a + b).0 == DebounceRun(DebounceRun(d, a).0, b).0
    ensures DebounceRun(d, a + b).1 == DebounceRun(d, a).1 + DebounceRun(DebounceRun(d, a).0, b).1
    decreases |a|
  {
    if |a| > 0 {
      assert (a + b)[0] == a[0];
      assert (a + b)[1..] == a[1..] + b;
      var step := DebounceStep(d, a[0]);
      DebounceRunAppend(step.0, a[1..], b);
      var restA := DebounceRun(step.0, a[1..]);
      var restAB := DebounceRun(step.0, a[1..] + b);
      assert DebounceRun(d, a) == (restA.0, OptionToSeq(step.1) + restA.1);
      assert DebounceRun(d, a + b) == (restAB.0, OptionToSeq(step.1) + restAB.1);
    } else {
      assert a + b == b;
    }
  }

  /** A burst of calls runs nothing while it lasts and leaves only the last
      call's arguments scheduled. */
  lemma {:induction false} DebounceBurstSchedulesLast<A>(d: Debouncer<A>, xs: seq<A>)
    requires |xs| > 0
    ensures DebounceRun(d, Invokes(xs)) == (Debouncer(Some(xs[|xs| - 1])), [])
    decreases |xs|
  {
    var es := Invokes(xs);
    var next := Debouncer(Some(xs[0]));
    assert es[0] == Invoke(xs[0]);
    assert es[1..] == Invokes(xs[1..]);
    var rest := DebounceRun(next, es[1..]);
    if |xs| > 1 {
      DebounceBurstSchedulesLast(next, xs[1..]);
    } else {
      assert es[1..] == [];
    }
    assert DebounceRun(d, es) == (rest.0, [] + rest.1);
    assert [] + rest.1 == rest.1;
  }

  /** A burst of calls followed by the timer's expiry runs the wrapped function
      exactly once, with the arguments of the last call of the burst. */
  lemma DebounceRunsLastOfBurst<A>(d: Debouncer<A>, xs: seq<A>)
    requires |xs| > 0
    ensures DebounceRun(d, Invokes(xs) + [Expire]) == (Debouncer(None), [xs[|xs| - 1]])
  {
    DebounceRunAppend(d, Invokes(xs), [Expire]);
    DebounceBurstSchedulesLast(d, xs);
    var last := Debouncer(Some(xs[|xs| - 1]));
    var es: seq<RateEvent<A>> := [Expire];
    assert es[1..] == [];
    assert DebounceRun(last, es) == (Debouncer(None), [xs[|xs| - 1]] + []);
    assert [xs[|xs| - 1]] + [] == [xs[|xs| - 1]];
    assert DebounceRun(d, Invokes(xs)).1 == [];
    assert DebounceRun(d, Invokes(xs) + [Expire]).1 == [] + [xs[|xs| - 1]];
    assert [] + [xs[|xs| - 1]] == [xs[|xs| - 1]];
  }

  /** The wrapped function never runs more often than the wrapper was called
      (counting an invocation already scheduled at the start), nor more often
      than a timer expired. */
  lemma {:induction false} DebounceRunsAtMostOncePerCall<A>(d: Debouncer<A>, es: seq<RateEvent<A>>)
    ensures |DebounceRun(d, es).1| + (if DebounceRun(d, es).0.pending.Some? then 1 else 0)
            <= CountInvokes(es) + (if d.pending.Some? then 1 else 0)
    ensures |DebounceRun(d, es).1| <= CountExpires(es)
    decreases |es|
  {
    if |es| > 0 {
      var step := DebounceStep(d, es[0]);
      DebounceRunsAtMostOncePerCall(step.0, es[1..]);
      var rest := DebounceRun(step.0, es[1..]);
      assert DebounceRun(d, es) == (rest.0, OptionToSeq(step.1) + rest.1);
    }
  }

  /** The closure state of a throttled wrapper: whether a limit window is open. */
  datatype Throttler = Throttler(inThrottle: bool)

  /** One event: a call outside a window runs the wrapped function and opens a
      window; a call inside one is dropped, not queued; the expiry closes it. */
  function ThrottleStep<A>(t: Throttler, e: RateEvent<A>): (Throttler, Option<A>)
  {
    match e
    case Invoke(args) => if !t.inThrottle then (Throttler(true), Some(args)) else (t, None)
    case Expire => (Throttler(false), None)
  }

  function ThrottleRun<A>(t: Throttler, es: seq<RateEvent<A>>): (Throttler, seq<A>)
    decreases |es|
  {
    if |es| == 0 then (t, [])
    else
      var step := ThrottleStep(t, es[0]);
      var rest := ThrottleRun(step.0, es[1..]);
      (rest.0, OptionToSeq(step.1) + rest.1)
  }

  /** Calls arriving while a window is open run nothing and leave it open. */
  lemma {:induction false} ThrottleDropsInsideWindow<A>(xs: seq<A>)
    ensures ThrottleRun(Throttler(true), Invokes(xs)) == (Throttler(true), [])
    decreases |xs|
  {
    if |xs| > 0 {
      var es := Invokes(xs);
      assert es[0] == Invoke(xs[0]);
      assert es[1..] == Invokes(xs[1..]);
      ThrottleDropsInsideWindow(xs[1..]);
      var rest := ThrottleRun(Throttler(true), es[1..]);
      assert ThrottleRun(Throttler(true), es) == (rest.0, [] + rest.1);
      assert [] + rest.1 == rest.1;
    }
  }

  /** Of calls that all fall inside one limit window, exactly the first runs. */
  lemma ThrottleRunsFirstOfWindow<A>(xs: seq<A>)
    requires |xs| > 0
    ensures ThrottleRun(Throttler(false), Invokes(xs)) == (Throttler(true), [xs[0]])
  {
    var es := Invokes(xs);
    assert es[0] == Invoke(xs[0]);
    assert es[1..] == Invokes(xs[1..]);
    ThrottleDropsInsideWindow(xs[1..]);
    var rest := ThrottleRun(Throttler(true), es[1..]);
    assert ThrottleRun(Throttler(false), es) == (rest.0, [xs[0]] + rest.1);
    assert [xs[0]] + rest.1 == [xs[0]];
  }

  /** Each call followed by its window's expiry. */
  function Spaced<A>(xs: seq<A>): seq<RateEvent<A>>
  {
    if |xs| == 0 then [] else [Invoke(xs[0]), Expire] + Spaced(xs[1..])
  }

  /** Calls spaced at least one limit apart all run, in order. */
  lemma {:induction false} ThrottleRunsSpacedCalls<A>(xs: seq<A>)
    ensures ThrottleRun(Throttler(false), Spaced(xs)) == (Throttler(false), xs)
    decreases |xs|
  {
    if |xs| > 0 {
      var es := Spaced(xs);
      assert es[0] == Invoke(xs[0]);
      assert es[1..][0] == Expire;
      assert es[1..][1..] == Spaced(xs[1..]);
      ThrottleRunsSpacedCalls(xs[1..]);
      var rest := ThrottleRun(Throttler(false), es[1..][1..]);
      assert ThrottleRun(Throttler(true), es[1..]) == (rest.0, [] + rest.1);
      assert [] + rest.1 == rest.1;
      assert ThrottleRun(Throttler(false), es) == (rest.0, [xs[0]] + rest.1);
      assert [xs[0]] + xs[1..] == xs;
    }
  }

  /** The rate bound: every run of the wrapped function after the first needs a
      window expiry in between. */
  lemma {:induction false} ThrottleRateBound<A>(t: Throttler, es: seq<RateEvent<A>>)
    ensures |ThrottleRun(t, es).1| + (if ThrottleRun(t, es).0.inThrottle then 0 else 1)
            <= CountExpires(es) + (if t.inThrottle then 0 else 1)
    decreases |es|
  {
    if |es| > 0 {
      var step := ThrottleStep(t, es[0]);
      ThrottleRateBound(step.0, es[1..]);
      var rest := ThrottleRun(step.0, es[1..]);
      assert ThrottleRun(t, es) == (rest.0, OptionToSeq(step.1) + rest.1);
    }
  }

  // ---------------------------------------------------------------------------
  // createIntersectionObserver
  // ---------------------------------------------------------------------------

  /** A value an observer option can hold. `threshold` is a number here; the
      list form the browser also accepts is not modelled. */
  datatype OptionValue = NullValue | Str(s: string) | Number(n: real) | UndefinedValue

  /** The helper's defaults. */
  const DefaultObserverOptions: map<string, OptionValue> :=
    map["root" := NullValue, "rootMargin" := Str("0px"), "threshold" := Number(0.1)]

  /** The options the observer is created with: the caller's object spread over
      the defaults, so every key the caller supplies wins, even when its value
      is undefined. */
  function ObserverOptions(options: map<string, OptionValue>): (r: map<string, OptionValue>)
    ensures r.Keys == DefaultObserverOptions.Keys + options.Keys
    ensures forall k :: k in options ==> r[k] == options[k]
    ensures forall k :: k in DefaultObserverOptions && k !in options ==> r[k] == DefaultObserverOptions[k]
  {
    DefaultObserverOptions + options
  }

  /** Merging is idempotent: the result already carries every default key. */
  lemma ObserverOptionsIdempotent(options: map<string, OptionValue>)
    ensures ObserverOptions(ObserverOptions(options)) == ObserverOptions(options)
  {
    var r := ObserverOptions(options);
    assert ObserverOptions(r).Keys == r.Keys;
  }

  /** With no options the observer gets exactly the defaults; with the options
      the lazy image passes, the margin is widened and the rest kept. */
  lemma ObserverOptionsExamples()
    ensures ObserverOptions(map[]) == DefaultObserverOptions
    ensures ObserverOptions(map["threshold" := Number(0.1), "rootMargin" := Str("50px")])
            == map["root" := NullValue, "rootMargin" := Str("50px"), "threshold" := Number(0.1)]
  {
    var given := map["threshold" := Number(0.1), "rootMargin" := Str("50px")];
    var want := map["root" := NullValue, "rootMargin" := Str("50px"), "threshold" := Number(0.1)];
    assert ObserverOptions(given).Keys == want.Keys;
    assert ObserverOptions(map[]).Keys == DefaultObserverOptions.Keys;
  }

  /** One record of an intersection batch. */
  datatype ObserverEntry = ObserverEntry(target: nat, isIntersecting: bool)

  /** The entries of a batch the caller's callback is invoked with, in the
      batch's order: those that are intersecting. */
  function Deliver(entries: seq<ObserverEntry>): (r: seq<ObserverEntry>)
    ensures |r| <= |entries|
    ensures forall e :: e in r <==> e in entries && e.isIntersecting
    decreases |entries|
  {
    if |entries| == 0 then []
    else (if entries[0].isIntersecting then [entries[0]] else []) + Deliver(entries[1..])
  }

  /** Delivery keeps the batch's order: splitting a batch splits the deliveries. */
  lemma {:induction false} DeliverAppend(a: seq<ObserverEntry>, b: seq<ObserverEntry>)
    ensures Deliver(a + b) == Deliver(a) + Deliver(b)
    decreases |a|
  {
    if |a| > 0 {
      assert (a + b)[0] == a[0];
      assert (a + b)[1..] == a[1..] + b;
      DeliverAppend(a[1..], b);
      assert Deliver(a + b) == (if a[0].isIntersecting then [a[0]] else []) + Deliver(a[1..] + b);
    } else {
      assert a + b == b;
    }
  }

  /** A batch in which every entry intersects is delivered whole. */
  lemma {:induction false} DeliverAllIntersecting(entries: seq<ObserverEntry>)
    requires forall i :: 0 <= i < |entries| ==> entries[i].isIntersecting
    ensures Deliver(entries) == entries
    decreases |entries|
  {
    if |entries| > 0 {
      DeliverAllIntersecting(entries[1..]);
    }
  }
}

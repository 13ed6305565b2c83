/** The route-transition shell of `src/App.jsx`.

    On every change of the location's pathname the shell compares the new
    path's position in a fixed route order with the position of the route it
    last committed, applies a slide/exit class pair for the direction, marks
    itself transitioning, and 300ms later commits the new route and clears
    the classes. A navigation that arrives before the commit cancels the
    pending timer. The router itself is not modelled: only path strings, the
    direction logic and the timer are. */
module RouteShell {
  import opened Optional

  /** The order used for directions. */
  const RouteOrder: seq<string> := ["/", "/projects", "/skills", "/contact"]

  /** The paths of the four navigation links, which are also the four routes. */
  const NavPaths: seq<string> := ["/joshua-portfolio", "/projects", "/skills", "/contact"]

  /** `indexOf`: the first position of `x` in `xs`, or -1 when it is absent. */
  function IndexOf(xs: seq<string>, x: string): (r: int)
    ensures -1 <= r < |xs|
    ensures r == -1 <==> x !in xs
    ensures r >= 0 ==> xs[r] == x && forall j :: 0 <= j < r ==> xs[j] != x
    decreases |xs|
  {
    if |xs| == 0 then -1
    else if xs[0] == x then 0
    else
      var i := IndexOf(xs[1..], x);
      if i == -1 then -1 else i + 1
  }

  /** No path occurs twice. */
  predicate Distinct(xs: seq<string>)
  {
    forall i, j :: 0 <= i < j < |xs| ==> xs[i] != xs[j]
  }

  /** The class pair the transition container gets. */
  datatype Classes = Classes(slide: string, exit: string)

  const Neutral: Classes := Classes("", "")
  const Forward: Classes := Classes("slide-up", "exit-up")
  const Backward: Classes := Classes("slide-down", "exit-down")

  /** The direction of a move from `from` to `to` in `order`. */
  function Direction(order: seq<string>, from: string, to: string): Classes
  {
    var cur := IndexOf(order, from);
    var next := IndexOf(order, to);
    if next > cur then Forward else if next < cur then Backward else Neutral
  }

  /** A later position slides up, an earlier one slides down, an equal one
      (both paths unknown, or the same path) gets no direction. */
  lemma DirectionByPosition(order: seq<string>, from: string, to: string)
    ensures Direction(order, from, to) == Forward <==> IndexOf(order, to) > IndexOf(order, from)
    ensures Direction(order, from, to) == Backward <==> IndexOf(order, to) < IndexOf(order, from)
    ensures Direction(order, from, to) == Neutral <==> IndexOf(order, to) == IndexOf(order, from)
  {
  }

  /** For two different paths and an order without repeats, the pair is
      neutral exactly when neither path is in the order. */
  lemma NeutralOnlyWhenBothUnknown(order: seq<string>, from: string, to: string)
    requires Distinct(order) && from != to
    ensures Direction(order, from, to) == Neutral <==> from !in order && to !in order
  {
  }

  /** The home route's path is not in the order, so it sits before every
      known route; the sample moves between positions 1 and 3 go up and down. */
  lemma DirectionExamples()
    ensures IndexOf(RouteOrder, "/joshua-portfolio") == -1
    ensures Direction(RouteOrder, "/joshua-portfolio", "/projects") == Forward
    ensures Direction(RouteOrder, "/projects", "/joshua-portfolio") == Backward
    ensures Direction(RouteOrder, RouteOrder[1], RouteOrder[3]) == Forward
    ensures Direction(RouteOrder, RouteOrder[3], RouteOrder[1]) == Backward
  {
    assert "/joshua-portfolio" !in RouteOrder;
    assert RouteOrder[1..][0] == "/projects";
    assert IndexOf(RouteOrder, "/projects") == 1;
    assert RouteOrder[1..][1..][1..][0] == "/contact";
    assert IndexOf(RouteOrder, "/contact") == 3;
  }

  /** Between the four navigation targets, the order as written gives the same
      direction as an order listing the home route's real path first. */
  lemma OrderMismatchHarmless(a: string, b: string)
    requires a in NavPaths && b in NavPaths
    ensures Direction(RouteOrder, a, b) == Direction(NavPaths, a, b)
  {
    assert RouteOrder[1..] == NavPaths[1..];
    assert IndexOf(RouteOrder, "/joshua-portfolio") == -1;
    assert IndexOf(NavPaths, "/joshua-portfolio") == 0;
    assert forall x :: x in NavPaths[1..] ==> IndexOf(RouteOrder, x) == IndexOf(NavPaths, x) by {
      forall x | x in NavPaths[1..]
        ensures IndexOf(RouteOrder, x) == IndexOf(NavPaths, x)
      {
        assert x != "/" && x != "/joshua-portfolio";
      }
    }
    assert a == "/joshua-portfolio" || a in NavPaths[1..];
    assert b == "/joshua-portfolio" || b in NavPaths[1..];
  }

  // ---------------------------------------------------------------------------
  // The transition machine
  // ---------------------------------------------------------------------------

  /** The shell's state: the router's current pathname, the route last
      committed, the transition flag and classes, and the target of the
      pending commit timer, if one is pending. */
  datatype Shell = Shell(location: string, currentRoute: string, transitioning: bool,
                         classes: Classes, pending: Option<string>)

  datatype Event = Navigate(path: string) | CommitElapsed

  /** The shell on first render at `path`. */
  function Boot(path: string): Shell
  {
    Shell(path, path, false, Neutral, None)
  }

  /** A pathname change, as the source handles it. An unchanged pathname does
      not re-run the effect; a changed one first cancels the pending commit,
      and then starts a transition unless the new path is the committed route. */
  function NavigateAsWritten(s: Shell, path: string): Shell
  {
    if path == s.location then s
    else
      var cancelled := s.(location := path, pending := None);
      if path != s.currentRoute then
        cancelled.(transitioning := true, classes := Direction(RouteOrder, s.currentRoute, path), pending := Some(path))
      else
        cancelled
  }

  /** The commit timer fires: the pending target becomes the committed route
      and the transition flags clear. */
  function Commit(s: Shell): Shell
  {
    match s.pending
    case None => s
    case Some(target) => s.(currentRoute := target, transitioning := false, classes := Neutral, pending := None)
  }

  function StepAsWritten(s: Shell, e: Event): Shell
  {
    match e
    case Navigate(path) => NavigateAsWritten(s, path)
    case CommitElapsed => Commit(s)
  }

  function RunAsWritten(s: Shell, es: seq<Event>): Shell
    decreases |es|
  {
    if |es| == 0 then s else RunAsWritten(StepAsWritten(s, es[0]), es[1..])
  }

  /** Back to the committed route: the source leaves the transition flags as
      they are. */
  lemma SameRouteChangesNoTransitionState(s: Shell, path: string)
    requires path == s.currentRoute
    ensures var r := StepAsWritten(s, Navigate(path));
            r.transitioning == s.transitioning && r.classes == s.classes && r.currentRoute == s.currentRoute
  {
  }

  /** A navigation to a path other than the committed route starts a
      transition with the direction's classes and arms the commit for it. */
  lemma NavigateStartsTransition(s: Shell, path: string)
    requires path != s.location && path != s.currentRoute
    ensures var r := StepAsWritten(s, Navigate(path));
            && r.transitioning && r.pending == Some(path) && r.currentRoute == s.currentRoute
            && r.classes == Direction(RouteOrder, s.currentRoute, path)
            && (IndexOf(RouteOrder, path) > IndexOf(RouteOrder, s.currentRoute) ==> r.classes == Forward)
            && (IndexOf(RouteOrder, path) < IndexOf(RouteOrder, s.currentRoute) ==> r.classes == Backward)
  {
  }

  /** The commit makes the pending target the committed route and clears the
      flag and both classes. */
  lemma CommitCompletes(s: Shell)
    requires s.pending.Some?
    ensures var r := StepAsWritten(s, CommitElapsed);
            r.currentRoute == s.pending.value && !r.transitioning && r.classes == Neutral && r.pending == None
  {
  }

  /** The timer invariant: a commit is pending exactly while the location
      differs from the committed route, and it targets the location. */
  predicate PendingInv(s: Shell)
  {
    s.pending == (if s.location != s.currentRoute then Some(s.location) else None)
  }

  lemma BootPendingInv(path: string)
    ensures PendingInv(Boot(path))
  {
  }

  /** Every event keeps the timer invariant. */
  lemma {:induction false} RunAsWrittenKeepsPendingInv(s: Shell, es: seq<Event>)
    requires PendingInv(s)
    ensures PendingInv(RunAsWritten(s, es))
    decreases |es|
  {
    if |es| > 0 {
      assert PendingInv(StepAsWritten(s, es[0]));
      RunAsWrittenKeepsPendingInv(StepAsWritten(s, es[0]), es[1..]);
    }
  }

  /** Navigation events only. */
  function Navigations(paths: seq<string>): (r: seq<Event>)
    ensures |r| == |paths|
  {
    if |paths| == 0 then [] else [Navigate(paths[0])] + Navigations(paths[1..])
  }

  /** Navigations move the location to the last path and never commit. */
  lemma {:induction false} NavigationsTrackLocation(s: Shell, paths: seq<string>)
    requires |paths| > 0
    ensures RunAsWritten(s, Navigations(paths)).location == paths[|paths| - 1]
    ensures RunAsWritten(s, Navigations(paths)).currentRoute == s.currentRoute
    decreases |paths|
  {
    var es := Navigations(paths);
    assert es[0] == Navigate(paths[0]);
    assert es[1..] == Navigations(paths[1..]);
    var s' := StepAsWritten(s, es[0]);
    if |paths| > 1 {
      NavigationsTrackLocation(s', paths[1..]);
    } else {
      assert es[1..] == [];
    }
  }

  /** Last writer wins: after a burst of navigations whose last target is not
      the committed route, the only pending commit is for that last target,
      and when it fires that target is what gets committed. */
  lemma LatestTargetCommitted(s: Shell, paths: seq<string>)
    requires PendingInv(s) && |paths| > 0 && paths[|paths| - 1] != s.currentRoute
    ensures RunAsWritten(s, Navigations(paths)).pending == Some(paths[|paths| - 1])
    ensures Commit(RunAsWritten(s, Navigations(paths))).currentRoute == paths[|paths| - 1]
  {
    NavigationsTrackLocation(s, paths);
    RunAsWrittenKeepsPendingInv(s, Navigations(paths));
  }

  /** The machine as written can stay transitioning with no commit pending:
      from `/projects`, go to `/skills` and straight back before the commit. The
      back-navigation cancels the commit but leaves the flag and the slide-up
      classes on, and the commit event then has nothing to do. */
  lemma StuckTransitionAsWritten()
    ensures var r := RunAsWritten(Boot("/projects"), [Navigate("/skills"), Navigate("/projects"), CommitElapsed]);
            r.transitioning && r.pending == None && r.classes == Forward && r.location == r.currentRoute
  {
    var s0 := Boot("/projects");
    var s1 := StepAsWritten(s0, Navigate("/skills"));
    assert IndexOf(RouteOrder, "/projects") == 1;
    assert RouteOrder[1..][1..][0] == "/skills";
    assert IndexOf(RouteOrder, "/skills") == 2;
    assert s1.classes == Forward;
    var es := [Navigate("/skills"), Navigate("/projects"), CommitElapsed];
    assert es[1..] == [Navigate("/projects"), CommitElapsed];
    assert es[1..][1..] == [CommitElapsed];
    assert es[1..][1..][1..] == [];
  }

  /** The corrected navigation: returning to the committed route also ends the
      transition, clearing the flag and both classes. */
  function NavigateCorrected(s: Shell, path: string): Shell
  {
    if path == s.location then s
    else
      var cancelled := s.(location := path, pending := None);
      if path != s.currentRoute then
        cancelled.(transitioning := true, classes := Direction(RouteOrder, s.currentRoute, path), pending := Some(path))
      else
        cancelled.(transitioning := false, classes := Neutral)
  }

  function Step(s: Shell, e: Event): Shell
  {
    match e
    case Navigate(path) => NavigateCorrected(s, path)
    case CommitElapsed => Commit(s)
  }

  function Run(s: Shell, es: seq<Event>): Shell
    decreases |es|
  {
    if |es| == 0 then s else Run(Step(s, es[0]), es[1..])
  }

  /** The intended invariant: the shell is transitioning exactly while a
      commit is pending, and idle it carries no direction classes. */
  predicate ShellInv(s: Shell)
  {
    && PendingInv(s)
    && (s.transitioning <==> s.pending.Some?)
    && (!s.transitioning ==> s.classes == Neutral)
  }

  /** The corrected machine keeps the intended invariant on every event. */
  lemma {:induction false} RunKeepsShellInv(s: Shell, es: seq<Event>)
    requires ShellInv(s)
    ensures ShellInv(Run(s, es))
    decreases |es|
  {
    if |es| > 0 {
      assert ShellInv(Step(s, es[0]));
      RunKeepsShellInv(Step(s, es[0]), es[1..]);
    }
  }

  /** From a fresh boot the corrected shell never gets stuck: whenever it is
      transitioning, a commit is pending that will end it. */
  lemma NeverStuck(path: string, es: seq<Event>)
    ensures Run(Boot(path), es).transitioning ==> Run(Boot(path), es).pending.Some?
    ensures !Commit(Run(Boot(path), es)).transitioning
  {
    RunKeepsShellInv(Boot(path), es);
  }

  /** The correction changes only the back-to-committed-route case. */
  lemma CorrectionIsLocal(s: Shell, e: Event)
    requires !(e.Navigate? && e.path != s.location && e.path == s.currentRoute)
    ensures Step(s, e) == StepAsWritten(s, e)
  {
  }

  // ---------------------------------------------------------------------------
  // Navigation links
  // ---------------------------------------------------------------------------

  /** A navigation link is highlighted when its path is the location's pathname. */
  predicate NavActive(location: string, path: string)
  {
    location == path
  }

  /** At most one navigation link is highlighted, and one is exactly when the
      location is one of the four routes. */
  lemma OneActiveNavLink(location: string)
    ensures forall i, j ::
              (0 <= i < |NavPaths| && 0 <= j < |NavPaths| &&
               NavActive(location, NavPaths[i]) && NavActive(location, NavPaths[j])) ==> i == j
    ensures (exists i :: 0 <= i < |NavPaths| && NavActive(location, NavPaths[i])) <==> location in NavPaths
  {
  }
}

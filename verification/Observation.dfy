/** The change journal, and the filesystem it watches as an environment that moves on its own. */
module Observation {
  import opened Base
  import opened PathText
  import opened Normalization
  import opened ManifestTrie

  datatype State = Clean | Dirty | Unknown

  datatype Snapshot = Snapshot(state: State, generation: nat, paths: seq<Path>, reason: Option<string>)

  /** The paths some reported texts name. */
  function NamedBy(texts: set<Bytes>): set<Path> {
    set t | t in texts && Normalize(t).Some? :: Normalize(t).value
  }

  predicate AllNamed(texts: set<Bytes>) {
    forall t :: t in texts ==> Normalize(t).Some?
  }

  lemma NamedArePlain(texts: set<Bytes>)
    ensures forall p :: p in NamedBy(texts) ==> Plain(p)
  {
    forall t | t in texts && Normalize(t).Some? ensures Plain(Normalize(t).value) {
      NormalizedNames(t);
    }
  }

  /** The three-state journal: CLEAN, DIRTY with exact paths, or UNKNOWN. */
  class ChangeTracker {
    var state: State
    var generation: nat
    var paths: set<Path>
    var reason: Option<string>

    ghost predicate Valid()
      reads this
    {
      && (state == Clean ==> paths == {})
      && (reason.None? <==> state != Unknown)
      && (forall p :: p in paths ==> Plain(p))
    }

    constructor ()
      ensures Valid() && state == Unknown && generation == 0 && paths == {}
    {
      state, generation, paths := Unknown, 0, {};
      reason := Some("observer not yet reconciled");
    }

    /**
     Reports join the journal under their normalized paths. One text without a normal form makes
     the whole call raise: then nothing is journalled.
     */
    method MarkDirty(texts: set<Bytes>) returns (ok: bool)
      requires Valid()
      modifies this
      ensures Valid() && (ok <==> AllNamed(texts))
      ensures !ok ==> unchanged(this)
      ensures ok ==> state == (if old(state) == Unknown then Unknown else Dirty)
      ensures ok ==> paths == old(paths) + NamedBy(texts) && generation == old(generation) + 1 && reason == old(reason)
    {
      ok := AllNamed(texts);
      if ok {
        NamedArePlain(texts);
        paths := paths + NamedBy(texts);
        if state != Unknown {
          state := Dirty;
        }
        generation := generation + 1;
      }
    }

    method MarkUnknown(why: string)
      requires Valid()
      modifies this
      ensures Valid()
      ensures state == Unknown && paths == {} && generation == old(generation) + 1 && reason == Some(why)
    {
      state, reason, paths := Unknown, Some(why), {};
      generation := generation + 1;
    }

    /**
     Commit if no newer observation arrived, or unconditionally when none is expected; re-reading
     a clean world changes nothing at all.
     */
    method MarkReconciled(expected: Option<nat>) returns (committed: bool)
      requires Valid()
      modifies this
      ensures Valid()
      ensures committed <==> expected.None? || old(generation) == expected.value
      ensures committed ==> state == Clean && paths == {} && reason == None
      ensures committed ==> generation == old(generation) + if old(state) == Clean then 0 else 1
      ensures !committed ==> unchanged(this)
    {
      if expected.Some? && generation != expected.value {
        return false;
      }
      if state == Clean && paths == {} && reason == None {
        return true;
      }
      state, reason, paths := Clean, None, {};
      generation := generation + 1;
      return true;
    }

    /** The journal of one moment, its paths listed once each in text order. */
    method TakeSnapshot() returns (s: Snapshot)
      requires Valid()
      ensures s.state == state && s.generation == generation && s.reason == reason
      ensures TextSorted(s.paths) && Elements(s.paths) == paths && |s.paths| == |paths|
    {
      var sorted := SortPaths(paths);
      SortedSize(sorted);
      s := Snapshot(state, generation, sorted, reason);
    }
  }

  // ---------------------------------------------------------------- the environment

  /** One thing the outside world does: replace the tree and report it, or lose continuity. */
  datatype Event = Edit(tree: Tree, extra: set<Bytes>) | Lost(reason: string)

  /** What happens before each observation of the filesystem. */
  type Plan = nat -> seq<Event>

  /** Everything a reader can be interrupted by, with what changed since its last snapshot. */
  datatype Moment = Moment(
    initial: Tree, plan: Plan, maxDepth: nat, clock: nat, since: nat, fs: Tree, recent: set<Path>, base: nat,
    generation: nat, state: State, paths: set<Path>, reason: Option<string>)

  /** The host bounds the length of a path, so no tree is deeper than that. */
  predicate Shallow(t: Tree, maxDepth: nat) {
    forall p :: p in Paths(t) ==> |p| <= maxDepth
  }

  /** Every path of the tree survives its own text. */
  predicate PortableTree(t: Tree) {
    forall p :: p in Paths(t) ==> Portable(p)
  }

  /** The trees that exact reports can describe. */
  predicate Watchable(t: Tree, maxDepth: nat) {
    Shallow(t, maxDepth) && PortableTree(t)
  }

  /** An event whose report can be exact: every path in it, changed or extra, survives its text. */
  predicate Reportable(e: Event, maxDepth: nat) {
    e.Edit? ==> Watchable(e.tree, maxDepth)
                && forall t :: t in e.extra ==> Normalize(t).Some? && Portable(Normalize(t).value)
  }

  ghost predicate ReportablePlan(plan: Plan, maxDepth: nat) {
    forall t: nat, e :: e in plan(t) ==> Reportable(e, maxDepth)
  }

  /** The texts a watcher reports for an edit: every changed path, and perhaps others. */
  function ReportOf(fs: Tree, tree: Tree, extra: set<Bytes>): set<Bytes> {
    (set p | p in Changed(fs, tree) :: JoinPath(p)) + extra
  }

  /** So any report that names every changed path is the report of some such edit, and no other is. */
  lemma CoveringReports(fs: Tree, tree: Tree, texts: set<Bytes>)
    ensures (exists extra :: ReportOf(fs, tree, extra) == texts) <==>
            forall p :: Own(fs, p) != Own(tree, p) ==> JoinPath(p) in texts
  {
    forall p: Path ensures p in Changed(fs, tree) <==> Own(fs, p) != Own(tree, p) {
      ChangedIsExact(fs, tree, p);
    }
    if forall p :: Own(fs, p) != Own(tree, p) ==> JoinPath(p) in texts {
      assert ReportOf(fs, tree, texts) == texts;
    }
    if extra :| ReportOf(fs, tree, extra) == texts {
      forall p | Own(fs, p) != Own(tree, p) ensures JoinPath(p) in texts {
        assert JoinPath(p) in ReportOf(fs, tree, extra);
      }
    }
  }

  /** The journal is well formed, moves past the snapshot with anything recent, and lists it. */
  ghost predicate Tracked(m: Moment) {
    && Watchable(m.fs, m.maxDepth) && ReportablePlan(m.plan, m.maxDepth)
    && (m.state == Clean ==> m.paths == {})
    && (m.reason.None? <==> m.state != Unknown)
    && (forall p :: p in m.paths ==> Portable(p))
    && m.base <= m.generation
    && (m.base == m.generation ==> m.recent == {})
    && (m.state != Unknown ==> m.recent <= m.paths)
  }

  /** An edit and its report are one step. A report that raises leaves the journal as it was. */
  function After(m: Moment, e: Event): Moment {
    match e
    case Edit(tree, extra) =>
      var texts := ReportOf(m.fs, tree, extra);
      var o := m.(fs := tree, recent := m.recent + Changed(m.fs, tree));
      if !AllNamed(texts) then o
      else
        o.(generation := m.generation + 1, state := if m.state == Unknown then Unknown else Dirty,
           paths := m.paths + NamedBy(texts))
    case Lost(why) =>
      m.(generation := m.generation + 1, state := Unknown, paths := {}, reason := Some(why))
  }

  function Run(m: Moment, es: seq<Event>): Moment
    decreases |es|
  {
    if es == [] then m else Run(After(m, es[0]), es[1..])
  }

  /** Everything planned before the next observation happens. */
  function TickOn(m: Moment): Moment {
    Run(m, m.plan(m.clock)).(clock := m.clock + 1)
  }

  /** What no tick can break. */
  ghost predicate Kept(inv: Moment -> bool) {
    forall m :: inv(m) ==> inv(TickOn(m))
  }

  /** The environment leads from `m` to `n`, tick by tick: what holds at `m` and is kept holds at `n`. */
  ghost predicate Passed(m: Moment, n: Moment) {
    forall inv: Moment -> bool {:trigger Kept(inv)} :: Kept(inv) && inv(m) ==> inv(n)
  }

  lemma PassedNothing(m: Moment)
    ensures Passed(m, m)
  {
  }

  lemma PassedTick(m: Moment)
    ensures Passed(m, TickOn(m))
  {
  }

  lemma PassedOn(m: Moment, n: Moment, o: Moment)
    requires Passed(m, n) && Passed(n, o)
    ensures Passed(m, o)
  {
  }

  function Ticks(m: Moment, k: nat): Moment {
    if k == 0 then m else TickOn(Ticks(m, k - 1))
  }

  lemma {:induction false} TicksPass(m: Moment, k: nat)
    ensures Passed(m, Ticks(m, k))
  {
    if k > 0 {
      TicksPass(m, k - 1);
      PassedTick(Ticks(m, k - 1));
      PassedOn(m, Ticks(m, k - 1), Ticks(m, k));
    }
  }

  ghost predicate InTicks(m: Moment, n: Moment) {
    exists k: nat :: n == Ticks(m, k)
  }

  /** Passing is nothing but a number of ticks. */
  lemma PassedIsTicks(m: Moment, n: Moment)
    ensures Passed(m, n) <==> InTicks(m, n)
  {
    var inv := (o: Moment) => InTicks(m, o);
    forall o | inv(o) ensures inv(TickOn(o)) {
      var k: nat :| o == Ticks(m, k);
      assert TickOn(o) == Ticks(m, k + 1);
    }
    assert m == Ticks(m, 0) && inv(m);
    assert Kept(inv);
    if InTicks(m, n) {
      var k: nat :| n == Ticks(m, k);
      TicksPass(m, k);
    }
  }

  lemma LaterOn(fs: Tree, d: set<Path>, gs: Tree, e: set<Path>, hs: Tree, f: set<Path>)
    requires Later(fs, d, gs, e) && Later(gs, e, hs, f)
    ensures Later(fs, d, hs, f)
  {
  }

  /** With portable names on both sides, the report of an edit names every changed path. */
  lemma ReportIsExact(fs: Tree, tree: Tree, extra: set<Bytes>, maxDepth: nat)
    requires PortableTree(fs) && Reportable(Edit(tree, extra), maxDepth)
    ensures AllNamed(ReportOf(fs, tree, extra))
    ensures Changed(fs, tree) <= NamedBy(ReportOf(fs, tree, extra))
    ensures forall p :: p in NamedBy(ReportOf(fs, tree, extra)) ==> Portable(p)
  {
    var texts := ReportOf(fs, tree, extra);
    forall p | p in Changed(fs, tree)
      ensures Normalize(JoinPath(p)) == Some(p) && JoinPath(p) in texts && Portable(p)
    {
      NormalizeKeepsPortable(p);
    }
  }

  /** Whether one event leaves the journal in order, and all it does to the rest of the moment. */
  lemma EventReports(m: Moment, e: Event)
    requires Tracked(m) && Reportable(e, m.maxDepth)
    ensures var n := After(m, e);
            && Tracked(n) && n.generation == m.generation + 1
            && n.(fs := m.fs, recent := m.recent, generation := m.generation, state := m.state, paths := m.paths,
                  reason := m.reason) == m
            && Later(m.fs, m.recent, n.fs, n.recent)
            && (n.state != Unknown ==> m.state != Unknown && Later(m.fs, m.paths, n.fs, n.paths))
  {
    if e.Edit? {
      ReportIsExact(m.fs, e.tree, e.extra, m.maxDepth);
      forall p ensures Own(m.fs, p) != Own(e.tree, p) ==> p in Changed(m.fs, e.tree) {
        ChangedIsExact(m.fs, e.tree, p);
      }
    }
  }

  /** From `m` to `n` the journal missed nothing. */
  ghost predicate Accounted(m: Moment, n: Moment) {
    && Tracked(n) && n.maxDepth == m.maxDepth && n.base == m.base && n.plan == m.plan
    && n.initial == m.initial && n.since == m.since && m.clock <= n.clock
    && Later(m.fs, m.recent, n.fs, n.recent)
    && m.generation <= n.generation
    && (m.generation == n.generation ==> n == m.(clock := n.clock))
    && (n.state != Unknown ==> m.state != Unknown && Later(m.fs, m.paths, n.fs, n.paths))
  }

  lemma AccountedOn(m: Moment, n: Moment, o: Moment)
    requires Accounted(m, n) && Accounted(n, o)
    ensures Accounted(m, o)
  {
    LaterOn(m.fs, m.recent, n.fs, n.recent, o.fs, o.recent);
    if o.state != Unknown {
      LaterOn(m.fs, m.paths, n.fs, n.paths, o.fs, o.paths);
    }
  }

  /**
   Whatever reportable events happen, every changed path is reported: in what is recent and,
   while continuity lasts, in the journal. If the generation stands still, nothing happened.
   */
  lemma {:induction false} RunReports(m: Moment, es: seq<Event>)
    requires Tracked(m) && forall e :: e in es ==> Reportable(e, m.maxDepth)
    ensures var n := Run(m, es);
            Accounted(m, n) && n.clock == m.clock && n.generation == m.generation + |es|
    decreases |es|
  {
    if es != [] {
      var o := After(m, es[0]);
      assert es[0] in es && forall e :: e in es[1..] ==> e in es;
      EventReports(m, es[0]);
      RunReports(o, es[1..]);
      AccountedOn(m, o, Run(m, es));
    }
  }

  // ---------------------------------------------------------------- a window of time

  /** How many ticks of a window bring events. */
  ghost function BusyTicks(plan: Plan, begin: nat, end: nat): nat {
    if end <= begin then 0 else BusyTicks(plan, begin, end - 1) + if plan(end - 1) == [] then 0 else 1
  }

  /** One for each of them. */
  lemma {:induction false} BusyTicksCount(plan: Plan, begin: nat, end: nat)
    ensures BusyTicks(plan, begin, end) == |set t: nat | begin <= t < end && plan(t) != []|
    decreases end
  {
    var busy := set t: nat | begin <= t < end && plan(t) != [];
    if end <= begin {
      assert busy == {};
    } else {
      BusyTicksCount(plan, begin, end - 1);
      var before := set t: nat | begin <= t < end - 1 && plan(t) != [];
      assert busy == if plan(end - 1) == [] then before else before + {end - 1};
    }
  }

  lemma {:induction false} BusyTicksAdd(plan: Plan, a: nat, b: nat, c: nat)
    requires a <= b <= c
    ensures BusyTicks(plan, a, c) == BusyTicks(plan, a, b) + BusyTicks(plan, b, c)
    decreases c
  {
    if b < c {
      BusyTicksAdd(plan, a, b, c - 1);
    }
  }

  function EventTree(fs: Tree, e: Event): Tree {
    if e.Edit? then e.tree else fs
  }

  function TreeThrough(fs: Tree, es: seq<Event>): Tree
    decreases |es|
  {
    if es == [] then fs else TreeThrough(EventTree(fs, es[0]), es[1..])
  }

  /** The tree when the clock shows `t`: no reader has a say in it. */
  ghost function TreeAfter(initial: Tree, plan: Plan, t: nat): Tree {
    if t == 0 then initial else TreeThrough(TreeAfter(initial, plan, t - 1), plan(t - 1))
  }

  function Touches(fs: Tree, es: seq<Event>): set<Path>
    decreases |es|
  {
    if es == [] then {} else Changed(fs, EventTree(fs, es[0])) + Touches(EventTree(fs, es[0]), es[1..])
  }

  function UnionOver(at: nat -> set<Path>, begin: nat, end: nat): set<Path> {
    set t: nat, p | begin <= t < end && p in at(t) :: p
  }

  /** The paths that events of one tick touch. */
  ghost function TouchesAt(initial: Tree, plan: Plan): nat -> set<Path> {
    (t: nat) => Touches(TreeAfter(initial, plan, t), plan(t))
  }

  /** The paths whose own entry changed in a window, even if it changed back. */
  ghost function Touched(initial: Tree, plan: Plan, begin: nat, end: nat): set<Path> {
    UnionOver(TouchesAt(initial, plan), begin, end)
  }

  lemma TouchedGrows(initial: Tree, plan: Plan, a: nat, b: nat, c: nat, d: nat)
    requires a <= b && c <= d
    ensures Touched(initial, plan, b, c) <= Touched(initial, plan, a, d)
  {
  }

  lemma {:induction false} NoEventsAt(plan: Plan, begin: nat, end: nat, t: nat)
    requires BusyTicks(plan, begin, end) == 0 && begin <= t < end
    ensures plan(t) == []
    decreases end
  {
    if t < end - 1 {
      NoEventsAt(plan, begin, end - 1, t);
    }
  }

  /** Without events in a window nothing is touched in it. */
  lemma NothingTouched(initial: Tree, plan: Plan, begin: nat, end: nat)
    requires BusyTicks(plan, begin, end) == 0
    ensures Touched(initial, plan, begin, end) == {}
  {
    forall t: nat | begin <= t < end ensures TouchesAt(initial, plan)(t) == {} {
      NoEventsAt(plan, begin, end, t);
    }
  }

  ghost function TreeAt(initial: Tree, plan: Plan): nat -> Tree {
    (t: nat) => TreeAfter(initial, plan, t)
  }

  lemma {:induction false} TreeHolds(initial: Tree, plan: Plan, begin: nat, end: nat)
    requires begin <= end
    ensures BusyTicks(plan, begin, end) == 0 ==> TreeAfter(initial, plan, end) == TreeAfter(initial, plan, begin)
    decreases end
  {
    if begin < end {
      TreeHolds(initial, plan, begin, end - 1);
    }
  }

  /** Mentioned where a proof needs the history of the tree, and only there. */
  predicate Struck(t: nat) {
    true
  }

  /** The moment is where the plan leads, and what is recent is what was touched since the snapshot. */
  ghost predicate OnTime(m: Moment) {
    forall t: nat {:trigger Struck(t)} :: Struck(t) && t == m.clock ==>
      Timely(TreeAt(m.initial, m.plan), TouchesAt(m.initial, m.plan), m)
  }

  lemma OnTimeMeans(m: Moment)
    ensures OnTime(m) <==>
            && m.since <= m.clock && m.fs == TreeAfter(m.initial, m.plan, m.clock)
            && m.recent == Touched(m.initial, m.plan, m.since, m.clock)
  {
    assert Struck(m.clock);
  }

  ghost predicate Timely(trees: nat -> Tree, touches: nat -> set<Path>, m: Moment) {
    m.since <= m.clock && m.fs == trees(m.clock) && m.recent == UnionOver(touches, m.since, m.clock)
  }

  lemma {:induction false} RunOnTime(m: Moment, es: seq<Event>)
    ensures var n := Run(m, es);
            && n.fs == TreeThrough(m.fs, es) && n.recent == m.recent + Touches(m.fs, es)
            && n.initial == m.initial && n.plan == m.plan && n.since == m.since && n.clock == m.clock
    decreases |es|
  {
    if es != [] {
      var o := After(m, es[0]);
      NothingChanged(m.fs);
      assert o.fs == EventTree(m.fs, es[0]) && o.recent == m.recent + Changed(m.fs, o.fs);
      RunOnTime(o, es[1..]);
      assert (m.recent + Changed(m.fs, o.fs)) + Touches(o.fs, es[1..]) == m.recent + Touches(m.fs, es);
    }
  }

  lemma NothingChanged(fs: Tree)
    ensures Changed(fs, fs) == {}
  {
  }

  lemma TimelyStep(trees: nat -> Tree, touches: nat -> set<Path>, m: Moment, n: Moment)
    requires Timely(trees, touches, m) && n.since == m.since && n.clock == m.clock + 1
    requires n.fs == trees(n.clock) && n.recent == m.recent + touches(m.clock)
    ensures Timely(trees, touches, n)
  {
  }

  lemma ClockStep(initial: Tree, plan: Plan, t: nat)
    ensures TreeAt(initial, plan)(t + 1) == TreeThrough(TreeAt(initial, plan)(t), plan(t))
    ensures TouchesAt(initial, plan)(t) == Touches(TreeAt(initial, plan)(t), plan(t))
  {
  }

  /** What a tick does besides the journal. */
  ghost predicate Ticked(m: Moment, n: Moment) {
    && n.initial == m.initial && n.plan == m.plan && n.since == m.since && n.clock == m.clock + 1
    && n.fs == TreeThrough(m.fs, m.plan(m.clock)) && n.recent == m.recent + Touches(m.fs, m.plan(m.clock))
  }

  lemma TickEffect(m: Moment)
    ensures Ticked(m, TickOn(m))
  {
    RunOnTime(m, m.plan(m.clock));
  }

  lemma TimelyTick(m: Moment, n: Moment)
    requires Timely(TreeAt(m.initial, m.plan), TouchesAt(m.initial, m.plan), m) && Ticked(m, n)
    ensures Timely(TreeAt(m.initial, m.plan), TouchesAt(m.initial, m.plan), n)
  {
    ClockStep(m.initial, m.plan, m.clock);
    TimelyStep(TreeAt(m.initial, m.plan), TouchesAt(m.initial, m.plan), m, n);
  }

  lemma TickOnTime(m: Moment)
    requires OnTime(m)
    ensures OnTime(TickOn(m))
  {
    assert Struck(m.clock);
    TickEffect(m);
    TimelyTick(m, TickOn(m));
  }

  lemma PassedOnTime(m: Moment, n: Moment)
    requires OnTime(m) && Passed(m, n)
    ensures OnTime(n)
  {
    var inv := (o: Moment) => OnTime(o);
    forall o | inv(o) ensures inv(TickOn(o)) {
      TickOnTime(o);
    }
    assert Kept(inv);
  }

  /** Without events the tree stays as it is. */
  lemma QuietTree(m: Moment, n: Moment)
    requires OnTime(m) && OnTime(n) && n.initial == m.initial && n.plan == m.plan && m.clock <= n.clock
    ensures BusyTicks(m.plan, m.clock, n.clock) == 0 ==> n.fs == m.fs
  {
    OnTimeMeans(m);
    OnTimeMeans(n);
    TreeHolds(m.initial, m.plan, m.clock, n.clock);
  }

  /** Accounted, and the generation has moved exactly if there were events. */
  ghost predicate Tallied(m: Moment, n: Moment) {
    Accounted(m, n) && (n.generation == m.generation <==> BusyTicks(m.plan, m.clock, n.clock) == 0)
  }

  lemma TickReports(m: Moment, n: Moment)
    requires Tallied(m, n)
    ensures Tallied(m, TickOn(n))
  {
    RunReports(n, n.plan(n.clock));
    var p := Run(n, n.plan(n.clock));
    AccountedOn(m, n, p);
    assert Tracked(p.(clock := n.clock + 1));
  }

  /** The same between any two moments the environment connects. */
  lemma Reports(m: Moment, n: Moment)
    requires Tracked(m) && Passed(m, n)
    ensures Accounted(m, n) && (n.generation == m.generation <==> BusyTicks(m.plan, m.clock, n.clock) == 0)
  {
    var inv := (o: Moment) => Tallied(m, o);
    forall o | inv(o) ensures inv(TickOn(o)) {
      TickReports(m, o);
    }
    assert Kept(inv) && inv(m);
  }

  lemma SameBase(m: Moment, n: Moment)
    requires Tracked(m) && Passed(m, n)
    ensures Tracked(n) && n.base == m.base
  {
    Reports(m, n);
  }

  lemma TickMovesClock(m: Moment)
    ensures TickOn(m).clock == m.clock + 1
  {
  }

  /** A reader takes its snapshot: from here on things count as recent. */
  function Rebased(m: Moment): Moment {
    m.(recent := {}, base := m.generation, since := m.clock)
  }

  /** Nothing happened but time passing. */
  ghost predicate Stood(m: Moment, n: Moment) {
    n == m.(clock := n.clock)
  }

  lemma StoodApart(m: Moment, n: Moment, o: Moment)
    requires Tracked(m) && Passed(m, n) && Passed(n, o)
    ensures Stood(m, o) ==> Stood(m, n) && Stood(n, o)
  {
    Reports(m, n);
    Reports(n, o);
  }

  /** The two moments differ in the journal at most. */
  ghost predicate SameTime(m: Moment, n: Moment) {
    n == m.(generation := n.generation, state := n.state, paths := n.paths, reason := n.reason)
  }

  /** One round of a reader, from its snapshot over the moment its caches are ready to its end. */
  lemma RoundTime(start: Moment, m: Moment, end: Moment, now: Moment)
    requires Tracked(start) && OnTime(start) && Passed(start, m) && Passed(m, end) && SameTime(end, now)
    ensures OnTime(now) && start.clock <= now.clock && now.since == start.since
    ensures end.generation == start.generation <==> BusyTicks(now.plan, start.clock, now.clock) == 0
    ensures BusyTicks(now.plan, start.clock, now.clock) == 0 ==> Stood(start, m)
  {
    PassedOn(start, m, end);
    Reports(start, end);
    StoodApart(start, m, end);
    PassedOnTime(start, end);
    OnTimeMeans(end);
    OnTimeMeans(now);
  }

  lemma RebasedOnTime(m: Moment)
    requires OnTime(m)
    ensures OnTime(Rebased(m))
  {
    OnTimeMeans(m);
    OnTimeMeans(Rebased(m));
  }

  // ---------------------------------------------------------------- where reports fail

  /** A path with a backslash in a name is journalled under another path, whatever text reports it. */
  lemma BackslashEscapesTheJournal(p: Path, n: Name, texts: set<Bytes>)
    requires n in p && BACKSLASH in n
    ensures p !in NamedBy(texts)
  {
    forall t | t in texts ensures Normalize(t) != Some(p) {
      BackslashHasNoText(p, n, t);
    }
  }

  /** One changed path that looks like a drive takes its whole batch of reports with it. */
  lemma DriveSilencesTheReport(m: Moment, tree: Tree, extra: set<Bytes>, p: Path)
    requires p in Changed(m.fs, tree) && p != [] && Plain(p) && HasDrive(p[0])
    ensures var n := After(m, Edit(tree, extra));
            n.fs == tree && n.generation == m.generation && n.state == m.state && n.paths == m.paths
  {
    DriveSurvivesSlashing(p);
    assert JoinPath(p) in ReportOf(m.fs, tree, extra);
  }

  lemma DriveSurvivesSlashing(p: Path)
    requires p != [] && Plain(p) && HasDrive(p[0])
    ensures Normalize(JoinPath(p)) == None
  {
    DriveOfText(p);
    assert HasDrive(Slashed(JoinPath(p)));
  }

  /**
   The watched workspace. `plan` fixes what happens before every single observation of
   the filesystem, so quantifying over plans quantifies over all interleavings of a
   reader with edits.
   */
  class Workspace {
    const tracker: ChangeTracker
    const initial: Tree
    const maxDepth: nat
    const plan: Plan
    var clock: nat
    var fs: Tree

    /** Paths changed since the reader last took a snapshot, and the generation and clock it took it at. */
    ghost var recent: set<Path>
    ghost var base: nat
    ghost var since: nat

    ghost function Now(): Moment
      reads this, tracker
    {
      Moment(initial, plan, maxDepth, clock, since, fs, recent, base,
             tracker.generation, tracker.state, tracker.paths, tracker.reason)
    }

    ghost predicate Valid()
      reads this, tracker
    {
      Tracked(Now())
    }

    constructor (t: ChangeTracker, tree: Tree, depth: nat, steps: Plan)
      requires t.Valid() && (forall p :: p in t.paths ==> Portable(p))
      requires Watchable(tree, depth) && ReportablePlan(steps, depth)
      ensures Valid() && OnTime(Now()) && clock == 0
      ensures tracker == t && initial == tree && maxDepth == depth && plan == steps
    {
      tracker, initial, fs, maxDepth, plan := t, tree, tree, depth, steps;
      clock, recent, base, since := 0, {}, t.generation, 0;
      new;
      OnTimeMeans(Now());
    }

    /** One event: an edit and its report, or a lost observer. */
    method Happen(e: Event)
      requires Valid()
      modifies this`fs, this`recent, tracker
      ensures Now() == After(old(Now()), e)
    {
      match e {
      case Edit(tree, extra) =>
        var texts := ReportOf(fs, tree, extra);
        var changed := Changed(fs, tree);
        JournalIsPlain();
        fs := tree;
        recent := recent + changed;
        var ok := tracker.MarkDirty(texts);
      case Lost(why) =>
        JournalIsPlain();
        tracker.MarkUnknown(why);
      }
    }

    lemma JournalIsPlain()
      requires Valid()
      ensures tracker.Valid()
    {
      forall p | p in tracker.paths ensures Plain(p) {
        PortableIsPlain(p);
      }
    }

    /** Let everything planned before the next observation happen. */
    method Tick()
      requires Valid()
      modifies this, tracker
      ensures Valid() && Passed(old(Now()), Now())
      ensures Now() == TickOn(old(Now()))
    {
      var todo := plan(clock);
      ghost var start := Now();
      var i := 0;
      while i < |todo|
        invariant 0 <= i <= |todo|
        invariant Valid() && clock == old(clock)
        invariant Run(Now(), todo[i..]) == Run(start, todo)
      {
        ghost var was := Now();
        Happen(todo[i]);
        assert todo[i..] == [todo[i]] + todo[i + 1..] && todo[i] in plan(clock);
        EventReports(was, todo[i]);
        i := i + 1;
      }
      assert todo[i..] == [];
      assert Now() == Run(start, todo);
      clock := clock + 1;
      PassedTick(start);
    }

    /** A reader starts observing: what happened before no longer counts as recent. */
    ghost method Rebase()
      requires Valid()
      modifies this`recent, this`base, this`since
      ensures Valid() && Now() == Rebased(old(Now()))
    {
      recent, base, since := {}, tracker.generation, clock;
    }

    /** One stat-like observation of a path's own entry. */
    method Probe(rel: Path) returns (e: Option<Entry>)
      requires Valid()
      modifies this, tracker
      ensures Valid() && Passed(old(Now()), Now()) && clock == old(clock) + 1
      ensures e == Own(fs, rel)
    {
      Tick();
      e := Own(fs, rel);
    }

    /** One directory listing with the kind of every entry. */
    method Scan(rel: Path) returns (listing: Option<map<Name, Entry>>)
      requires Valid()
      modifies this, tracker
      ensures Valid() && Passed(old(Now()), Now()) && clock == old(clock) + 1
      ensures listing == if IsDir(fs, rel) then Some(Listing(Lookup(fs, rel).value)) else None
    {
      Tick();
      listing := if IsDir(fs, rel) then Some(Listing(Lookup(fs, rel).value)) else None;
    }
  }

  function Listing(t: Tree): map<Name, Entry>
    requires t.Dir?
  {
    map n | n in t.children :: EntryOf(t.children[n])
  }
}

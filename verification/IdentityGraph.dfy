/**
 The lazy incremental graph: nodes are recomputed on demand, and a node's version moves only
 when its value does, so that dependants of an unchanged value are not recomputed.
 */
module IdentityGraphs {
  import opened Base

  // ---------------------------------------------------------------- plain evaluation

  /** A compute function sees its dependencies' values; `None` stands for an exception it raises. */
  datatype Rule<!K, !V> = Rule(compute: map<K, V> -> Option<V>, dependencies: seq<K>)

  datatype Outcome<K, V> =
    | Value(value: V)
    | Cycle(path: seq<K>)
    | UnknownKey(key: K)
    | Raised(key: K)

  datatype Gathered<K, V> = Values(values: map<K, V>) | Stopped(outcome: Outcome<K, V>)

  function Answered<K, V>(key: K, computed: Option<V>): Outcome<K, V> {
    match computed
    case None => Raised(key)
    case Some(v) => Value(v)
  }

  /** Known nodes not yet on the stack: the measure of the recursion. */
  ghost function Left<K, V>(rules: map<K, Rule<K, V>>, stack: seq<K>): nat {
    |rules.Keys - Elements(stack)|
  }

  lemma PushShrinks<K, V>(rules: map<K, Rule<K, V>>, stack: seq<K>, key: K)
    requires key in rules && key !in stack
    ensures Left(rules, stack + [key]) < Left(rules, stack)
  {
    assert rules.Keys - Elements(stack + [key]) == (rules.Keys - Elements(stack)) - {key};
  }

  function IndexOf<K(==)>(s: seq<K>, k: K): (i: nat)
    requires k in s
    ensures i < |s| && s[i] == k && k !in s[..i]
  {
    if s[0] == k then 0 else 1 + IndexOf(s[1..], k)
  }

  /** Evaluate from scratch, dependencies first, with no cache at all. */
  function Eval<K(==), V>(rules: map<K, Rule<K, V>>, key: K, stack: seq<K>): Outcome<K, V>
    decreases Left(rules, stack), 1, 0
  {
    if key in stack then Cycle(stack[IndexOf(stack, key)..] + [key])
    else if key !in rules then UnknownKey(key)
    else
      PushShrinks(rules, stack, key);
      match EvalAll(rules, rules[key].dependencies, stack + [key])
      case Stopped(o) => o
      case Values(m) => Answered(key, rules[key].compute(m))
  }

  function EvalAll<K(==), V>(rules: map<K, Rule<K, V>>, keys: seq<K>, stack: seq<K>): (g: Gathered<K, V>)
    ensures g.Stopped? ==> !g.outcome.Value?
    decreases Left(rules, stack), 2, |keys|
  {
    if keys == [] then Values(map[])
    else
      match EvalAll(rules, keys[..|keys| - 1], stack)
      case Stopped(o) => Stopped(o)
      case Values(m) =>
        match Eval(rules, keys[|keys| - 1], stack)
        case Value(v) => Values(m[keys[|keys| - 1] := v])
        case o => Stopped(o)
  }

  // ---------------------------------------------------------------- cycles

  /** A walk along dependencies. */
  ghost predicate Walk<K, V>(rules: map<K, Rule<K, V>>, p: seq<K>) {
    forall i | 0 <= i < |p| - 1 :: p[i] in rules && p[i + 1] in rules[p[i]].dependencies
  }

  /** Some walk from `key` comes back to a node it has already visited. */
  ghost predicate ReachesCycle<K(!new), V>(rules: map<K, Rule<K, V>>, key: K) {
    exists p: seq<K>, i: nat :: |p| > 0 && p[0] == key && Walk(rules, p) && i < |p| - 1 && p[i] == p[|p| - 1]
  }

  ghost predicate AllReachableDefined<K(!new), V>(rules: map<K, Rule<K, V>>, key: K) {
    forall p: seq<K> :: |p| > 0 && p[0] == key && Walk(rules, p) ==> p[|p| - 1] in rules
  }

  ghost predicate Total<K(!new), V(!new)>(rules: map<K, Rule<K, V>>) {
    forall k, m :: k in rules ==> rules[k].compute(m).Some?
  }

  lemma {:induction false} AllValuesMeansEach<K, V>(rules: map<K, Rule<K, V>>, keys: seq<K>, stack: seq<K>)
    requires EvalAll(rules, keys, stack).Values?
    ensures forall k :: k in keys ==> Eval(rules, k, stack).Value?
    decreases |keys|
  {
    if keys != [] {
      AllValuesMeansEach(rules, keys[..|keys| - 1], stack);
      assert keys == keys[..|keys| - 1] + [keys[|keys| - 1]];
    }
  }

  lemma {:induction false} StoppedAtSome<K, V>(rules: map<K, Rule<K, V>>, keys: seq<K>, stack: seq<K>)
    requires EvalAll(rules, keys, stack).Stopped?
    ensures exists k ::
              && k in keys && Eval(rules, k, stack) == EvalAll(rules, keys, stack).outcome
              && !Eval(rules, k, stack).Value?
    decreases |keys|
  {
    var front := keys[..|keys| - 1];
    if EvalAll(rules, front, stack).Stopped? {
      StoppedAtSome(rules, front, stack);
      var k :| k in front && Eval(rules, k, stack) == EvalAll(rules, front, stack).outcome
          && !Eval(rules, k, stack).Value?;
      assert k in keys;
    } else {
      assert keys[|keys| - 1] in keys;
    }
  }

  /** A successful evaluation survives every walk, so no walk repeats a node. */
  lemma {:induction false} ValueFollowsWalk<K, V>(rules: map<K, Rule<K, V>>, p: seq<K>, i: nat)
    requires |p| > 0 && Walk(rules, p) && i < |p| && Eval(rules, p[0], []).Value?
    ensures Eval(rules, p[i], p[..i]).Value?
    decreases i
  {
    if i == 0 {
      assert p[..0] == [];
    } else {
      ValueFollowsWalk(rules, p, i - 1);
      var k, stack := p[i - 1], p[..i - 1];
      assert p[i] in rules[k].dependencies;
      assert p[..i] == stack + [k];
      AllValuesMeansEach(rules, rules[k].dependencies, stack + [k]);
    }
  }

  /** A failure is either a real cycle, an unknown reachable key, or a raising compute. */
  lemma {:induction false} FailureHasCause<K(!new), V(!new)>(rules: map<K, Rule<K, V>>, key: K, stack: seq<K>)
    requires Walk(rules, stack + [key]) && Total(rules) && !Eval(rules, key, stack).Value?
    ensures var start := (stack + [key])[0];
            || (Eval(rules, key, stack).Cycle? && ReachesCycle(rules, start))
            || !AllReachableDefined(rules, start)
    decreases Left(rules, stack)
  {
    var p := stack + [key];
    if key in stack {
      var i := IndexOf(stack, key);
      assert |p| > 0 && p[0] == p[0] && Walk(rules, p) && i < |p| - 1 && p[i] == p[|p| - 1];
    } else if key !in rules {
      assert |p| > 0 && Walk(rules, p) && p[|p| - 1] !in rules;
    } else {
      PushShrinks(rules, stack, key);
      var deps := rules[key].dependencies;
      assert forall m :: rules[key].compute(m).Some?;
      StoppedAtSome(rules, deps, p);
      var d :| d in deps && Eval(rules, d, p) == EvalAll(rules, deps, p).outcome && !Eval(rules, d, p).Value?;
      WalkOn(rules, p, d);
      FailureHasCause(rules, d, p);
    }
  }

  /**
   When every reachable key exists and no compute raises, evaluation reports a cycle if and
   only if one is reachable; otherwise it yields a value.
   */
  lemma CycleErrorIsExact<K(!new), V(!new)>(rules: map<K, Rule<K, V>>, key: K)
    requires AllReachableDefined(rules, key) && Total(rules)
    ensures Eval(rules, key, []).Cycle? <==> ReachesCycle(rules, key)
    ensures Eval(rules, key, []).Value? <==> !ReachesCycle(rules, key)
  {
    assert [] + [key] == [key];
    if !Eval(rules, key, []).Value? {
      FailureHasCause(rules, key, []);
    } else {
      forall p: seq<K>, i: nat | |p| > 0 && p[0] == key && Walk(rules, p) && i < |p| - 1 ensures p[i] != p[|p| - 1] {
        ValueNeverRepeats(rules, p, i);
      }
    }
  }

  /** What a cycle error names: a closed walk of one node or more, none of them twice. */
  ghost predicate ClosedWalk<K, V>(rules: map<K, Rule<K, V>>, p: seq<K>) {
    && |p| >= 2 && p[0] == p[|p| - 1] && Walk(rules, p) && Distinct(p[..|p| - 1])
  }

  lemma LoopOfStack<K, V>(rules: map<K, Rule<K, V>>, key: K, stack: seq<K>) returns (lead: seq<K>)
    requires Walk(rules, stack + [key]) && Distinct(stack) && key in stack
    ensures ClosedWalk(rules, stack[IndexOf(stack, key)..] + [key])
    ensures lead + (stack[IndexOf(stack, key)..] + [key]) == stack + [key]
  {
    var i := IndexOf(stack, key);
    lead := stack[..i];
    var p, q := stack + [key], stack[i..] + [key];
    assert lead + q == p && q[..|q| - 1] == stack[i..];
    forall j | 0 <= j < |q| - 1 ensures q[j] in rules && q[j + 1] in rules[q[j]].dependencies {
      assert q[j] == p[i + j] && q[j + 1] == p[i + j + 1];
    }
  }

  /**
   A cycle error names a closed walk without the nodes that lead to it, and the two together are
   a walk from the node that was asked for.
   */
  lemma {:induction false} CycleIsClosed<K, V>(rules: map<K, Rule<K, V>>, key: K, stack: seq<K>)
    returns (lead: seq<K>)
    requires Walk(rules, stack + [key]) && Distinct(stack) && Eval(rules, key, stack).Cycle?
    ensures var path := Eval(rules, key, stack).path;
            ClosedWalk(rules, path) && Walk(rules, lead + path) && stack + [key] <= lead + path
    decreases Left(rules, stack)
  {
    if key in stack {
      lead := LoopOfStack(rules, key, stack);
    } else {
      var d := CyclicDependency(rules, key, stack);
      lead := CycleIsClosed(rules, d, stack + [key]);
    }
  }

  lemma CyclicDependency<K, V>(rules: map<K, Rule<K, V>>, key: K, stack: seq<K>) returns (d: K)
    requires Walk(rules, stack + [key]) && Distinct(stack) && key !in stack && Eval(rules, key, stack).Cycle?
    ensures key in rules && Eval(rules, d, stack + [key]) == Eval(rules, key, stack)
    ensures Walk(rules, (stack + [key]) + [d]) && Distinct(stack + [key])
    ensures Left(rules, stack + [key]) < Left(rules, stack)
  {
    PushShrinks(rules, stack, key);
    var deps, p := rules[key].dependencies, stack + [key];
    StoppedAtSome(rules, deps, p);
    d :| d in deps && Eval(rules, d, p) == EvalAll(rules, deps, p).outcome && !Eval(rules, d, p).Value?;
    WalkOn(rules, p, d);
  }

  lemma WalkOn<K, V>(rules: map<K, Rule<K, V>>, p: seq<K>, d: K)
    requires Walk(rules, p) && p != [] && p[|p| - 1] in rules && d in rules[p[|p| - 1]].dependencies
    ensures Walk(rules, p + [d])
  {
    var q := p + [d];
    forall i | 0 <= i < |q| - 1 ensures q[i] in rules && q[i + 1] in rules[q[i]].dependencies {
      if i < |p| - 1 {
        assert q[i] == p[i] && q[i + 1] == p[i + 1];
      }
    }
  }

  lemma ValueNeverRepeats<K, V>(rules: map<K, Rule<K, V>>, p: seq<K>, i: nat)
    requires |p| > 0 && Walk(rules, p) && i < |p| - 1 && Eval(rules, p[0], []).Value?
    ensures p[i] != p[|p| - 1]
  {
    ValueFollowsWalk(rules, p, |p| - 1);
    assert p[|p| - 1] !in p[..|p| - 1];
    assert p[i] in p[..|p| - 1];
  }

  // ---------------------------------------------------------------- the cached graph

  datatype Node<!K, !V> = Node(
    rule: Rule<K, V>,
    value: Option<V>,
    version: nat,
    dirty: bool,
    depVersions: map<K, nat>)

  function RulesOf<K, V>(nodes: map<K, Node<K, V>>): map<K, Rule<K, V>> {
    map k | k in nodes :: nodes[k].rule
  }

  /** The recorded versions still are the current ones. */
  predicate DepsCurrent<K(==), V>(nodes: map<K, Node<K, V>>, n: Node<K, V>) {
    forall d :: d in n.rule.dependencies ==> d in nodes && d in n.depVersions && n.depVersions[d] == nodes[d].version
  }

  /** A node a read may answer from its cache. */
  predicate UpToDate<K(==), V>(nodes: map<K, Node<K, V>>, k: K) {
    k in nodes && nodes[k].value.Some? && !nodes[k].dirty && DepsCurrent(nodes, nodes[k])
  }

  /** A set of nodes that are up to date and depend only on one another. */
  ghost predicate Settled<K, V>(nodes: map<K, Node<K, V>>, s: set<K>) {
    forall k :: k in s ==> UpToDate(nodes, k) && forall d :: d in nodes[k].rule.dependencies ==> d in s
  }

  /** The value each version of each node has stood for. */
  type History<!K(==), !V> = map<(K, nat), V>

  ghost predicate Historic<K, V>(h: History<K, V>, n: Node<K, V>) {
    forall d :: d in n.rule.dependencies ==> d in n.depVersions && (d, n.depVersions[d]) in h
  }

  /** A node's value is what its rule gives for the dependency versions it recorded. */
  ghost predicate Recorded<K, V>(h: History<K, V>, n: Node<K, V>) {
    && n.value.Some? && Historic(h, n)
    && n.rule.compute(map d | d in n.rule.dependencies :: h[(d, n.depVersions[d])]) == n.value
  }

  ghost predicate Consistent<K(!new), V>(nodes: map<K, Node<K, V>>, h: History<K, V>, stale: set<K>) {
    && (forall k :: k in nodes ==>
          Versioned(h, k, nodes[k]) && (!nodes[k].dirty && k !in stale ==> Recorded(h, nodes[k])))
    && (forall k, n :: (k, n) in h ==> k in nodes && n <= nodes[k].version)
  }

  /** Version 0 means no value yet; otherwise the current version stands for the current value. */
  ghost predicate Versioned<K, V>(h: History<K, V>, k: K, n: Node<K, V>) {
    if n.version == 0 then n.value.None? else (k, n.version) in h && n.value == Some(h[(k, n.version)])
  }

  /** A version moves exactly when the value does, and never back. */
  ghost predicate VersionMoved<K, V>(n: Node<K, V>, n': Node<K, V>) {
    n.version <= n'.version && (n.version == n'.version <==> n.value == n'.value)
  }

  /** History only grows, and a version moves exactly when the value does. */
  ghost predicate Advanced<K(!new), V>(nodes: map<K, Node<K, V>>, h: History<K, V>, nodes': map<K, Node<K, V>>,
      h': History<K, V>) {
    && RulesOf(nodes) == RulesOf(nodes')
    && (forall e :: e in h ==> e in h' && h[e] == h'[e])
    && (forall k :: k in nodes ==> k in nodes' && VersionMoved(nodes[k], nodes'[k]))
  }

  /** A node the read must compute, judged by its dependencies' final versions. */
  ghost predicate Outdated<K, V>(nodes: map<K, Node<K, V>>, n: Node<K, V>) {
    n.value.None? || n.dirty || !DepsCurrent(nodes, n)
  }

  /**
   Everything one (possibly nested) read does to the nodes: `calls` are the nodes computed, in
   order, each once; exactly the outdated ones among the newly settled; all others untouched.
   */
  ghost predicate ReadEffect<K(!new), V>(
    nodes: map<K, Node<K, V>>, h: History<K, V>, s: set<K>, nodes': map<K, Node<K, V>>, h': History<K, V>, s': set<K>,
        calls: seq<K>)
  {
    && Advanced(nodes, h, nodes', h')
    && s <= s' && Settled(nodes', s')
    && Distinct(calls) && (forall c :: c in calls ==> c in s' && c !in s)
    && (forall k :: k in nodes && k !in calls ==> nodes'[k] == nodes[k])
    && (forall k :: k in nodes ==> nodes'[k].version <= nodes[k].version + 1)
    && (forall k :: k in s' && k !in s ==> k in nodes && (k in calls <==> Outdated(nodes', nodes[k])))
  }

  lemma ReadNothing<K(!new), V>(nodes: map<K, Node<K, V>>, h: History<K, V>, s: set<K>)
    requires Settled(nodes, s)
    ensures ReadEffect(nodes, h, s, nodes, h, s, [])
  {
  }

  lemma DistinctConcat<K>(c: seq<K>, d: seq<K>)
    requires Distinct(c) && Distinct(d) && forall k :: k in c ==> k !in d
    ensures Distinct(c + d)
  {
    forall i, j | 0 <= i < j < |c + d| ensures (c + d)[i] != (c + d)[j] {
      if i < |c| <= j {
        assert c[i] in c && d[j - |c|] in d;
      }
    }
  }

  /** Reads compose: a node settled first stays put, so its verdict stands. */
  lemma ReadOn<K(!new), V>(
    n0: map<K, Node<K, V>>, h0: History<K, V>, s0: set<K>,
    n1: map<K, Node<K, V>>, h1: History<K, V>, s1: set<K>, c1: seq<K>,
    n2: map<K, Node<K, V>>, h2: History<K, V>, s2: set<K>, c2: seq<K>)
    requires ReadEffect(n0, h0, s0, n1, h1, s1, c1) && ReadEffect(n1, h1, s1, n2, h2, s2, c2)
    ensures ReadEffect(n0, h0, s0, n2, h2, s2, c1 + c2)
  {
    forall k | k in n0 ensures k in n1 && k in n2 && n0[k].rule == n1[k].rule {
      assert RulesOf(n0)[k] == RulesOf(n1)[k];
    }
    assert Advanced(n0, h0, n2, h2);
    DistinctConcat(c1, c2);
    forall k | k in s2 && k !in s0 ensures k in n0 && (k in c1 + c2 <==> Outdated(n2, n0[k])) {
      if k in s1 {
        assert forall d :: d in n1[k].rule.dependencies ==> d in s1 && n2[d] == n1[d];
        assert DepsCurrent(n1, n0[k]) <==> DepsCurrent(n2, n0[k]);
      } else {
        assert k in n1 && k in RulesOf(n0);
      }
    }
  }

  /** An up-to-date node whose dependencies are settled is settled as it is. */
  lemma Reuse<K(!new), V>(nodes: map<K, Node<K, V>>, h: History<K, V>, s: set<K>, key: K)
    requires Settled(nodes, s) && UpToDate(nodes, key)
    requires forall d :: d in nodes[key].rule.dependencies ==> d in s
    ensures ReadEffect(nodes, h, s, nodes, h, s + {key}, [])
  {
  }

  function Computed<K(==), V(==)>(nodes: map<K, Node<K, V>>, key: K, v: V): Node<K, V>
    requires key in nodes && forall d :: d in nodes[key].rule.dependencies ==> d in nodes
  {
    var n := nodes[key];
    n.(value := Some(v), dirty := false, version := if n.value == Some(v) then n.version else n.version + 1,
       depVersions := map d | d in n.rule.dependencies :: nodes[d].version)
  }

  /** The situation when an outdated node, its dependencies settled, has been computed and stored. */
  ghost predicate Stored<K(!new), V>(
    nodes: map<K, Node<K, V>>, h: History<K, V>, s: set<K>, key: K, v: V, nodes': map<K, Node<K, V>>, h': History<K, V>)
  {
    && Settled(nodes, s) && key in nodes && key !in s && Outdated(nodes, nodes[key])
    && (forall d :: d in nodes[key].rule.dependencies ==> d in s)
    && nodes' == nodes[key := Computed(nodes, key, v)]
    && h' == h[(key, nodes'[key].version) := v]
  }

  lemma StoredIsConsistent<K(!new), V>(
    nodes: map<K, Node<K, V>>, h: History<K, V>, stale: set<K>, s: set<K>, key: K, values: map<K, V>, v: V,
    nodes': map<K, Node<K, V>>, h': History<K, V>)
    requires Consistent(nodes, h, stale) && Stored(nodes, h, s, key, v, nodes', h')
    requires Read(nodes, s, nodes[key].rule.dependencies, values) && nodes[key].rule.compute(values) == Some(v)
    ensures Consistent(nodes', h', stale)
    ensures forall e :: e in h ==> e in h' && h[e] == h'[e]
  {
    StoredIsRecorded(nodes, h, stale, s, key, values, v, nodes', h');
    forall k | k in nodes && k != key && !nodes[k].dirty && k !in stale ensures Recorded(h', nodes[k]) {
      RecordedGrows(h, h', nodes[k]);
    }
  }

  lemma StoredIsRecorded<K(!new), V>(
    nodes: map<K, Node<K, V>>, h: History<K, V>, stale: set<K>, s: set<K>, key: K, values: map<K, V>, v: V,
    nodes': map<K, Node<K, V>>, h': History<K, V>)
    requires Consistent(nodes, h, stale) && Stored(nodes, h, s, key, v, nodes', h')
    requires Read(nodes, s, nodes[key].rule.dependencies, values) && nodes[key].rule.compute(values) == Some(v)
    ensures Recorded(h', nodes'[key])
    ensures forall e :: e in h ==> e in h' && h[e] == h'[e]
  {
    var n' := nodes'[key];
    forall d | d in n'.rule.dependencies
      ensures d in n'.depVersions && (d, n'.depVersions[d]) in h' && h'[(d, n'.depVersions[d])] == values[d]
    {
      assert d != key;
    }
    assert (map d | d in n'.rule.dependencies :: h'[(d, n'.depVersions[d])]) == values;
  }

  lemma RecordedGrows<K(!new), V>(h: History<K, V>, h': History<K, V>, n: Node<K, V>)
    requires Recorded(h, n) && forall e :: e in h ==> e in h' && h[e] == h'[e]
    ensures Recorded(h', n)
  {
    assert (map d | d in n.rule.dependencies :: h'[(d, n.depVersions[d])]) == map d | d in n.rule.dependencies ::
        h[(d, n.depVersions[d])];
  }

  lemma StoredEffect<K(!new), V>(
    nodes: map<K, Node<K, V>>, h: History<K, V>, s: set<K>, key: K, v: V, nodes': map<K, Node<K, V>>, h': History<K, V>)
    requires Stored(nodes, h, s, key, v, nodes', h') && forall e :: e in h ==> e in h' && h[e] == h'[e]
    ensures ReadEffect(nodes, h, s, nodes', h', s + {key}, [key])
  {
    assert RulesOf(nodes) == RulesOf(nodes');
    forall d | d in nodes[key].rule.dependencies ensures d != key && nodes'[d] == nodes[d] {}
    forall k | k in s ensures UpToDate(nodes', k) {
      assert forall d :: d in nodes[k].rule.dependencies ==> d in s && d != key;
    }
  }

  // ---------------------------------------------------------------- runs

  /** What a client may do: add a node, report a change of the world behind one, read one. */
  datatype Step<!K, !V> =
    | AddNode(key: K, rule: Rule<K, V>)
    | Change(key: K, compute: map<K, V> -> Option<V>)
    | Ask(key: K)

  function AfterStep<K(==), V>(rules: map<K, Rule<K, V>>, step: Step<K, V>): map<K, Rule<K, V>> {
    match step
    case AddNode(k, rule) => if k in rules then rules else rules[k := rule]
    case Change(k, compute) => if k in rules then rules[k := Rule(compute, rules[k].dependencies)] else rules
    case Ask(_) => rules
  }

  /** The world after some steps, with no cache in it. */
  function World<K(==), V>(rules: map<K, Rule<K, V>>, steps: seq<Step<K, V>>): map<K, Rule<K, V>> {
    if steps == [] then rules else AfterStep(World(rules, steps[..|steps| - 1]), steps[|steps| - 1])
  }

  lemma WorldMore<K, V>(rules: map<K, Rule<K, V>>, steps: seq<Step<K, V>>, i: nat)
    requires i < |steps|
    ensures World(rules, steps[..i + 1]) == AfterStep(World(rules, steps[..i]), steps[i])
  {
    assert steps[..i + 1][..i] == steps[..i];
  }

  lemma RulesAt<K, V>(nodes: map<K, Node<K, V>>, k: K, n: Node<K, V>)
    ensures RulesOf(nodes[k := n]) == RulesOf(nodes)[k := n.rule]
    ensures k in nodes ==> RulesOf(nodes)[k] == nodes[k].rule
  {
  }

  class IdentityGraph<K(==,!new), V(==)> {
    var nodes: map<K, Node<K, V>>
    /** What every version has meant so far, and the nodes whose rule changed without being invalidated. */
    ghost var hist: History<K, V>
    ghost var stale: set<K>

    ghost predicate Valid()
      reads this
    {
      Consistent(nodes, hist, stale)
    }

    constructor ()
      ensures Valid() && nodes == map[] && stale == {}
    {
      nodes, hist, stale := map[], map[], {};
    }

    method Add(key: K, rule: Rule<K, V>) returns (added: bool)
      requires Valid()
      modifies this`nodes
      ensures Valid() && (added <==> key !in old(nodes))
      ensures nodes == if added then old(nodes)[key := Node(rule, None, 0, true, map[])] else old(nodes)
      ensures forall s :: Settled(old(nodes), s) ==> Settled(nodes, s)
    {
      added := key !in nodes;
      if added {
        nodes := nodes[key := Node(rule, None, 0, true, map[])];
        assert forall k :: k in old(nodes) ==> nodes[k] == old(nodes)[k];
      }
    }

    /** The world behind a node changes: its compute function is another one from now on. */
    method ChangeWorld(key: K, compute: map<K, V> -> Option<V>)
      requires Valid() && key in nodes
      modifies this`nodes, this`stale
      ensures Valid() && stale == old(stale) + {key}
      ensures nodes == old(nodes)[key := old(nodes)[key].(rule := Rule(compute, old(nodes)[key].rule.dependencies))]
    {
      nodes := nodes[key := nodes[key].(rule := Rule(compute, nodes[key].rule.dependencies))];
      stale := stale + {key};
    }

    /** `False` where the source raises KeyError. */
    method Invalidate(key: K) returns (known: bool)
      requires Valid()
      modifies this`nodes, this`stale
      ensures Valid() && (known <==> key in old(nodes))
      ensures nodes == if known then old(nodes)[key := old(nodes)[key].(dirty := true)] else old(nodes)
      ensures stale == if known then old(stale) - {key} else old(stale)
    {
      known := key in nodes;
      if known {
        nodes := nodes[key := nodes[key].(dirty := true)];
        stale := stale - {key};
      }
    }

    /**
     `get`. If every node whose compute function changed was invalidated, the answer (value or
     error) is that of plain evaluation; the nodes computed are exactly the outdated ones, once
     each; and what was settled before is neither computed nor touched.
     */
    method Get(key: K, ghost s: set<K>) returns (out: Outcome<K, V>, ghost s': set<K>, ghost calls: seq<K>)
      requires Valid() && Settled(nodes, s)
      modifies this`nodes, this`hist
      ensures Valid() && ReadEffect(old(nodes), old(hist), s, nodes, hist, s', calls)
      ensures stale == {} ==> out == Eval(RulesOf(old(nodes)), key, [])
      ensures out.Value? ==> key in s' && nodes[key].value == Some(out.value)
      ensures key in s ==> nodes == old(nodes) && calls == []
    {
      out, s', calls := GetLocked(key, [], s);
      if key in s {
        SameRulesSameKeys(old(nodes), nodes);
        assert forall k :: k in nodes ==> nodes[k] == old(nodes)[k];
      }
    }

    /** `version`: the version is that of the value a `get` would return now, and the effect is that of a `get`. */
    method Version(key: K, ghost s: set<K>)
      returns (out: Outcome<K, V>, version: nat, ghost s': set<K>, ghost calls: seq<K>)
      requires Valid() && Settled(nodes, s)
      modifies this`nodes, this`hist
      ensures Valid() && ReadEffect(old(nodes), old(hist), s, nodes, hist, s', calls)
      ensures stale == {} ==> out == Eval(RulesOf(old(nodes)), key, [])
      ensures out.Value? ==>
              key in nodes && version == nodes[key].version && (key, version) in hist
              && hist[(key, version)] == out.value
    {
      out, s', calls := GetLocked(key, [], s);
      version := if out.Value? then nodes[key].version else 0;
    }

    /** A change of the world, and its invalidation. */
    method ChangeAndInvalidate(key: K, compute: map<K, V> -> Option<V>)
      requires Valid() && stale == {} && key in nodes
      modifies this`nodes, this`stale
      ensures Valid() && stale == {}
      ensures RulesOf(nodes) == RulesOf(old(nodes))[key := Rule(compute, old(nodes)[key].rule.dependencies)]
              && key in RulesOf(old(nodes))
      ensures RulesOf(old(nodes))[key] == old(nodes)[key].rule
    {
      RulesAt(nodes, key, nodes[key].(rule := Rule(compute, nodes[key].rule.dependencies)));
      ChangeWorld(key, compute);
      RulesAt(nodes, key, nodes[key].(dirty := true));
      var known := Invalidate(key);
    }

    /** One step of a client; every change of the world is followed by its invalidation. */
    method Perform(step: Step<K, V>) returns (reply: Option<Outcome<K, V>>)
      requires Valid() && stale == {}
      modifies this
      ensures Valid() && stale == {} && RulesOf(nodes) == AfterStep(RulesOf(old(nodes)), step)
      ensures step.Ask? ==> reply == Some(Eval(RulesOf(old(nodes)), step.key, []))
    {
      reply := None;
      match step {
        case AddNode(k, rule) =>
          RulesAt(nodes, k, Node(rule, None, 0, true, map[]));
          var added := Add(k, rule);
        case Change(k, compute) =>
          if k in nodes {
            ChangeAndInvalidate(k, compute);
          }
        case Ask(k) =>
          var out;
          ghost var s', calls;
          out, s', calls := Get(k, {});
          reply := Some(out);
      }
    }

    /**
     A whole run: any steps in any order. Every read is answered as evaluating the world of that
     moment from scratch would answer it.
     */
    method Replay(steps: seq<Step<K, V>>) returns (replies: seq<Option<Outcome<K, V>>>)
      requires Valid() && stale == {}
      modifies this
      ensures Valid() && stale == {} && RulesOf(nodes) == World(RulesOf(old(nodes)), steps) && |replies| == |steps|
      ensures forall i | 0 <= i < |steps| && steps[i].Ask? ::
              replies[i] == Some(Eval(World(RulesOf(old(nodes)), steps[..i]), steps[i].key, []))
    {
      ghost var rules := RulesOf(nodes);
      replies := [];
      assert steps[..0] == [];
      while |replies| < |steps|
        invariant |replies| <= |steps| && Valid() && stale == {} && RulesOf(nodes) == World(rules, steps[..|replies|])
        invariant forall i | 0 <= i < |replies| && steps[i].Ask? ::
                replies[i] == Some(Eval(World(rules, steps[..i]), steps[i].key, []))
      {
        WorldMore(rules, steps, |replies|);
        var reply := Perform(steps[|replies|]);
        replies := replies + [reply];
      }
      assert steps[..|steps|] == steps;
    }

    /** One level of `_get_locked`: settle the dependencies, then answer from the cache or compute. */
    method GetLocked(key: K, stack: seq<K>, ghost s: set<K>)
      returns (out: Outcome<K, V>, ghost s': set<K>, ghost calls: seq<K>)
      requires Valid() && Settled(nodes, s)
      modifies this`nodes, this`hist
      ensures Valid() && ReadEffect(old(nodes), old(hist), s, nodes, hist, s', calls)
      ensures forall k :: k in stack ==> k !in calls && (k in s' ==> k in s)
      ensures out.Value? ==> key in s' && nodes[key].value == Some(out.value)
      ensures stale == {} ==> out == Plain(old(nodes), key, stack)
      ensures key in s ==> s' == s && calls == []
      decreases Left(RulesOf(nodes), stack), 2
    {
      s', calls := s, [];
      ReadNothing(nodes, hist, s);
      if key in stack {
        out := Cycle(stack[IndexOf(stack, key)..] + [key]);
      } else if key !in nodes {
        out := UnknownKey(key);
      } else {
        ghost var n0 := nodes;
        ghost var gathered;
        out, gathered, s', calls := GetKnown(key, stack, s);
        EvalStep(n0, key, stack, gathered);
      }
    }

    /** A known node off the stack: its dependencies are gathered first. */
    method GetKnown(key: K, stack: seq<K>, ghost s: set<K>)
      returns (out: Outcome<K, V>, ghost gathered: Gathered<K, V>, ghost s': set<K>, ghost calls: seq<K>)
      requires Valid() && Settled(nodes, s) && key in nodes && key !in stack
      modifies this`nodes, this`hist
      ensures Valid() && ReadEffect(old(nodes), old(hist), s, nodes, hist, s', calls)
      ensures forall k :: k in stack ==> k !in calls && (k in s' ==> k in s)
      ensures out.Value? ==> key in s' && nodes[key].value == Some(out.value)
      ensures stale == {} ==> gathered == PlainAll(old(nodes), old(nodes)[key].rule.dependencies, stack + [key])
      ensures stale == {} ==>
              out == match gathered case Stopped(o) => o case Values(m) => Answered(key,
              old(nodes)[key].rule.compute(m))
      ensures key in s ==> s' == s && calls == []
      decreases Left(RulesOf(nodes), stack), 1
    {
      ghost var n0, h0 := nodes, hist;
      PushShrinks(RulesOf(n0), stack, key);
      var values;
      values, s', calls := GetAll(nodes[key].rule.dependencies, stack + [key], s);
      gathered := values;
      PushedApart(stack, key, s, s', calls);
      out, s', calls := Conclude(key, values, s', n0, h0, s, calls);
    }

    lemma PushedApart(stack: seq<K>, key: K, s: set<K>, s': set<K>, calls: seq<K>)
      requires forall k :: k in stack + [key] ==> k !in calls && (k in s' ==> k in s)
      ensures forall k :: k in stack ==> k !in calls && (k in s' ==> k in s)
      ensures key !in calls && (key in s' ==> key in s)
    {
      assert key in stack + [key] && forall k :: k in stack ==> k in stack + [key];
    }

    /** With the dependencies settled, or the reading of them stopped. */
    method Conclude(key: K, values: Gathered<K, V>, ghost s1: set<K>,
                    ghost n0: map<K, Node<K, V>>, ghost h0: History<K, V>, ghost s0: set<K>, ghost c1: seq<K>)
      returns (out: Outcome<K, V>, ghost s': set<K>, ghost calls: seq<K>)
      requires Valid() && ReadEffect(n0, h0, s0, nodes, hist, s1, c1) && key in n0
      requires key !in c1 && (key in s1 ==> key in s0)
      requires values.Values? ==> Read(nodes, s1, n0[key].rule.dependencies, values.values)
      requires values.Stopped? ==> !values.outcome.Value?
      modifies this`nodes, this`hist
      ensures Valid() && ReadEffect(n0, h0, s0, nodes, hist, s', calls)
      ensures forall k :: k in calls ==> k in c1 || k == key
      ensures forall k :: k in s' ==> k in s1 || k == key
      ensures out.Value? ==> key in s' && nodes[key].value == Some(out.value)
      ensures stale == {} ==>
                out == match values case Stopped(o) => o case Values(m) => Answered(key, n0[key].rule.compute(m))
      ensures key in s1 ==> s' == s1 && calls == c1
    {
      if values.Stopped? {
        out, s', calls := values.outcome, s1, c1;
      } else {
        out, s', calls := Finish(key, values.values, s1, n0, h0, s0, c1);
      }
    }

    /** Settle the dependencies one after the other; each one's value then stays what was read. */
    method GetAll(keys: seq<K>, stack: seq<K>, ghost s: set<K>)
      returns (res: Gathered<K, V>, ghost s': set<K>, ghost calls: seq<K>)
      requires Valid() && Settled(nodes, s)
      modifies this`nodes, this`hist
      ensures Valid() && ReadEffect(old(nodes), old(hist), s, nodes, hist, s', calls)
      ensures forall k :: k in stack ==> k !in calls && (k in s' ==> k in s)
      ensures res.Values? ==> Read(nodes, s', keys, res.values)
      ensures res.Stopped? ==> !res.outcome.Value?
      ensures stale == {} ==> res == PlainAll(old(nodes), keys, stack)
      ensures (forall d :: d in keys ==> d in s) ==> s' == s && calls == []
      decreases Left(RulesOf(nodes), stack), 4
    {
      ghost var n0, h0, rules := nodes, hist, RulesOf(nodes);
      res, s', calls := Values(map[]), s, [];
      ReadNothing(nodes, hist, s);
      assert keys[..0] == [];
      var i := 0;
      while i < |keys| && res.Values?
        invariant 0 <= i <= |keys|
        invariant Valid() && ReadEffect(n0, h0, s, nodes, hist, s', calls)
        invariant forall k :: k in stack ==> k !in calls && (k in s' ==> k in s)
        invariant res.Values? ==> Read(nodes, s', keys[..i], res.values)
        invariant res.Stopped? ==> !res.outcome.Value?
        invariant stale == {} ==> EvalAll(rules, keys[..i], stack) == res
        invariant (forall d :: d in keys ==> d in s) ==> s' == s && calls == []
      {
        res, s', calls := GetNext(keys, i, res.values, stack, s', n0, h0, s, calls);
        i := i + 1;
      }
      assert res.Values? ==> keys[..i] == keys;
      StopsAll(rules, keys, i, stack);
    }

    /** Settle one more dependency. */
    method GetNext(keys: seq<K>, i: nat, values: map<K, V>, stack: seq<K>, ghost s1: set<K>,
                   ghost n0: map<K, Node<K, V>>, ghost h0: History<K, V>, ghost s0: set<K>, ghost c1: seq<K>)
      returns (res: Gathered<K, V>, ghost s': set<K>, ghost calls: seq<K>)
      requires Valid() && ReadEffect(n0, h0, s0, nodes, hist, s1, c1) && i < |keys|
      requires forall k :: k in stack ==> k !in c1 && (k in s1 ==> k in s0)
      requires Read(nodes, s1, keys[..i], values)
      requires stale == {} ==> EvalAll(RulesOf(n0), keys[..i], stack) == Values(values)
      modifies this`nodes, this`hist
      ensures Valid() && ReadEffect(n0, h0, s0, nodes, hist, s', calls)
      ensures forall k :: k in stack ==> k !in calls && (k in s' ==> k in s0)
      ensures res.Values? ==> Read(nodes, s', keys[..i + 1], res.values)
      ensures res.Stopped? ==> !res.outcome.Value?
      ensures stale == {} ==> EvalAll(RulesOf(n0), keys[..i + 1], stack) == res
      ensures keys[i] in s1 ==> s' == s1 && calls == c1
      decreases Left(RulesOf(n0), stack), 3
    {
      ghost var n1, h1 := nodes, hist;
      ghost var more;
      var out;
      out, s', more := GetLocked(keys[i], stack, s1);
      ReadOn(n0, h0, s0, n1, h1, s1, c1, nodes, hist, s', more);
      calls := c1 + more;
      assert keys[..i + 1][..i] == keys[..i] && keys[..i + 1][i] == keys[i];
      if out.Value? {
        ReadExtends(n1, s1, nodes, s', keys, i, values, out.value);
        res := Values(values[keys[i] := out.value]);
      } else {
        res := Stopped(out);
      }
    }

    /** Answer from the cache, or compute and advance the version only if the value changed. */
    method Finish(key: K, values: map<K, V>, ghost s1: set<K>,
                  ghost n0: map<K, Node<K, V>>, ghost h0: History<K, V>, ghost s0: set<K>, ghost c1: seq<K>)
      returns (out: Outcome<K, V>, ghost s': set<K>, ghost calls: seq<K>)
      requires Valid() && ReadEffect(n0, h0, s0, nodes, hist, s1, c1) && key in n0
      requires key !in c1 && (key in s1 ==> key in s0)
      requires Read(nodes, s1, n0[key].rule.dependencies, values)
      modifies this`nodes, this`hist
      ensures Valid() && ReadEffect(n0, h0, s0, nodes, hist, s', calls)
      ensures forall k :: k in calls ==> k in c1 || k == key
      ensures forall k :: k in s' ==> k in s1 || k == key
      ensures out.Value? ==> key in s' && nodes[key].value == Some(out.value)
      ensures stale == {} ==> out == Answered(key, n0[key].rule.compute(values))
      ensures key in s1 ==> s' == s1 && calls == c1
    {
      assert nodes[key] == n0[key];
      ghost var n1, h1 := nodes, hist;
      var n := nodes[key];
      if n.value.Some? && !n.dirty && DepsCurrent(nodes, n) {
        Reuse(nodes, hist, s1, key);
        s', calls := s1 + {key}, c1 + [];
        ReadOn(n0, h0, s0, n1, h1, s1, c1, nodes, hist, s', []);
        CacheIsCurrent(nodes, hist, stale, key, values);
        out := Value(n.value.value);
      } else {
        var v := n.rule.compute(values);
        if v.None? {
          s', calls, out := s1, c1, Raised(key);
        } else {
          nodes := nodes[key := Computed(nodes, key, v.value)];
          hist := hist[(key, nodes[key].version) := v.value];
          StoredIsConsistent(n1, h1, stale, s1, key, values, v.value, nodes, hist);
          StoredEffect(n1, h1, s1, key, v.value, nodes, hist);
          s', calls := s1 + {key}, c1 + [key];
          ReadOn(n0, h0, s0, n1, h1, s1, c1, nodes, hist, s', [key]);
          out := Value(v.value);
        }
      }
    }
  }

  /** Plain evaluation under the rules the nodes hold. */
  ghost function Plain<K, V>(nodes: map<K, Node<K, V>>, key: K, stack: seq<K>): Outcome<K, V> {
    Eval(RulesOf(nodes), key, stack)
  }

  ghost function PlainAll<K, V>(nodes: map<K, Node<K, V>>, keys: seq<K>, stack: seq<K>): Gathered<K, V> {
    EvalAll(RulesOf(nodes), keys, stack)
  }

  /** Evaluating a node: its dependencies first, then its own compute function. */
  lemma EvalStep<K, V>(nodes: map<K, Node<K, V>>, key: K, stack: seq<K>, gathered: Gathered<K, V>)
    requires key in nodes && key !in stack
    ensures PlainAll(nodes, nodes[key].rule.dependencies, stack + [key]) == gathered ==>
      Plain(nodes, key, stack) ==
        match gathered
        case Stopped(o) => o
        case Values(m) => Answered(key, nodes[key].rule.compute(m))
  {
    assert RulesOf(nodes)[key] == nodes[key].rule;
  }

  lemma SameRulesSameKeys<K, V>(n: map<K, Node<K, V>>, m: map<K, Node<K, V>>)
    requires RulesOf(n) == RulesOf(m)
    ensures n.Keys == m.Keys
  {
    assert n.Keys == RulesOf(n).Keys && m.Keys == RulesOf(m).Keys;
  }

  /** The values read for some keys are the settled ones. */
  ghost predicate Read<K, V>(nodes: map<K, Node<K, V>>, s: set<K>, keys: seq<K>, values: map<K, V>) {
    && values.Keys == Elements(keys)
    && forall d :: d in keys ==> d in s && d in nodes && nodes[d].value == Some(values[d])
  }

  lemma ReadExtends<K, V>(
    n1: map<K, Node<K, V>>, s1: set<K>, n2: map<K, Node<K, V>>, s2: set<K>, keys: seq<K>, i: nat, values: map<K, V>,
        v: V)
    requires i < |keys| && Read(n1, s1, keys[..i], values)
    requires s1 <= s2 && forall k :: k in s1 && k in n1 ==> k in n2 && n2[k] == n1[k]
    requires keys[i] in s2 && keys[i] in n2 && n2[keys[i]].value == Some(v)
    ensures Read(n2, s2, keys[..i + 1], values[keys[i] := v])
  {
    assert keys[..i + 1] == keys[..i] + [keys[i]];
  }

  /** A cached value is what the rule gives for the current dependency values. */
  lemma CacheIsCurrent<K(!new), V>(nodes: map<K, Node<K, V>>, h: History<K, V>, stale: set<K>, key: K,
      values: map<K, V>)
    requires Consistent(nodes, h, stale) && UpToDate(nodes, key)
    requires values.Keys == Elements(nodes[key].rule.dependencies)
    requires forall d :: d in nodes[key].rule.dependencies ==> d in nodes && nodes[d].value == Some(values[d])
    ensures key !in stale ==> nodes[key].rule.compute(values) == nodes[key].value
  {
    if key !in stale {
      var n := nodes[key];
      assert (map d | d in n.rule.dependencies :: h[(d, n.depVersions[d])]) == values;
    }
  }

  lemma {:induction false} StopsAll<K, V>(rules: map<K, Rule<K, V>>, keys: seq<K>, i: nat, stack: seq<K>)
    requires i <= |keys|
    ensures (i == |keys| || EvalAll(rules, keys[..i], stack).Stopped?) ==>
            EvalAll(rules, keys, stack) == EvalAll(rules, keys[..i], stack)
    decreases |keys| - i
  {
    if i < |keys| {
      assert keys[..i + 1][..i] == keys[..i];
      StopsAll(rules, keys, i + 1, stack);
    } else {
      assert keys[..i] == keys;
    }
  }
}

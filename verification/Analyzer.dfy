/** The rule engine: batches of rules run to a fixed point, from sql/analyzer/batch.go and sql/analyzer/analyzer.go. */
module Analyzer {
  import opened Wrappers

  /** Why analysis stops: a rule failed, or a batch did not settle in its number of iterations. */
  datatype Error = RuleFailed(what: string) | MaxAnalysisIters(iterations: int)

  /** What a rule returns: maybe a node (nil leaves the node as it is), and maybe an error. */
  datatype Outcome<+N> = Outcome(next: Option<N>, err: Option<Error>)

  datatype Rule<!N> = Rule(name: string, apply: N -> Outcome<N>)

  datatype Batch<!N> = Batch(desc: string, iterations: int, rules: seq<Rule<N>>)

  datatype Analyzed<+N> = Analyzed(node: N, err: Option<Error>)

  // ---------------------------------------------------------------- specification

  /** One pass: each rule on the result of the one before, up to the first error. */
  function Pass<N>(rules: seq<Rule<N>>, n: N): Analyzed<N> {
    if rules == [] then Analyzed(n, None)
    else
      var out := rules[0].apply(n);
      var node := if out.next.Some? then out.next.value else n;
      if out.err.Some? then Analyzed(node, out.err) else Pass(rules[1..], node)
  }

  /** The node after `k` passes, none of which fails. */
  function Node<N>(rules: seq<Rule<N>>, n: N, k: nat): N {
    if k == 0 then n else Pass(rules, Node(rules, n, k - 1)).node
  }

  /** Pass number `k` (from 1) fails. */
  predicate Fails<N>(rules: seq<Rule<N>>, n: N, k: nat)
    requires k >= 1
  {
    Pass(rules, Node(rules, n, k - 1)).err.Some?
  }

  /** Pass number `k` leaves the node equal. */
  predicate Settles<N>(rules: seq<Rule<N>>, n: N, eq: (N, N) -> bool, k: nat)
    requires k >= 1
  {
    eq(Node(rules, n, k - 1), Node(rules, n, k))
  }

  /** No pass before number `k` fails or settles, so Eval makes pass `k`. */
  predicate Reaches<N>(rules: seq<Rule<N>>, n: N, eq: (N, N) -> bool, k: nat) {
    forall i :: 1 <= i < k ==> !Fails(rules, n, i) && !Settles(rules, n, eq, i)
  }

  lemma ReachesNext<N>(rules: seq<Rule<N>>, n: N, eq: (N, N) -> bool, k: nat)
    requires k >= 1 && Reaches(rules, n, eq, k) && !Fails(rules, n, k) && !Settles(rules, n, eq, k)
    ensures Reaches(rules, n, eq, k + 1)
  {
  }

  /** What Batch.Eval answers after `passes` passes. */
  ghost predicate EvalAnswers<N>(b: Batch<N>, n: N, eq: (N, N) -> bool, passes: nat, r: Analyzed<N>) {
    if b.iterations == 0 then passes == 0 && r == Analyzed(n, None)
    else
      && passes >= 1
      && r.node == Node(b.rules, n, passes)
      && Reaches(b.rules, n, eq, passes)
      && (if Fails(b.rules, n, passes) then r.err == Pass(b.rules, Node(b.rules, n, passes - 1)).err
          else if b.iterations == 1 then passes == 1 && r.err == None
          else if passes >= 2 && passes >= b.iterations then r.err == Some(MaxAnalysisIters(b.iterations))
          else r.err == None && Settles(b.rules, n, eq, passes))
      && (b.iterations == 1 ==> passes == 1)
      && (b.iterations != 1 ==> passes <= b.iterations || passes <= 2)
  }

  /** The node reached after some answers. */
  function LastNode<N>(n: N, answers: seq<Analyzed<N>>): N {
    if answers == [] then n else answers[|answers| - 1].node
  }

  ghost predicate BatchAnswers<N>(b: Batch<N>, n: N, eq: (N, N) -> bool, r: Analyzed<N>) {
    exists passes: nat :: EvalAnswers(b, n, eq, passes, r)
  }

  /** Each answer is that of its batch on the node reached before. */
  ghost predicate Chain<N>(batches: seq<Batch<N>>, n: N, eq: (N, N) -> bool, answers: seq<Analyzed<N>>)
    decreases |answers|
  {
    if answers == [] then true
    else
      var k := |answers| - 1;
      && k < |batches|
      && BatchAnswers(batches[k], LastNode(n, answers[..k]), eq, answers[k])
      && Chain(batches, n, eq, answers[..k])
  }

  /** An error that ends the analysis; running out of iterations does not. */
  predicate Stops(err: Option<Error>) {
    err.Some? && !err.value.MaxAnalysisIters?
  }

  /** What Analyze answers: the batches run one on the node of the other, up to the first error that stops. */
  ghost predicate AnalyzeAnswers<N>(batches: seq<Batch<N>>, n: N, eq: (N, N) -> bool, answers: seq<Analyzed<N>>, r: Analyzed<N>) {
    && Chain(batches, n, eq, answers)
    && (forall i :: 0 <= i < |answers| - 1 ==> !Stops(answers[i].err))
    && (|answers| < |batches| ==> answers != [] && Stops(answers[|answers| - 1].err))
    && r == if answers == [] then Analyzed(n, None) else answers[|answers| - 1]
  }

  // ---------------------------------------------------------------- the engine

  class Engine<N> {
    const batches: seq<Batch<N>>
    var contextStack: seq<string>

    constructor (batches: seq<Batch<N>>)
      ensures this.batches == batches && contextStack == []
    {
      this.batches := batches;
      contextStack := [];
    }

    method PushDebugContext(msg: string)
      modifies this
      ensures contextStack == old(contextStack) + [msg]
    {
      contextStack := contextStack + [msg];
    }

    method PopDebugContext()
      modifies this
      ensures contextStack == if old(contextStack) == [] then [] else old(contextStack)[..|old(contextStack)| - 1]
    {
      if |contextStack| > 0 {
        contextStack := contextStack[..|contextStack| - 1];
      }
    }

    method EvalOnce(rules: seq<Rule<N>>, n: N) returns (r: Analyzed<N>)
      modifies this
      ensures r == Pass(rules, n)
      ensures contextStack == old(contextStack)
    {
      var prev := n;
      for i := 0 to |rules|
        invariant Pass(rules[i..], prev) == Pass(rules, n)
        invariant contextStack == old(contextStack)
      {
        PushDebugContext(rules[i].name);
        var out := rules[i].apply(prev);
        if out.next.Some? {
          prev := out.next.value;
        }
        PopDebugContext();
        assert rules[i..][1..] == rules[i + 1..];
        if out.err.Some? {
          return Analyzed(prev, out.err);
        }
      }
      return Analyzed(prev, None);
    }

    /** Batch.Eval. */
    method Eval(b: Batch<N>, n: N, eq: (N, N) -> bool) returns (r: Analyzed<N>, ghost passes: nat)
      modifies this
      ensures EvalAnswers(b, n, eq, passes, r)
      ensures contextStack == old(contextStack)
    {
      passes := 0;
      if b.iterations == 0 {
        return Analyzed(n, None), 0;
      }
      var prev := n;
      PushDebugContext("0");
      r := EvalOnce(b.rules, n);
      PopDebugContext();
      passes := 1;
      var cur := r.node;
      if r.err.Some? || b.iterations == 1 {
        return;
      }
      var i := 1;
      while !eq(prev, cur)
        invariant passes == i >= 1
        invariant prev == Node(b.rules, n, i - 1) && cur == Node(b.rules, n, i)
        invariant r == Analyzed(cur, None) && !Fails(b.rules, n, i)
        invariant Reaches(b.rules, n, eq, i)
        invariant i > 1 ==> i < b.iterations
        invariant contextStack == old(contextStack)
        decreases if i == 1 && b.iterations <= 2 then 1 else b.iterations - i
      {
        ReachesNext(b.rules, n, eq, i);
        prev := cur;
        PushDebugContext("next");
        r := EvalOnce(b.rules, cur);
        PopDebugContext();
        passes := passes + 1;
        cur := r.node;
        if r.err.Some? {
          return;
        }
        i := i + 1;
        if i >= b.iterations {
          return Analyzed(cur, Some(MaxAnalysisIters(b.iterations))), passes;
        }
      }
    }

    method Analyze(n: N, eq: (N, N) -> bool) returns (r: Analyzed<N>, ghost answers: seq<Analyzed<N>>)
      modifies this
      ensures AnalyzeAnswers(batches, n, eq, answers, r)
      ensures contextStack == old(contextStack)
    {
      r, answers := Analyzed(n, None), [];
      for i := 0 to |batches|
        invariant |answers| == i
        invariant Chain(batches, n, eq, answers)
        invariant forall k :: 0 <= k < i ==> !Stops(answers[k].err)
        invariant r == if answers == [] then Analyzed(n, None) else answers[i - 1]
        invariant contextStack == old(contextStack)
      {
        PushDebugContext(batches[i].desc);
        ghost var passes: nat;
        r, passes := Eval(batches[i], r.node, eq);
        assert (answers + [r])[..i] == answers;
        answers := answers + [r];
        PopDebugContext();
        if r.err.Some? {
          if r.err.value.MaxAnalysisIters? {
            continue;
          }
          return;
        }
      }
    }
  }

  // ---------------------------------------------------------------- what a pass is

  /** The node a rule leaves: the one it returns, or the one it was given if that is nil. */
  ghost predicate Leaves<N>(rule: Rule<N>, before: N, after: N) {
    var next := rule.apply(before).next;
    (next.Some? ==> next.value == after) && (next.None? ==> before == after)
  }

  /** The nodes between the rules: the first `|nodes| - 1` rules have run, each on the node of the one before, and all but the last without an error. */
  ghost predicate Passed<N>(rules: seq<Rule<N>>, nodes: seq<N>) {
    && 1 <= |nodes| <= |rules| + 1
    && (forall i :: 0 <= i < |nodes| - 1 ==> Leaves(rules[i], nodes[i], nodes[i + 1]))
    && forall i :: 0 <= i < |nodes| - 2 ==> rules[i].apply(nodes[i]).err.None?
  }

  /** All rules have run and none failed, or the last one that ran failed. */
  ghost predicate Ended<N>(rules: seq<Rule<N>>, nodes: seq<N>, err: Option<Error>)
    requires Passed(rules, nodes)
  {
    var ran := |nodes| - 1;
    if ran == 0 then rules == [] && err.None?
    else err == rules[ran - 1].apply(nodes[ran - 1]).err && (err.None? ==> ran == |rules|)
  }

  lemma PassedMore<N>(rules: seq<Rule<N>>, n: N, nodes: seq<N>, err: Option<Error>)
    requires rules != [] && Passed(rules[1..], nodes) && Ended(rules[1..], nodes, err)
    requires Leaves(rules[0], n, nodes[0]) && rules[0].apply(n).err.None?
    ensures Passed(rules, [n] + nodes) && Ended(rules, [n] + nodes, err)
  {
    var all := [n] + nodes;
    forall i | 0 <= i < |all| - 1
      ensures Leaves(rules[i], all[i], all[i + 1]) && (i < |all| - 2 ==> rules[i].apply(all[i]).err.None?)
    {
      if i > 0 {
        assert rules[i] == rules[1..][i - 1] && all[i] == nodes[i - 1] && all[i + 1] == nodes[i];
      }
    }
    assert all[|all| - 2] == if |nodes| == 1 then n else nodes[|nodes| - 2];
  }

  /** A pass runs every rule of the list in order, each on the node the one before left, up to the first that fails. */
  lemma {:induction false} PassIs<N(!new)>(rules: seq<Rule<N>>, n: N)
    ensures exists nodes :: Passed(rules, nodes) && nodes[0] == n
              && nodes[|nodes| - 1] == Pass(rules, n).node && Ended(rules, nodes, Pass(rules, n).err)
  {
    if rules == [] {
      assert Passed(rules, [n]);
    } else {
      var out := rules[0].apply(n);
      var node := if out.next.Some? then out.next.value else n;
      if out.err.Some? {
        assert Passed(rules, [n, node]);
      } else {
        PassIs(rules[1..], node);
        var rest :| Passed(rules[1..], rest) && rest[0] == node
                    && rest[|rest| - 1] == Pass(rules, n).node && Ended(rules[1..], rest, Pass(rules, n).err);
        PassedMore(rules, n, rest, Pass(rules, n).err);
        assert ([n] + rest)[|rest|] == rest[|rest| - 1];
      }
    }
  }

  /** The number of passes and the answer of a batch are determined. */
  lemma OneAnswer<N>(b: Batch<N>, n: N, eq: (N, N) -> bool, passes: nat, r: Analyzed<N>, passes': nat, r': Analyzed<N>)
    requires EvalAnswers(b, n, eq, passes, r) && EvalAnswers(b, n, eq, passes', r')
    ensures passes == passes' && r == r'
  {
  }

  // ---------------------------------------------------------------- what a batch guarantees

  ghost predicate Preorder<N(!new)>(rel: (N, N) -> bool) {
    && (forall a :: rel(a, a))
    && (forall a, b, c :: rel(a, b) && rel(b, c) ==> rel(a, c))
  }

  /** Kept by every rule that returns a node, whether or not it also fails. */
  ghost predicate KeptBy<N(!new)>(rel: (N, N) -> bool, rules: seq<Rule<N>>) {
    forall i, a :: 0 <= i < |rules| && rules[i].apply(a).next.Some? ==> rel(a, rules[i].apply(a).next.value)
  }

  lemma {:induction false} PassKeeps<N(!new)>(rel: (N, N) -> bool, rules: seq<Rule<N>>, n: N)
    requires Preorder(rel) && KeptBy(rel, rules)
    ensures rel(n, Pass(rules, n).node)
  {
    if rules != [] {
      var out := rules[0].apply(n);
      var node := if out.next.Some? then out.next.value else n;
      assert rel(n, node);
      if out.err.None? {
        assert forall i, a :: 0 <= i < |rules[1..]| ==> rules[1..][i].apply(a) == rules[i + 1].apply(a);
        PassKeeps(rel, rules[1..], node);
      }
    }
  }

  lemma {:induction false} NodeKeeps<N(!new)>(rel: (N, N) -> bool, rules: seq<Rule<N>>, n: N, k: nat)
    requires Preorder(rel) && KeptBy(rel, rules)
    ensures rel(n, Node(rules, n, k))
  {
    if k > 0 {
      NodeKeeps(rel, rules, n, k - 1);
      PassKeeps(rel, rules, Node(rules, n, k - 1));
    }
  }

  lemma BatchKeeps<N(!new)>(rel: (N, N) -> bool, b: Batch<N>, n: N, eq: (N, N) -> bool, r: Analyzed<N>)
    requires Preorder(rel) && KeptBy(rel, b.rules) && BatchAnswers(b, n, eq, r)
    ensures rel(n, r.node)
  {
    var passes: nat :| EvalAnswers(b, n, eq, passes, r);
    NodeKeeps(rel, b.rules, n, passes);
  }

  lemma {:induction false} ChainKeeps<N(!new)>(rel: (N, N) -> bool, batches: seq<Batch<N>>, n: N, eq: (N, N) -> bool, answers: seq<Analyzed<N>>)
    requires Chain(batches, n, eq, answers) && Preorder(rel)
    requires forall i :: 0 <= i < |batches| ==> KeptBy(rel, batches[i].rules)
    ensures rel(n, LastNode(n, answers))
    decreases |answers|
  {
    if answers != [] {
      var k := |answers| - 1;
      ChainKeeps(rel, batches, n, eq, answers[..k]);
      BatchKeeps(rel, batches[k], LastNode(n, answers[..k]), eq, answers[k]);
    }
  }

  /** Whatever every rule keeps, a whole analysis keeps, even when it ends in an error or runs out of iterations. */
  lemma AnalyzeKeeps<N(!new)>(rel: (N, N) -> bool, batches: seq<Batch<N>>, n: N, eq: (N, N) -> bool, answers: seq<Analyzed<N>>, r: Analyzed<N>)
    requires AnalyzeAnswers(batches, n, eq, answers, r)
    requires Preorder(rel)
    requires forall i :: 0 <= i < |batches| ==> KeptBy(rel, batches[i].rules)
    ensures rel(n, r.node)
  {
    ChainKeeps(rel, batches, n, eq, answers);
  }

  /**
   A batch of more than one iteration makes at most that many passes, and without an error its
   last pass left the node equal.
   */
  lemma SettledWithoutError<N>(b: Batch<N>, n: N, eq: (N, N) -> bool, passes: nat, r: Analyzed<N>)
    requires EvalAnswers(b, n, eq, passes, r) && b.iterations > 1
    ensures 1 <= passes <= b.iterations
    ensures r.err.None? ==> eq(Node(b.rules, n, passes - 1), r.node)
  {
  }

  /** Where nodes are compared by equality, such a batch ends on a fixed point: another pass would change nothing. */
  lemma EndsOnFixedPoint<N(!new)>(b: Batch<N>, n: N, eq: (N, N) -> bool, passes: nat, r: Analyzed<N>)
    requires EvalAnswers(b, n, eq, passes, r) && b.iterations > 1 && r.err.None?
    requires forall x, y :: eq(x, y) ==> x == y
    ensures Pass(b.rules, r.node) == r
  {
    assert Settles(b.rules, n, eq, passes);
  }

  /**
   When a batch reports, on its own account and not on that of a rule, that it ran out of iterations:
   exactly when no pass up to the last allowed one fails and none before it settles. Whether the last
   pass settles is not looked at.
   */
  lemma ExhaustedExactly<N>(b: Batch<N>, n: N, eq: (N, N) -> bool, passes: nat, r: Analyzed<N>)
    requires EvalAnswers(b, n, eq, passes, r) && b.iterations > 1
    ensures r.err.Some? && !Fails(b.rules, n, passes) <==>
            (forall k :: 1 <= k < b.iterations ==> !Fails(b.rules, n, k) && !Settles(b.rules, n, eq, k)) && !Fails(b.rules, n, b.iterations)
    ensures r.err.Some? && !Fails(b.rules, n, passes) ==> passes == b.iterations && r.err == Some(MaxAnalysisIters(b.iterations))
  {
    if r.err.Some? && !Fails(b.rules, n, passes) {
      assert passes == b.iterations;
    }
  }

  /**
   So a batch can report exhaustion although its last pass changed nothing: a rule that always
   answers 1, allowed two iterations and started on 0, settles in its second pass.
   */
  lemma SettledButExhausted(passes: nat, r: Analyzed<int>)
    ensures var b := Batch("d", 2, [Rule("one", (x: int) => Outcome(Some(1), None))]);
            var eq := (x: int, y: int) => x == y;
            && Settles(b.rules, 0, eq, 2)
            && (EvalAnswers(b, 0, eq, passes, r) ==> r == Analyzed(1, Some(MaxAnalysisIters(2))))
  {
    var rules := [Rule("one", (x: int) => Outcome(Some(1), None))];
    var eq := (x: int, y: int) => x == y;
    assert rules[1..] == [];
    assert forall a: int :: Pass(rules, a) == Analyzed(1, None);
    assert Node(rules, 0, 0) == 0 && Node(rules, 0, 1) == 1 && Node(rules, 0, 2) == 1;
    assert !Settles(rules, 0, eq, 1);
  }

  /** Analyze reports exhaustion exactly when no error stopped it and its last batch was exhausted. */
  lemma OnlyLastExhaustionIsReported<N>(batches: seq<Batch<N>>, n: N, eq: (N, N) -> bool, answers: seq<Analyzed<N>>, r: Analyzed<N>)
    requires AnalyzeAnswers(batches, n, eq, answers, r)
    ensures r.err.Some? && r.err.value.MaxAnalysisIters? <==>
            |answers| == |batches| > 0 && answers[|batches| - 1].err.Some? && answers[|batches| - 1].err.value.MaxAnalysisIters?
  {
  }
}

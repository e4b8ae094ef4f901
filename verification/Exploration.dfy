/**
 Systematic exploration with nested crashes: one node stack per execution of the
 current crash chain, and the stacks still to be replayed.
 */
module Exploration {
  import opened Wrappers
  import opened ChoiceTree
  import opened NodeStacks

  /** `contexts` are the crashed executions, innermost first. */
  datatype State = State(cur: Stack, contexts: seq<Stack>, replay: seq<Stack>)

  // ----- The operations on values -----

  /** A crash, and the start of the post-crash execution. */
  ghost function Crashed(s: State): State
  {
    if s.replay == [] then
      State(EMPTY, [s.cur] + s.contexts, [])
    else
      State(if |s.replay| > 1 then s.replay[0].(curr := None) else s.replay[0],
            [s.cur] + s.contexts,
            s.replay[1..])
  }

  /** Drops the innermost executions that have no alternative left. */
  ghost function Discard(cur: Stack, contexts: seq<Stack>): Option<(Stack, seq<Stack>)>
    decreases |contexts|
  {
    if cur.last.Some? then Some((cur, contexts))
    else if contexts == [] then None
    else Discard(contexts[0], contexts[1..])
  }

  /** Moves every execution but the outermost one to the stacks to replay. */
  ghost function Rewind(cur: Stack, contexts: seq<Stack>, replay: seq<Stack>): (Stack, seq<Stack>)
    decreases |contexts|
  {
    if contexts == [] then (Reset(cur), replay)
    else Rewind(contexts[0], contexts[1..], [Reset(cur)] + replay)
  }

  /** The end of an execution that does not crash; None when exploration is over. */
  ghost function Finished(s: State): Option<State>
  {
    var kept := Discard(s.cur, s.contexts);
    if kept.None? then None
    else
      var r := Rewind(kept.value.0, kept.value.1, s.replay);
      Some(State(if r.1 != [] then r.0.(curr := None) else r.0, [], r.1))
  }

  /** No choice answered yet. */
  const START: seq<seq<Node>> := [[]]

  // ----- Where the checker stands in the tree -----

  /** What the current run is to do: replay the last path up to its backtracking point, or take first alternatives. */
  datatype Goal = Fresh | Replay(last: Path)

  /** The path the run is about to take below `sub`. */
  ghost function Rest(sub: Tree, goal: Goal): (r: Path)
    requires WellFormed(sub)
    requires goal.Replay? ==> IsPath(sub, goal.last) && Succ(sub, goal.last).Some?
    ensures IsPath(sub, r)
  {
    match goal
    case Fresh => First(sub)
    case Replay(p) => Succ(sub, p).value
  }

  /** The stack of an execution that has answered exactly the choices `nodes`. */
  ghost predicate Done(s: Stack, nodes: seq<Node>)
  {
    s.nodes == nodes && s.last == DeepestMore(nodes)
  }

  ghost predicate DoneContexts(contexts: seq<Stack>, segments: seq<seq<Node>>)
  {
    |contexts| == |segments| && forall i :: 0 <= i < |contexts| ==> Done(contexts[i], segments[|contexts| - 1 - i])
  }

  /** Stacks to replay: unchanged records, each set to advance its deepest choice with an alternative. */
  ghost predicate ToReplay(replay: seq<Stack>, segments: seq<seq<Node>>)
  {
    |replay| == |segments| && forall i :: 0 <= i < |replay| ==> replay[i] == Stack(segments[i], None, DeepestMore(segments[i]), -1)
  }

  /** `before` are the choices answered so far, one list per execution, innermost last. */
  ghost predicate At(s: State, before: seq<seq<Node>>, sub: Tree, goal: Goal): (r: bool)
    ensures r ==> before != [] && WellFormed(sub)
    ensures r && goal.Replay? ==> IsPath(sub, goal.last) && Succ(sub, goal.last).Some?
  {
    && WellFormed(sub)
    && |before| > 0
    && DoneContexts(s.contexts, before[..|before| - 1])
    && match goal
       case Fresh => FreshAt(s, before[|before| - 1])
       case Replay(p) => IsPath(sub, p) && Succ(sub, p).Some? && ReplayAt(s, before[|before| - 1], Segments(sub, p))
  }

  ghost predicate FreshAt(s: State, here: seq<Node>)
  {
    s.replay == [] && s.cur == Stack(here, DeepestMore(here), None, |here| - 1)
  }

  ghost predicate ReplayAt(s: State, here: seq<Node>, segments: seq<seq<Node>>)
    requires segments != []
  {
    var target := LastMore(segments);
    && target.Some?
    && Planned(s, here, segments[0], target.value, segments[1..target.value.0 + 1])
  }

  /** `first` is left of the current execution, `tail` are those to replay after it, `target` is the backtracking point. */
  ghost predicate Planned(s: State, here: seq<Node>, first: seq<Node>, target: (nat, nat), tail: seq<seq<Node>>)
  {
    && s.cur == Stack(here + first, DeepestMore(here), if target.0 == 0 then Some(|here| + target.1) else None, |here| - 1)
    && ToReplay(s.replay, tail)
  }

  ghost function Extend(before: seq<seq<Node>>, n: Node): seq<seq<Node>>
    requires before != []
  {
    before[..|before| - 1] + [before[|before| - 1] + [n]]
  }

  /** The node stacks of a whole path, from those answered so far and those of the rest. */
  ghost function Join(before: seq<seq<Node>>, after: seq<seq<Node>>): seq<seq<Node>>
    requires before != [] && after != []
  {
    before[..|before| - 1] + [before[|before| - 1] + after[0]] + after[1..]
  }

  lemma JoinPush(before: seq<seq<Node>>, n: Node, after: seq<seq<Node>>)
    requires before != [] && after != []
    ensures Join(before, [[n] + after[0]] + after[1..]) == Join(Extend(before, n), after)
  {
    var b := before[|before| - 1];
    assert b + ([n] + after[0]) == (b + [n]) + after[0];
    assert ([[n] + after[0]] + after[1..])[1..] == after[1..];
  }

  lemma JoinCrash(before: seq<seq<Node>>, after: seq<seq<Node>>)
    requires before != [] && after != []
    ensures Join(before, [[]] + after) == Join(before + [[]], after)
  {
    assert before[|before| - 1] + [] == before[|before| - 1];
    assert [] + after[0] == after[0];
    assert ([[]] + after)[1..] == after;
    assert after == [after[0]] + after[1..];
  }

  // ----- One choice -----

  ghost function NextGoal(goal: Goal, c: nat): Goal
  {
    if goal.Replay? && goal.last != [] && goal.last[0] == c then Replay(goal.last[1..]) else Fresh
  }

  lemma FreshChoice(s: State, here: seq<Node>, n: nat)
    requires FreshAt(s, here) && n > 0
    ensures s.cur.Valid() && s.cur.Agrees(n)
    ensures FreshAt(s.(cur := Explored(s.cur, n)), here + [Node(0, n)])
  {
    DeepestMoreAppend(here, Node(0, n));
  }

  lemma ExploredRecorded(nodes: seq<Node>, h: nat, curr: Option<nat>)
    requires h < |nodes| && curr != Some(h) && (curr.Some? ==> curr.value < |nodes|)
    ensures var s := Stack(nodes, DeepestMore(nodes[..h]), curr, h - 1);
            && s.Valid() && s.Agrees(nodes[h].rfSize)
            && Explored(s, nodes[h].rfSize) == Stack(nodes, DeepestMore(nodes[..h + 1]), curr, h)
  {
    hide DeepestMore;
    DeepestMoreAppend(nodes[..h], nodes[h]);
    assert nodes[..h] + [nodes[h]] == nodes[..h + 1];
  }

  lemma ExploredBacktrack(nodes: seq<Node>, h: nat)
    requires h < |nodes|
    ensures var s := Stack(nodes, DeepestMore(nodes[..h]), Some(h), h - 1);
            var next := Node(nodes[h].readFromIdx + 1, nodes[h].rfSize);
            && s.Valid() && s.Agrees(next.rfSize)
            && Explored(s, next.rfSize) == Stack(nodes[..h] + [next], DeepestMore(nodes[..h] + [next]), None, h)
  {
    hide DeepestMore;
    DeepestMoreAppend(nodes[..h], Node(nodes[h].readFromIdx + 1, nodes[h].rfSize));
  }

  /** Where `n` stands among the recorded choices. */
  lemma Recorded(here: seq<Node>, n: Node, tail: seq<Node>)
    ensures var nodes := here + ([n] + tail);
            && |nodes| == |here| + 1 + |tail|
            && nodes[|here|] == n && nodes[..|here|] == here && nodes[..|here| + 1] == here + [n]
            && nodes == (here + [n]) + tail
  {
  }

  lemma PlannedPush(s: State, here: seq<Node>, n: Node, first: seq<Node>, target: (nat, nat), later: (nat, nat), tail: seq<seq<Node>>)
    requires Planned(s, here, [n] + first, target, tail)
    requires target == (later.0, if later.0 == 0 then later.1 + 1 else later.1)
    requires later.0 == 0 ==> later.1 < |first|
    ensures s.cur.Valid() && s.cur.Agrees(n.rfSize)
    ensures Explored(s.cur, n.rfSize).Choice() == n.readFromIdx
    ensures Planned(s.(cur := Explored(s.cur, n.rfSize)), here + [n], first, later, tail)
  {
    hide DeepestMore, Explored;
    Recorded(here, n, first);
    ExploredRecorded(here + ([n] + first), |here|, s.cur.curr);
  }

  lemma PushSlices(n: Node, segments: seq<seq<Node>>, j: nat)
    requires j < |segments|
    ensures var all := [[n] + segments[0]] + segments[1..];
            all != [] && all[0] == [n] + segments[0] && |all| == |segments| && all[1..j + 1] == segments[1..j + 1]
  {
  }

  /** Replay before the backtracking point. */
  lemma ReplayChoice(s: State, here: seq<Node>, n: Node, segments: seq<seq<Node>>)
    requires segments != []
    requires ReplayAt(s, here, [[n] + segments[0]] + segments[1..]) && LastMore(segments).Some?
    ensures s.cur.Valid() && s.cur.Agrees(n.rfSize)
    ensures Explored(s.cur, n.rfSize).Choice() == n.readFromIdx
    ensures ReplayAt(s.(cur := Explored(s.cur, n.rfSize)), here + [n], segments)
  {
    hide LastMore, DeepestMore, Explored, Planned;
    LastMorePush(n, segments);
    var later := LastMore(segments).value;
    PushSlices(n, segments, later.0);
    var target := LastMore([[n] + segments[0]] + segments[1..]).value;
    PlannedPush(s, here, n, segments[0], target, later, segments[1..later.0 + 1]);
  }

  lemma PlannedBacktrack(s: State, here: seq<Node>, n: Node, first: seq<Node>, tail: seq<seq<Node>>)
    requires Planned(s, here, [n] + first, (0, 0), tail) && tail == []
    ensures s.cur.Valid() && s.cur.Agrees(n.rfSize)
    ensures FreshAt(s.(cur := Explored(s.cur, n.rfSize)), here + [Node(n.readFromIdx + 1, n.rfSize)])
  {
    hide DeepestMore, Explored;
    Recorded(here, n, first);
    ExploredBacktrack(here + ([n] + first), |here|);
  }

  /** The backtracking point: the next alternative, and nothing left to replay. */
  lemma BacktrackChoice(s: State, here: seq<Node>, n: Node, segments: seq<seq<Node>>)
    requires segments != []
    requires ReplayAt(s, here, [[n] + segments[0]] + segments[1..]) && LastMore(segments).None?
    ensures s.cur.Valid() && s.cur.Agrees(n.rfSize) && n.HasMoreChoices()
    ensures FreshAt(s.(cur := Explored(s.cur, n.rfSize)), here + [Node(n.readFromIdx + 1, n.rfSize)])
  {
    hide LastMore, DeepestMore, Explored, Planned, FreshAt;
    LastMorePush(n, segments);
    PushSlices(n, segments, 0);
    PlannedBacktrack(s, here, n, segments[0], segments[1..1]);
  }

  lemma ChoiceStep(s: State, before: seq<seq<Node>>, cs: seq<Tree>, goal: Goal)
    requires At(s, before, Choice(cs), goal)
    ensures s.cur.Valid() && s.cur.Agrees(|cs|)
    ensures var next := s.(cur := Explored(s.cur, |cs|));
            var c := next.cur.Choice();
            && c < |cs|
            && At(next, Extend(before, Node(c, |cs|)), cs[c], NextGoal(goal, c))
            && Rest(Choice(cs), goal) == [c] + Rest(cs[c], NextGoal(goal, c))
  {
    var here := before[|before| - 1];
    match goal
    case Fresh =>
      FreshChoice(s, here, |cs|);
    case Replay(p) =>
      var c := p[0];
      var below := Segments(cs[c], p[1..]);
      SuccIsLastMore(cs[c], p[1..]);
      var n := Node(c, |cs|);
      if LastMore(below).Some? {
        ReplayChoice(s, here, n, below);
      } else {
        BacktrackChoice(s, here, n, below);
      }
  }

  lemma PlannedCrash(s: State, here: seq<Node>, later: (nat, nat), tail: seq<seq<Node>>)
    requires Planned(s, here, [], (later.0 + 1, later.1), tail)
    requires |tail| == later.0 + 1 && DeepestMore(tail[later.0]) == Some(later.1)
    ensures Planned(Crashed(s), [], tail[0], later, tail[1..])
    ensures Done(s.cur, here)
  {
    NoneDeepest();
    hide DeepestMore;
    assert here + [] == here;
    assert [] + tail[0] == tail[0];
  }

  lemma CrashSlices(segments: seq<seq<Node>>, j: nat)
    requires j < |segments|
    ensures var all := [[]] + segments;
            && |all| == |segments| + 1 && all[0] == []
            && all[1..j + 2] == segments[..j + 1]
            && segments[..j + 1][0] == segments[0] && segments[..j + 1][j] == segments[j]
            && segments[..j + 1][1..] == segments[1..j + 1]
  {
  }

  lemma ReplayCrash(s: State, here: seq<Node>, segments: seq<seq<Node>>)
    requires segments != []
    requires ReplayAt(s, here, [[]] + segments)
    ensures LastMore(segments).Some? && ReplayAt(Crashed(s), [], segments) && Done(s.cur, here)
  {
    hide LastMore, DeepestMore, Planned, Done;
    LastMoreCrash(segments);
    LastMoreIsDeepest(segments);
    var later := LastMore(segments).value;
    CrashSlices(segments, later.0);
    PlannedCrash(s, here, later, segments[..later.0 + 1]);
  }

  lemma CrashStep(s: State, before: seq<seq<Node>>, n: Tree, goal: Goal)
    requires At(s, before, Crash(n), goal)
    ensures At(Crashed(s), before + [[]], n, goal)
    ensures Rest(Crash(n), goal) == Rest(n, goal)
  {
    hide LastMore, DeepestMore, ReplayAt;
    NoneDeepest();
    var here := before[|before| - 1];
    match goal
    case Fresh =>
    case Replay(p) => ReplayCrash(s, here, Segments(n, p));
    assert Crashed(s).contexts == [s.cur] + s.contexts;
    assert (before + [[]])[..|before|] == before;
    assert DoneContexts([s.cur] + s.contexts, before);
  }

  lemma LeafStep(s: State, before: seq<seq<Node>>, goal: Goal)
    requires At(s, before, Leaf, goal)
    ensures goal.Fresh? && s.replay == [] && Done(s.cur, before[|before| - 1])
  {
  }

  // ----- The end of a run -----

  lemma {:induction false} DiscardKeeps(cur: Stack, contexts: seq<Stack>, segments: seq<seq<Node>>)
    requires |segments| == |contexts| + 1
    requires Done(cur, segments[|contexts|]) && DoneContexts(contexts, segments[..|contexts|])
    ensures Discard(cur, contexts).Some? <==> LastMore(segments).Some?
    ensures LastMore(segments).Some? ==>
              var j := LastMore(segments).value.0;
              var kept := Discard(cur, contexts).value;
              Done(kept.0, segments[j]) && DoneContexts(kept.1, segments[..j])
    decreases |contexts|
  {
    hide LastMore, DeepestMore;
    var n := |contexts|;
    assert segments == segments[..n] + [segments[n]];
    LastMoreSnoc(segments[..n], segments[n]);
    if cur.last.None? && n > 0 {
      assert segments[..n][..n - 1] == segments[..n - 1];
      DiscardKeeps(contexts[0], contexts[1..], segments[..n]);
      if LastMore(segments).Some? {
        var j := LastMore(segments).value.0;
        assert segments[..n][..j] == segments[..j];
      }
    } else if n == 0 {
      assert segments[..n] == [];
      NoneLeft();
    }
  }

  lemma NoneLeft()
    ensures LastMore([]) == None
  {
  }

  lemma {:induction false} RewindBuilds(cur: Stack, contexts: seq<Stack>, replay: seq<Stack>, segments: seq<seq<Node>>, tail: seq<seq<Node>>)
    requires |segments| == |contexts| + 1
    requires Done(cur, segments[|contexts|]) && DoneContexts(contexts, segments[..|contexts|])
    requires ToReplay(replay, tail)
    ensures var r := Rewind(cur, contexts, replay);
            && r.0 == Stack(segments[0], None, DeepestMore(segments[0]), -1)
            && ToReplay(r.1, segments[1..] + tail)
    decreases |contexts|
  {
    hide LastMore, DeepestMore;
    var n := |contexts|;
    if n == 0 {
      assert segments[1..] + tail == tail;
    } else {
      var last := segments[n];
      assert segments[..n][..n - 1] == segments[..n - 1];
      RewindBuilds(contexts[0], contexts[1..], [Reset(cur)] + replay, segments[..n], [last] + tail);
      assert segments[..n][1..] + ([last] + tail) == segments[1..] + tail;
    }
  }

  lemma RewoundIsPlanned(outermost: Stack, replay: seq<Stack>, segments: seq<seq<Node>>, target: (nat, nat))
    requires segments != [] && LastMore(segments) == Some(target)
    requires outermost == Stack(segments[0], None, DeepestMore(segments[0]), -1)
    requires ToReplay(replay, segments[1..target.0 + 1])
    ensures ReplayAt(State(if replay != [] then outermost.(curr := None) else outermost, [], replay), [], segments)
  {
    NoneDeepest();
    LastMoreIsDeepest(segments);
    hide LastMore, DeepestMore;
    assert [] + segments[0] == segments[0];
  }

  lemma UpTo(segments: seq<seq<Node>>, j: nat)
    requires j < |segments|
    ensures var upTo := segments[..j + 1];
            && |upTo| == j + 1 && upTo[0] == segments[0] && upTo[j] == segments[j]
            && upTo[..j] == segments[..j] && upTo[1..] + [] == segments[1..j + 1]
  {
  }

  /** After a whole run along `p`, the checker is set up to take the next path, or stops if there is none. */
  lemma FinishStep(s: State, t: Tree, p: Path)
    requires WellFormed(t) && IsPath(t, p) && s.replay == []
    requires |Segments(t, p)| == |s.contexts| + 1
    requires Done(s.cur, Segments(t, p)[|s.contexts|]) && DoneContexts(s.contexts, Segments(t, p)[..|s.contexts|])
    ensures Finished(s).Some? <==> Succ(t, p).Some?
    ensures Finished(s).Some? ==> Finished(s).value.contexts == [] && At(Finished(s).value, START, t, Replay(p))
  {
    hide LastMore, DeepestMore, Done, DoneContexts, ReplayAt, ToReplay, Discard, Rewind;
    var segments := Segments(t, p);
    DiscardKeeps(s.cur, s.contexts, segments);
    SuccIsLastMore(t, p);
    if Succ(t, p).Some? {
      FinishReplay(s, segments);
      FirstIsAt(Finished(s).value, t, p);
    }
  }

  lemma FirstIsAt(s: State, t: Tree, p: Path)
    requires WellFormed(t) && IsPath(t, p) && Succ(t, p).Some?
    requires s.contexts == [] && ReplayAt(s, [], Segments(t, p))
    ensures At(s, START, t, Replay(p))
  {
    hide ReplayAt;
    var before := START;
    assert before[..0] == [];
  }

  lemma FinishReplay(s: State, segments: seq<seq<Node>>)
    requires LastMore(segments).Some? && s.replay == []
    requires |segments| == |s.contexts| + 1
    requires Done(s.cur, segments[|s.contexts|]) && DoneContexts(s.contexts, segments[..|s.contexts|])
    requires Discard(s.cur, s.contexts).Some?
    ensures Finished(s).Some? && Finished(s).value.contexts == [] && ReplayAt(Finished(s).value, [], segments)
  {
    hide LastMore, DeepestMore, Done, DoneContexts, ReplayAt, Discard, Rewind;
    DiscardKeeps(s.cur, s.contexts, segments);
    var target := LastMore(segments).value;
    UpTo(segments, target.0);
    var kept := Discard(s.cur, s.contexts).value;
    DoneContextsLength(kept.1, segments[..target.0]);
    RewindBuilds(kept.0, kept.1, [], segments[..target.0 + 1], []);
    var r := Rewind(kept.0, kept.1, []);
    RewoundIsPlanned(r.0, r.1, segments, target);
  }

  lemma DoneContextsLength(contexts: seq<Stack>, segments: seq<seq<Node>>)
    requires DoneContexts(contexts, segments)
    ensures |contexts| == |segments|
  {
  }

  lemma NoneDeepest()
    ensures DeepestMore([]) == None
  {
  }
}

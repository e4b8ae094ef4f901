/**
 The checker that drives the exploration: starts an execution, crashes it, finishes it
 and backtracks, until the whole tree of choices is explored.
 */
module Checker {
  import opened Wrappers
  import opened ChoiceTree
  import opened NodeStacks
  import opened Exploration

  ghost function Views(stacks: seq<NodeStack>): (r: seq<Stack>)
    reads stacks
    ensures |r| == |stacks|
  {
    if stacks == [] then [] else [stacks[0].View()] + Views(stacks[1..])
  }

  lemma ViewsCons(s: NodeStack, stacks: seq<NodeStack>)
    ensures Views([s] + stacks) == [s.View()] + Views(stacks)
  {
    assert ([s] + stacks)[1..] == stacks;
  }

  predicate Distinct(stacks: seq<NodeStack>)
  {
    forall i, j :: 0 <= i < j < |stacks| ==> stacks[i] != stacks[j]
  }

  predicate Apart(a: seq<NodeStack>, b: seq<NodeStack>)
  {
    forall i, j :: 0 <= i < |a| && 0 <= j < |b| ==> a[i] != b[j]
  }

  /** The state before the innermost crash, nothing having run since. */
  ghost function Uncrashed(contexts: seq<Stack>, replay: seq<Stack>): State
    requires contexts != []
  {
    State(contexts[0], contexts[1..], replay)
  }

  lemma UncrashedCons(cur: Stack, contexts: seq<Stack>, replay: seq<Stack>)
    ensures Uncrashed([cur] + contexts, replay) == State(cur, contexts, replay)
  {
  }

  // ----- One run of the program -----

  /** A run of the program `t` along the path `w`: the alternatives taken so far, and the nodes that answered them. */
  datatype Run = Run(t: Tree, w: Path, path: Path, before: seq<seq<Node>>, goal: Goal)
  {
    ghost function Chose(c: nat, n: nat): Run
      requires before != []
    {
      Run(t, w, path + [c], Extend(before, Node(c, n)), NextGoal(goal, c))
    }

    ghost function Crashed(): Run
    {
      this.(before := before + [[]])
    }
  }

  ghost function StartRun(t: Tree, goal: Goal): Run
    requires WellFormed(t)
    requires goal.Replay? ==> IsPath(t, goal.last) && Succ(t, goal.last).Some?
  {
    Run(t, Rest(t, goal), [], START, goal)
  }

  /** The nodes answered so far and those of the rest of the path make up the whole path. */
  ghost predicate Along(r: Run, at: Tree, rest: Path)
  {
    && IsPath(r.t, r.w) && IsPath(at, rest) && r.before != []
    && r.path + rest == r.w
    && Join(r.before, Segments(at, rest)) == Segments(r.t, r.w)
  }

  /** The checker is at the subtree `at` of the run. */
  ghost predicate Running(s: State, r: Run, at: Tree): (b: bool)
    ensures b ==> r.before != []
  {
    At(s, r.before, at, r.goal) && Along(r, at, Rest(at, r.goal))
  }

  lemma AlongStart(s: State, t: Tree, goal: Goal)
    requires At(s, START, t, goal)
    ensures Running(s, StartRun(t, goal), t)
  {
    hide At, Rest;
    var nodes := Segments(t, Rest(t, goal));
    assert [] + nodes[0] == nodes[0];
    assert [nodes[0]] + nodes[1..] == nodes;
    assert START[..0] == [];
  }

  lemma AlongChoice(r: Run, cs: seq<Tree>, rest: Path)
    requires Along(r, Choice(cs), rest)
    ensures Along(r.Chose(rest[0], |cs|), cs[rest[0]], rest[1..])
  {
    JoinPush(r.before, Node(rest[0], |cs|), Segments(cs[rest[0]], rest[1..]));
    assert r.path + rest == r.path + [rest[0]] + rest[1..];
  }

  lemma AlongCrash(r: Run, next: Tree, rest: Path)
    requires Along(r, Crash(next), rest)
    ensures Along(r.Crashed(), next, rest)
  {
    JoinCrash(r.before, Segments(next, rest));
  }

  /** The checker's state after a whole run along the path `p`. */
  ghost predicate Ran(s: State, t: Tree, p: Path)
    requires IsPath(t, p)
  {
    var segments := Segments(t, p);
    && s.replay == []
    && |segments| == |s.contexts| + 1
    && Done(s.cur, segments[|s.contexts|]) && DoneContexts(s.contexts, segments[..|s.contexts|])
  }

  lemma AlongEnd(s: State, r: Run)
    requires Running(s, r, Leaf)
    ensures r.path == r.w && IsPath(r.t, r.w) && Ran(s, r.t, r.w)
  {
    LeafStep(s, r.before, r.goal);
    var n := |r.before| - 1;
    var none: seq<seq<Node>> := [[]];
    assert none[1..] == [];
    assert r.before[n] + [] == r.before[n];
    assert r.before[..n] + [r.before[n]] + [] == r.before;
  }

  // ----- The checker -----

  class ModelChecker {
    var nodestack: NodeStack
    /** The node stacks of the crashed executions, innermost first. */
    var prevContext: seq<NodeStack>
    var replaystack: seq<NodeStack>
    /** False from the end of an execution to the start of the next one. */
    var hasExecution: bool

    ghost function View(): State
      reads this, nodestack, prevContext, replaystack
    {
      State(nodestack.View(), Views(prevContext), Views(replaystack))
    }

    ghost predicate StacksApart()
      reads this
    {
      Distinct(prevContext) && Distinct(replaystack) && Apart(prevContext, replaystack)
    }

    ghost predicate Valid(): (r: bool)
      reads this
      ensures r ==> StacksApart()
    {
      StacksApart() && nodestack !in prevContext && nodestack !in replaystack
    }

    ghost function Stacks(): set<NodeStack>
      reads this
    {
      {nodestack} + (set x | x in prevContext) + (set x | x in replaystack)
    }

    constructor ()
      ensures Valid() && fresh(Stacks()) && hasExecution && prevContext == []
      ensures View() == State(EMPTY, [], [])
    {
      nodestack := new NodeStack();
      prevContext, replaystack := [], [];
      hasExecution := true;
    }

    /** One choice of the running execution. */
    method ExploreNext(numChoices: nat) returns (choice: nat)
      requires Valid() && hasExecution
      requires nodestack.View().Valid() && nodestack.View().Agrees(numChoices)
      modifies nodestack
      ensures View() == old(View()).(cur := Explored(old(nodestack.View()), numChoices))
      ensures choice == nodestack.View().Choice()
    {
      choice := nodestack.ExploreNext(numChoices);
    }

    /** The current execution becomes the innermost crashed one. */
    method DoCrash()
      requires hasExecution
      modifies this
      ensures prevContext == [nodestack] + old(prevContext)
      ensures nodestack == old(nodestack) && replaystack == old(replaystack)
      ensures !hasExecution
      ensures old(Valid()) ==> StacksApart()
      ensures Views(prevContext) == [nodestack.View()] + old(Views(prevContext))
    {
      ViewsCons(nodestack, prevContext);
      prevContext := [nodestack] + prevContext;
      hasExecution := false;
    }

    /** Takes the next stack to replay. */
    method PopReplay()
      requires StacksApart()
      requires replaystack != []
      modifies this, replaystack[0]
      ensures Valid() && Stacks() <= old(Stacks())
      ensures prevContext == old(prevContext) && Views(prevContext) == old(Views(prevContext))
      ensures var replay := old(Views(replaystack));
              && Views(replaystack) == replay[1..]
              && nodestack.View() == if |replay| > 1 then replay[0].(curr := None) else replay[0]
      ensures hasExecution == old(hasExecution)
    {
      ViewsCons(replaystack[0], replaystack[1..]);
      assert [replaystack[0]] + replaystack[1..] == replaystack;
      nodestack := replaystack[0];
      replaystack := replaystack[1..];
      if replaystack != [] {
        nodestack.RepeatPrevExecution();
      }
    }

    /** Gives the execution that starts its node stack. */
    method StartChecker()
      requires StacksApart()
      modifies this, replaystack
      ensures hasExecution && prevContext == old(prevContext)
      ensures old(hasExecution || prevContext == []) ==>
                nodestack == old(nodestack) && replaystack == old(replaystack) && View() == old(View())
      ensures old(hasExecution || prevContext == []) && old(Valid()) ==> Valid()
      ensures !old(hasExecution || prevContext == []) ==>
                && Valid()
                && Views(prevContext) == old(Views(prevContext))
                && View() == Crashed(Uncrashed(old(Views(prevContext)), old(Views(replaystack))))
                && fresh(Stacks() - old(Stacks()))
    {
      if !hasExecution {
        if prevContext != [] {
          if replaystack == [] {
            nodestack := new NodeStack();
          } else {
            PopReplay();
          }
        }
        hasExecution := true;
      }
    }

    /** Restores the execution before the innermost crash. */
    method RestorePrevContext()
      requires StacksApart()
      requires prevContext != []
      modifies this
      ensures Valid()
      ensures nodestack == old(prevContext[0]) && prevContext == old(prevContext[1..]) && replaystack == old(replaystack)
      ensures [nodestack.View()] + Views(prevContext) == old(Views(prevContext))
      ensures Stacks() <= old(Stacks())
    {
      ViewsCons(prevContext[0], prevContext[1..]);
      assert [prevContext[0]] + prevContext[1..] == prevContext;
      nodestack, prevContext := prevContext[0], prevContext[1..];
    }

    /** Resets the current stack, queues it for replay and restores the previous one. */
    method RewindOne()
      requires Valid() && prevContext != []
      modifies this, nodestack
      ensures Valid()
      ensures Rewind(View().cur, View().contexts, View().replay) == old(Rewind(View().cur, View().contexts, View().replay))
      ensures |prevContext| < |old(prevContext)|
      ensures Stacks() <= old(Stacks())
    {
      QueueForReplay();
      RestorePrevContext();
    }

    method QueueForReplay()
      requires Valid()
      modifies this, nodestack
      ensures Distinct(replaystack) && Apart(prevContext, replaystack) && nodestack == old(nodestack)
      ensures replaystack == [nodestack] + old(replaystack)
      ensures prevContext == old(prevContext) && Views(prevContext) == old(Views(prevContext))
      ensures Views(replaystack) == [Reset(old(nodestack.View()))] + old(Views(replaystack))
    {
      nodestack.ResetExecution();
      ViewsCons(nodestack, replaystack);
      replaystack := [nodestack] + replaystack;
    }

    /** The end of an execution; `more` tells whether there is another one to explore. */
    method FinishExecution() returns (more: bool)
      requires Valid()
      modifies this, Stacks()
      ensures more <==> Finished(old(View())).Some?
      ensures more ==> Valid() && !hasExecution && prevContext == [] && View() == Finished(old(View())).value
      ensures Stacks() <= old(Stacks())
    {
      hide Valid, StacksApart, Views, Reset;
      ghost var start := View();
      while !nodestack.HasAnotherExecution()
        invariant Valid() && Stacks() <= old(Stacks())
        invariant Discard(View().cur, View().contexts) == Discard(start.cur, start.contexts)
        invariant View().replay == start.replay
        modifies this
        decreases |prevContext|
      {
        if prevContext == [] {
          return false;
        }
        RestorePrevContext();
      }
      ghost var kept := View();
      while prevContext != []
        invariant Valid() && Stacks() <= old(Stacks())
        invariant Rewind(View().cur, View().contexts, View().replay) == Rewind(kept.cur, kept.contexts, kept.replay)
        decreases |prevContext|
      {
        RewindOne();
      }
      StartOver();
      return true;
    }

    /** The outermost stack starts over; it is only repeated if the backtracking point is further in. The next execution is still to be made. */
    method StartOver()
      requires Valid()
      modifies this`hasExecution, nodestack
      ensures Valid() && !hasExecution
      ensures Views(prevContext) == old(Views(prevContext)) && Views(replaystack) == old(Views(replaystack))
      ensures nodestack.View() == var r := Reset(old(nodestack.View())); if replaystack != [] then r.(curr := None) else r
    {
      nodestack.ResetExecution();
      if replaystack != [] {
        nodestack.RepeatPrevExecution();
      }
      hasExecution := false;
    }

    /** The running program reaches a choice among the alternatives `cs`. */
    method TakeChoice(cs: seq<Tree>, ghost r: Run) returns (c: nat)
      requires Valid() && hasExecution && Running(View(), r, Choice(cs))
      modifies nodestack
      ensures c < |cs| && Running(View(), r.Chose(c, |cs|), cs[c])
    {
      hide At, Explored, Rest, Along;
      ChoiceStep(View(), r.before, cs, r.goal);
      AlongChoice(r, cs, Rest(Choice(cs), r.goal));
      c := ExploreNext(|cs|);
    }

    /** The running program crashes and the post-crash execution starts. */
    method CrashAndRestart(next: Tree, ghost r: Run)
      requires Valid() && hasExecution && Running(View(), r, Crash(next))
      modifies this, Stacks()
      ensures Valid() && hasExecution && fresh(Stacks() - old(Stacks()))
      ensures Running(View(), r.Crashed(), next)
    {
      hide At, Exploration.Crashed, Uncrashed, Valid, Rest, Along;
      CrashStep(View(), r.before, next, r.goal);
      AlongCrash(r, next, Rest(Crash(next), r.goal));
      UncrashedCons(View().cur, View().contexts, View().replay);
      DoCrash();
      StartChecker();
    }
  }

  /** Runs the program `t` once under the checker. */
  method RunProgram(checker: ModelChecker, t: Tree, ghost goal: Goal) returns (path: Path)
    requires checker.Valid() && checker.prevContext == [] && At(checker.View(), START, t, goal)
    modifies checker, checker.Stacks()
    ensures checker.Valid() && checker.hasExecution && fresh(checker.Stacks() - old(checker.Stacks()))
    ensures path == Rest(t, goal) && Ran(checker.View(), t, path)
  {
    hide At, Rest, Ran, Running, ModelChecker.Valid, ModelChecker.View;
    checker.StartChecker();
    var at := t;
    path := [];
    ghost var r := StartRun(t, goal);
    AlongStart(checker.View(), t, goal);
    while at != Leaf
      invariant checker.Valid() && checker.hasExecution && fresh(checker.Stacks() - old(checker.Stacks()))
      invariant Running(checker.View(), r, at)
      invariant r.path == path && r.t == t && r.w == Rest(t, goal)
      decreases at
    {
      match at
      case Choice(cs) =>
        var c := checker.TakeChoice(cs, r);
        r := r.Chose(c, |cs|);
        path := path + [c];
        at := cs[c];
      case Crash(next) =>
        checker.CrashAndRestart(next, r);
        r := r.Crashed();
        at := next;
    }
    AlongEnd(checker.View(), r);
  }

  /**
   The exploration of a program visits every leaf of its tree of choices exactly once,
   in lexicographic order, and stops.
   */
  method ExploreAll(t: Tree) returns (visited: seq<Path>)
    requires WellFormed(t)
    ensures visited == Leaves(t)
  {
    hide At, Ran, Rest, Succ, IsPath, WellFormed, ModelChecker.Valid, ModelChecker.View, Leaves, Remaining;
    var checker := new ModelChecker();
    ghost var goal := Fresh;
    visited := [];
    var more := true;
    StartIsAt(t);
    RemainingFirst(t);
    while more
      invariant fresh(checker) && fresh(checker.Stacks())
      invariant more ==> checker.Valid() && checker.prevContext == [] && At(checker.View(), START, t, goal)
      invariant more ==> visited + Remaining(t, Rest(t, goal)) == Leaves(t)
      invariant !more ==> visited == Leaves(t)
      decreases if more then 1 + |Remaining(t, Rest(t, goal))| else 0
    {
      var path := RunProgram(checker, t, goal);
      VisitStep(t, path, visited);
      RanStep(checker.View(), t, path);
      more := checker.FinishExecution();
      visited := visited + [path];
      goal := Replay(path);
    }
  }

  lemma VisitStep(t: Tree, p: Path, visited: seq<Path>)
    requires WellFormed(t) && IsPath(t, p)
    requires visited + Remaining(t, p) == Leaves(t)
    ensures match Succ(t, p)
            case None => visited + [p] == Leaves(t)
            case Some(next) =>
              visited + [p] + Remaining(t, next) == Leaves(t) && |Remaining(t, next)| < |Remaining(t, p)|
  {
    hide Remaining, Leaves;
    RemainingStep(t, p);
  }

  lemma StartIsAt(t: Tree)
    requires WellFormed(t)
    ensures At(State(EMPTY, [], []), START, t, Fresh) && Rest(t, Fresh) == First(t)
  {
    NoneDeepest();
    var before := START;
    assert before[..0] == [];
  }

  lemma RanStep(s: State, t: Tree, p: Path)
    requires WellFormed(t) && IsPath(t, p) && Ran(s, t, p)
    ensures Finished(s).Some? <==> Succ(t, p).Some?
    ensures Finished(s).Some? ==>
              At(Finished(s).value, START, t, Replay(p)) && Rest(t, Replay(p)) == Succ(t, p).value
  {
    FinishStep(s, t, p);
  }
}

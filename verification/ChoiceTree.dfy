/**
 The tree of choices a deterministic program offers the checker, its leaves in
 lexicographic order, and the step from one leaf to the next.
 */
module ChoiceTree {
  import opened Wrappers

  /**
   `Choice` is a call of explore_next, with one child per alternative; `Crash` is the
   end of one execution by a crash, followed by the post-crash execution; `Leaf` is the
   end of an execution that does not crash.
   */
  datatype Tree = Leaf | Choice(children: seq<Tree>) | Crash(next: Tree)

  /** The alternatives taken from the root on. */
  type Path = seq<nat>

  /** Every choice has an alternative. */
  ghost predicate WellFormed(t: Tree)
  {
    match t
    case Leaf => true
    case Choice(cs) => cs != [] && forall i :: 0 <= i < |cs| ==> WellFormed(cs[i])
    case Crash(n) => WellFormed(n)
  }

  /** The path leads to a leaf. */
  ghost predicate IsPath(t: Tree, p: Path)
  {
    match t
    case Leaf => p == []
    case Choice(cs) => p != [] && p[0] < |cs| && IsPath(cs[p[0]], p[1..])
    case Crash(n) => IsPath(n, p)
  }

  // ----- All leaves -----

  ghost function Prefixed(c: nat, ps: seq<Path>): (r: seq<Path>)
    ensures |r| == |ps| && forall i :: 0 <= i < |ps| ==> r[i] == [c] + ps[i]
  {
    seq(|ps|, i requires 0 <= i < |ps| => [c] + ps[i])
  }

  ghost function Leaves(t: Tree): seq<Path>
    decreases t, 0
  {
    match t
    case Leaf => [[]]
    case Choice(cs) => LeavesFrom(cs, 0)
    case Crash(n) => Leaves(n)
  }

  /** The leaves below the alternatives `c`, c + 1, and so on. */
  ghost function LeavesFrom(cs: seq<Tree>, c: nat): seq<Path>
    requires c <= |cs|
    decreases cs, |cs| - c + 1
  {
    if c == |cs| then [] else Prefixed(c, Leaves(cs[c])) + LeavesFrom(cs, c + 1)
  }

  /** Lexicographic order of paths of the same tree. */
  ghost predicate Before(p: Path, q: Path)
  {
    p != [] && q != [] && (p[0] < q[0] || (p[0] == q[0] && Before(p[1..], q[1..])))
  }

  lemma {:induction false} LeavesArePaths(t: Tree, p: Path)
    ensures p in Leaves(t) <==> IsPath(t, p)
    decreases t, 0
  {
    match t
    case Leaf =>
    case Choice(cs) => LeavesFromArePaths(cs, 0, p);
    case Crash(n) => LeavesArePaths(n, p);
  }

  lemma {:induction false} LeavesFromArePaths(cs: seq<Tree>, c: nat, p: Path)
    requires c <= |cs|
    ensures p in LeavesFrom(cs, c) <==> p != [] && c <= p[0] < |cs| && IsPath(cs[p[0]], p[1..])
    decreases cs, |cs| - c + 1
  {
    if c < |cs| {
      LeavesFromArePaths(cs, c + 1, p);
      PrefixedHas(c, Leaves(cs[c]), p);
      if p != [] {
        LeavesArePaths(cs[c], p[1..]);
      }
    }
  }

  lemma PrefixedHas(c: nat, ps: seq<Path>, p: Path)
    ensures p in Prefixed(c, ps) <==> p != [] && p[0] == c && p[1..] in ps
  {
    var r := Prefixed(c, ps);
    if p in r {
      var i :| 0 <= i < |r| && r[i] == p;
      assert p[1..] == ps[i];
    }
    if p != [] && p[0] == c && p[1..] in ps {
      var i :| 0 <= i < |ps| && ps[i] == p[1..];
      assert r[i] == p;
    }
  }

  /** Leaves come in strictly increasing order, so none comes twice. */
  lemma {:induction false} LeavesOrdered(t: Tree, i: nat, j: nat)
    requires i < j < |Leaves(t)|
    ensures Before(Leaves(t)[i], Leaves(t)[j])
    decreases t, 0
  {
    match t
    case Leaf =>
    case Choice(cs) => LeavesFromOrdered(cs, 0, i, j);
    case Crash(n) => LeavesOrdered(n, i, j);
  }

  lemma {:induction false} LeavesFromOrdered(cs: seq<Tree>, c: nat, i: nat, j: nat)
    requires c <= |cs| && i < j < |LeavesFrom(cs, c)|
    ensures Before(LeavesFrom(cs, c)[i], LeavesFrom(cs, c)[j])
    decreases cs, |cs| - c + 1
  {
    var here := Prefixed(c, Leaves(cs[c]));
    var rest := LeavesFrom(cs, c + 1);
    var n := |here|;
    if j < n {
      LeavesOrdered(cs[c], i, j);
      assert here[i][1..] == Leaves(cs[c])[i] && here[j][1..] == Leaves(cs[c])[j];
    } else if i < n {
      LeavesFromArePaths(cs, c + 1, rest[j - n]);
    } else {
      LeavesFromOrdered(cs, c + 1, i - n, j - n);
    }
  }

  lemma {:induction false} NotBeforeItself(p: Path)
    ensures !Before(p, p)
  {
    if p != [] {
      NotBeforeItself(p[1..]);
    }
  }

  /** Each leaf is listed, and only once. */
  lemma LeavesExactlyOnce(t: Tree, p: Path)
    requires IsPath(t, p)
    ensures exists i: nat :: i < |Leaves(t)| && Leaves(t)[i] == p && forall j: nat :: j < |Leaves(t)| && Leaves(t)[j] == p ==> j == i
  {
    LeavesArePaths(t, p);
    var i: nat :| i < |Leaves(t)| && Leaves(t)[i] == p;
    forall j: nat | j < |Leaves(t)| && Leaves(t)[j] == p
      ensures j == i
    {
      NotBeforeItself(p);
      if i < j {
        LeavesOrdered(t, i, j);
      } else if j < i {
        LeavesOrdered(t, j, i);
      }
    }
  }

  // ----- The next leaf -----

  /** The leaf reached by taking the first alternative everywhere. */
  ghost function First(t: Tree): (p: Path)
    requires WellFormed(t)
    ensures IsPath(t, p)
  {
    match t
    case Leaf => []
    case Choice(cs) => [0] + First(cs[0])
    case Crash(n) => First(n)
  }

  /** The next leaf: the deepest choice that has an alternative left takes it, then first alternatives. */
  ghost function Succ(t: Tree, p: Path): (q: Option<Path>)
    requires WellFormed(t) && IsPath(t, p)
    ensures q.Some? ==> IsPath(t, q.value)
  {
    match t
    case Leaf => None
    case Choice(cs) =>
      var below := Succ(cs[p[0]], p[1..]);
      if below.Some? then Some([p[0]] + below.value)
      else if p[0] + 1 < |cs| then Some([p[0] + 1] + First(cs[p[0] + 1]))
      else None
    case Crash(n) => Succ(n, p)
  }

  /** The leaves from `p` on. */
  ghost function Remaining(t: Tree, p: Path): seq<Path>
    requires WellFormed(t) && IsPath(t, p)
  {
    match t
    case Leaf => [[]]
    case Choice(cs) => Prefixed(p[0], Remaining(cs[p[0]], p[1..])) + LeavesFrom(cs, p[0] + 1)
    case Crash(n) => Remaining(n, p)
  }

  lemma {:induction false} RemainingFirst(t: Tree)
    requires WellFormed(t)
    ensures Remaining(t, First(t)) == Leaves(t)
  {
    match t
    case Leaf =>
    case Choice(cs) =>
      RemainingFirst(cs[0]);
      assert First(t)[1..] == First(cs[0]);
    case Crash(n) => RemainingFirst(n);
  }

  lemma PrefixedCons(c: nat, q: Path, ps: seq<Path>)
    ensures Prefixed(c, [q] + ps) == [[c] + q] + Prefixed(c, ps)
  {
  }

  lemma RemainingChoice(cs: seq<Tree>, c: nat, q: Path)
    requires WellFormed(Choice(cs)) && c < |cs| && IsPath(cs[c], q)
    ensures IsPath(Choice(cs), [c] + q)
    ensures Remaining(Choice(cs), [c] + q) == Prefixed(c, Remaining(cs[c], q)) + LeavesFrom(cs, c + 1)
  {
    assert ([c] + q)[1..] == q;
  }

  lemma SuccChoice(cs: seq<Tree>, c: nat, q: Path)
    requires WellFormed(Choice(cs)) && c < |cs| && IsPath(cs[c], q)
    ensures IsPath(Choice(cs), [c] + q)
    ensures Succ(Choice(cs), [c] + q) ==
            if Succ(cs[c], q).Some? then Some([c] + Succ(cs[c], q).value)
            else if c + 1 < |cs| then Some([c + 1] + First(cs[c + 1]))
            else None
  {
    assert ([c] + q)[1..] == q;
  }

  /** The leaves after `p`. */
  ghost function After(t: Tree, p: Path): seq<Path>
    requires WellFormed(t) && IsPath(t, p)
  {
    if Succ(t, p).Some? then Remaining(t, Succ(t, p).value) else []
  }

  lemma AfterChoice(cs: seq<Tree>, c: nat, q: Path)
    requires WellFormed(Choice(cs)) && c < |cs| && IsPath(cs[c], q)
    ensures IsPath(Choice(cs), [c] + q)
    ensures After(Choice(cs), [c] + q) == Prefixed(c, After(cs[c], q)) + LeavesFrom(cs, c + 1)
  {
    hide Prefixed, Remaining, IsPath, Succ;
    SuccChoice(cs, c, q);
    if Succ(cs[c], q).Some? {
      RemainingChoice(cs, c, Succ(cs[c], q).value);
    } else if c + 1 < |cs| {
      RemainingChoice(cs, c + 1, First(cs[c + 1]));
      RemainingFirst(cs[c + 1]);
    }
  }

  /** Leaf after leaf, `Succ` runs through the leaves in order. */
  lemma {:induction false} RemainingStep(t: Tree, p: Path)
    requires WellFormed(t) && IsPath(t, p)
    ensures Remaining(t, p) == [p] + After(t, p)
  {
    match t
    case Leaf =>
    case Crash(n) =>
      RemainingStep(n, p);
    case Choice(cs) =>
      var c, q := p[0], p[1..];
      assert p == [c] + q;
      RemainingStep(cs[c], q);
      RemainingChoice(cs, c, q);
      AfterChoice(cs, c, q);
      PrefixedCons(c, q, After(cs[c], q));
      hide *;
  }

  // ----- The node stacks of a path -----

  /** A node of a node stack: the alternative taken and how many there are. */
  datatype Node = Node(readFromIdx: nat, rfSize: nat)
  {
    predicate HasMoreChoices()
    {
      readFromIdx + 1 < rfSize
    }
  }

  /** One list of nodes per execution, cut at the crashes. */
  ghost function Segments(t: Tree, p: Path): (r: seq<seq<Node>>)
    requires IsPath(t, p)
    ensures r != []
  {
    match t
    case Leaf => [[]]
    case Choice(cs) => var r := Segments(cs[p[0]], p[1..]); [[Node(p[0], |cs|)] + r[0]] + r[1..]
    case Crash(n) => [[]] + Segments(n, p)
  }

  /** Position of the deepest node of one execution with an alternative left. */
  ghost function DeepestMore(nodes: seq<Node>): (r: Option<nat>)
    ensures r.Some? ==> r.value < |nodes|
  {
    if nodes == [] then None
    else
      var below := DeepestMore(nodes[1..]);
      if below.Some? then Some(below.value + 1)
      else if nodes[0].HasMoreChoices() then Some(0)
      else None
  }

  lemma {:induction false} DeepestMoreAppend(nodes: seq<Node>, n: Node)
    ensures DeepestMore(nodes + [n]) == if n.HasMoreChoices() then Some(|nodes|) else DeepestMore(nodes)
  {
    if nodes == [] {
      assert [n][1..] == [];
    } else {
      DeepestMoreAppend(nodes[1..], n);
      assert (nodes + [n])[1..] == nodes[1..] + [n];
    }
  }

  /** Execution and position of the deepest node of all with an alternative left. */
  ghost function LastMore(segments: seq<seq<Node>>): (r: Option<(nat, nat)>)
    ensures r.Some? ==> r.value.0 < |segments| && r.value.1 < |segments[r.value.0]|
  {
    if segments == [] then None
    else
      var later := LastMore(segments[1..]);
      if later.Some? then Some((later.value.0 + 1, later.value.1))
      else
        var here := DeepestMore(segments[0]);
        if here.Some? then Some((0, here.value)) else None
  }

  lemma LastMoreCons(nodes: seq<Node>, later: seq<seq<Node>>)
    ensures LastMore([nodes] + later) ==
            if LastMore(later).Some? then Some((LastMore(later).value.0 + 1, LastMore(later).value.1))
            else if DeepestMore(nodes).Some? then Some((0, DeepestMore(nodes).value))
            else None
  {
    hide DeepestMore;
    assert ([nodes] + later)[1..] == later;
  }

  lemma DeepestMoreCons(n: Node, nodes: seq<Node>)
    ensures DeepestMore([n] + nodes) ==
            if DeepestMore(nodes).Some? then Some(DeepestMore(nodes).value + 1)
            else if n.HasMoreChoices() then Some(0)
            else None
  {
    assert ([n] + nodes)[1..] == nodes;
  }

  /** One more node in front of the first execution. */
  lemma LastMorePush(n: Node, segments: seq<seq<Node>>)
    requires segments != []
    ensures var later := LastMore(segments);
            LastMore([[n] + segments[0]] + segments[1..]) ==
            if later.Some? then Some((later.value.0, if later.value.0 == 0 then later.value.1 + 1 else later.value.1))
            else if n.HasMoreChoices() then Some((0, 0))
            else None
  {
    hide *;
    LastMoreCons([n] + segments[0], segments[1..]);
    LastMoreCons(segments[0], segments[1..]);
    DeepestMoreCons(n, segments[0]);
    assert [segments[0]] + segments[1..] == segments;
  }

  lemma LastMoreCrash(segments: seq<seq<Node>>)
    ensures var later := LastMore(segments);
            LastMore([[]] + segments) == if later.Some? then Some((later.value.0 + 1, later.value.1)) else None
  {
    hide LastMore;
    LastMoreCons([], segments);
  }

  lemma {:induction false} LastMoreSnoc(segments: seq<seq<Node>>, nodes: seq<Node>)
    ensures LastMore(segments + [nodes]) ==
            if DeepestMore(nodes).Some? then Some((|segments|, DeepestMore(nodes).value)) else LastMore(segments)
  {
    hide DeepestMore;
    if segments == [] {
      LastMoreCons(nodes, []);
      assert [nodes] + [] == segments + [nodes];
    } else {
      LastMoreSnoc(segments[1..], nodes);
      LastMoreCons(segments[0], segments[1..] + [nodes]);
      assert [segments[0]] + (segments[1..] + [nodes]) == segments + [nodes];
    }
  }

  lemma {:induction false} LastMoreIsDeepest(segments: seq<seq<Node>>)
    requires LastMore(segments).Some?
    ensures DeepestMore(segments[LastMore(segments).value.0]) == Some(LastMore(segments).value.1)
  {
    if LastMore(segments[1..]).Some? {
      LastMoreIsDeepest(segments[1..]);
    }
  }

  /** There is a next leaf exactly when some node has an alternative left. */
  lemma {:induction false} SuccIsLastMore(t: Tree, p: Path)
    requires WellFormed(t) && IsPath(t, p)
    ensures Succ(t, p).Some? <==> LastMore(Segments(t, p)).Some?
  {
    match t
    case Leaf => assert DeepestMore([]) == None;
    case Choice(cs) =>
      SuccIsLastMore(cs[p[0]], p[1..]);
      LastMorePush(Node(p[0], |cs|), Segments(cs[p[0]], p[1..]));
    case Crash(n) =>
      SuccIsLastMore(n, p);
      LastMoreCrash(Segments(n, p));
  }
}

/** Day 8: walking a network of labelled nodes, each with a left and a right
    successor, by cycling through a list of `L`/`R` directions. */
module Day08 {
  import opened Wrappers
  import opened Text
  import opened Arith

  datatype Node = Node(name: string, left: string, right: string)

  type Network = map<string, Node>

  /** `Node::from_str`: `"LBL = (L, R)"`. The text after `" = "` loses its first and
      last character, then splits at the first `", "`. Too short an edge text (which
      the source's slicing cannot handle) is an error here as well. */
  function ParseNode(s: string): (r: Result<Node>)
    ensures r.Ok? ==> !Contains(r.value.name, " = ")
    ensures r.Ok? ==> !Contains(r.value.left, ", ")
  {
    match SplitOnce(s, " = ")
    case None => Err
    case Some((name, edges)) =>
      if |edges| < 2 then Err
      else match SplitOnce(edges[1..|edges| - 1], ", ")
        case None => Err
        case Some((left, right)) => Ok(Node(name, left, right))
  }

  /** The line a node is written as in the input. */
  function Render(n: Node): string {
    n.name + " = " + ("(" + n.left + ", " + n.right + ")")
  }

  /** Parsing reads back a rendered node whose name has no space and whose left
      successor has no comma. */
  lemma ParseRendered(n: Node)
    requires ' ' !in n.name && ',' !in n.left
    ensures ParseNode(Render(n)) == Ok(n)
  {
    var edges := "(" + n.left + ", " + n.right + ")";
    SplitOnceAfter(n.name, " = ", edges);
    assert edges[1..|edges| - 1] == n.left + ", " + n.right;
    SplitOnceAfter(n.left, ", ", n.right);
  }

  /** A line without `" = "` is not a node. */
  lemma MissingEquals(s: string)
    requires !Contains(s, " = ")
    ensures ParseNode(s).Err?
  {
  }

  /** `get_next`: `L` takes the left successor, `R` the right one, anything else is no
      direction. */
  function GetNext(n: Node, direction: char): (r: Option<string>)
    ensures r.Some? <==> direction == 'L' || direction == 'R'
    ensures direction == 'L' ==> r == Some(n.left)
    ensures direction == 'R' ==> r == Some(n.right)
  {
    match direction
    case 'L' => Some(n.left)
    case 'R' => Some(n.right)
    case _ => None
  }

  /** What a node must satisfy to end a walk. */
  datatype Goal = Exactly(name: string) | Suffix(last: char)

  predicate IsGoal(goal: Goal, s: string) {
    match goal
    case Exactly(l) => s == l
    case Suffix(c) => |s| > 0 && s[|s| - 1] == c
  }

  /** The node reached after `k` steps from `start`, or `None` once a step hits a
      missing node or a character that is no direction. */
  function Walk(directions: seq<char>, network: Network, start: string, k: nat): Option<string>
    requires |directions| > 0
  {
    if k == 0 then Some(start)
    else match Walk(directions, network, start, k - 1)
      case None => None
      case Some(s) =>
        if s !in network then None
        else GetNext(network[s], directions[(k - 1) % |directions|])
  }

  /** How a walk ends within the step budget: after some number of steps, at a panic
      (missing node, bad direction, no directions at all), or not yet. The source has no
      budget and would keep walking. */
  datatype Walked = Reached(steps: nat) | Stuck | Unfinished

  /** The walk of `path_length` from the node reached after `i` steps, `fuel` steps left. */
  function WalkFrom(directions: seq<char>, network: Network, state: string, i: nat, goal: Goal, fuel: nat): (r: Walked)
    requires |directions| > 0
    ensures r.Reached? ==> i < r.steps <= i + fuel
    decreases fuel
  {
    if fuel == 0 then Unfinished
    else if state !in network then Stuck
    else match GetNext(network[state], directions[i % |directions|])
      case None => Stuck
      case Some(next) =>
        if IsGoal(goal, next) then Reached(i + 1)
        else WalkFrom(directions, network, next, i + 1, goal, fuel - 1)
  }

  /** `path_length` from the node labelled `start`, within `fuel` steps. */
  function PathLength(directions: seq<char>, network: Network, start: string, goal: Goal, fuel: nat): (r: Walked)
    ensures r.Reached? ==> 1 <= r.steps <= fuel
  {
    if |directions| == 0 || start !in network then Stuck
    else WalkFrom(directions, network, start, 0, goal, fuel)
  }

  /** `n` steps reach the goal for the first time: the start itself never counts as reaching it. */
  ghost predicate FirstArrival(directions: seq<char>, network: Network, start: string, goal: Goal, n: nat)
    requires |directions| > 0
  {
    && n >= 1
    && Walk(directions, network, start, n).Some?
    && IsGoal(goal, Walk(directions, network, start, n).value)
    && forall k :: 1 <= k < n ==>
         Walk(directions, network, start, k).Some? && !IsGoal(goal, Walk(directions, network, start, k).value)
  }

  lemma {:induction false} WalkFromSpec(directions: seq<char>, network: Network, start: string, i: nat, goal: Goal, fuel: nat)
    requires |directions| > 0
    requires Walk(directions, network, start, i).Some?
    requires forall k :: 1 <= k <= i ==>
               Walk(directions, network, start, k).Some? && !IsGoal(goal, Walk(directions, network, start, k).value)
    ensures var r := WalkFrom(directions, network, Walk(directions, network, start, i).value, i, goal, fuel);
            r.Reached? ==> FirstArrival(directions, network, start, goal, r.steps)
    ensures forall n: nat :: i < n <= i + fuel && FirstArrival(directions, network, start, goal, n) ==>
              WalkFrom(directions, network, Walk(directions, network, start, i).value, i, goal, fuel) == Reached(n)
    decreases fuel
  {
    var state := Walk(directions, network, start, i).value;
    var r := WalkFrom(directions, network, state, i, goal, fuel);
    if fuel > 0 {
      var step := if state in network then GetNext(network[state], directions[i % |directions|]) else None;
      assert Walk(directions, network, start, i + 1) == step;
      if step.Some? && !IsGoal(goal, step.value) {
        WalkFromSpec(directions, network, start, i + 1, goal, fuel - 1);
      }
      forall n: nat | i < n <= i + fuel && FirstArrival(directions, network, start, goal, n)
        ensures r == Reached(n)
      {
        if n > i + 1 {
          assert Walk(directions, network, start, i + 1).Some?;
        }
      }
    }
  }

  /** `path_length` returns exactly the first arrival at the goal, when it lies within
      the budget. */
  lemma PathLengthSpec(directions: seq<char>, network: Network, start: string, goal: Goal, fuel: nat)
    requires |directions| > 0 && start in network
    ensures var r := PathLength(directions, network, start, goal, fuel);
            && (r.Reached? ==> FirstArrival(directions, network, start, goal, r.steps))
            && (forall n: nat :: n <= fuel && FirstArrival(directions, network, start, goal, n) ==> r == Reached(n))
  {
    WalkFromSpec(directions, network, start, 0, goal, fuel);
  }

  /** `part1`: from `AAA` to `ZZZ`. */
  function Part1(directions: seq<char>, network: Network, fuel: nat): Walked {
    PathLength(directions, network, "AAA", Exactly("ZZZ"), fuel)
  }

  /** The walk lengths from each start, in order; the first walk that does not arrive
      decides the outcome. */
  function Lengths(directions: seq<char>, network: Network, starts: seq<string>, fuel: nat): (r: Result<seq<nat>>)
    ensures r.Ok? <==> forall k :: 0 <= k < |starts| ==> PathLength(directions, network, starts[k], Suffix('Z'), fuel).Reached?
    ensures r.Ok? ==> |r.value| == |starts|
    ensures r.Ok? ==> forall k :: 0 <= k < |starts| ==> r.value[k] > 0
    ensures r.Ok? ==> forall k :: 0 <= k < |starts| ==>
              PathLength(directions, network, starts[k], Suffix('Z'), fuel) == Reached(r.value[k])
  {
    if |starts| == 0 then Ok([])
    else match (PathLength(directions, network, starts[0], Suffix('Z'), fuel),
                Lengths(directions, network, starts[1..], fuel))
      case (Reached(n), Ok(rest)) => Ok([n] + rest)
      case _ => Err
  }

  /** How the first walk that does not arrive ends: stuck at a panic, or unfinished
      within the budget. */
  function FirstMiss(directions: seq<char>, network: Network, starts: seq<string>, fuel: nat): (w: Walked)
    ensures (exists k :: 0 <= k < |starts| && !PathLength(directions, network, starts[k], Suffix('Z'), fuel).Reached?) ==>
      && !w.Reached?
      && exists k :: 0 <= k < |starts| && PathLength(directions, network, starts[k], Suffix('Z'), fuel) == w
  {
    if |starts| == 0 then Stuck
    else
      var first := PathLength(directions, network, starts[0], Suffix('Z'), fuel);
      if first.Reached? then
        var rest := FirstMiss(directions, network, starts[1..], fuel);
        assert forall k :: 1 <= k < |starts| ==> starts[k] == starts[1..][k - 1];
        rest
      else first
  }

  /** `reduce(lcm)`, a left fold. */
  function LcmAll(ns: seq<nat>): (l: nat)
    requires |ns| >= 1 && forall k :: 0 <= k < |ns| ==> ns[k] > 0
    ensures l > 0
  {
    if |ns| == 1 then ns[0]
    else
      var init := LcmAll(ns[..|ns| - 1]);
      LcmCommonMultiple(init, ns[|ns| - 1]);
      Lcm(init, ns[|ns| - 1])
  }

  /** The fold is the least common multiple of all the lengths: a multiple of each, and
      a divisor of every common multiple. So the order of the starts does not matter. */
  lemma {:induction false} LcmAllSpec(ns: seq<nat>, m: int)
    requires |ns| >= 1 && forall k :: 0 <= k < |ns| ==> ns[k] > 0
    ensures LcmAll(ns) > 0
    ensures forall k :: 0 <= k < |ns| ==> LcmAll(ns) % ns[k] == 0
    ensures (forall k :: 0 <= k < |ns| ==> m % ns[k] == 0) ==> m % LcmAll(ns) == 0
  {
    if |ns| > 1 {
      var init, last := ns[..|ns| - 1], ns[|ns| - 1];
      LcmAllSpec(init, m);
      var a := LcmAll(init);
      LcmCommonMultiple(a, last);
      forall k | 0 <= k < |ns| - 1
        ensures LcmAll(ns) % ns[k] == 0
      {
        assert init[k] == ns[k];
        DivisibleTransitive(LcmAll(ns), a, ns[k]);
      }
      if forall k :: 0 <= k < |ns| ==> m % ns[k] == 0 {
        assert forall k :: 0 <= k < |init| ==> m % init[k] == 0 by {
          forall k | 0 <= k < |init| ensures m % init[k] == 0 {
            assert init[k] == ns[k];
          }
        }
        LcmLeast(a, last, m);
      }
    }
  }

  lemma DivisibleTransitive(m: int, a: int, b: int)
    requires a > 0 && b > 0 && m % a == 0 && a % b == 0
    ensures m % b == 0
  {
    DivisorWitness(a, m);
    DivisorWitness(b, a);
    assert m == b * ((a / b) * (m / a)) by {
      Assoc(b, a / b, m / a);
    }
    MulMod(b, (a / b) * (m / a));
  }

  /** The starts of part two: every name ending in `A`, each once, in the (unspecified)
      order the network's map yields them. */
  ghost predicate StartsOf(network: Network, starts: seq<string>) {
    && (forall s :: s in starts <==> s in network && IsGoal(Suffix('A'), s))
    && forall i, j :: 0 <= i < j < |starts| ==> starts[i] != starts[j]
  }

  /** `part2`: the least common multiple of the walk lengths from every start to a name
      ending in `Z`; no start at all is a panic, and otherwise a walk that does not
      arrive decides how part two ends. */
  function Part2(directions: seq<char>, network: Network, starts: seq<string>, fuel: nat): (r: Walked)
    requires StartsOf(network, starts)
    ensures r.Reached? <==>
      |starts| > 0 && forall k :: 0 <= k < |starts| ==> PathLength(directions, network, starts[k], Suffix('Z'), fuel).Reached?
    ensures r == Unfinished ==> exists k :: 0 <= k < |starts| && PathLength(directions, network, starts[k], Suffix('Z'), fuel) == Unfinished
    ensures r == Stuck ==> |starts| == 0 || exists k :: 0 <= k < |starts| && PathLength(directions, network, starts[k], Suffix('Z'), fuel) == Stuck
  {
    match Lengths(directions, network, starts, fuel)
    case Err => FirstMiss(directions, network, starts, fuel)
    case Ok(ns) =>
      if |ns| == 0 then Stuck
      else Reached(LcmAll(ns))
  }

  /** The answer of part two is a common multiple of every start's walk length, and
      divides every other common multiple. */
  lemma Part2Spec(directions: seq<char>, network: Network, starts: seq<string>, fuel: nat, m: int)
    requires StartsOf(network, starts)
    requires Part2(directions, network, starts, fuel).Reached?
    ensures var r := Part2(directions, network, starts, fuel).steps;
            && r > 0
            && (forall k :: 0 <= k < |starts| ==>
                  exists n :: PathLength(directions, network, starts[k], Suffix('Z'), fuel) == Reached(n) && n > 0 && r % n == 0)
            && ((forall k :: 0 <= k < |starts| ==> m % Lengths(directions, network, starts, fuel).value[k] == 0) ==> m % r == 0)
  {
    var ns := Lengths(directions, network, starts, fuel).value;
    LcmAllSpec(ns, m);
    forall k | 0 <= k < |starts|
      ensures exists n :: PathLength(directions, network, starts[k], Suffix('Z'), fuel) == Reached(n) && n > 0 && LcmAll(ns) % n == 0
    {
      assert PathLength(directions, network, starts[k], Suffix('Z'), fuel) == Reached(ns[k]);
    }
  }

  /** The network of `collect::<HashMap>`: a later node with the same name replaces an
      earlier one. */
  function BuildNetwork(nodes: seq<Node>): (network: Network) {
    if |nodes| == 0 then map[]
    else BuildNetwork(nodes[..|nodes| - 1])[nodes[|nodes| - 1].name := nodes[|nodes| - 1]]
  }

  /** The names are exactly the nodes' names, and each maps to its last node. */
  lemma {:induction false} BuildNetworkSpec(nodes: seq<Node>)
    ensures forall l :: l in BuildNetwork(nodes) <==> exists k :: 0 <= k < |nodes| && nodes[k].name == l
    ensures forall k :: 0 <= k < |nodes| && (forall j :: k < j < |nodes| ==> nodes[j].name != nodes[k].name) ==>
              BuildNetwork(nodes)[nodes[k].name] == nodes[k]
  {
    if |nodes| > 0 {
      var init, last := nodes[..|nodes| - 1], nodes[|nodes| - 1];
      BuildNetworkSpec(init);
      assert forall k :: 0 <= k < |init| ==> init[k] == nodes[k];
      assert BuildNetwork(nodes) == BuildNetwork(init)[last.name := last];
      forall k | 0 <= k < |nodes| && (forall j :: k < j < |nodes| ==> nodes[j].name != nodes[k].name)
        ensures BuildNetwork(nodes)[nodes[k].name] == nodes[k]
      {
        if k < |init| {
          assert last.name != nodes[k].name;
          assert forall j :: k < j < |init| ==> init[j].name != init[k].name;
        }
      }
    }
  }

  function ParseNodes(lines: seq<string>): (r: Result<seq<Node>>)
    ensures r.Ok? <==> forall k :: 0 <= k < |lines| ==> ParseNode(lines[k]).Ok?
    ensures r.Ok? ==> |r.value| == |lines|
    ensures r.Ok? ==> forall k :: 0 <= k < |lines| ==> ParseNode(lines[k]) == Ok(r.value[k])
  {
    if |lines| == 0 then Ok([])
    else match (ParseNode(lines[0]), ParseNodes(lines[1..]))
      case (Ok(n), Ok(rest)) => Ok([n] + rest)
      case _ => Err
  }

  /** `parse_input`: the directions on the first line, then (after one skipped line) the
      nodes. */
  function ParseInput(input: string): (r: Result<(seq<char>, Network)>)
    ensures r.Ok? ==> |Lines(input)| >= 1 && r.value.0 == Lines(input)[0]
  {
    var lines := Lines(input);
    if |lines| == 0 then Err
    else
      var rest := if |lines| >= 2 then lines[2..] else [];
      match ParseNodes(rest)
      case Err => Err
      case Ok(nodes) => Ok((lines[0], BuildNetwork(nodes)))
  }

  /** The lines of nodes written out, one per node. */
  function RenderNodes(nodes: seq<Node>): (lines: seq<string>)
    ensures |lines| == |nodes|
    ensures forall k :: 0 <= k < |nodes| ==> lines[k] == Render(nodes[k])
  {
    seq(|nodes|, k requires 0 <= k < |nodes| => Render(nodes[k]))
  }

  /** The input written out: the directions, a blank line, then one node per line. */
  function RenderInput(directions: seq<char>, nodes: seq<Node>): string
    requires |nodes| >= 1
  {
    Join([directions, ""] + RenderNodes(nodes), "\n")
  }

  lemma RenderAvoids(n: Node, c: char)
    requires c !in n.name && c !in n.left && c !in n.right && c !in " = (, )"
    ensures c !in Render(n)
  {
  }

  /** Written nodes read back as themselves. */
  lemma ParseNodesRendered(nodes: seq<Node>)
    requires forall k :: 0 <= k < |nodes| ==> ' ' !in nodes[k].name && ',' !in nodes[k].left
    ensures ParseNodes(RenderNodes(nodes)) == Ok(nodes)
  {
    var rendered := RenderNodes(nodes);
    forall k | 0 <= k < |nodes| ensures ParseNode(rendered[k]) == Ok(nodes[k]) {
      ParseRendered(nodes[k]);
    }
    var r := ParseNodes(rendered);
    assert r.Ok?;
    assert forall k :: 0 <= k < |nodes| ==> r.value[k] == nodes[k];
    assert r.value == nodes;
  }

  /** The written input's lines are the directions, a blank line and the nodes. */
  lemma LinesRendered(directions: seq<char>, nodes: seq<Node>)
    requires |nodes| >= 1 && '\n' !in directions
    requires forall k :: 0 <= k < |nodes| ==>
      '\n' !in nodes[k].name && '\n' !in nodes[k].left && '\n' !in nodes[k].right
    ensures Lines(RenderInput(directions, nodes)) == [directions, ""] + RenderNodes(nodes)
  {
    var rendered := RenderNodes(nodes);
    var lines := [directions, ""] + rendered;
    forall k | 0 <= k < |lines| ensures '\n' !in lines[k] {
      if k >= 2 {
        assert lines[k] == rendered[k - 2];
        RenderAvoids(nodes[k - 2], '\n');
      }
    }
    assert lines[|lines| - 1] == Render(nodes[|nodes| - 1]);
    LinesJoin(lines);
  }

  /** A written input reads back as its directions and the network of its nodes, when no
      field holds a newline, no name a space and no left successor a comma. */
  lemma ParseInputRendered(directions: seq<char>, nodes: seq<Node>)
    requires |nodes| >= 1 && '\n' !in directions
    requires forall k :: 0 <= k < |nodes| ==> ' ' !in nodes[k].name && ',' !in nodes[k].left
    requires forall k :: 0 <= k < |nodes| ==>
      '\n' !in nodes[k].name && '\n' !in nodes[k].left && '\n' !in nodes[k].right
    ensures ParseInput(RenderInput(directions, nodes)) == Ok((directions, BuildNetwork(nodes)))
  {
    LinesRendered(directions, nodes);
    var lines := Lines(RenderInput(directions, nodes));
    assert lines[2..] == RenderNodes(nodes);
    ParseNodesRendered(nodes);
  }

  function Example1(): Network {
    map["AAA" := Node("AAA", "BBB", "CCC"), "BBB" := Node("BBB", "DDD", "EEE"),
        "CCC" := Node("CCC", "ZZZ", "GGG"), "DDD" := Node("DDD", "DDD", "DDD"),
        "EEE" := Node("EEE", "EEE", "EEE"), "GGG" := Node("GGG", "GGG", "GGG"),
        "ZZZ" := Node("ZZZ", "ZZZ", "ZZZ")]
  }

  /** The first example reaches `ZZZ` in 2 steps. */
  lemma ExamplePart1()
    ensures Part1("RL", Example1(), 10) == Reached(2)
  {
  }

  function Example2(): Network {
    map["AAA" := Node("AAA", "BBB", "BBB"), "BBB" := Node("BBB", "AAA", "ZZZ"),
        "ZZZ" := Node("ZZZ", "ZZZ", "ZZZ")]
  }

  /** The second example needs the directions twice: 6 steps. */
  lemma ExamplePart1Repeated()
    ensures Part1("LLR", Example2(), 10) == Reached(6)
  {
  }

  function Example3(): Network {
    map["11A" := Node("11A", "11B", "XXX"), "11B" := Node("11B", "XXX", "11Z"),
        "11Z" := Node("11Z", "11B", "XXX"), "22A" := Node("22A", "22B", "XXX"),
        "22B" := Node("22B", "22C", "22C"), "22C" := Node("22C", "22Z", "22Z"),
        "22Z" := Node("22Z", "22B", "22B"), "XXX" := Node("XXX", "XXX", "XXX")]
  }

  /** The two starts of the third example arrive after 2 and 3 steps, together after 6. */
  lemma ExamplePart2()
    ensures StartsOf(Example3(), ["11A", "22A"])
    ensures Part2("LR", Example3(), ["11A", "22A"], 10) == Reached(6)
  {
    assert PathLength("LR", Example3(), "11A", Suffix('Z'), 10) == Reached(2);
    assert PathLength("LR", Example3(), "22A", Suffix('Z'), 10) == Reached(3);
    assert Lcm(2, 3) == 6;
    assert LcmAll([2, 3]) == 6;
  }
}

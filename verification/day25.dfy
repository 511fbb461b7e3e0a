/** Day 25, part 1: the snowverload (`lib.rs`). Each input line `a: b c d` lists the
    components wired to `a`; the wiring is undirected. The three wires to cut are read
    from the user (found by looking at a Graphviz drawing), and the answer is the size of
    the part of the graph still connected to one node times the size of the rest.

    The node the source starts from is the first key of a `HashMap`, whose order is not
    defined: the model takes it as a parameter. Reading the wires from standard input and
    writing the drawing to a file are left out; the wires are a parameter too. */
module Day25 {
  import opened Wrappers
  import opened Text
  import opened Sets

  /** Every node with the nodes wired to it, in the order the wires were read. */
  type Graph = map<string, seq<string>>

  // ---------------------------------------------------------------------------------
  // `parse_input`

  function Get(g: Graph, u: string): seq<string> {
    if u in g then g[u] else []
  }

  /** The two pushes for a wire `a`–`b`: `b` onto `a`'s list, then `a` onto `b`'s. */
  function AddEdge(g: Graph, a: string, b: string): Graph {
    var g' := g[a := Get(g, a) + [b]];
    g'[b := Get(g', b) + [a]]
  }

  /** The wires of one line, in order. */
  function AddLine(g: Graph, from: string, tos: seq<string>): Graph
    decreases |tos|
  {
    if tos == [] then g else AddLine(AddEdge(g, from, tos[0]), from, tos[1..])
  }

  function Build(g: Graph, rows: seq<(string, seq<string>)>): Graph
    decreases |rows|
  {
    if rows == [] then g else Build(AddLine(g, rows[0].0, rows[0].1), rows[1..])
  }

  /** One line split at its first `": "` into the node and the nodes after it, split on
      single spaces; a line without `": "` panics. */
  function ParseLine(line: string): Result<(string, seq<string>)> {
    var (from, to) :- OkOr(SplitOnce(line, ": "));
    Ok((from, Split(to, " ")))
  }

  /** `parse_input`. The source splits each line while it fills the map; a panic on a
      later line discards the map anyway, so splitting every line first is the same. */
  function ParseInput(input: string): Result<Graph> {
    var rows :- MapAll(Lines(input), ParseLine);
    Ok(Build(map[], rows))
  }

  /** The reference: row `i` lists a wire from `u` to `v`. */
  ghost predicate Listed(rows: seq<(string, seq<string>)>, u: string, v: string) {
    exists i :: 0 <= i < |rows| && rows[i].0 == u && v in rows[i].1
  }

  /** `v` is on `u`'s list. */
  predicate Wired(g: Graph, u: string, v: string) {
    u in g && v in g[u]
  }

  lemma AddEdgeSpec(g: Graph, a: string, b: string)
    ensures var g' := AddEdge(g, a, b);
      && (forall u, v :: Wired(g', u, v) <==> Wired(g, u, v) || (u == a && v == b) || (u == b && v == a))
      && (forall u :: u in g' <==> u in g || u == a || u == b)
  {
  }

  /** The wires of a line: their two directions are added, and nothing is removed. */
  lemma {:induction false} AddLineSpec(g: Graph, from: string, tos: seq<string>)
    ensures var g' := AddLine(g, from, tos);
      && (forall u, v :: Wired(g', u, v) <==> Wired(g, u, v) || (u == from && v in tos) || (v == from && u in tos))
      && (forall u :: u in g' <==> u in g || (tos != [] && (u == from || u in tos)))
    decreases |tos|
  {
    if tos != [] {
      var g1 := AddEdge(g, from, tos[0]);
      AddEdgeSpec(g, from, tos[0]);
      AddLineSpec(g1, from, tos[1..]);
      assert forall v :: v in tos <==> v == tos[0] || v in tos[1..];
    }
  }

  lemma ListedCons(rows: seq<(string, seq<string>)>, u: string, v: string)
    requires rows != []
    ensures Listed(rows, u, v) <==> (rows[0].0 == u && v in rows[0].1) || Listed(rows[1..], u, v)
  {
    if Listed(rows, u, v) {
      var i :| 0 <= i < |rows| && rows[i].0 == u && v in rows[i].1;
      if i > 0 {
        assert rows[1..][i - 1] == rows[i];
      }
    }
    if Listed(rows[1..], u, v) {
      var i :| 0 <= i < |rows[1..]| && rows[1..][i].0 == u && v in rows[1..][i].1;
      assert rows[i + 1] == rows[1..][i];
    }
  }

  /** The map holds the wires of every row in both directions, and nothing else. */
  lemma {:induction false} BuildSpec(g: Graph, rows: seq<(string, seq<string>)>)
    ensures var g' := Build(g, rows);
      forall u, v :: Wired(g', u, v) <==> Wired(g, u, v) || Listed(rows, u, v) || Listed(rows, v, u)
    decreases |rows|
  {
    if rows != [] {
      var g1 := AddLine(g, rows[0].0, rows[0].1);
      AddLineSpec(g, rows[0].0, rows[0].1);
      BuildSpec(g1, rows[1..]);
      forall u, v
        ensures Listed(rows, u, v) <==> (rows[0].0 == u && v in rows[0].1) || Listed(rows[1..], u, v)
      {
        ListedCons(rows, u, v);
      }
    }
  }

  /** Every key of the map has a non-empty list. */
  lemma {:induction false} BuildKeys(g: Graph, rows: seq<(string, seq<string>)>)
    requires forall u :: u in g ==> g[u] != []
    ensures var g' := Build(g, rows);
      forall u :: u in g' ==> g'[u] != []
    decreases |rows|
  {
    if rows != [] {
      var (from, tos) := rows[0];
      var g1 := AddLine(g, from, tos);
      AddLineSpec(g, from, tos);
      forall u | u in g1
        ensures g1[u] != []
      {
        if u !in g {
          if u == from {
            assert Wired(g1, from, tos[0]);
          } else {
            assert Wired(g1, u, from);
          }
        } else {
          assert Wired(g, u, g[u][0]);
          assert Wired(g1, u, g[u][0]);
        }
      }
      BuildKeys(g1, rows[1..]);
      assert Build(g, rows) == Build(g1, rows[1..]);
    }
  }

  lemma NonEmptyLists(rows: seq<(string, seq<string>)>)
    ensures forall u :: u in Build(map[], rows) ==> Build(map[], rows)[u] != []
  {
    BuildKeys(map[], rows);
  }

  /** Every node on a list is a key of the map. */
  ghost predicate Closed(g: Graph) {
    forall u, v :: Wired(g, u, v) ==> v in g
  }

  /** A parsed graph is undirected: `v` is on `u`'s list exactly when `u` is on `v`'s,
      exactly when a line lists the wire `u`–`v` in one of its two directions; every
      node on a list is a key, and every key has a non-empty list. */
  lemma ParseInputSpec(input: string)
    requires ParseInput(input).Ok?
    ensures var g := ParseInput(input).value;
      var rows := MapAll(Lines(input), ParseLine).value;
      && (forall u, v :: Wired(g, u, v) <==> Listed(rows, u, v) || Listed(rows, v, u))
      && (forall u, v :: Wired(g, u, v) <==> Wired(g, v, u))
      && Closed(g)
      && (forall u :: u in g ==> g[u] != [])
  {
    var rows := MapAll(Lines(input), ParseLine).value;
    var g := Build(map[], rows);
    assert ParseInput(input) == Ok(g);
    hide *;
    BuildSpec(map[], rows);
    NonEmptyLists(rows);
    forall u, v | Wired(g, u, v)
      ensures v in g
    {
      assert Wired(g, v, u);
    }
  }

  /** A line written as `u: v1 v2 ...` is read back as `u` and its list, when `u` has no
      colon and no listed node has a space. */
  lemma ParseLineRendered(u: string, vs: seq<string>)
    requires ':' !in u && |vs| >= 1 && forall k :: 0 <= k < |vs| ==> ' ' !in vs[k]
    ensures ParseLine(u + ": " + Join(vs, " ")) == Ok((u, vs))
  {
    SplitOnceAfter(u, ": ", Join(vs, " "));
    SplitJoinChar(vs, ' ');
  }

  // ---------------------------------------------------------------------------------
  // `parse_ignored_edges`

  /** Each pair in both directions, in order. */
  function BothWays(pairs: seq<(string, string)>): (r: seq<(string, string)>)
    ensures |r| == 2 * |pairs|
    ensures forall i :: 0 <= i < |pairs| ==> r[2 * i] == pairs[i] && r[2 * i + 1] == (pairs[i].1, pairs[i].0)
  {
    if pairs == [] then []
    else
      var rest := BothWays(pairs[1..]);
      assert forall i :: 1 <= i < |pairs| ==> pairs[1..][i - 1] == pairs[i];
      [pairs[0], (pairs[0].1, pairs[0].0)] + rest
  }

  function ParseWire(p: string): Result<(string, string)> {
    OkOr(SplitOnce(p, "/"))
  }

  /** `parse_ignored_edges`: the space-separated `a/b` pairs, each in both directions; a
      pair without `/` panics. */
  function ParseIgnoredEdges(s: string): Result<seq<(string, string)>> {
    var pairs :- MapAll(Split(s, " "), ParseWire);
    Ok(BothWays(pairs))
  }

  /** The wires read are cut in both directions: `(a, b)` is ignored exactly when some
      pair reads `a/b` or `b/a`. */
  lemma ParseIgnoredEdgesSpec(s: string, a: string, b: string)
    requires ParseIgnoredEdges(s).Ok?
    ensures var pairs := MapAll(Split(s, " "), ParseWire).value;
      var ignored := ParseIgnoredEdges(s).value;
      && |ignored| == 2 * |Split(s, " ")|
      && ((a, b) in ignored <==> (a, b) in pairs || (b, a) in pairs)
      && ((a, b) in ignored <==> (b, a) in ignored)
  {
    var pairs := MapAll(Split(s, " "), ParseWire).value;
    assert ParseIgnoredEdges(s) == Ok(BothWays(pairs));
    hide *;
    BothWaysMembers(pairs, a, b);
    BothWaysMembers(pairs, b, a);
  }

  lemma BothWaysMembers(pairs: seq<(string, string)>, a: string, b: string)
    ensures (a, b) in BothWays(pairs) <==> (a, b) in pairs || (b, a) in pairs
  {
    var r := BothWays(pairs);
    if (a, b) in r {
      var k :| 0 <= k < |r| && r[k] == (a, b);
      assert r[2 * (k / 2)] == pairs[k / 2];
    }
    if (a, b) in pairs {
      var i :| 0 <= i < |pairs| && pairs[i] == (a, b);
      assert r[2 * i] == (a, b);
    }
    if (b, a) in pairs {
      var i :| 0 <= i < |pairs| && pairs[i] == (b, a);
      assert r[2 * i + 1] == (a, b);
    }
  }

  /** Pairs written as `a/b` separated by single spaces are read back, each in both
      directions, when no name has a space and the first of each pair has no `/`. */
  lemma ParseIgnoredEdgesRendered(pairs: seq<(string, string)>)
    requires |pairs| >= 1
    requires forall k :: 0 <= k < |pairs| ==> '/' !in pairs[k].0 && ' ' !in pairs[k].0 && ' ' !in pairs[k].1
    ensures ParseIgnoredEdges(Join(WireTexts(pairs), " ")) == Ok(BothWays(pairs))
  {
    var texts := WireTexts(pairs);
    WireTextsParse(pairs);
    SplitJoinChar(texts, ' ');
  }

  lemma WireTextsParse(pairs: seq<(string, string)>)
    requires |pairs| >= 1
    requires forall k :: 0 <= k < |pairs| ==> '/' !in pairs[k].0 && ' ' !in pairs[k].0 && ' ' !in pairs[k].1
    ensures |WireTexts(pairs)| >= 1
    ensures forall k :: 0 <= k < |WireTexts(pairs)| ==> ' ' !in WireTexts(pairs)[k]
    ensures MapAll(WireTexts(pairs), ParseWire) == Ok(pairs)
  {
    var texts := WireTexts(pairs);
    forall k | 0 <= k < |texts|
      ensures ' ' !in texts[k] && ParseWire(texts[k]) == Ok(pairs[k])
    {
      SplitOnceAfter(pairs[k].0, "/", pairs[k].1);
    }
    var parsed := MapAll(texts, ParseWire);
    assert parsed.value == pairs;
  }

  /** Each pair written as `a/b`. */
  function WireTexts(pairs: seq<(string, string)>): (texts: seq<string>)
    ensures |texts| == |pairs|
    ensures forall k :: 0 <= k < |pairs| ==> texts[k] == pairs[k].0 + "/" + pairs[k].1
  {
    seq(|pairs|, k requires 0 <= k < |pairs| => pairs[k].0 + "/" + pairs[k].1)
  }

  // ---------------------------------------------------------------------------------
  // `part1`

  /** A wire the search follows: `v` is on `u`'s list and `(u, v)` is not cut. */
  predicate Step(g: Graph, ignored: seq<(string, string)>, u: string, v: string) {
    Wired(g, u, v) && (u, v) !in ignored
  }

  /** Consecutive nodes of `p` are joined by wires that are not cut. */
  ghost predicate Path(g: Graph, ignored: seq<(string, string)>, p: seq<string>) {
    |p| >= 1 && forall i :: 0 <= i < |p| - 1 ==> Step(g, ignored, p[i], p[i + 1])
  }

  ghost predicate Reaches(g: Graph, ignored: seq<(string, string)>, s: string, v: string) {
    exists p :: Path(g, ignored, p) && p[0] == s && p[|p| - 1] == v
  }

  /** The nodes of the map still connected to `s` once the wires are cut. */
  ghost function Component(g: Graph, ignored: seq<(string, string)>, s: string): set<string> {
    set v | v in g.Keys && Reaches(g, ignored, s, v)
  }

  lemma ReachesSelf(g: Graph, ignored: seq<(string, string)>, s: string)
    ensures Reaches(g, ignored, s, s)
  {
    assert Path(g, ignored, [s]);
  }

  lemma ReachesStep(g: Graph, ignored: seq<(string, string)>, s: string, u: string, v: string)
    requires Reaches(g, ignored, s, u) && Step(g, ignored, u, v)
    ensures Reaches(g, ignored, s, v)
  {
    var p :| Path(g, ignored, p) && p[0] == s && p[|p| - 1] == u;
    var q := p + [v];
    assert forall i :: 0 <= i < |p| ==> q[i] == p[i];
    assert Path(g, ignored, q);
  }

  /** A set that holds the first node of a path and is closed under the wires that are
      not cut holds its last node. */
  lemma {:induction false} ClosedHoldsPath(g: Graph, ignored: seq<(string, string)>, nodes: set<string>, p: seq<string>)
    requires Path(g, ignored, p) && p[0] in nodes
    requires forall u, v :: u in nodes && Step(g, ignored, u, v) ==> v in nodes
    ensures p[|p| - 1] in nodes
    decreases |p|
  {
    if |p| > 1 {
      var q := p[..|p| - 1];
      assert forall i :: 0 <= i < |q| ==> q[i] == p[i];
      assert Path(g, ignored, q);
      ClosedHoldsPath(g, ignored, nodes, q);
      assert Step(g, ignored, p[|p| - 2], p[|p| - 1]);
    }
  }

  /** When every list names only keys, every node connected to a key is a key. */
  lemma ClosedReaches(g: Graph, ignored: seq<(string, string)>, s: string, v: string)
    requires Closed(g) && s in g && Reaches(g, ignored, s, v)
    ensures v in g
  {
    var p :| Path(g, ignored, p) && p[0] == s && p[|p| - 1] == v;
    ClosedHoldsPath(g, ignored, g.Keys, p);
  }

  /** No node is on the stack twice. */
  predicate DistinctNodes(stack: seq<string>) {
    forall i, j :: 0 <= i < j < |stack| ==> stack[i] != stack[j]
  }

  /** The loop over the wires of `node`: each neighbour not cut off and not seen yet is
      marked and pushed, in list order. */
  method Push(g: Graph, ignored: seq<(string, string)>, node: string, stack: seq<string>, visited: set<string>)
    returns (stack': seq<string>, visited': set<string>)
    requires node in g
    requires DistinctNodes(stack) && forall i :: 0 <= i < |stack| ==> stack[i] in visited
    ensures forall v :: v in visited' <==> v in visited || Step(g, ignored, node, v)
    ensures forall v :: v in stack' <==> v in stack || (v in visited' && v !in visited)
    ensures DistinctNodes(stack') && forall i :: 0 <= i < |stack'| ==> stack'[i] in visited'
  {
    stack', visited' := stack, visited;
    var next := g[node];
    var k := 0;
    while k < |next|
      invariant 0 <= k <= |next|
      invariant forall v :: v in visited' <==> v in visited || (v in next[..k] && (node, v) !in ignored)
      invariant forall v :: v in stack' <==> v in stack || (v in visited' && v !in visited)
      invariant DistinctNodes(stack') && forall i :: 0 <= i < |stack'| ==> stack'[i] in visited'
    {
      var v := next[k];
      if (node, v) !in ignored && v !in visited' {
        visited' := visited' + {v};
        stack' := stack' + [v];
      }
      assert next[..k + 1] == next[..k] + [v];
      k := k + 1;
    }
    assert next[..k] == next;
  }

  /** What the search keeps true: `done` are the popped nodes and the stack the pushed
      ones not popped yet, together the marked ones; every marked node is connected to
      `start`, and every wire from a popped node leads to a marked one. */
  ghost predicate Searching(g: Graph, ignored: seq<(string, string)>, start: string,
                            stack: seq<string>, visited: set<string>, done: set<string>) {
    && (forall v :: v in visited <==> v in done || v in stack)
    && (forall i :: 0 <= i < |stack| ==> stack[i] !in done && stack[i] in visited)
    && DistinctNodes(stack) && start in visited
    && (forall v :: v in visited ==> Reaches(g, ignored, start, v))
    && (forall u, v :: u in done && Step(g, ignored, u, v) ==> v in visited)
  }

  lemma SearchInit(g: Graph, ignored: seq<(string, string)>, start: string)
    ensures Searching(g, ignored, start, [start], {start}, {})
  {
    ReachesSelf(g, ignored, start);
  }

  /** Popping the top node and pushing its unmarked neighbours keeps the search's
      invariant, with the node now popped. */
  lemma SearchStep(g: Graph, ignored: seq<(string, string)>, start: string,
                   stack: seq<string>, visited: set<string>, done: set<string>,
                   stack': seq<string>, visited': set<string>)
    requires Searching(g, ignored, start, stack, visited, done) && stack != []
    requires var node := stack[|stack| - 1];
      && (forall v :: v in visited' <==> v in visited || Step(g, ignored, node, v))
      && (forall v :: v in stack' <==> v in stack[..|stack| - 1] || (v in visited' && v !in visited))
      && DistinctNodes(stack') && (forall i :: 0 <= i < |stack'| ==> stack'[i] in visited')
    ensures stack[|stack| - 1] !in done
    ensures Searching(g, ignored, start, stack', visited', done + {stack[|stack| - 1]})
  {
    var node := stack[|stack| - 1];
    var rest := stack[..|stack| - 1];
    assert node in stack && node in visited;
    forall v | v in visited'
      ensures Reaches(g, ignored, start, v)
    {
      if v !in visited {
        ReachesStep(g, ignored, start, node, v);
      }
    }
    forall v | v in stack'
      ensures v !in done + {node}
    {
      if v in rest {
        var i :| 0 <= i < |rest| && rest[i] == v;
        assert stack[i] == v;
      }
    }
    forall v
      ensures v in visited' <==> v in done + {node} || v in stack'
    {
      if v in stack {
        var i :| 0 <= i < |stack| && stack[i] == v;
        if i < |rest| {
          assert v in rest;
        }
      }
    }
  }

  /** The top of the stack is connected to `start` and not popped yet. */
  lemma SearchTop(g: Graph, ignored: seq<(string, string)>, start: string,
                  stack: seq<string>, visited: set<string>, done: set<string>)
    requires Searching(g, ignored, start, stack, visited, done) && stack != []
    ensures Reaches(g, ignored, start, stack[|stack| - 1]) && stack[|stack| - 1] !in done
    ensures var rest := stack[..|stack| - 1];
      DistinctNodes(rest) && forall i :: 0 <= i < |rest| ==> rest[i] in visited
  {
    assert stack[|stack| - 1] in visited;
  }

  /** When the stack is empty the popped nodes are exactly the part connected to
      `start`, provided they are all keys. */
  lemma SearchDone(g: Graph, ignored: seq<(string, string)>, start: string, visited: set<string>, done: set<string>)
    requires Searching(g, ignored, start, [], visited, done) && done <= g.Keys
    ensures forall v :: Reaches(g, ignored, start, v) ==> v in g
    ensures Component(g, ignored, start) == done && |done| <= |g|
  {
    assert visited == done;
    forall v | Reaches(g, ignored, start, v)
      ensures v in done
    {
      var p :| Path(g, ignored, p) && p[0] == start && p[|p| - 1] == v;
      ClosedHoldsPath(g, ignored, done, p);
    }
    SubsetCard(done, g.Keys);
  }

  /** `part1`: a depth-first search from `first` that does not follow the cut wires,
      counting the nodes it pops. `first` is the key `g.keys().next()` yields: one of
      the keys, which one being up to the hash map, and `None` for an empty graph, where
      `unwrap` panics. The answer is the size of the part connected to the start times
      the number of the other keys. Looking up a node that is not a key panics, which
      happens exactly when such a node is connected to the start. */
  method Part1(g: Graph, ignored: seq<(string, string)>, first: Option<string>) returns (r: Result<nat>)
    requires first.None? <==> |g| == 0
    requires first.Some? ==> first.value in g
    ensures first.None? ==> r.Err?
    ensures first.Some? ==> (r.Ok? <==> forall v :: Reaches(g, ignored, first.value, v) ==> v in g)
    ensures first.Some? && r.Ok? ==>
      r.value == |Component(g, ignored, first.value)| * (|g| - |Component(g, ignored, first.value)|)
  {
    hide Searching, Reaches, Component, Step, DistinctNodes;
    if first.None? {
      return Err;
    }
    var start := first.value;
    var cnt: nat := 0;
    var visited := {start};
    var stack := [start];
    ghost var done: set<string> := {};
    SearchInit(g, ignored, start);
    while stack != []
      invariant done <= g.Keys && cnt == |done|
      invariant Searching(g, ignored, start, stack, visited, done)
      decreases |g.Keys - done|
    {
      var node := stack[|stack| - 1];
      ghost var before, marked := stack, visited;
      stack := stack[..|stack| - 1];
      cnt := cnt + 1;
      SearchTop(g, ignored, start, before, marked, done);
      if node !in g {
        return Err;
      }
      stack, visited := Push(g, ignored, node, stack, visited);
      SearchStep(g, ignored, start, before, marked, done, stack, visited);
      assert g.Keys - done == (g.Keys - (done + {node})) + {node};
      done := done + {node};
    }
    SearchDone(g, ignored, start, visited, done);
    var rest: nat := |g| - cnt;
    r := Ok(cnt * rest);
  }

  // ---------------------------------------------------------------------------------
  // `graphviz`

  /** `str::replace`: the occurrences of `pat` found scanning left to right, without
      overlap, each replaced by `rep`. */
  function ReplaceAll(s: string, pat: string, rep: string): string
    requires pat != []
    decreases |s|
  {
    if s == [] then []
    else if StartsWith(s, pat) then rep + ReplaceAll(s[|pat|..], pat, rep)
    else [s[0]] + ReplaceAll(s[1..], pat, rep)
  }

  /** Text without the pattern's first character is left as it is. */
  lemma {:induction false} ReplaceAllAbsent(s: string, pat: string, rep: string)
    requires pat != [] && pat[0] !in s
    ensures ReplaceAll(s, pat, rep) == s
    decreases |s|
  {
    if s != [] {
      assert !StartsWith(s, pat) by {
        if |pat| <= |s| {
          assert s[..|pat|][0] == s[0];
        }
      }
      ReplaceAllAbsent(s[1..], pat, rep);
    }
  }

  /** The first occurrence is replaced when no earlier character could start one. */
  lemma {:induction false} ReplaceAllAfter(a: string, pat: string, rep: string, b: string)
    requires pat != [] && pat[0] !in a
    ensures ReplaceAll(a + pat + b, pat, rep) == a + rep + ReplaceAll(b, pat, rep)
    decreases |a|
  {
    var s := a + pat + b;
    if a == [] {
      assert s[..|pat|] == pat && s[|pat|..] == b;
    } else {
      assert !StartsWith(s, pat) by {
        assert s[..|pat|][0] == a[0];
      }
      assert s[1..] == a[1..] + pat + b;
      ReplaceAllAfter(a[1..], pat, rep, b);
      assert [a[0]] + a[1..] == a;
    }
  }

  /** One line of the drawing: a tab, the line with `": "` turned into `" -- {"`, and
      `"};"` with a newline. */
  function DotLine(line: string): string {
    "\t" + ReplaceAll(line, ": ", " -- {") + "};\n"
  }

  function DotLines(ls: seq<string>): string
    decreases |ls|
  {
    if ls == [] then "" else DotLine(ls[0]) + DotLines(ls[1..])
  }

  /** `graphviz`: the input drawn as an undirected Graphviz graph. */
  function Graphviz(input: string): string {
    "graph {" + DotLines(Lines(input)) + "}"
  }

  /** A line `u: rest` becomes the edge statement `u -- {rest};`. */
  lemma DotLineRendered(u: string, rest: string)
    requires ':' !in u && ':' !in rest
    ensures DotLine(u + ": " + rest) == "\t" + u + " -- {" + rest + "};\n"
  {
    hide ReplaceAll;
    assert ": "[0] == ':';
    ReplaceAllAfter(u, ": ", " -- {", rest);
    ReplaceAllAbsent(rest, ": ", " -- {");
  }

  /** The input lines `u: rest` for the given rows. */
  function InputLines(rows: seq<(string, string)>): (ls: seq<string>)
    ensures |ls| == |rows|
    ensures forall k :: 0 <= k < |rows| ==> ls[k] == rows[k].0 + ": " + rows[k].1
  {
    seq(|rows|, k requires 0 <= k < |rows| => rows[k].0 + ": " + rows[k].1)
  }

  /** The reference drawing of the rows: one statement `u -- {rest};` per row, in order. */
  function EdgeStatements(rows: seq<(string, string)>): string
    decreases |rows|
  {
    if rows == [] then "" else "\t" + rows[0].0 + " -- {" + rows[0].1 + "};\n" + EdgeStatements(rows[1..])
  }

  /** Lines `u: rest` whose parts hold no colon and no newline are drawn as the edge
      statements of the rows, in order, inside `graph { ... }`. */
  lemma GraphvizRendered(rows: seq<(string, string)>)
    requires |rows| >= 1
    requires forall k :: 0 <= k < |rows| ==> ':' !in rows[k].0 + rows[k].1 && '\n' !in rows[k].0 + rows[k].1
    ensures Graphviz(Join(InputLines(rows), "\n")) == "graph {" + EdgeStatements(rows) + "}"
  {
    hide ReplaceAll, DotLine, DotLines, EdgeStatements, Lines, Join, Split, InputLines;
    InputLinesShape(rows);
    LinesJoin(InputLines(rows));
    DotLinesRows(rows);
  }

  lemma InputLinesShape(rows: seq<(string, string)>)
    requires |rows| >= 1
    requires forall k :: 0 <= k < |rows| ==> '\n' !in rows[k].0 + rows[k].1
    ensures var ls := InputLines(rows);
      && |ls| >= 1 && |ls[|ls| - 1]| > 0
      && forall k :: 0 <= k < |ls| ==> '\n' !in ls[k]
  {
    var ls := InputLines(rows);
    forall k | 0 <= k < |ls|
      ensures '\n' !in ls[k]
    {
      var (u, rest) := rows[k];
      assert '\n' !in u + rest;
      assert forall c :: c in u ==> c in u + rest;
      assert forall c :: c in rest ==> c in u + rest;
      assert ls[k] == u + ": " + rest;
    }
  }

  lemma {:induction false} DotLinesRows(rows: seq<(string, string)>)
    requires forall k :: 0 <= k < |rows| ==> ':' !in rows[k].0 + rows[k].1
    ensures DotLines(InputLines(rows)) == EdgeStatements(rows)
    decreases |rows|
  {
    if rows != [] {
      var ls := InputLines(rows);
      assert ':' !in rows[0].0 + rows[0].1;
      assert ':' !in rows[0].0 && ':' !in rows[0].1 by {
        assert forall c :: c in rows[0].0 ==> c in rows[0].0 + rows[0].1;
        assert forall c :: c in rows[0].1 ==> c in rows[0].0 + rows[0].1;
      }
      DotLineRendered(rows[0].0, rows[0].1);
      assert ls[1..] == InputLines(rows[1..]);
      assert forall k :: 0 <= k < |rows[1..]| ==> rows[1..][k] == rows[k + 1];
      DotLinesRows(rows[1..]);
    }
  }
}

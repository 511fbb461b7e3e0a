/** Day 20: pulses travelling through a circuit of flip-flops and conjunctions. Each
    press of the button sends one low pulse to the broadcaster; pulses are delivered
    in the order they were sent, first in first out, until none is left. */
module Day20 {
  import opened Wrappers
  import opened Text

  datatype Pulse = Low | High

  /** `Neg for Pulse`: the other pulse. With two pulses only, the contract pins the
      result down and makes negation an involution. */
  function Neg(p: Pulse): (q: Pulse)
    ensures q != p
  {
    if p == Low then High else Low
  }

  /** A module's kind together with its state: a flip-flop remembers whether it is on
      (`High`), a conjunction the last pulse from each of its inputs, in input order. */
  datatype Kind = Broadcaster | FlipFlop(on: Pulse) | Conjunction(memory: seq<Pulse>) | Output

  datatype Module = Module(name: string, kind: Kind)

  /** `Module::from_str`: `broadcaster`, `%name` or `&name`. A conjunction starts with
      no memory; it is sized once the whole circuit is known. */
  function ParseModule(s: string): (r: Result<Module>)
    ensures r.Err? <==> s != "broadcaster" && (|s| == 0 || (s[0] != '%' && s[0] != '&'))
    ensures s == "broadcaster" ==> r == Ok(Module(s, Broadcaster))
    ensures r.Ok? && s != "broadcaster" ==> r.value.name == s[1..]
    ensures r.Ok? && s != "broadcaster" ==> (r.value.kind == FlipFlop(Low) <==> s[0] == '%')
    ensures r.Ok? && s != "broadcaster" ==> (r.value.kind == Conjunction([]) <==> s[0] == '&')
    ensures r.Ok? ==> Fresh(r.value)
  {
    if s == "broadcaster" then Ok(Module(s, Broadcaster))
    else if |s| == 0 then Err
    else if s[0] == '%' then Ok(Module(s[1..], FlipFlop(Low)))
    else if s[0] == '&' then Ok(Module(s[1..], Conjunction([])))
    else Err
  }

  /** A freshly parsed module: the broadcaster, an off flip-flop or an empty conjunction. */
  predicate Fresh(m: Module) {
    match m.kind
    case Broadcaster => m.name == "broadcaster"
    case FlipFlop(on) => on == Low
    case Conjunction(memory) => memory == []
    case Output => false
  }

  function RenderModule(m: Module): string {
    match m.kind
    case FlipFlop(_) => "%" + m.name
    case Conjunction(_) => "&" + m.name
    case _ => m.name
  }

  /** Every fresh module is read back from the way the input writes it. */
  lemma ParseModuleRendered(m: Module)
    requires Fresh(m)
    ensures ParseModule(RenderModule(m)) == Ok(m)
  {
    var s := RenderModule(m);
    if !m.kind.Broadcaster? {
      assert s[1..] == m.name && s[0] != "broadcaster"[0];
    }
  }

  /** `Module::handle_pulse`: the new state of the module and the pulse it emits, if
      any. Indexing a conjunction's memory out of range panics. */
  function HandlePulse(kind: Kind, source: nat, pulse: Pulse): (r: Result<(Kind, Option<Pulse>)>)
    ensures r.Err? <==> kind.Conjunction? && source >= |kind.memory|
    ensures kind.Broadcaster? ==> r == Ok((kind, Some(pulse)))
    ensures kind.Output? ==> r == Ok((kind, None))
    ensures kind.FlipFlop? && pulse == High ==> r == Ok((kind, None))
    ensures kind.FlipFlop? && pulse == Low ==> r == Ok((FlipFlop(Neg(kind.on)), Some(Neg(kind.on))))
    ensures kind.Conjunction? && r.Ok? ==>
              && r.value.0.Conjunction?
              && |r.value.0.memory| == |kind.memory|
              && r.value.0.memory[source] == pulse
              && (forall k :: 0 <= k < |kind.memory| && k != source ==> r.value.0.memory[k] == kind.memory[k])
              && r.value.1.Some?
              && (r.value.1.value == Low <==> forall k :: 0 <= k < |kind.memory| ==> r.value.0.memory[k] == High)
  {
    match kind
    case Broadcaster => Ok((kind, Some(pulse)))
    case FlipFlop(on) =>
      if pulse == Low then Ok((FlipFlop(Neg(on)), Some(Neg(on)))) else Ok((kind, None))
    case Conjunction(memory) =>
      if source >= |memory| then Err
      else
        var memory' := memory[source := pulse];
        Ok((Conjunction(memory'), Some(if AllHigh(memory') then Low else High)))
    case Output => Ok((kind, None))
  }

  predicate AllHigh(memory: seq<Pulse>) {
    forall k :: 0 <= k < |memory| ==> memory[k] == High
  }

  /** Two low pulses bring a flip-flop back to where it was, emitting first the other
      pulse and then its original state. */
  lemma FlipFlopTwoLows(on: Pulse)
    ensures var first := HandlePulse(FlipFlop(on), 0, Low);
            && first == Ok((FlipFlop(Neg(on)), Some(Neg(on))))
            && HandlePulse(first.value.0, 0, Low) == Ok((FlipFlop(on), Some(on)))
  {
    assert Neg(Neg(on)) == on;
  }

  /** A conjunction with a single input is an inverter. */
  lemma SingleInputInverts(before: Pulse, pulse: Pulse)
    ensures HandlePulse(Conjunction([before]), 0, pulse) == Ok((Conjunction([pulse]), Some(Neg(pulse))))
  {
    var r := HandlePulse(Conjunction([before]), 0, pulse);
    assert r.value.0.memory == [pulse];
    if pulse == High {
      assert AllHigh([pulse]);
    } else {
      assert !AllHigh([pulse]);
    }
  }

  // ---------------------------------------------------------------------------------
  // The circuit and one press of the button

  /** The modules by name, each module's targets in order, and each module's inputs in
      the order their lines appear (the position there is the conjunction slot). */
  datatype Circuit = Circuit(modules: map<string, Module>, outputs: map<string, seq<string>>, inputs: map<string, seq<string>>)

  datatype Message = Message(source: string, target: string, pulse: Pulse)

  /** The button's pulse; the broadcaster's single input is the empty name. */
  const Press := Message("", "broadcaster", Low)

  /** `Iterator::position`: the first index holding `x`. */
  function IndexOf(xs: seq<string>, x: string): (r: Option<nat>)
    ensures r.None? <==> x !in xs
    ensures r.Some? ==> r.value < |xs| && xs[r.value] == x && x !in xs[..r.value]
  {
    if |xs| == 0 then None
    else if xs[0] == x then Some(0)
    else match IndexOf(xs[1..], x)
      case None => None
      case Some(i) =>
        assert xs[..i + 1] == [xs[0]] + xs[1..][..i];
        Some(i + 1)
  }

  /** The pulse `p` from `source` to each of `targets`, in order. */
  function Sends(source: string, targets: seq<string>, p: Pulse): (ms: seq<Message>)
    ensures |ms| == |targets|
    ensures forall k :: 0 <= k < |ms| ==> ms[k] == Message(source, targets[k], p)
  {
    seq(|targets|, k requires 0 <= k < |targets| => Message(source, targets[k], p))
  }

  /** One turn of the loop in `Circuit::push_button`: the target module handles the
      pulse, its slot being the position of the sender among its inputs, and whatever it
      emits goes to each of its outputs. A target that is not a module, has no inputs
      entry or does not list the sender makes an `unwrap` panic. */
  function Deliver(c: Circuit, m: Message): (r: Result<(Circuit, seq<Message>)>)
    ensures r.Ok? ==> m.target in c.modules && m.target in c.inputs && m.source in c.inputs[m.target]
    ensures r.Ok? ==> r.value.0.outputs == c.outputs && r.value.0.inputs == c.inputs
    ensures r.Ok? ==> r.value.0.modules.Keys == c.modules.Keys
    ensures r.Ok? ==> forall n :: n in c.modules && n != m.target ==> r.value.0.modules[n] == c.modules[n]
    ensures r.Ok? ==> r.value.0.modules[m.target].name == c.modules[m.target].name
    ensures r.Ok? ==>
      var h := HandlePulse(c.modules[m.target].kind, IndexOf(c.inputs[m.target], m.source).value, m.pulse);
      && h.Ok? && r.value.0.modules[m.target].kind == h.value.0
      && (h.value.1.None? ==> r.value.1 == [])
      && (h.value.1.Some? ==> m.target in c.outputs && r.value.1 == Sends(m.target, c.outputs[m.target], h.value.1.value))
    ensures r.Ok? && |r.value.1| > 0 ==>
              m.target in c.outputs && |r.value.1| == |c.outputs[m.target]| &&
              forall k :: 0 <= k < |r.value.1| ==> r.value.1[k].source == m.target && r.value.1[k].target == c.outputs[m.target][k]
  {
    if m.target !in c.modules || m.target !in c.inputs then Err
    else match IndexOf(c.inputs[m.target], m.source)
      case None => Err
      case Some(slot) =>
        var receiver := c.modules[m.target];
        var handled :- HandlePulse(receiver.kind, slot, m.pulse);
        var c' := c.(modules := c.modules[m.target := receiver.(kind := handled.0)]);
        match handled.1
        case None => Ok((c', []))
        case Some(p) =>
          if m.target !in c.outputs then Err
          else Ok((c', Sends(m.target, c.outputs[m.target], p)))
  }

  /** Delivering the queue until it is empty, at most `fuel` deliveries; the result is
      the final circuit and every delivered message in delivery order. */
  function Process(c: Circuit, queue: seq<Message>, fuel: nat): (r: Result<(Circuit, seq<Message>)>)
    ensures r.Ok? ==> queue <= r.value.1
    decreases fuel
  {
    if |queue| == 0 then Ok((c, []))
    else if fuel == 0 then Err
    else
      var step :- Deliver(c, queue[0]);
      var rest :- Process(step.0, queue[1..] + step.1, fuel - 1);
      Ok((rest.0, [queue[0]] + rest.1))
  }

  /** The number of messages carrying pulse `p`. */
  function Count(log: seq<Message>, p: Pulse): (n: nat)
    ensures n <= |log|
  {
    if |log| == 0 then 0 else (if log[0].pulse == p then 1 else 0) + Count(log[1..], p)
  }

  lemma {:induction false} CountAppend(a: seq<Message>, b: seq<Message>, p: Pulse)
    ensures Count(a + b, p) == Count(a, p) + Count(b, p)
  {
    if |a| > 0 {
      assert (a + b)[0] == a[0] && (a + b)[1..] == a[1..] + b;
      CountAppend(a[1..], b, p);
    } else {
      assert a + b == b;
    }
  }

  /** Every delivered message is counted once, as low or as high. */
  lemma {:induction false} CountTotal(log: seq<Message>)
    ensures Count(log, Low) + Count(log, High) == |log|
  {
    if |log| > 0 {
      CountTotal(log[1..]);
    }
  }

  /** The pulses a press delivers, counted as `push_button` returns them. */
  function PressCounts(c: Circuit, fuel: nat): (r: Result<(Circuit, nat, nat)>)
    ensures r.Ok? <==> Process(c, [Press], fuel).Ok?
    ensures r.Ok? ==> r.value.1 >= 1 && r.value.1 + r.value.2 == |Process(c, [Press], fuel).value.1|
  {
    var run :- Process(c, [Press], fuel);
    CountTotal(run.1);
    assert run.1 == [Press] + run.1[1..];
    CountAppend([Press], run.1[1..], Low);
    Ok((run.0, Count(run.1, Low), Count(run.1, High)))
  }

  function Prefixed(log: seq<Message>, r: Result<(Circuit, seq<Message>)>): Result<(Circuit, seq<Message>)> {
    if r.Err? then Err else Ok((r.value.0, log + r.value.1))
  }

  lemma ProcessStep(c: Circuit, queue: seq<Message>, fuel: nat, log: seq<Message>)
    requires |queue| > 0 && fuel > 0 && Deliver(c, queue[0]).Ok?
    ensures var step := Deliver(c, queue[0]).value;
            Prefixed(log, Process(c, queue, fuel)) == Prefixed(log + [queue[0]], Process(step.0, queue[1..] + step.1, fuel - 1))
  {
    var step := Deliver(c, queue[0]).value;
    var rest := Process(step.0, queue[1..] + step.1, fuel - 1);
    if rest.Ok? {
      assert log + ([queue[0]] + rest.value.1) == (log + [queue[0]]) + rest.value.1;
    }
  }

  /** `Circuit::push_button`: the queue loop with its two counters, which agree with
      the pulses of the delivered messages. */
  method PushButton(c: Circuit, fuel: nat) returns (r: Result<(Circuit, nat, nat)>)
    ensures r == PressCounts(c, fuel)
  {
    hide Deliver;
    var current, queue, low, high, left := c, [Press], 0, 0, fuel;
    ghost var log: seq<Message> := [];
    assert Prefixed(log, Process(c, [Press], fuel)) == Process(c, [Press], fuel) by {
      if Process(c, [Press], fuel).Ok? {
        assert log + Process(c, [Press], fuel).value.1 == Process(c, [Press], fuel).value.1;
      }
    }
    while |queue| > 0
      invariant Process(c, [Press], fuel) == Prefixed(log, Process(current, queue, left))
      invariant low == Count(log, Low) && high == Count(log, High)
      decreases left
    {
      if left == 0 {
        return Err;
      }
      var m := queue[0];
      CountAppend(log, [m], Low);
      CountAppend(log, [m], High);
      if m.pulse == Low {
        low := low + 1;
      } else {
        high := high + 1;
      }
      var step := Deliver(current, m);
      if step.Err? {
        return Err;
      }
      ProcessStep(current, queue, left, log);
      log := log + [m];
      current, queue, left := step.value.0, queue[1..] + step.value.1, left - 1;
    }
    assert log + [] == log;
    return Ok((current, low, high));
  }

  /** `n` presses, adding up the pulse counts; each press has the same fuel. */
  function Presses(c: Circuit, n: nat, fuel: nat): (r: Result<(Circuit, nat, nat)>)
    ensures n == 0 ==> r == Ok((c, 0, 0))
    ensures r.Ok? ==> r.value.1 >= n
    decreases n
  {
    if n == 0 then Ok((c, 0, 0))
    else
      var first :- PressCounts(c, fuel);
      var rest :- Presses(first.0, n - 1, fuel);
      Ok((rest.0, first.1 + rest.1, first.2 + rest.2))
  }

  /** The counts `r` followed by `n` more presses from the circuit `r` leaves. */
  function After(r: Result<(Circuit, nat, nat)>, n: nat, fuel: nat): Result<(Circuit, nat, nat)> {
    if r.Err? then Err
    else
      var rest := Presses(r.value.0, n, fuel);
      if rest.Err? then Err else Ok((rest.value.0, r.value.1 + rest.value.1, r.value.2 + rest.value.2))
  }

  /** `m + n` presses are `m` presses followed by `n` more from the circuit they leave:
      the counts add up, and a panic in either run is a panic of the whole. */
  lemma {:induction false} PressesSplit(c: Circuit, m: nat, n: nat, fuel: nat)
    ensures Presses(c, m + n, fuel) == After(Presses(c, m, fuel), n, fuel)
    decreases m
  {
    hide *;
    if m > 0 {
      var first := PressCounts(c, fuel);
      if first.Ok? {
        PressesSplit(first.value.0, m - 1, n, fuel);
      }
      PressesSplitStep(c, m, n, fuel);
    } else {
      PressesSplitZero(c, n, fuel);
    }
  }

  lemma PressesSplitZero(c: Circuit, n: nat, fuel: nat)
    ensures Presses(c, 0 + n, fuel) == After(Presses(c, 0, fuel), n, fuel)
  {
    assert Presses(c, 0, fuel) == Ok((c, 0, 0));
    hide PressCounts, Process, Count, Presses;
    var rest := Presses(c, n, fuel);
    if rest.Ok? {
      assert rest == Ok((rest.value.0, 0 + rest.value.1, 0 + rest.value.2));
    }
  }

  /** The inductive step of `PressesSplit`: the split after the first press gives the
      split from the start. */
  lemma PressesSplitStep(c: Circuit, m: nat, n: nat, fuel: nat)
    requires m > 0
    requires PressCounts(c, fuel).Ok? ==>
      var c1 := PressCounts(c, fuel).value.0;
      Presses(c1, m - 1 + n, fuel) == After(Presses(c1, m - 1, fuel), n, fuel)
    ensures Presses(c, m + n, fuel) == After(Presses(c, m, fuel), n, fuel)
  {
    hide PressCounts, Process, Count, Presses;
    var first := PressCounts(c, fuel);
    PressesStep(c, m, fuel);
    PressesStep(c, m + n, fuel);
    assert m + n - 1 == (m - 1) + n;
    if first.Ok? {
      var c1 := first.value.0;
      var a := Presses(c1, m - 1, fuel);
      if a.Ok? {
        var rest := Presses(a.value.0, n, fuel);
        assert Presses(c, m, fuel) == Ok((a.value.0, first.value.1 + a.value.1, first.value.2 + a.value.2));
        if rest.Ok? {
          assert Presses(c1, m - 1 + n, fuel) == Ok((rest.value.0, a.value.1 + rest.value.1, a.value.2 + rest.value.2));
        }
      }
    }
  }

  /** A positive number of presses is one press and then the rest. */
  lemma PressesStep(c: Circuit, k: nat, fuel: nat)
    requires k > 0
    ensures Presses(c, k, fuel) == After(PressCounts(c, fuel), k - 1, fuel)
  {
    hide PressCounts, Process, Count;
    var first := PressCounts(c, fuel);
    if first.Ok? {
      var rest := Presses(first.value.0, k - 1, fuel);
      if rest.Ok? {
        assert Presses(c, k, fuel) == Ok((rest.value.0, first.value.1 + rest.value.1, first.value.2 + rest.value.2));
      }
    }
  }

  /** One press is `push_button` once. */
  lemma PressesOne(c: Circuit, fuel: nat)
    ensures Presses(c, 1, fuel) == PressCounts(c, fuel)
  {
    hide PressCounts;
  }

  /** A press that leaves the circuit as it found it repeats itself: `n` presses count
      `n` times as many pulses. */
  lemma {:induction false} PressesPeriodic(c: Circuit, n: nat, fuel: nat, low: nat, high: nat)
    requires PressCounts(c, fuel) == Ok((c, low, high))
    ensures Presses(c, n, fuel) == Ok((c, n * low, n * high))
  {
    if n > 0 {
      PressesPeriodic(c, n - 1, fuel, low, high);
      assert low + (n - 1) * low == n * low;
      assert high + (n - 1) * high == n * high;
    }
  }

  /** `part1`: a thousand presses, the low count times the high count. */
  function Part1(c: Circuit, fuel: nat): (r: Result<nat>)
    ensures r.Ok? <==> Presses(c, 1000, fuel).Ok?
    ensures r.Ok? ==> r.value == Presses(c, 1000, fuel).value.1 * Presses(c, 1000, fuel).value.2
    ensures r.Ok? ==> r.value >= 1000 * Presses(c, 1000, fuel).value.2
  {
    PulseProduct(c, 1000, fuel)
  }

  /** When a press leaves the circuit as it found it, part one is a thousand times the
      low count of one press times a thousand times its high count. */
  lemma Part1Periodic(c: Circuit, fuel: nat, low: nat, high: nat)
    requires PressCounts(c, fuel) == Ok((c, low, high))
    ensures Part1(c, fuel) == Ok((1000 * low) * (1000 * high))
  {
    hide PressCounts, Process, Count, Presses;
    PressesPeriodic(c, 1000, fuel, low, high);
  }

  /** The low count times the high count after `n` presses. */
  function PulseProduct(c: Circuit, n: nat, fuel: nat): (r: Result<nat>)
    ensures r.Ok? <==> Presses(c, n, fuel).Ok?
    ensures r.Ok? ==> r.value >= n * Presses(c, n, fuel).value.2
  {
    var t :- Presses(c, n, fuel);
    assert n * t.2 <= t.1 * t.2;
    Ok(t.1 * t.2)
  }

  // ---------------------------------------------------------------------------------
  // Parsing

  /** `output` and `rx` are known output modules, and the broadcaster's only input is
      the button. */
  const Initial := Circuit(
    map["output" := Module("output", Output), "rx" := Module("rx", Output)],
    map[],
    map["broadcaster" := [""]])

  /** A line `module -> t1, t2, ...`. */
  function ParseLine(line: string): (r: Result<(Module, seq<string>)>)
    ensures r.Ok? ==> |r.value.1| >= 1 && Fresh(r.value.0)
  {
    match SplitOnce(line, " -> ")
    case None => Err
    case Some((source, targets)) =>
      var m :- ParseModule(source);
      Ok((m, Split(targets, ", ")))
  }

  function ParseLines(lines: seq<string>): (r: Result<seq<(Module, seq<string>)>>)
    ensures r.Ok? <==> forall k :: 0 <= k < |lines| ==> ParseLine(lines[k]).Ok?
    ensures r.Ok? ==> |r.value| == |lines| && forall k :: 0 <= k < |lines| ==> Ok(r.value[k]) == ParseLine(lines[k])
  {
    if |lines| == 0 then Ok([])
    else match ParseLine(lines[0])
      case Err => Err
      case Ok(line) =>
        match ParseLines(lines[1..])
        case Err => Err
        case Ok(rest) => Ok([line] + rest)
  }

  /** `source` appended to the inputs of each target, in order. */
  function AddInputs(inputs: map<string, seq<string>>, source: string, targets: seq<string>): (r: map<string, seq<string>>)
    ensures inputs.Keys <= r.Keys
    ensures forall n :: n in inputs ==> inputs[n] <= r[n]
    ensures forall k :: 0 <= k < |targets| ==> targets[k] in r && source in r[targets[k]]
    ensures forall n :: n in r && n !in inputs ==> n in targets
    decreases |targets|
  {
    if |targets| == 0 then inputs
    else
      var t := targets[0];
      var r := AddInputs(inputs[t := (if t in inputs then inputs[t] else []) + [source]], source, targets[1..]);
      assert forall k :: 1 <= k < |targets| ==> targets[k] == targets[1..][k - 1];
      assert forall n :: n in targets[1..] ==> n in targets;
      assert source in r[t] by {
        var before := (if t in inputs then inputs[t] else []) + [source];
        assert before <= r[t] && before[|before| - 1] == source;
        assert r[t][|before| - 1] == source;
      }
      r
  }

  /** The circuit after one line: its module replaces any module of the same name, its
      targets become its outputs, and it is added to the inputs of each target. */
  function AddLine(c: Circuit, line: (Module, seq<string>)): Circuit {
    Circuit(c.modules[line.0.name := line.0], c.outputs[line.0.name := line.1], AddInputs(c.inputs, line.0.name, line.1))
  }

  /** The loop over the lines in `Circuit::from_str`. */
  function Wire(c: Circuit, lines: seq<(Module, seq<string>)>): (r: Circuit)
    ensures c.modules.Keys <= r.modules.Keys && c.inputs.Keys <= r.inputs.Keys
    ensures forall n :: n in c.inputs ==> c.inputs[n] <= r.inputs[n]
    decreases |lines|
  {
    if |lines| == 0 then c else Wire(AddLine(c, lines[0]), lines[1..])
  }

  predicate NamesAgree(c: Circuit) {
    forall n :: n in c.modules ==> c.modules[n].name == n
  }

  /** Every module in a wired circuit is fresh apart from the output modules. */
  predicate FreshModules(c: Circuit) {
    forall n :: n in c.modules ==> c.modules[n].kind.Output? || Fresh(c.modules[n])
  }

  /** Wiring keeps each module under its own name, and keeps modules fresh. */
  lemma {:induction false} WireKeeps(c: Circuit, lines: seq<(Module, seq<string>)>)
    requires forall k :: 0 <= k < |lines| ==> Fresh(lines[k].0)
    ensures NamesAgree(c) ==> NamesAgree(Wire(c, lines))
    ensures FreshModules(c) ==> FreshModules(Wire(c, lines))
    decreases |lines|
  {
    if |lines| > 0 {
      assert forall k :: 1 <= k < |lines| ==> lines[k] == lines[1..][k - 1];
      WireKeeps(AddLine(c, lines[0]), lines[1..]);
    }
  }

  /** Every wire of every line is recorded: the line's module is among the inputs of
      each of its targets. */
  lemma {:induction false} WireRecordsInputs(c: Circuit, lines: seq<(Module, seq<string>)>, k: nat, j: nat)
    requires k < |lines| && j < |lines[k].1|
    ensures lines[k].1[j] in Wire(c, lines).inputs
    ensures lines[k].0.name in Wire(c, lines).inputs[lines[k].1[j]]
    decreases |lines|
  {
    var next := AddLine(c, lines[0]);
    if k == 0 {
      var t := lines[0].1[j];
      assert t in next.inputs && lines[0].0.name in next.inputs[t];
      assert next.inputs[t] <= Wire(next, lines[1..]).inputs[t];
    } else {
      assert lines[k] == lines[1..][k - 1];
      WireRecordsInputs(next, lines[1..], k - 1, j);
    }
  }

  /** `n` low pulses. */
  function Lows(n: nat): (ps: seq<Pulse>)
    ensures |ps| == n && forall k :: 0 <= k < n ==> ps[k] == Low
  {
    seq(n, _ => Low)
  }

  /** The second loop of `Circuit::from_str`: each conjunction gets one low pulse of
      memory per input. A conjunction that is nobody's target has no inputs entry and
      makes the `unwrap` panic. */
  function InitConjunctions(c: Circuit): (r: Result<Circuit>)
    ensures r.Err? <==> exists n :: n in c.modules && c.modules[n].kind.Conjunction? && n !in c.inputs
    ensures r.Ok? ==> r.value.outputs == c.outputs && r.value.inputs == c.inputs && r.value.modules.Keys == c.modules.Keys
    ensures r.Ok? ==> forall n :: n in c.modules && !c.modules[n].kind.Conjunction? ==> r.value.modules[n] == c.modules[n]
    ensures r.Ok? ==> forall n :: n in c.modules && c.modules[n].kind.Conjunction? ==>
              r.value.modules[n] == c.modules[n].(kind := Conjunction(c.modules[n].kind.memory + Lows(|c.inputs[n]|)))
  {
    if exists n :: n in c.modules && c.modules[n].kind.Conjunction? && n !in c.inputs then Err
    else
      Ok(c.(modules := map n | n in c.modules ::
        if c.modules[n].kind.Conjunction?
        then c.modules[n].(kind := Conjunction(c.modules[n].kind.memory + Lows(|c.inputs[n]|)))
        else c.modules[n]))
  }

  /** The circuit the parsed lines describe. */
  function Assemble(lines: seq<(Module, seq<string>)>): Result<Circuit> {
    InitConjunctions(Wire(Initial, lines))
  }

  /** `Circuit::from_str`. */
  function ParseCircuit(input: string): (r: Result<Circuit>)
    ensures r.Ok? ==> ParseLines(Lines(input)).Ok? && r == Assemble(ParseLines(Lines(input)).value)
  {
    var lines :- ParseLines(Lines(input));
    Assemble(lines)
  }

  /** Every parsed line holds a fresh module. */
  lemma ParsedLinesFresh(ls: seq<string>)
    requires ParseLines(ls).Ok?
    ensures forall k :: 0 <= k < |ls| ==> Fresh(ParseLines(ls).value[k].0)
  {
    var lines := ParseLines(ls).value;
    forall k | 0 <= k < |lines| ensures Fresh(lines[k].0) {
      assert Ok(lines[k]) == ParseLine(ls[k]);
    }
  }

  /** An assembled circuit keeps every module under its own name, knows `output` and
      `rx`, and lists the button as the broadcaster's first input. */
  lemma AssembleShape(lines: seq<(Module, seq<string>)>)
    requires forall k :: 0 <= k < |lines| ==> Fresh(lines[k].0)
    requires Assemble(lines).Ok?
    ensures NamesAgree(Assemble(lines).value)
    ensures "output" in Assemble(lines).value.modules && "rx" in Assemble(lines).value.modules
    ensures "broadcaster" in Assemble(lines).value.inputs && Assemble(lines).value.inputs["broadcaster"][0] == ""
  {
    WireKeeps(Initial, lines);
    var wired := Wire(Initial, lines);
    assert [""] <= wired.inputs["broadcaster"];
  }

  /** Conjunction memory starts as one low pulse per input of that conjunction. */
  lemma AssembleConjunctions(lines: seq<(Module, seq<string>)>, n: string)
    requires forall k :: 0 <= k < |lines| ==> Fresh(lines[k].0)
    requires Assemble(lines).Ok?
    requires n in Assemble(lines).value.modules && Assemble(lines).value.modules[n].kind.Conjunction?
    ensures n in Assemble(lines).value.inputs
    ensures Assemble(lines).value.modules[n].kind.memory == Lows(|Assemble(lines).value.inputs[n]|)
  {
    WireKeeps(Initial, lines);
    var wired := Wire(Initial, lines);
    assert wired.modules[n].kind.memory == [];
    assert [] + Lows(|wired.inputs[n]|) == Lows(|wired.inputs[n]|);
  }

  /** Each line's module is an input of each of its targets in the assembled circuit. */
  lemma AssembleInputs(lines: seq<(Module, seq<string>)>, k: nat, j: nat)
    requires Assemble(lines).Ok? && k < |lines| && j < |lines[k].1|
    ensures lines[k].1[j] in Assemble(lines).value.inputs
    ensures lines[k].0.name in Assemble(lines).value.inputs[lines[k].1[j]]
  {
    WireRecordsInputs(Initial, lines, k, j);
  }

  /** A line that can be written and read back: a fresh module whose name has no space
      or newline, and at least one target, none holding a comma or a newline. */
  predicate Writable(line: (Module, seq<string>)) {
    && Fresh(line.0) && ' ' !in line.0.name && '\n' !in line.0.name && |line.1| >= 1
    && forall j :: 0 <= j < |line.1| ==> ',' !in line.1[j] && '\n' !in line.1[j]
  }

  /** A line as the puzzle writes it, `module -> t1, t2, ...`. */
  function RenderLine(line: (Module, seq<string>)): string
    requires Writable(line)
  {
    RenderModule(line.0) + " -> " + Join(line.1, ", ")
  }

  /** A written line reads back as its module and targets. */
  lemma ParseLineRendered(line: (Module, seq<string>))
    requires Writable(line)
    ensures ParseLine(RenderLine(line)) == Ok(line)
  {
    var (m, targets) := line;
    var source := RenderModule(m);
    assert ' ' !in source;
    SeparatorAbsent(source, " -> ");
    SplitOnceAt(source, " -> ", Join(targets, ", "));
    ParseModuleRendered(m);
    forall k | 0 <= k < |targets| ensures !Contains(targets[k] + ", "[..1], ", ") {
      SeparatorAbsent(targets[k], ", ");
    }
    SplitJoin(targets, ", ");
  }

  lemma LineAvoidsNewline(line: (Module, seq<string>))
    requires Writable(line)
    ensures |RenderLine(line)| > 0 && '\n' !in RenderLine(line)
  {
    JoinAvoids(line.1, ", ", '\n');
  }

  /** Every line written out, one per text line. */
  function RenderLines(lines: seq<(Module, seq<string>)>): (texts: seq<string>)
    requires forall k :: 0 <= k < |lines| ==> Writable(lines[k])
    ensures |texts| == |lines|
    ensures forall k :: 0 <= k < |lines| ==> texts[k] == RenderLine(lines[k])
  {
    seq(|lines|, k requires 0 <= k < |lines| => RenderLine(lines[k]))
  }

  /** Written lines read back as themselves. */
  lemma ParseLinesRendered(lines: seq<(Module, seq<string>)>)
    requires forall k :: 0 <= k < |lines| ==> Writable(lines[k])
    ensures ParseLines(RenderLines(lines)) == Ok(lines)
  {
    var texts := RenderLines(lines);
    forall k | 0 <= k < |lines| ensures ParseLine(texts[k]) == Ok(lines[k]) {
      ParseLineRendered(lines[k]);
    }
    var r := ParseLines(texts);
    assert r.Ok? && |r.value| == |lines|;
    assert forall k :: 0 <= k < |lines| ==> r.value[k] == lines[k];
    assert r.value == lines;
  }

  /** A circuit written one line per module reads back as the circuit those lines
      assemble into. */
  lemma ParseCircuitRendered(lines: seq<(Module, seq<string>)>)
    requires |lines| >= 1 && forall k :: 0 <= k < |lines| ==> Writable(lines[k])
    ensures ParseCircuit(Join(RenderLines(lines), "\n")) == Assemble(lines)
  {
    var texts := RenderLines(lines);
    forall k | 0 <= k < |lines| ensures |texts[k]| > 0 && '\n' !in texts[k] {
      LineAvoidsNewline(lines[k]);
    }
    LinesJoin(texts);
    ParseLinesRendered(lines);
  }
}

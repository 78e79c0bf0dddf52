/** Runs of several hybrid logical clocks: physical reads and locked sections of many goroutines
    interleave, timestamps travel between nodes, bounds are persisted, processes halt. */
module HlcRuns {
  import opened GoInts
  import opened Hlc

  /** What happened under a clock's lock, in lock order: a timestamp handed out by Now, or one
      taken in by Update from the event that handed it out. `after` is the clock's value then. */
  datatype Event =
    | Issued(node: nat, after: Timestamp)
    | Received(node: nat, after: Timestamp, source: nat)

  /** A goroutine between the unlocked and the locked part of a call. */
  datatype Op =
    | InNow(node: nat, reading: int64)
    | InChecked(node: nat, reading: int64, source: nat)
    | Persisting(node: nat, bound: int64)
    | Storing(node: nat, bound: int64)

  /** `top` is the largest reading this node has taken, `persisted` what persistFn last stored. */
  datatype Node = Node(clock: State, maxOffset: int64, top: int64, persisted: int64)

  datatype World = World(nodes: seq<Node>, ops: map<nat, Op>, events: seq<Event>, top: int64)

  datatype Step =
    | ReadForNow(op: nat, node: nat, reading: int64)
    | LockForNow(op: nat)
    | Receive(node: nat, source: nat)
    | ReadForChecked(op: nat, node: nat, reading: int64, source: nat)
    | LockForChecked(op: nat)
    | LockForRefresh(op: nat, delta: int64)
    | StartReset(op: nat, node: nat)
    | Persist(op: nat, persistOk: bool)
    | Store(op: nat)
    | Crash(node: nat)

  // ------------------------------------------------- steps

  predicate Alive(w: World, n: nat) {
    n < |w.nodes| && !w.nodes[n].clock.halted
  }

  predicate Sent(w: World, source: nat) {
    source < |w.events| && w.events[source].Issued?
  }

  function Larger(a: int64, b: int64): int64 {
    if a < b then b else a
  }

  function Saw(w: World, n: nat, reading: int64): World
    requires n < |w.nodes|
  {
    w.(nodes := w.nodes[n := w.nodes[n].(top := Larger(w.nodes[n].top, reading))], top := Larger(w.top, reading))
  }

  function WithClock(w: World, n: nat, c: State): World
    requires n < |w.nodes|
  {
    w.(nodes := w.nodes[n := w.nodes[n].(clock := c)])
  }

  /** The locked part of Now: an event unless the process halts. */
  function Ticked(w: World, n: nat, reading: int64): World
    requires n < |w.nodes|
  {
    var c := Settled(Tick(w.nodes[n].clock.ts, reading), w.nodes[n].clock.bound);
    var w' := WithClock(w, n, c);
    if c.halted then w' else w'.(events := w.events + [Issued(n, c.ts)])
  }

  /** Update with a timestamp that is at least the one of event `source`. */
  function Updated(w: World, n: nat, rt: Timestamp, source: nat): World
    requires n < |w.nodes|
  {
    var c := Settled(Max(w.nodes[n].clock.ts, rt), w.nodes[n].clock.bound);
    var w' := WithClock(w, n, c);
    if c.halted then w' else w'.(events := w.events + [Received(n, c.ts, source)])
  }

  function Ended(w: World, op: nat): World {
    w.(ops := w.ops - {op})
  }

  /** One step; a step that is not possible changes nothing. */
  function Next(w: World, s: Step): World {
    match s
    case ReadForNow(op, n, reading) =>
      if !Alive(w, n) || op in w.ops then w
      else var w' := Saw(w, n, reading); w'.(ops := w'.ops[op := InNow(n, reading)])
    case LockForNow(op) =>
      if op !in w.ops || !w.ops[op].InNow? || !Alive(w, w.ops[op].node) then w
      else Ended(Ticked(w, w.ops[op].node, w.ops[op].reading), op)
    case Receive(n, source) =>
      if !Alive(w, n) || !Sent(w, source) then w
      else Updated(w, n, w.events[source].after, source)
    case ReadForChecked(op, n, reading, source) =>
      if !Alive(w, n) || op in w.ops || !Sent(w, source) then w
      else var w' := Saw(w, n, reading); w'.(ops := w'.ops[op := InChecked(n, reading, source)])
    case LockForChecked(op) =>
      if op !in w.ops || !w.ops[op].InChecked? || !Alive(w, w.ops[op].node) || !Sent(w, w.ops[op].source) then w
      else
        var o := w.ops[op];
        var rt := w.events[o.source].after;
        if !Trusted(rt, o.reading, w.nodes[o.node].maxOffset) then Ended(w, op)
        else Ended(Updated(w, o.node, Trusting(rt, o.reading), o.source), op)
    case LockForRefresh(op, delta) =>
      if op !in w.ops || !w.ops[op].InNow? || !Alive(w, w.ops[op].node) || delta < 0 then w
      else
        var n := w.ops[op].node;
        var w' := Ticked(w, n, w.ops[op].reading);
        if w'.nodes[n].clock.halted then Ended(w', op)
        else w'.(ops := w'.ops[op := Persisting(n, ToInt64(w'.nodes[n].clock.ts.wall + delta))])
    case StartReset(op, n) =>
      if !Alive(w, n) || op in w.ops then w else w.(ops := w.ops[op := Persisting(n, 0)])
    case Persist(op, persistOk) =>
      if op !in w.ops || !w.ops[op].Persisting? || !Alive(w, w.ops[op].node) then w
      else if !persistOk then Ended(w, op)
      else
        var n, bound := w.ops[op].node, w.ops[op].bound;
        w.(nodes := w.nodes[n := w.nodes[n].(persisted := bound)], ops := w.ops[op := Storing(n, bound)])
    case Store(op) =>
      if op !in w.ops || !w.ops[op].Storing? || !Alive(w, w.ops[op].node) then w
      else
        var n := w.ops[op].node;
        Ended(WithClock(w, n, w.nodes[n].clock.(bound := w.ops[op].bound)), op)
    case Crash(n) =>
      if !Alive(w, n) then w else WithClock(w, n, w.nodes[n].clock.(halted := true))
  }

  function Run(w: World, steps: seq<Step>): World {
    if steps == [] then w else Next(Run(w, steps[..|steps| - 1]), steps[|steps| - 1])
  }

  /** Fresh clocks, no message under way. */
  predicate Initial(w: World) {
    && w.ops == map[] && w.events == [] && w.top == 0
    && forall n :: 0 <= n < |w.nodes| ==>
         w.nodes[n].clock == State(Timestamp(0, 0), 0, false) && w.nodes[n].top == 0 && w.nodes[n].persisted == 0
  }

  // ------------------------------------------------- undisturbed calls

  /** What a call leaves alone: other nodes, other calls, and all events but the one it may add. */
  ghost predicate OnlyAt(w: World, w': World, n: nat) {
    && |w'.nodes| == |w.nodes| && n < |w.nodes| && w'.ops == w.ops
    && (forall m :: 0 <= m < |w.nodes| && m != n ==> w'.nodes[m] == w.nodes[m])
    && w'.nodes[n].maxOffset == w.nodes[n].maxOffset
    && (w'.events == w.events || exists e :: w'.events == w.events + [e])
  }

  /** One step behind the other. */
  lemma RunTwo(w: World, a: Step, b: Step)
    ensures Run(w, [a, b]) == Next(Next(w, a), b)
  {
    hide Next;
    assert [a, b][..1] == [a] && [a][..0] == [];
    assert Run(w, [a]) == Next(Run(w, []), a);
  }

  lemma RunFour(w: World, a: Step, b: Step, c: Step, d: Step)
    ensures Run(w, [a, b, c, d]) == Next(Next(Next(Next(w, a), b), c), d)
  {
    hide Next;
    RunTwo(w, a, b);
    assert [a, b, c, d][..3] == [a, b, c] && [a, b, c][..2] == [a, b];
    assert Run(w, [a, b, c]) == Next(Run(w, [a, b]), c);
  }

  /** Now without interruption leaves the clock that its contract describes, and hands out its value
      unless the process has halted. */
  lemma NowRuns(w: World, op: nat, n: nat, reading: int64)
    requires Alive(w, n) && op !in w.ops
    ensures var w' := Run(w, [ReadForNow(op, n, reading), LockForNow(op)]);
            && OnlyAt(w, w', n)
            && w'.nodes[n].clock == Settled(Tick(w.nodes[n].clock.ts, reading), w.nodes[n].clock.bound)
            && w'.nodes[n].persisted == w.nodes[n].persisted
            && w'.events == if w'.nodes[n].clock.halted then w.events else w.events + [Issued(n, w'.nodes[n].clock.ts)]
  {
    RunTwo(w, ReadForNow(op, n, reading), LockForNow(op));
    DropAdded(w.ops, op, InNow(n, reading));
  }

  lemma DropAdded(ops: map<nat, Op>, op: nat, o: Op)
    requires op !in ops
    ensures ops[op := o] - {op} == ops
  {
  }

  /** Update with what another clock handed out. */
  lemma ReceiveRuns(w: World, n: nat, source: nat)
    requires Alive(w, n) && Sent(w, source)
    ensures var w' := Next(w, Receive(n, source));
            && OnlyAt(w, w', n)
            && w'.nodes[n].clock == Settled(Max(w.nodes[n].clock.ts, w.events[source].after), w.nodes[n].clock.bound)
            && w'.events == if w'.nodes[n].clock.halted then w.events else w.events + [Received(n, w'.nodes[n].clock.ts, source)]
  {
  }

  /** UpdateAndCheckMaxOffset: a refused timestamp leaves the clock as it was. */
  lemma CheckedRuns(w: World, op: nat, n: nat, reading: int64, source: nat)
    requires Alive(w, n) && op !in w.ops && Sent(w, source)
    ensures var w' := Run(w, [ReadForChecked(op, n, reading, source), LockForChecked(op)]);
            var rt := w.events[source].after;
            && OnlyAt(w, w', n)
            && if Trusted(rt, reading, w.nodes[n].maxOffset) then
                 && w'.nodes[n].clock == Settled(Max(w.nodes[n].clock.ts, Trusting(rt, reading)), w.nodes[n].clock.bound)
                 && w'.events == if w'.nodes[n].clock.halted then w.events else w.events + [Received(n, w'.nodes[n].clock.ts, source)]
               else w'.nodes[n].clock == w.nodes[n].clock && w'.events == w.events
  {
    hide Trusted, Trusting;
    RunTwo(w, ReadForChecked(op, n, reading, source), LockForChecked(op));
    DropAdded(w.ops, op, InChecked(n, reading, source));
  }

  /** RefreshHLCUpperBound: the new bound is persisted and then stored, unless the process halts at
      the tick or persisting fails. */
  lemma RefreshRuns(w: World, op: nat, n: nat, reading: int64, delta: int64, persistOk: bool)
    requires Alive(w, n) && op !in w.ops && delta >= 0
    ensures var w' := Run(w, [ReadForNow(op, n, reading), LockForRefresh(op, delta), Persist(op, persistOk), Store(op)]);
            var ticked := Settled(Tick(w.nodes[n].clock.ts, reading), w.nodes[n].clock.bound);
            && OnlyAt(w, w', n)
            && if ticked.halted || !persistOk then w'.nodes[n].clock == ticked && w'.nodes[n].persisted == w.nodes[n].persisted
               else var bound := ToInt64(ticked.ts.wall + delta);
                    w'.nodes[n].clock == ticked.(bound := bound) && w'.nodes[n].persisted == bound
  {
    hide Tick;
    RunFour(w, ReadForNow(op, n, reading), LockForRefresh(op, delta), Persist(op, persistOk), Store(op));
    DropAdded(w.ops, op, InNow(n, reading));
    var ticked := Settled(Tick(w.nodes[n].clock.ts, reading), w.nodes[n].clock.bound);
    DropReplaced(w.ops, op, InNow(n, reading), Persisting(n, ToInt64(ticked.ts.wall + delta)), Storing(n, ToInt64(ticked.ts.wall + delta)));
  }

  lemma DropReplaced(ops: map<nat, Op>, op: nat, a: Op, b: Op, c: Op)
    requires op !in ops
    ensures ops[op := a][op := b] - {op} == ops && ops[op := a][op := b][op := c] - {op} == ops
  {
  }

  /** ResetHLCUpperBound. */
  lemma ResetRuns(w: World, op: nat, n: nat, persistOk: bool)
    requires Alive(w, n) && op !in w.ops
    ensures var w' := Next(Next(Next(w, StartReset(op, n)), Persist(op, persistOk)), Store(op));
            && OnlyAt(w, w', n)
            && if persistOk then w'.nodes[n].clock == w.nodes[n].clock.(bound := 0) && w'.nodes[n].persisted == 0
               else w'.nodes[n] == w.nodes[n]
  {
    DropReplaced(w.ops, op, Persisting(n, 0), Persisting(n, 0), Storing(n, 0));
  }

  /** A crash ends a process without changing its clock or its bounds. */
  lemma CrashRuns(w: World, n: nat)
    requires Alive(w, n)
    ensures var w' := Next(w, Crash(n));
            OnlyAt(w, w', n) && w'.nodes[n] == w.nodes[n].(clock := w.nodes[n].clock.(halted := true)) && w'.events == w.events
  {
  }

  // ------------------------------------------------- causality

  /** The logical counter does not wrap in this step. */
  predicate NoWrap(w: World, s: Step) {
    match s
    case LockForNow(op) => op in w.ops && w.ops[op].InNow? ==> Advances(w, w.ops[op].node, w.ops[op].reading)
    case LockForRefresh(op, _) => op in w.ops && w.ops[op].InNow? ==> Advances(w, w.ops[op].node, w.ops[op].reading)
    case _ => true
  }

  predicate Advances(w: World, n: nat, reading: int64) {
    n < |w.nodes| ==> reading > w.nodes[n].clock.ts.wall || w.nodes[n].clock.ts.logical < MAX_INT32
  }

  ghost predicate NoWraps(w: World, steps: seq<Step>) {
    forall k :: 0 <= k < |steps| ==> NoWrap(Run(w, steps[..k]), steps[k])
  }

  /** Happened-before over the events in lock order: the order of one node, and from the event
      that handed a timestamp out to every event that took it in. */
  predicate Edge(es: seq<Event>, i: nat, j: nat) {
    i < j < |es| && (es[i].node == es[j].node || (es[j].Received? && es[j].source == i))
  }

  predicate HappenedBefore(es: seq<Event>, i: nat, j: nat)
    decreases j - i
  {
    i < j < |es| && (Edge(es, i, j) || exists m | i < m < j :: Edge(es, i, m) && HappenedBefore(es, m, j))
  }

  predicate Ordered(es: seq<Event>, i: nat, j: nat)
    requires i < |es| && j < |es|
  {
    LessEq(es[i].after, es[j].after) && (es[j].Issued? ==> Less(es[i].after, es[j].after))
  }

  ghost predicate Behind(w: World) {
    forall i :: 0 <= i < |w.events| ==>
      w.events[i].node < |w.nodes| && LessEq(w.events[i].after, w.nodes[w.events[i].node].clock.ts)
  }

  ghost predicate Causal(es: seq<Event>) {
    && (forall i, j :: 0 <= i < j < |es| && es[i].node == es[j].node ==> Ordered(es, i, j))
    && forall j :: 0 <= j < |es| && es[j].Received? ==> es[j].source < j && LessEq(es[es[j].source].after, es[j].after)
  }

  /** Clocks move from w to w' without going back, and at most one event is added. */
  ghost predicate Forward(w: World, w': World) {
    && |w'.nodes| == |w.nodes|
    && (forall n :: 0 <= n < |w.nodes| ==> LessEq(w.nodes[n].clock.ts, w'.nodes[n].clock.ts))
    && (w'.events == w.events || (|w'.events| > 0 && w'.events == w.events + [w'.events[|w'.events| - 1]] && Follows(w, w', w'.events[|w'.events| - 1])))
  }

  ghost predicate Follows(w: World, w': World, e: Event) {
    && |w'.nodes| == |w.nodes| && e.node < |w.nodes| && e.after == w'.nodes[e.node].clock.ts
    && (e.Issued? ==> Less(w.nodes[e.node].clock.ts, e.after))
    && (e.Received? ==> Sent(w, e.source) && LessEq(w.events[e.source].after, e.after))
  }

  lemma TickForward(w: World, n: nat, reading: int64)
    requires n < |w.nodes| && Advances(w, n, reading)
    ensures Forward(w, Ticked(w, n, reading))
  {
    TickAdvances(w.nodes[n].clock.ts, reading);
  }

  lemma UpdateForward(w: World, n: nat, rt: Timestamp, source: nat)
    requires n < |w.nodes| && Sent(w, source) && LessEq(w.events[source].after, rt)
    ensures Forward(w, Updated(w, n, rt, source))
  {
  }

  lemma TrustingAfter(rt: Timestamp, reading: int64)
    ensures LessEq(rt, Trusting(rt, reading))
  {
  }

  lemma NextForward(w: World, s: Step)
    requires NoWrap(w, s)
    ensures Forward(w, Next(w, s))
  {
    hide Ticked, Updated, Less, Trusted, Trusting;
    match s
    case LockForNow(op) =>
      if op in w.ops && w.ops[op].InNow? && Alive(w, w.ops[op].node) { TickForward(w, w.ops[op].node, w.ops[op].reading); }
    case LockForRefresh(op, _) =>
      if op in w.ops && w.ops[op].InNow? && Alive(w, w.ops[op].node) { TickForward(w, w.ops[op].node, w.ops[op].reading); }
    case Receive(n, source) =>
      if Alive(w, n) && Sent(w, source) { UpdateForward(w, n, w.events[source].after, source); }
    case LockForChecked(op) =>
      if op in w.ops && w.ops[op].InChecked? && Alive(w, w.ops[op].node) && Sent(w, w.ops[op].source) {
        var o := w.ops[op];
        TrustingAfter(w.events[o.source].after, o.reading);
        UpdateForward(w, o.node, Trusting(w.events[o.source].after, o.reading), o.source);
      }
    case _ =>
  }

  lemma ForwardKeeps(w: World, w': World)
    requires Forward(w, w') && Behind(w) && Causal(w.events)
    ensures Behind(w') && Causal(w'.events)
  {
    hide Less;
    LessFacts();
  }

  lemma LessFacts()
    ensures forall a, b, c :: LessEq(a, b) && LessEq(b, c) ==> LessEq(a, c)
    ensures forall a, b, c :: LessEq(a, b) && Less(b, c) ==> Less(a, c)
    ensures forall a, b :: Less(a, b) ==> LessEq(a, b)
  {
  }

  lemma {:induction false} RunCausal(w: World, steps: seq<Step>)
    requires Initial(w) && NoWraps(w, steps)
    ensures Behind(Run(w, steps)) && Causal(Run(w, steps).events)
    decreases |steps|
  {
    if steps != [] {
      var before := steps[..|steps| - 1];
      forall k | 0 <= k < |before| ensures NoWrap(Run(w, before[..k]), before[k]) { assert before[..k] == steps[..k]; }
      RunCausal(w, before);
      NextForward(Run(w, before), steps[|steps| - 1]);
      ForwardKeeps(Run(w, before), Run(w, steps));
    }
  }

  lemma {:induction false} ChainOrdered(es: seq<Event>, i: nat, j: nat)
    requires Causal(es) && HappenedBefore(es, i, j)
    ensures Ordered(es, i, j)
    decreases j - i
  {
    hide Causal, Ordered, Edge;
    if Edge(es, i, j) {
      EdgeOrdered(es, i, j);
    } else {
      var m :| i < m < j && Edge(es, i, m) && HappenedBefore(es, m, j);
      ChainOrdered(es, m, j);
      EdgeOrdered(es, i, m);
      OrderedChains(es, i, m, j);
    }
  }

  lemma EdgeOrdered(es: seq<Event>, i: nat, j: nat)
    requires Causal(es) && Edge(es, i, j)
    ensures Ordered(es, i, j)
  {
    hide Less;
  }

  lemma OrderedChains(es: seq<Event>, i: nat, m: nat, j: nat)
    requires i < |es| && m < |es| && j < |es| && Ordered(es, i, m) && Ordered(es, m, j)
    ensures Ordered(es, i, j)
  {
    hide Less;
    LessFacts();
  }

  /** In every run, whatever the readings, an event that happened before another has the smaller
      clock value, strictly if the later one handed out a timestamp. */
  lemma CausalOrder(w: World, steps: seq<Step>, i: nat, j: nat)
    requires Initial(w) && NoWraps(w, steps) && HappenedBefore(Run(w, steps).events, i, j)
    ensures Ordered(Run(w, steps).events, i, j)
  {
    RunCausal(w, steps);
    ChainOrdered(Run(w, steps).events, i, j);
  }

  // ------------------------------------------------- physical bound

  ghost predicate UnderTop(w: World) {
    && (forall n :: 0 <= n < |w.nodes| ==> w.nodes[n].clock.ts.wall <= w.top && w.nodes[n].top <= w.top)
    && (forall i :: 0 <= i < |w.events| ==> w.events[i].after.wall <= w.top)
    && forall op :: op in w.ops && (w.ops[op].InNow? || w.ops[op].InChecked?) ==> w.ops[op].reading <= w.top
  }

  lemma TickUnderTop(w: World, n: nat, reading: int64)
    requires UnderTop(w) && n < |w.nodes| && reading <= w.top
    ensures UnderTop(Ticked(w, n, reading))
  {
  }

  lemma UpdateUnderTop(w: World, n: nat, rt: Timestamp, source: nat)
    requires UnderTop(w) && n < |w.nodes| && rt.wall <= w.top
    ensures UnderTop(Updated(w, n, rt, source))
  {
  }

  lemma SawUnderTop(w: World, n: nat, reading: int64)
    requires UnderTop(w) && n < |w.nodes|
    ensures UnderTop(Saw(w, n, reading)) && reading <= Saw(w, n, reading).top
  {
  }

  lemma NextUnderTop(w: World, s: Step)
    requires UnderTop(w)
    ensures UnderTop(Next(w, s))
  {
    hide Ticked, Updated, Saw;
    match s
    case ReadForNow(_, n, reading) => if Alive(w, n) { SawUnderTop(w, n, reading); }
    case ReadForChecked(_, n, reading, _) => if Alive(w, n) { SawUnderTop(w, n, reading); }
    case LockForNow(op) =>
      if op in w.ops && w.ops[op].InNow? && Alive(w, w.ops[op].node) { TickUnderTop(w, w.ops[op].node, w.ops[op].reading); }
    case LockForRefresh(op, _) =>
      if op in w.ops && w.ops[op].InNow? && Alive(w, w.ops[op].node) { TickUnderTop(w, w.ops[op].node, w.ops[op].reading); }
    case Receive(n, source) =>
      if Alive(w, n) && Sent(w, source) { UpdateUnderTop(w, n, w.events[source].after, source); }
    case LockForChecked(op) =>
      if op in w.ops && w.ops[op].InChecked? && Alive(w, w.ops[op].node) && Sent(w, w.ops[op].source) {
        var o := w.ops[op];
        UpdateUnderTop(w, o.node, Trusting(w.events[o.source].after, o.reading), o.source);
      }
    case _ =>
  }

  /** No wall time, and no timestamp handed out, exceeds the largest physical reading so far. */
  lemma {:induction false} RunUnderTop(w: World, steps: seq<Step>)
    requires Initial(w)
    ensures UnderTop(Run(w, steps))
    decreases |steps|
  {
    if steps != [] {
      RunUnderTop(w, steps[..|steps| - 1]);
      NextUnderTop(Run(w, steps[..|steps| - 1]), steps[|steps| - 1]);
    }
  }

  // ------------------------------------------------- offset-checked clocks

  /** Node n takes no unchecked update in this step, and checks none against a time before 1970. */
  predicate CheckedStep(n: nat, s: Step) {
    match s
    case ReadForChecked(_, m, reading, _) => m == n ==> reading >= 0
    case Receive(m, _) => m != n
    case _ => true
  }

  ghost predicate WithinOffset(w: World, n: nat) {
    && n < |w.nodes| && w.nodes[n].maxOffset > 0 && w.nodes[n].top >= 0
    && w.nodes[n].clock.ts.wall <= w.nodes[n].top + w.nodes[n].maxOffset
    && (forall op :: op in w.ops && (w.ops[op].InNow? || w.ops[op].InChecked?) && w.ops[op].node == n ==>
         w.ops[op].reading <= w.nodes[n].top && (w.ops[op].InChecked? ==> w.ops[op].reading >= 0))
  }

  lemma TickWithin(w: World, n: nat, m: nat, reading: int64)
    requires WithinOffset(w, n) && m < |w.nodes| && (m == n ==> reading <= w.nodes[n].top)
    ensures WithinOffset(Ticked(w, m, reading), n) && |Ticked(w, m, reading).nodes| == |w.nodes|
  {
  }

  lemma UpdateWithin(w: World, n: nat, m: nat, rt: Timestamp, source: nat)
    requires WithinOffset(w, n) && m < |w.nodes| && (m == n ==> rt.wall <= w.nodes[n].top + w.nodes[n].maxOffset)
    ensures WithinOffset(Updated(w, m, rt, source), n)
  {
  }

  lemma SawWithin(w: World, n: nat, m: nat, reading: int64)
    requires WithinOffset(w, n) && m < |w.nodes|
    ensures WithinOffset(Saw(w, m, reading), n) && |Saw(w, m, reading).nodes| == |w.nodes|
    ensures m == n ==> reading <= Saw(w, m, reading).nodes[n].top
  {
  }

  lemma NextWithinOffset(w: World, n: nat, s: Step)
    requires WithinOffset(w, n) && CheckedStep(n, s)
    ensures WithinOffset(Next(w, s), n)
  {
    hide Ticked, Updated, Saw, Trusted, Trusting;
    match s
    case ReadForNow(_, m, reading) => if Alive(w, m) { SawWithin(w, n, m, reading); }
    case ReadForChecked(_, m, reading, _) => if Alive(w, m) { SawWithin(w, n, m, reading); }
    case LockForNow(op) =>
      if op in w.ops && w.ops[op].InNow? && Alive(w, w.ops[op].node) { TickWithin(w, n, w.ops[op].node, w.ops[op].reading); }
    case LockForRefresh(op, _) =>
      if op in w.ops && w.ops[op].InNow? && Alive(w, w.ops[op].node) { TickWithin(w, n, w.ops[op].node, w.ops[op].reading); }
    case Receive(m, source) =>
      if Alive(w, m) && Sent(w, source) { UpdateWithin(w, n, m, w.events[source].after, source); }
    case LockForChecked(op) =>
      if op in w.ops && w.ops[op].InChecked? && Alive(w, w.ops[op].node) && Sent(w, w.ops[op].source) {
        var o := w.ops[op];
        var rt := w.events[o.source].after;
        if Trusted(rt, o.reading, w.nodes[o.node].maxOffset) {
          if o.node == n {
            TrustedMeans(rt, o.reading, w.nodes[n].maxOffset);
            TrustingWithin(rt, o.reading, w.nodes[n].maxOffset);
          }
          UpdateWithin(w, n, o.node, Trusting(rt, o.reading), o.source);
        }
      }
    case _ =>
  }

  lemma TrustingWithin(rt: Timestamp, reading: int64, maxOffset: int64)
    requires maxOffset > 0 && rt.wall - reading <= maxOffset
    ensures Trusting(rt, reading).wall <= reading + maxOffset
  {
  }

  /** A clock that only takes offset-checked updates stays within the offset of its own readings. */
  lemma {:induction false} RunWithinOffset(w: World, steps: seq<Step>, n: nat)
    requires Initial(w) && n < |w.nodes| && w.nodes[n].maxOffset > 0
    requires forall k :: 0 <= k < |steps| ==> CheckedStep(n, steps[k])
    ensures WithinOffset(Run(w, steps), n)
    decreases |steps|
  {
    if steps != [] {
      RunWithinOffset(w, steps[..|steps| - 1], n);
      NextWithinOffset(Run(w, steps[..|steps| - 1]), n, steps[|steps| - 1]);
    }
  }

  // ------------------------------------------------- persisted bounds

  /** A refreshed bound covers the clock exactly when the sum does not overflow. */
  lemma RefreshCovers(t: Timestamp, delta: int64)
    requires Proper(t) && delta >= 0
    ensures t.wall <= ToInt64(t.wall + delta) <==> t.wall + delta <= MAX_INT64
  {
  }

  /** Every timestamp that left a clock is at or below the persisted bound of its node, unless
      that is 0. */
  ghost predicate Handed(w: World) {
    forall i :: 0 <= i < |w.events| ==>
      var e := w.events[i];
      e.node < |w.nodes| && (w.nodes[e.node].persisted != 0 ==> e.after.wall <= w.nodes[e.node].persisted)
  }

  /** A clock moving to this wall time stays under the persisted bound, or dies at the bound in
      memory. Nothing is asked while the two bounds are equal. */
  predicate Within(w: World, n: nat, wall: int64) {
    Alive(w, n) ==>
      var x := w.nodes[n];
      x.persisted == 0 || wall <= x.persisted || (x.clock.bound != 0 && wall > x.clock.bound)
  }

  /** What each step has to meet: no clock moves above a bound already persisted but not yet
      stored, and no bound is persisted below the clock. Storing asks nothing. */
  predicate Guarded(w: World, s: Step) {
    match s
    case LockForNow(op) => op in w.ops && w.ops[op].InNow? ==> Within(w, w.ops[op].node, w.ops[op].reading)
    case LockForRefresh(op, delta) =>
      delta >= 0 && op in w.ops && w.ops[op].InNow? ==> Within(w, w.ops[op].node, w.ops[op].reading)
    case Receive(n, source) => Sent(w, source) ==> Within(w, n, w.events[source].after.wall)
    case LockForChecked(op) =>
      op in w.ops && w.ops[op].InChecked? && Alive(w, w.ops[op].node) && Sent(w, w.ops[op].source) ==>
        var o := w.ops[op];
        var rt := w.events[o.source].after;
        Trusted(rt, o.reading, w.nodes[o.node].maxOffset) ==> Within(w, o.node, Larger(rt.wall, o.reading))
    case Persist(op, ok) =>
      ok && op in w.ops && w.ops[op].Persisting? && Alive(w, w.ops[op].node) ==>
        w.ops[op].bound == 0 || w.nodes[w.ops[op].node].clock.ts.wall <= w.ops[op].bound
    case _ => true
  }

  ghost predicate GuardedRun(w: World, steps: seq<Step>) {
    forall k :: 0 <= k < |steps| ==> Guarded(Run(w, steps[..k]), steps[k])
  }

  ghost predicate HandedThroughout(w: World, steps: seq<Step>) {
    forall k :: 0 <= k <= |steps| ==> Handed(Run(w, steps[..k]))
  }

  predicate At(w: World, i: nat, n: nat) {
    i < |w.events| && w.events[i].node == n
  }

  ghost predicate Seen(w: World, n: nat) {
    exists i: nat :: At(w, i, n)
  }

  /** A live clock that has moved shows the wall time of one of its events. */
  ghost predicate Shown(w: World, n: nat) {
    Alive(w, n) ==>
      var x := w.nodes[n];
      if Seen(w, n) then exists i: nat :: At(w, i, n) && w.events[i].after.wall == x.clock.ts.wall
      else x.clock.ts.wall == 0 && x.persisted == 0
  }

  predicate Pending(o: Op) {
    o.Persisting? || o.Storing?
  }

  ghost predicate Tracked(w: World) {
    && (forall i: nat, n: nat :: At(w, i, n) ==> n < |w.nodes| && w.events[i].after.wall <= w.nodes[n].clock.ts.wall)
    && (forall n :: 0 <= n < |w.nodes| ==> Shown(w, n))
    && forall op :: op in w.ops && Pending(w.ops[op]) && w.ops[op].bound != 0 ==> Seen(w, w.ops[op].node)
  }

  /** The clock of n moves to the state c: an event unless it halts. */
  ghost predicate Moves(w: World, w': World, n: nat, ts: Timestamp) {
    && Alive(w, n) && w.nodes[n].clock.ts.wall <= ts.wall
    && w'.ops == w.ops && w'.nodes == w.nodes[n := w.nodes[n].(clock := Settled(ts, w.nodes[n].clock.bound))]
    && if WithinBound(ts, w.nodes[n].clock.bound)
       then |w'.events| == |w.events| + 1 && w'.events[..|w.events|] == w.events
         && w'.events[|w.events|].node == n && w'.events[|w.events|].after == ts
       else w'.events == w.events
  }

  lemma MovesTracked(w: World, w': World, n: nat, ts: Timestamp)
    requires Tracked(w) && Moves(w, w', n, ts)
    ensures Tracked(w')
  {
    forall m | Seen(w, m) ensures Seen(w', m) {
      var i: nat :| At(w, i, m);
      assert At(w', i, m);
    }
    forall i: nat, m: nat | At(w', i, m) ensures m < |w'.nodes| && w'.events[i].after.wall <= w'.nodes[m].clock.ts.wall {
      if i < |w.events| { assert At(w, i, m); }
    }
    forall m | 0 <= m < |w'.nodes| ensures Shown(w', m) {
      if m == n { MovedShown(w, w', n, ts); } else { OtherShown(w, w', n, m, ts); }
    }
  }

  lemma MovedShown(w: World, w': World, n: nat, ts: Timestamp)
    requires Moves(w, w', n, ts)
    ensures Shown(w', n)
  {
    if WithinBound(ts, w.nodes[n].clock.bound) { assert At(w', |w.events|, n); }
  }

  lemma OtherShown(w: World, w': World, n: nat, m: nat, ts: Timestamp)
    requires Moves(w, w', n, ts) && Shown(w, m) && m != n
    ensures Shown(w', m)
  {
    assert forall i: nat :: At(w', i, m) <==> At(w, i, m);
  }

  /** Only the new event can break the bound, and only by the time that moved the clock. */
  lemma MovesExact(w: World, w': World, n: nat, ts: Timestamp, wall: int64)
    requires Tracked(w) && Handed(w) && Moves(w, w', n, ts)
    requires ts.wall == Larger(w.nodes[n].clock.ts.wall, wall)
    ensures Handed(w') <==> Within(w, n, wall)
  {
    var x := w.nodes[n];
    assert Shown(w, n);
    assert x.persisted != 0 ==> x.clock.ts.wall <= x.persisted;
    if WithinBound(ts, x.clock.bound) {
      var last := |w.events|;
      assert Handed(w') <==> (x.persisted != 0 ==> ts.wall <= x.persisted) by {
        forall i | 0 <= i < last ensures w'.events[i] == w.events[i] { assert w'.events[..last][i] == w.events[i]; }
      }
    }
  }

  lemma TickMoves(w: World, n: nat, reading: int64)
    requires Alive(w, n)
    ensures var ts := Tick(w.nodes[n].clock.ts, reading);
            Moves(w, Ticked(w, n, reading), n, ts) && ts.wall == Larger(w.nodes[n].clock.ts.wall, reading)
  {
  }

  lemma UpdateMoves(w: World, n: nat, rt: Timestamp, source: nat)
    requires Alive(w, n)
    ensures var ts := Max(w.nodes[n].clock.ts, rt);
            Moves(w, Updated(w, n, rt, source), n, ts) && ts.wall == Larger(w.nodes[n].clock.ts.wall, rt.wall)
  {
  }

  /** The pending calls and the largest readings may change freely, but a bound other than 0 needs
      an event of its node. */
  lemma OthersTracked(w: World, w': World)
    requires Tracked(w) && w'.events == w.events && |w'.nodes| == |w.nodes|
    requires forall n :: 0 <= n < |w.nodes| ==>
      && w'.nodes[n].clock.ts == w.nodes[n].clock.ts && (Alive(w', n) ==> Alive(w, n))
      && (w'.nodes[n].persisted == w.nodes[n].persisted || w'.nodes[n].persisted == 0 || Seen(w, n))
    requires forall op :: op in w'.ops && Pending(w'.ops[op]) && w'.ops[op].bound != 0 ==> Seen(w, w'.ops[op].node)
    ensures Tracked(w')
  {
    assert forall i: nat, n: nat :: At(w', i, n) <==> At(w, i, n);
    forall n | 0 <= n < |w'.nodes| ensures Shown(w', n) { assert Shown(w, n); }
  }

  lemma OthersHanded(w: World, w': World)
    requires w'.events == w.events && |w'.nodes| == |w.nodes|
    requires forall n :: 0 <= n < |w.nodes| ==> w'.nodes[n].persisted == w.nodes[n].persisted
    ensures Handed(w') <==> Handed(w)
  {
  }

  /** A persisted bound covers what was handed out exactly when it covers the clock. */
  lemma PersistExact(w: World, op: nat)
    requires Tracked(w) && Handed(w)
    requires op in w.ops && w.ops[op].Persisting? && Alive(w, w.ops[op].node)
    ensures Handed(Next(w, Persist(op, true))) <==> Guarded(w, Persist(op, true))
  {
    var n, bound := w.ops[op].node, w.ops[op].bound;
    assert Shown(w, n);
    var w' := Next(w, Persist(op, true));
    if bound != 0 && bound < w.nodes[n].clock.ts.wall {
      var i: nat :| At(w, i, n) && w.events[i].after.wall == w.nodes[n].clock.ts.wall;
      assert w'.events[i].after.wall > w'.nodes[n].persisted;
    } else {
      forall i | 0 <= i < |w.events| ensures w'.nodes[w.events[i].node].persisted != 0 ==>
        w.events[i].after.wall <= w'.nodes[w.events[i].node].persisted
      {
        assert At(w, i, w.events[i].node);
      }
    }
  }

  /** The step of a tick, before its call goes on or ends. */
  lemma TickExact(w: World, n: nat, reading: int64)
    requires Tracked(w) && Alive(w, n)
    ensures var w' := Ticked(w, n, reading);
            Tracked(w') && |w'.nodes| == |w.nodes| && (Handed(w) ==> (Handed(w') <==> Within(w, n, reading)))
            && (!w'.nodes[n].clock.halted ==> Seen(w', n))
  {
    hide Tracked, Handed, Within, Ticked;
    var w' := Ticked(w, n, reading);
    var ts := Tick(w.nodes[n].clock.ts, reading);
    TickMoves(w, n, reading);
    MovesTracked(w, w', n, ts);
    if Handed(w) { MovesExact(w, w', n, ts, reading); }
    if WithinBound(ts, w.nodes[n].clock.bound) { assert At(w', |w.events|, n); }
  }

  lemma UpdateExact(w: World, n: nat, rt: Timestamp, source: nat)
    requires Tracked(w) && Alive(w, n)
    ensures var w' := Updated(w, n, rt, source);
            Tracked(w') && |w'.nodes| == |w.nodes| && (Handed(w) ==> (Handed(w') <==> Within(w, n, rt.wall)))
  {
    hide Tracked, Handed, Within, Updated;
    var w' := Updated(w, n, rt, source);
    var ts := Max(w.nodes[n].clock.ts, rt);
    UpdateMoves(w, n, rt, source);
    MovesTracked(w, w', n, ts);
    if Handed(w) { MovesExact(w, w', n, ts, rt.wall); }
  }

  /** Dropping, keeping or adding calls. */
  lemma CallsExact(w: World, ops: map<nat, Op>)
    requires Tracked(w)
    requires forall op :: op in ops && Pending(ops[op]) && ops[op].bound != 0 ==> Seen(w, ops[op].node)
    ensures Tracked(w.(ops := ops)) && (Handed(w.(ops := ops)) <==> Handed(w))
  {
    OthersTracked(w, w.(ops := ops));
    OthersHanded(w, w.(ops := ops));
  }

  lemma EndedExact(w: World, op: nat)
    requires Tracked(w)
    ensures Tracked(Ended(w, op)) && (Handed(Ended(w, op)) <==> Handed(w))
  {
    CallsExact(w, w.ops - {op});
  }

  /** Exactly the guarded steps keep every timestamp under the persisted bound of its node. */
  lemma NextExact(w: World, s: Step)
    requires Tracked(w)
    ensures Tracked(Next(w, s))
    ensures Handed(w) ==> (Handed(Next(w, s)) <==> Guarded(w, s))
  {
    hide Ticked, Updated, Saw, Handed, Tracked, Trusted, Trusting;
    match s
    case ReadForNow(op, n, reading) =>
      if Alive(w, n) && op !in w.ops { ReadExact(w, op, n, reading, InNow(n, reading)); }
    case ReadForChecked(op, n, reading, source) =>
      if Alive(w, n) && op !in w.ops { ReadExact(w, op, n, reading, InChecked(n, reading, source)); }
    case LockForNow(op) =>
      if op in w.ops && w.ops[op].InNow? && Alive(w, w.ops[op].node) {
        TickExact(w, w.ops[op].node, w.ops[op].reading);
        EndedExact(Ticked(w, w.ops[op].node, w.ops[op].reading), op);
      }
    case LockForRefresh(op, delta) => RefreshExact(w, op, delta);
    case Receive(n, source) =>
      if Alive(w, n) && Sent(w, source) { UpdateExact(w, n, w.events[source].after, source); }
    case LockForChecked(op) =>
      if op in w.ops && w.ops[op].InChecked? && Alive(w, w.ops[op].node) && Sent(w, w.ops[op].source) {
        CheckedExact(w, op);
      }
    case StartReset(op, n) => StartExact(w, op, n);
    case Persist(op, ok) =>
      if op in w.ops && w.ops[op].Persisting? && Alive(w, w.ops[op].node) {
        EndedExact(w, op);
        PersistTracked(w, op);
        if Handed(w) { PersistExact(w, op); }
      }
    case Store(op) =>
      if op in w.ops && w.ops[op].Storing? && Alive(w, w.ops[op].node) { StoreExact(w, op); }
    case Crash(n) => if Alive(w, n) { CrashExact(w, n); }
  }

  lemma ReadExact(w: World, op: nat, n: nat, reading: int64, o: Op)
    requires Tracked(w) && Alive(w, n) && !Pending(o)
    ensures var w' := Saw(w, n, reading); var r := w'.(ops := w'.ops[op := o]); Tracked(r) && (Handed(r) <==> Handed(w))
  {
    var w' := Saw(w, n, reading);
    OthersTracked(w, w'.(ops := w'.ops[op := o]));
    OthersHanded(w, w'.(ops := w'.ops[op := o]));
  }

  lemma RefreshExact(w: World, op: nat, delta: int64)
    requires Tracked(w)
    ensures var s := LockForRefresh(op, delta);
            Tracked(Next(w, s)) && (Handed(w) ==> (Handed(Next(w, s)) <==> Guarded(w, s)))
  {
    hide Ticked, Handed, Tracked;
    if op in w.ops && w.ops[op].InNow? && Alive(w, w.ops[op].node) && delta >= 0 {
      var n := w.ops[op].node;
      var w' := Ticked(w, n, w.ops[op].reading);
      TickExact(w, n, w.ops[op].reading);
      if w'.nodes[n].clock.halted {
        EndedExact(w', op);
      } else {
        AddedExact(w', op, Persisting(n, ToInt64(w'.nodes[n].clock.ts.wall + delta)));
      }
    }
  }

  lemma AddedExact(w: World, op: nat, o: Op)
    requires Tracked(w) && (Pending(o) && o.bound != 0 ==> Seen(w, o.node))
    ensures var w' := w.(ops := w.ops[op := o]); Tracked(w') && (Handed(w') <==> Handed(w))
  {
    CallsExact(w, w.ops[op := o]);
  }

  lemma StartExact(w: World, op: nat, n: nat)
    requires Tracked(w)
    ensures Tracked(Next(w, StartReset(op, n))) && (Handed(Next(w, StartReset(op, n))) <==> Handed(w))
  {
    if Alive(w, n) && op !in w.ops { AddedExact(w, op, Persisting(n, 0)); }
  }

  lemma CheckedExact(w: World, op: nat)
    requires Tracked(w) && op in w.ops && w.ops[op].InChecked? && Alive(w, w.ops[op].node) && Sent(w, w.ops[op].source)
    ensures var s := LockForChecked(op);
            Tracked(Next(w, s)) && (Handed(w) ==> (Handed(Next(w, s)) <==> Guarded(w, s)))
  {
    hide Updated, Handed, Tracked, Within, Trusted;
    var o := w.ops[op];
    var rt := w.events[o.source].after;
    EndedExact(w, op);
    if Trusted(rt, o.reading, w.nodes[o.node].maxOffset) {
      var given := Trusting(rt, o.reading);
      assert given.wall == Larger(rt.wall, o.reading);
      UpdateExact(w, o.node, given, o.source);
      EndedExact(Updated(w, o.node, given, o.source), op);
    }
  }

  lemma PersistTracked(w: World, op: nat)
    requires Tracked(w) && op in w.ops && w.ops[op].Persisting? && Alive(w, w.ops[op].node)
    ensures Tracked(Next(w, Persist(op, true)))
  {
    OthersTracked(w, Next(w, Persist(op, true)));
  }

  lemma StoreExact(w: World, op: nat)
    requires Tracked(w) && op in w.ops && w.ops[op].Storing? && Alive(w, w.ops[op].node)
    ensures Tracked(Next(w, Store(op))) && (Handed(Next(w, Store(op))) <==> Handed(w))
  {
    OthersTracked(w, Next(w, Store(op)));
    OthersHanded(w, Next(w, Store(op)));
  }

  lemma CrashExact(w: World, n: nat)
    requires Tracked(w) && Alive(w, n)
    ensures Tracked(Next(w, Crash(n))) && (Handed(Next(w, Crash(n))) <==> Handed(w))
  {
    OthersTracked(w, Next(w, Crash(n)));
    OthersHanded(w, Next(w, Crash(n)));
  }

  /** However refreshes interleave with the other calls, every timestamp stays at or below the
      nonzero persisted bound of its node, so that a restart above the bound cannot repeat it,
      throughout exactly the runs whose steps are guarded. */
  lemma {:induction false} RunBounds(w: World, steps: seq<Step>)
    requires Initial(w)
    ensures Tracked(Run(w, steps))
    ensures HandedThroughout(w, steps) <==> GuardedRun(w, steps)
    decreases |steps|
  {
    hide Tracked, Handed, Guarded, Next;
    if steps == [] {
      InitialTracked(w);
      assert Run(w, []) == w;
      assert steps[..0] == steps;
    } else {
      var last := |steps| - 1;
      var before := steps[..last];
      RunBounds(w, before);
      NextExact(Run(w, before), steps[last]);
      assert steps[..|steps|] == steps;
      assert forall k :: 0 <= k <= last ==> before[..k] == steps[..k];
      assert HandedThroughout(w, steps) <==> HandedThroughout(w, before) && Handed(Run(w, steps)) by { HandedSplit(w, steps); }
      assert GuardedRun(w, steps) <==> GuardedRun(w, before) && Guarded(Run(w, before), steps[last]) by { GuardedSplit(w, steps); }
      assert HandedThroughout(w, before) ==> Handed(Run(w, before)) by { assert before[..last] == before; }
    }
  }

  lemma InitialTracked(w: World)
    requires Initial(w)
    ensures Tracked(w) && Handed(w)
  {
  }

  lemma HandedSplit(w: World, steps: seq<Step>)
    requires steps != []
    ensures var before := steps[..|steps| - 1];
            HandedThroughout(w, steps) <==> HandedThroughout(w, before) && Handed(Run(w, steps))
  {
    hide Handed, Run;
    var last := |steps| - 1;
    var before := steps[..last];
    assert steps[..|steps|] == steps;
    forall k | 0 <= k <= last ensures before[..k] == steps[..k] {}
  }

  lemma GuardedSplit(w: World, steps: seq<Step>)
    requires steps != []
    ensures var before := steps[..|steps| - 1];
            GuardedRun(w, steps) <==> GuardedRun(w, before) && Guarded(Run(w, before), steps[|steps| - 1])
  {
    hide Guarded, Run;
    var last := |steps| - 1;
    var before := steps[..last];
    forall k | 0 <= k <= last ensures before[..k] == steps[..k] {}
    forall k | 0 <= k < last ensures before[k] == steps[k] {}
  }

  // ------------------------------------------------- refreshes that do not collide

  /** Nothing at node n is on its way into the bound. */
  predicate Idle(w: World, n: nat) {
    forall op :: op in w.ops && Pending(w.ops[op]) ==> w.ops[op].node != n
  }

  /** A clock moving to this wall time stays under every bound on its way, or dies. */
  predicate UnderPending(w: World, n: nat, wall: int64) {
    forall op :: op in w.ops && Pending(w.ops[op]) && w.ops[op].node == n && w.ops[op].bound != 0 && Alive(w, n) ==>
      wall <= w.ops[op].bound || (w.nodes[n].clock.bound != 0 && wall > w.nodes[n].clock.bound)
  }

  /** Refreshes and resets of one node follow each other, no new bound overflows, and from the tick
      of a refresh to its store the clock stays under the bound on its way. */
  predicate OrderlyStep(w: World, s: Step) {
    match s
    case LockForRefresh(op, delta) =>
      delta >= 0 && op in w.ops && w.ops[op].InNow? && Alive(w, w.ops[op].node) ==>
        && Idle(w, w.ops[op].node)
        && Tick(w.nodes[w.ops[op].node].clock.ts, w.ops[op].reading).wall + delta <= MAX_INT64
    case StartReset(op, n) => Idle(w, n)
    case LockForNow(op) => op in w.ops && w.ops[op].InNow? ==> UnderPending(w, w.ops[op].node, w.ops[op].reading)
    case Receive(n, source) => Sent(w, source) ==> UnderPending(w, n, w.events[source].after.wall)
    case LockForChecked(op) =>
      op in w.ops && w.ops[op].InChecked? && Sent(w, w.ops[op].source) ==>
        UnderPending(w, w.ops[op].node, Larger(w.events[w.ops[op].source].after.wall, w.ops[op].reading))
    case _ => true
  }

  ghost predicate OrderlyRun(w: World, steps: seq<Step>) {
    forall k :: 0 <= k < |steps| ==> OrderlyStep(Run(w, steps[..k]), steps[k])
  }

  predicate PendingAt(w: World, op: nat, n: nat) {
    op in w.ops && Pending(w.ops[op]) && w.ops[op].node == n
  }

  /** A live node has at most one bound on its way, it covers the clock, and the two bounds differ
      only while it is persisted but not stored. */
  ghost predicate Tidy(w: World, n: nat) {
    Alive(w, n) ==>
      && (forall op: nat, other: nat :: PendingAt(w, op, n) && PendingAt(w, other, n) ==> op == other)
      && (forall op: nat :: PendingAt(w, op, n) ==>
           && (w.ops[op].bound != 0 ==> w.nodes[n].clock.ts.wall <= w.ops[op].bound)
           && (w.ops[op].Storing? ==> w.nodes[n].persisted == w.ops[op].bound))
      && (w.nodes[n].persisted == w.nodes[n].clock.bound || exists op: nat :: PendingAt(w, op, n) && w.ops[op].Storing?)
  }

  lemma OrderlyWithin(w: World, n: nat, wall: int64)
    requires Tidy(w, n) && UnderPending(w, n, wall)
    ensures Within(w, n, wall)
  {
    if Alive(w, n) && w.nodes[n].persisted != w.nodes[n].clock.bound {
      var op: nat :| PendingAt(w, op, n) && w.ops[op].Storing?;
    }
  }

  /** Without a bound on its way a clock may move anywhere. */
  lemma IdleWithin(w: World, n: nat, wall: int64)
    requires Tidy(w, n) && Idle(w, n)
    ensures Within(w, n, wall)
  {
    assert forall op: nat :: !PendingAt(w, op, n);
  }

  ghost predicate AllTidy(w: World) {
    forall n: nat :: Tidy(w, n)
  }

  lemma OrderlyGuarded(w: World, s: Step)
    requires AllTidy(w) && OrderlyStep(w, s)
    ensures Guarded(w, s)
  {
    hide Tidy, UnderPending, Idle, Within, Trusted;
    match s
    case LockForNow(op) =>
      if op in w.ops && w.ops[op].InNow? { OrderlyWithin(w, w.ops[op].node, w.ops[op].reading); }
    case LockForRefresh(op, delta) =>
      if op in w.ops && w.ops[op].InNow? {
        if Alive(w, w.ops[op].node) && delta >= 0 { IdleWithin(w, w.ops[op].node, w.ops[op].reading); } else { DeadWithin(w, w.ops[op].node, w.ops[op].reading); }
      }
    case Receive(n, source) => if Sent(w, source) { OrderlyWithin(w, n, w.events[source].after.wall); }
    case LockForChecked(op) =>
      if op in w.ops && w.ops[op].InChecked? && Sent(w, w.ops[op].source) {
        OrderlyWithin(w, w.ops[op].node, Larger(w.events[w.ops[op].source].after.wall, w.ops[op].reading));
      }
    case Persist(op, _) =>
      if op in w.ops && w.ops[op].Persisting? && Alive(w, w.ops[op].node) { PersistCovers(w, op); }
    case _ =>
  }

  lemma DeadWithin(w: World, n: nat, wall: int64)
    ensures !Alive(w, n) ==> Within(w, n, wall)
  {
  }

  lemma PersistCovers(w: World, op: nat)
    requires op in w.ops && w.ops[op].Persisting? && Alive(w, w.ops[op].node) && Tidy(w, w.ops[op].node)
    ensures w.ops[op].bound == 0 || w.nodes[w.ops[op].node].clock.ts.wall <= w.ops[op].bound
  {
    assert PendingAt(w, op, w.ops[op].node);
  }

  /** A clock that stays under the bounds on their way keeps its node tidy; other nodes are as
      before. */
  lemma MovesTidy(w: World, w': World, n: nat, ts: Timestamp, wall: int64)
    requires AllTidy(w) && Moves(w, w', n, ts) && UnderPending(w, n, wall)
    requires ts.wall == Larger(w.nodes[n].clock.ts.wall, wall)
    ensures AllTidy(w')
  {
    forall m: nat ensures Tidy(w', m) {
      assert Tidy(w, m);
      assert forall op: nat :: PendingAt(w', op, m) <==> PendingAt(w, op, m);
    }
  }

  /** Dropping a call that has no bound under way, or whose bound was not persisted. */
  lemma EndedTidy(w: World, op: nat)
    requires AllTidy(w) && (op in w.ops ==> !w.ops[op].Storing?)
    ensures AllTidy(Ended(w, op))
  {
    var w' := Ended(w, op);
    forall m: nat ensures Tidy(w', m) {
      assert Tidy(w, m);
      assert forall o: nat :: PendingAt(w', o, m) <==> o != op && PendingAt(w, o, m);
    }
  }

  /** Starting a refresh or a reset where none is under way. */
  lemma StartTidy(w: World, op: nat, n: nat, bound: int64)
    requires AllTidy(w) && Idle(w, n) && Alive(w, n) && (op in w.ops ==> !Pending(w.ops[op]))
    requires bound == 0 || w.nodes[n].clock.ts.wall <= bound
    ensures AllTidy(w.(ops := w.ops[op := Persisting(n, bound)]))
  {
    var w' := w.(ops := w.ops[op := Persisting(n, bound)]);
    forall m: nat ensures Tidy(w', m) {
      assert Tidy(w, m);
      assert forall o: nat :: !PendingAt(w, o, n);
      assert forall o: nat :: PendingAt(w', o, m) <==> (o == op && m == n) || PendingAt(w, o, m);
    }
  }

  lemma PersistTidy(w: World, op: nat)
    requires AllTidy(w) && op in w.ops && w.ops[op].Persisting? && Alive(w, w.ops[op].node)
    ensures AllTidy(Next(w, Persist(op, true)))
  {
    var w' := Next(w, Persist(op, true));
    forall m: nat ensures Tidy(w', m) {
      assert Tidy(w, m);
      assert forall o: nat :: PendingAt(w', o, m) <==> PendingAt(w, o, m);
      if m == w.ops[op].node { assert PendingAt(w', op, m); }
    }
  }

  lemma StoreTidy(w: World, op: nat)
    requires AllTidy(w) && op in w.ops && w.ops[op].Storing? && Alive(w, w.ops[op].node)
    ensures AllTidy(Next(w, Store(op)))
  {
    var w' := Next(w, Store(op));
    forall m: nat ensures Tidy(w', m) {
      assert Tidy(w, m);
      assert PendingAt(w, op, w.ops[op].node);
      assert forall o: nat :: PendingAt(w', o, m) <==> o != op && PendingAt(w, o, m);
    }
  }

  lemma ReadTidy(w: World, op: nat, n: nat, reading: int64, o: Op)
    requires AllTidy(w) && Alive(w, n) && op !in w.ops && !Pending(o)
    ensures var w' := Saw(w, n, reading); AllTidy(w'.(ops := w'.ops[op := o]))
  {
    var w' := Saw(w, n, reading);
    var r := w'.(ops := w'.ops[op := o]);
    forall m: nat ensures Tidy(r, m) {
      assert Tidy(w, m);
      assert forall o: nat :: PendingAt(r, o, m) <==> PendingAt(w, o, m);
    }
  }

  lemma CrashTidy(w: World, n: nat)
    requires AllTidy(w) && Alive(w, n)
    ensures AllTidy(Next(w, Crash(n)))
  {
    var w' := Next(w, Crash(n));
    forall m: nat ensures Tidy(w', m) {
      assert Tidy(w, m);
      assert forall o: nat :: PendingAt(w', o, m) <==> PendingAt(w, o, m);
    }
  }

  lemma TickTidy(w: World, n: nat, reading: int64)
    requires AllTidy(w) && Alive(w, n) && UnderPending(w, n, reading)
    ensures AllTidy(Ticked(w, n, reading)) && Ticked(w, n, reading).ops == w.ops
    ensures |Ticked(w, n, reading).nodes| == |w.nodes| && Ticked(w, n, reading).nodes[n].clock.ts == Tick(w.nodes[n].clock.ts, reading)
  {
    hide AllTidy, UnderPending;
    TickMoves(w, n, reading);
    MovesTidy(w, Ticked(w, n, reading), n, Tick(w.nodes[n].clock.ts, reading), reading);
  }

  lemma UpdateTidy(w: World, n: nat, rt: Timestamp, source: nat)
    requires AllTidy(w) && Alive(w, n) && UnderPending(w, n, rt.wall)
    ensures AllTidy(Updated(w, n, rt, source)) && Updated(w, n, rt, source).ops == w.ops
  {
    hide AllTidy, UnderPending;
    UpdateMoves(w, n, rt, source);
    MovesTidy(w, Updated(w, n, rt, source), n, Max(w.nodes[n].clock.ts, rt), rt.wall);
  }

  lemma RefreshTidy(w: World, op: nat, delta: int64)
    requires AllTidy(w) && OrderlyStep(w, LockForRefresh(op, delta))
    ensures AllTidy(Next(w, LockForRefresh(op, delta)))
  {
    hide AllTidy, Ticked, Idle;
    if op in w.ops && w.ops[op].InNow? && Alive(w, w.ops[op].node) && delta >= 0 {
      var n, reading := w.ops[op].node, w.ops[op].reading;
      var w' := Ticked(w, n, reading);
      IdleUnder(w, w', n, reading);
      TickTidy(w, n, reading);
      if w'.nodes[n].clock.halted {
        EndedTidy(w', op);
      } else {
        IdleUnder(w, w', n, reading);
        var sum := w'.nodes[n].clock.ts.wall + delta;
        assert -TWO63 <= sum <= MAX_INT64;
        assert ToInt64(sum) == sum;
        StartTidy(w', op, n, ToInt64(sum));
      }
    }
  }

  lemma IdleUnder(w: World, w': World, n: nat, wall: int64)
    requires Idle(w, n)
    ensures UnderPending(w, n, wall) && (w'.ops == w.ops ==> Idle(w', n))
  {
  }

  lemma CheckedTidy(w: World, op: nat)
    requires AllTidy(w) && OrderlyStep(w, LockForChecked(op))
    ensures AllTidy(Next(w, LockForChecked(op)))
  {
    hide AllTidy, UnderPending, Updated, Trusted;
    if op in w.ops && w.ops[op].InChecked? && Alive(w, w.ops[op].node) && Sent(w, w.ops[op].source) {
      var o := w.ops[op];
      var given := Trusting(w.events[o.source].after, o.reading);
      assert given.wall == Larger(w.events[o.source].after.wall, o.reading);
      EndedTidy(w, op);
      UpdateTidy(w, o.node, given, o.source);
      EndedTidy(Updated(w, o.node, given, o.source), op);
    }
  }

  lemma NextTidy(w: World, s: Step)
    requires AllTidy(w) && OrderlyStep(w, s)
    ensures AllTidy(Next(w, s))
  {
    hide AllTidy, Ticked, Updated, Saw, UnderPending, Idle, Trusted;
    match s
    case ReadForNow(op, n, reading) =>
      if Alive(w, n) && op !in w.ops { ReadTidy(w, op, n, reading, InNow(n, reading)); }
    case ReadForChecked(op, n, reading, source) =>
      if Alive(w, n) && op !in w.ops { ReadTidy(w, op, n, reading, InChecked(n, reading, source)); }
    case LockForNow(op) =>
      if op in w.ops && w.ops[op].InNow? && Alive(w, w.ops[op].node) {
        TickTidy(w, w.ops[op].node, w.ops[op].reading);
        EndedTidy(Ticked(w, w.ops[op].node, w.ops[op].reading), op);
      }
    case LockForRefresh(op, delta) => RefreshTidy(w, op, delta);
    case Receive(n, source) =>
      if Alive(w, n) && Sent(w, source) { UpdateTidy(w, n, w.events[source].after, source); }
    case LockForChecked(op) => CheckedTidy(w, op);
    case StartReset(op, n) =>
      if Alive(w, n) && op !in w.ops { StartTidy(w, op, n, 0); }
    case Persist(op, ok) =>
      if op in w.ops && w.ops[op].Persisting? && Alive(w, w.ops[op].node) {
        EndedTidy(w, op);
        PersistTidy(w, op);
      }
    case Store(op) =>
      if op in w.ops && w.ops[op].Storing? && Alive(w, w.ops[op].node) { StoreTidy(w, op); }
    case Crash(n) => if Alive(w, n) { CrashTidy(w, n); }
  }

  lemma InitialTidy(w: World)
    requires Initial(w)
    ensures AllTidy(w)
  {
  }

  lemma {:induction false} OrderlyKeeps(w: World, steps: seq<Step>)
    requires Initial(w) && OrderlyRun(w, steps)
    ensures AllTidy(Run(w, steps)) && GuardedRun(w, steps)
    decreases |steps|
  {
    hide AllTidy, OrderlyStep, Guarded, Next;
    if steps == [] {
      InitialTidy(w);
    } else {
      var last := |steps| - 1;
      var before := steps[..last];
      forall k | 0 <= k < last ensures OrderlyStep(Run(w, before[..k]), before[k]) { assert before[..k] == steps[..k]; }
      OrderlyKeeps(w, before);
      OrderlyGuarded(Run(w, before), steps[last]);
      NextTidy(Run(w, before), steps[last]);
      GuardedSplit(w, steps);
    }
  }

  /** Orderly refreshes never put a bound below a timestamp, and a live clock with none under way
      is covered by its bound in memory, which is the persisted one. */
  lemma OrderlyBounds(w: World, steps: seq<Step>, n: nat)
    requires Initial(w) && OrderlyRun(w, steps)
    ensures HandedThroughout(w, steps)
    ensures var end := Run(w, steps); Alive(end, n) && Idle(end, n) ==>
      var x := end.nodes[n];
      x.persisted == x.clock.bound && (x.persisted != 0 ==> x.clock.ts.wall <= x.persisted)
  {
    hide Guarded, OrderlyStep, Next, Run;
    var end := Run(w, steps);
    OrderlyKeeps(w, steps);
    RunBounds(w, steps);
    assert Tidy(end, n);
    assert Handed(end) by { assert steps[..|steps|] == steps; }
    if Alive(end, n) && Idle(end, n) {
      assert forall op: nat :: !PendingAt(end, op, n);
      assert Shown(end, n);
    }
  }

  /** Split by one Now between its tick and its store, a refresh leaves a timestamp above the
      persisted bound at a node that has not halted: the step that persists is not guarded. */
  lemma SplitRefreshBreaks()
    ensures exists w: World, steps: seq<Step> ::
      && Initial(w) && NoWraps(w, steps) && !Handed(Run(w, steps)) && Alive(Run(w, steps), 0)
      && forall k :: 0 <= k < |steps| ==> (Guarded(Run(w, steps[..k]), steps[k]) <==> !steps[k].Persist?)
  {
    hide Next, Run, NoWrap, Guarded;
    var steps := SplitSteps();
    SplitStep(0);
    SplitStep(1);
    SplitStep(2);
    SplitStep(3);
    SplitStep(4);
    SplitStep(5);
    RunNothing(SplitWorld(0));
    forall k | 0 <= k < 6
      ensures NoWrap(Run(SplitWorld(0), steps[..k]), steps[k])
      ensures Guarded(Run(SplitWorld(0), steps[..k]), steps[k]) <==> !steps[k].Persist?
    {
      SplitRun(k);
    }
    SplitRun(6);
    assert steps[..6] == steps;
    var last := SplitWorld(6);
    assert last.events[1].after.wall == 20 && last.nodes[0].persisted == 10;
    assert !Handed(last) && Alive(last, 0) && Initial(SplitWorld(0));
    assert NoWraps(SplitWorld(0), steps);
  }

  function SplitSteps(): seq<Step> {
    [ReadForNow(1, 0, 10), LockForRefresh(1, 0), ReadForNow(2, 0, 20), LockForNow(2), Persist(1, true), Store(1)]
  }

  /** The states of that run. */
  function SplitWorld(k: nat): World {
    var t10, t20 := Timestamp(10, 0), Timestamp(20, 0);
    if k == 0 then World([Node(State(Timestamp(0, 0), 0, false), 0, 0, 0)], map[], [], 0)
    else if k == 1 then World([Node(State(Timestamp(0, 0), 0, false), 0, 10, 0)], map[1 := InNow(0, 10)], [], 10)
    else if k == 2 then World([Node(State(t10, 0, false), 0, 10, 0)], map[1 := Persisting(0, 10)], [Issued(0, t10)], 10)
    else if k == 3 then World([Node(State(t10, 0, false), 0, 20, 0)], map[1 := Persisting(0, 10), 2 := InNow(0, 20)], [Issued(0, t10)], 20)
    else if k == 4 then World([Node(State(t20, 0, false), 0, 20, 0)], map[1 := Persisting(0, 10)], [Issued(0, t10), Issued(0, t20)], 20)
    else if k == 5 then World([Node(State(t20, 0, false), 0, 20, 10)], map[1 := Storing(0, 10)], [Issued(0, t10), Issued(0, t20)], 20)
    else World([Node(State(t20, 10, false), 0, 20, 10)], map[], [Issued(0, t10), Issued(0, t20)], 20)
  }

  lemma SplitStep(k: nat)
    requires k < 6
    ensures Next(SplitWorld(k), SplitSteps()[k]) == SplitWorld(k + 1) && NoWrap(SplitWorld(k), SplitSteps()[k])
    ensures Guarded(SplitWorld(k), SplitSteps()[k]) <==> !SplitSteps()[k].Persist?
  {
  }

  lemma {:induction false} SplitRun(k: nat)
    requires k <= 6
    ensures Run(SplitWorld(0), SplitSteps()[..k]) == SplitWorld(k)
    ensures k < 6 ==> NoWrap(Run(SplitWorld(0), SplitSteps()[..k]), SplitSteps()[k])
    ensures k < 6 ==> (Guarded(Run(SplitWorld(0), SplitSteps()[..k]), SplitSteps()[k]) <==> !SplitSteps()[k].Persist?)
  {
    hide Next, SplitWorld, NoWrap, Guarded;
    if k > 0 {
      SplitRun(k - 1);
      SplitStep(k - 1);
      assert SplitSteps()[..k][..k - 1] == SplitSteps()[..k - 1];
    }
    if k < 6 { SplitStep(k); }
  }

  lemma RunNothing(w: World)
    ensures Run(w, []) == w
  {
  }
}

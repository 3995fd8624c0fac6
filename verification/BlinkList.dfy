/** The blinker as its callers see it: a list of blinking cells and the characters on the screen.
    BlinkPool shows that the linked list in the fixed pool behaves exactly like this list. */
module BlinkList {
  import Arith
  import opened Bytes

  const SCREEN_CELLS := 80 * 25
  const VIDEO_BYTES := 2 * SCREEN_CELLS

  datatype Node = Node(location: u16, onChar: byte, offChar: byte,
                       onLength: u16, offLength: u16, countdown: u16, status: u16)

  // ---------- one node and the clock ----------

  function Decrement(w: u16): u16 {
    if w == 0 then 0xFFFF else w - 1
  }

  /** The signed comparison of a 16-bit word with zero. */
  predicate SignedPositive(w: u16) {
    0 < w < 0x8000
  }

  predicate On(n: Node) {
    n.status % 2 == 1
  }

  predicate Toggles(n: Node) {
    !SignedPositive(Decrement(n.countdown))
  }

  function FlipBit0(w: u16): u16 {
    if w % 2 == 1 then w - 1 else w + 1
  }

  function TickNode(n: Node): Node {
    if !Toggles(n) then n.(countdown := Decrement(n.countdown))
    else n.(countdown := if On(n) then n.offLength else n.onLength, status := FlipBit0(n.status))
  }

  function Started(user: Node): Node {
    user.(status := 1, countdown := user.onLength)
  }

  /** `n` after `t` clock ticks. */
  function TickTimes(n: Node, t: nat): Node {
    if t == 0 then n else TickNode(TickTimes(n, t - 1))
  }

  /** How many ticks a phase of the given length really lasts: the countdown is decremented before it is
      compared as a signed word, so 0 and everything above 0x8000 expire at once. */
  function Span(length: u16): (ticks: nat)
    ensures 1 <= ticks <= 0x8000
  {
    if 1 <= length <= 0x8000 then length else 1
  }

  function Period(user: Node): (m: nat)
    ensures m >= 2
  {
    Span(user.onLength) + Span(user.offLength)
  }

  /** The node `p` ticks into its period: on first, then off, with the rest of the phase in the countdown. */
  function PhaseAt(user: Node, p: nat): Node
    requires p < Period(user)
  {
    var a := Span(user.onLength);
    if p < a then user.(status := 1, countdown := user.onLength - p)
    else user.(status := 0, countdown := user.offLength - (p - a))
  }

  function PhaseOf(user: Node, t: nat): Node {
    PhaseAt(user, t % Period(user))
  }

  lemma PhaseAdvances(user: Node, p: nat)
    requires p < Period(user)
    ensures TickNode(PhaseAt(user, p)) == PhaseAt(user, if p + 1 == Period(user) then 0 else p + 1)
  {
  }

  lemma PhaseStart(user: Node)
    ensures Started(user) == PhaseOf(user, 0)
  {
    Arith.DivModUnique(0, Period(user), 0, 0);
  }

  lemma PhaseNext(user: Node, t: nat)
    ensures TickNode(PhaseOf(user, t)) == PhaseOf(user, t + 1)
  {
    PhaseAdvances(user, t % Period(user));
    Arith.NextRemainder(t, Period(user));
  }

  /** Blinking has a closed form for every pair of 16-bit lengths. */
  lemma {:induction false} ClosedForm(user: Node, t: nat)
    ensures TickTimes(Started(user), t) == PhaseOf(user, t)
  {
    if t == 0 {
      PhaseStart(user);
    } else {
      ClosedForm(user, t - 1);
      PhaseNext(user, t - 1);
    }
  }

  lemma {:induction false} TicksKeepFields(n: Node, t: nat)
    ensures TickTimes(n, t) == n.(countdown := TickTimes(n, t).countdown, status := TickTimes(n, t).status)
  {
    if t > 0 {
      TicksKeepFields(n, t - 1);
    }
  }

  /** The clock looks at nothing but the timing fields, so nodes that agree on those never drift apart. */
  lemma {:induction false} SameTimingStays(m: Node, n: Node, t: nat)
    requires m.onLength == n.onLength && m.offLength == n.offLength
    requires m.countdown == n.countdown && m.status == n.status
    ensures TickTimes(m, t).countdown == TickTimes(n, t).countdown
    ensures TickTimes(m, t).status == TickTimes(n, t).status
  {
    if t > 0 {
      SameTimingStays(m, n, t - 1);
      TicksKeepFields(m, t - 1);
      TicksKeepFields(n, t - 1);
    }
  }

  // ---------- the list and the screen ----------

  datatype Display = Display(nodes: seq<Node>, screen: seq<byte>)

  datatype Op =
    | Add(user: Node)
    | Remove(arg: u32)
    | Find(location: u16)
    | Sync(arg: u32)
    | Tick

  /** Locations are valid screen cells other than 0, and the status word is a flag. */
  predicate GoodNode(n: Node) {
    1 <= n.location < SCREEN_CELLS && n.status < 2
  }

  ghost predicate Good(d: Display) {
    && |d.screen| == VIDEO_BYTES
    && |d.nodes| <= SCREEN_CELLS
    && forall i :: 0 <= i < |d.nodes| ==> GoodNode(d.nodes[i])
  }

  /** Index of the first node at `location`, or the length of the list. */
  function First(nodes: seq<Node>, location: u16): (k: nat)
    ensures k <= |nodes|
    ensures k < |nodes| ==> nodes[k].location == location
    ensures forall j :: 0 <= j < k ==> nodes[j].location != location
  {
    if nodes == [] then 0
    else if nodes[0].location == location then 0
    else 1 + First(nodes[1..], location)
  }

  /** Any index that matches with no earlier match is the first one. */
  lemma FirstIs(nodes: seq<Node>, location: u16, k: nat)
    requires k <= |nodes|
    requires k < |nodes| ==> nodes[k].location == location
    requires forall j :: 0 <= j < k ==> nodes[j].location != location
    ensures First(nodes, location) == k
  {
  }

  function Poke(screen: seq<byte>, location: u16, c: byte): (r: seq<byte>)
    requires |screen| == VIDEO_BYTES && location < SCREEN_CELLS
    ensures |r| == VIDEO_BYTES
  {
    screen[2 * location := c]
  }

  /** The screen after the clock has visited the first `k` nodes. */
  function TickScreen(nodes: seq<Node>, screen: seq<byte>, k: nat): (r: seq<byte>)
    requires |screen| == VIDEO_BYTES && k <= |nodes|
    requires forall i :: 0 <= i < |nodes| ==> GoodNode(nodes[i])
    ensures |r| == VIDEO_BYTES
  {
    if k == 0 then screen
    else
      var before := TickScreen(nodes, screen, k - 1);
      var n := nodes[k - 1];
      if Toggles(n) then Poke(before, n.location, if On(n) then n.offChar else n.onChar) else before
  }

  function TickAll(nodes: seq<Node>): (r: seq<Node>)
    ensures |r| == |nodes|
    ensures forall i :: 0 <= i < |nodes| ==> r[i] == TickNode(nodes[i])
  {
    seq(|nodes|, i requires 0 <= i < |nodes| => TickNode(nodes[i]))
  }

  function CopyTiming(source: Node, target: Node): Node {
    target.(onLength := source.onLength, offLength := source.offLength,
            countdown := source.countdown, status := source.status)
  }

  predicate Succeeds(d: Display, op: Op) {
    match op
    case Add(user) => user.location < SCREEN_CELLS && |d.nodes| < SCREEN_CELLS
    case Remove(arg) => First(d.nodes, arg % 0x1_0000) < |d.nodes|
    case Find(location) => First(d.nodes, location) < |d.nodes|
    case Sync(arg) => First(d.nodes, arg / 0x1_0000) < |d.nodes| && First(d.nodes, arg % 0x1_0000) < |d.nodes|
    case Tick => true
  }

  function Step(d: Display, op: Op): Display
    requires Good(d)
  {
    if !Succeeds(d, op) then d else
    match op
    case Add(user) =>
      Display([Started(user)] + d.nodes, Poke(d.screen, user.location, user.onChar))
    case Remove(arg) =>
      var k := First(d.nodes, arg % 0x1_0000);
      d.(nodes := d.nodes[..k] + d.nodes[k + 1..])
    case Find(location) => d
    case Sync(arg) =>
      var s, t := First(d.nodes, arg / 0x1_0000), First(d.nodes, arg % 0x1_0000);
      Display(d.nodes[t := CopyTiming(d.nodes[s], d.nodes[t])],
              Poke(d.screen, d.nodes[t].location, d.nodes[t].offChar))
    case Tick =>
      Display(TickAll(d.nodes), TickScreen(d.nodes, d.screen, |d.nodes|))
  }

  predicate NonZeroAdd(op: Op) {
    op.Add? ==> op.user.location != 0
  }

  ghost predicate HasNode(d: Display, location: int) {
    exists i :: 0 <= i < |d.nodes| && d.nodes[i].location == location
  }

  /** When the driver's calls succeed: an add if its location is on the screen and there is room for one more node,
      the others if the nodes they name exist. A call that does not succeed changes nothing. */
  lemma SucceedsIff(d: Display, op: Op)
    requires Good(d)
    ensures op.Add? ==> (Succeeds(d, op) <==> op.user.location < 2000 && |d.nodes| < 2000)
    ensures op.Remove? ==> (Succeeds(d, op) <==> HasNode(d, op.arg % 0x1_0000))
    ensures op.Find? ==> (Succeeds(d, op) <==> HasNode(d, op.location))
    ensures op.Sync? ==> (Succeeds(d, op) <==> HasNode(d, op.arg / 0x1_0000) && HasNode(d, op.arg % 0x1_0000))
    ensures !Succeeds(d, op) ==> Step(d, op) == d
  {
  }

  lemma StepGood(d: Display, op: Op)
    requires Good(d) && NonZeroAdd(op)
    ensures Good(Step(d, op))
  {
  }

  // ---------- runs ----------

  ghost predicate RunOk(ops: seq<Op>) {
    forall i :: 0 <= i < |ops| ==> NonZeroAdd(ops[i])
  }

  function Run(d: Display, ops: seq<Op>): (r: Display)
    requires Good(d) && RunOk(ops)
    ensures Good(r)
    decreases |ops|
  {
    if ops == [] then d
    else
      var before := Run(d, ops[..|ops| - 1]);
      StepGood(before, ops[|ops| - 1]);
      Step(before, ops[|ops| - 1])
  }

  lemma {:induction false} RunAppend(d: Display, a: seq<Op>, b: seq<Op>)
    requires Good(d) && RunOk(a) && RunOk(b)
    ensures RunOk(a + b) && Run(d, a + b) == Run(Run(d, a), b)
    decreases |b|
  {
    if b == [] {
      assert a + b == a;
    } else {
      RunAppend(d, a, b[..|b| - 1]);
      assert (a + b)[..|a + b| - 1] == a + b[..|b| - 1];
    }
  }

  function TickCount(ops: seq<Op>): nat
    decreases |ops|
  {
    if ops == [] then 0 else TickCount(ops[..|ops| - 1]) + if ops[|ops| - 1].Tick? then 1 else 0
  }

  /** Does `op` add, remove or re-time a node at `location`? */
  predicate Touches(op: Op, location: u16) {
    match op
    case Add(user) => user.location == location
    case Remove(arg) => arg % 0x1_0000 == location
    case Find(_) => false
    case Sync(arg) => arg % 0x1_0000 == location
    case Tick => false
  }

  ghost predicate Untouched(ops: seq<Op>, location: u16) {
    forall i :: 0 <= i < |ops| ==> !Touches(ops[i], location)
  }

  predicate Live(d: Display, location: u16) {
    First(d.nodes, location) < |d.nodes|
  }

  function NodeAt(d: Display, location: u16): Node
    requires Live(d, location)
  {
    d.nodes[First(d.nodes, location)]
  }

  /** The first node at `location` in `after` is the one in `before`, aged by a tick if `ticked`. */
  ghost predicate SameFirst(before: seq<Node>, after: seq<Node>, location: u16, ticked: bool) {
    var f, g := First(before, location), First(after, location);
    && (f < |before| <==> g < |after|)
    && (f < |before| ==> after[g] == if ticked then TickNode(before[f]) else before[f])
  }

  lemma AddIsolated(nodes: seq<Node>, n: Node, location: u16)
    requires n.location != location
    ensures SameFirst(nodes, [n] + nodes, location, false)
  {
  }

  lemma RemoveIsolated(nodes: seq<Node>, k: nat, location: u16)
    requires k < |nodes| && nodes[k].location != location
    ensures SameFirst(nodes, nodes[..k] + nodes[k + 1..], location, false)
  {
    var f := First(nodes, location);
    FirstIs(nodes[..k] + nodes[k + 1..], location, if k < f then f - 1 else f);
  }

  lemma UpdateIsolated(nodes: seq<Node>, k: nat, n: Node, location: u16)
    requires k < |nodes| && nodes[k].location == n.location != location
    ensures SameFirst(nodes, nodes[k := n], location, false)
  {
    FirstIs(nodes[k := n], location, First(nodes, location));
  }

  lemma TickIsolated(nodes: seq<Node>, location: u16)
    ensures SameFirst(nodes, TickAll(nodes), location, true)
  {
  }

  lemma StepIsolated(d: Display, op: Op, location: u16)
    requires Good(d) && NonZeroAdd(op) && !Touches(op, location)
    ensures SameFirst(d.nodes, Step(d, op).nodes, location, op.Tick?)
  {
    if Succeeds(d, op) {
      match op {
        case Add(user) => AddIsolated(d.nodes, Started(user), location);
        case Remove(arg) => RemoveIsolated(d.nodes, First(d.nodes, arg % 0x1_0000), location);
        case Find(_) =>
        case Sync(arg) =>
          var s, t := First(d.nodes, arg / 0x1_0000), First(d.nodes, arg % 0x1_0000);
          UpdateIsolated(d.nodes, t, CopyTiming(d.nodes[s], d.nodes[t]), location);
        case Tick => TickIsolated(d.nodes, location);
      }
    }
  }

  lemma StepIsolatedNode(d: Display, op: Op, location: u16)
    requires Good(d) && NonZeroAdd(op) && !Touches(op, location)
    ensures Live(Step(d, op), location) == Live(d, location)
    ensures Live(d, location) ==>
              NodeAt(Step(d, op), location) == TickTimes(NodeAt(d, location), if op.Tick? then 1 else 0)
  {
    StepIsolated(d, op, location);
    if Live(d, location) {
      assert TickTimes(NodeAt(d, location), 0) == NodeAt(d, location);
    }
  }

  lemma {:induction false} TickTimesAdd(n: Node, s: nat, t: nat)
    ensures TickTimes(TickTimes(n, s), t) == TickTimes(n, s + t)
  {
    if t > 0 {
      TickTimesAdd(n, s, t - 1);
    }
  }

  /** Over every run that leaves a location alone, its node sees the clock and nothing else. */
  lemma {:induction false} RunIsolated(d: Display, ops: seq<Op>, location: u16)
    requires Good(d) && RunOk(ops) && Untouched(ops, location)
    ensures Live(Run(d, ops), location) == Live(d, location)
    ensures Live(d, location) ==>
              NodeAt(Run(d, ops), location) == TickTimes(NodeAt(d, location), TickCount(ops))
    decreases |ops|
  {
    if ops != [] {
      var before, op := ops[..|ops| - 1], ops[|ops| - 1];
      RunIsolated(d, before, location);
      StepIsolatedNode(Run(d, before), op, location);
      if Live(d, location) {
        TickTimesAdd(NodeAt(d, location), TickCount(before), if op.Tick? then 1 else 0);
      }
    }
  }

  /** From a successful add on, whatever happens to other locations, the node follows the closed form. */
  lemma BlinkingInEveryRun(d: Display, user: Node, ops: seq<Op>)
    requires Good(d) && user.location != 0 && Succeeds(d, Add(user))
    requires RunOk(ops) && Untouched(ops, user.location)
    ensures RunOk([Add(user)] + ops)
    ensures var r := Run(d, [Add(user)] + ops);
            Live(r, user.location) && NodeAt(r, user.location) == PhaseOf(user, TickCount(ops))
  {
    var d' := Step(d, Add(user));
    assert [Add(user)][..0] == [];
    assert Run(d, [Add(user)]) == d';
    assert d'.nodes[0] == Started(user);
    RunAppend(d, [Add(user)], ops);
    RunIsolated(d', ops, user.location);
    ClosedForm(user, TickCount(ops));
  }

  /** After a sync the two nodes keep the same phase until one of them is touched again. */
  lemma SyncedForever(d: Display, arg: u32, ops: seq<Op>)
    requires Good(d) && Succeeds(d, Sync(arg)) && RunOk(ops)
    requires Untouched(ops, arg / 0x1_0000) && Untouched(ops, arg % 0x1_0000)
    ensures RunOk([Sync(arg)] + ops)
    ensures var r := Run(d, [Sync(arg)] + ops);
            && Live(r, arg / 0x1_0000) && Live(r, arg % 0x1_0000)
            && NodeAt(r, arg / 0x1_0000).status == NodeAt(r, arg % 0x1_0000).status
            && NodeAt(r, arg / 0x1_0000).countdown == NodeAt(r, arg % 0x1_0000).countdown
  {
    var s: u16, t: u16 := arg / 0x1_0000, arg % 0x1_0000;
    var d' := Step(d, Sync(arg));
    assert [Sync(arg)][..0] == [];
    assert Run(d, [Sync(arg)]) == d';
    FirstIs(d'.nodes, s, First(d.nodes, s));
    FirstIs(d'.nodes, t, First(d.nodes, t));
    RunAppend(d, [Sync(arg)], ops);
    RunIsolated(d', ops, s);
    RunIsolated(d', ops, t);
    SameTimingStays(NodeAt(d', s), NodeAt(d', t), TickCount(ops));
  }

  /** A sync changes the timing of the first match of its target and no other node at all. */
  lemma SyncTouchesOneNode(d: Display, arg: u32, j: nat)
    requires Good(d) && Succeeds(d, Sync(arg)) && j < |d.nodes|
    ensures |Step(d, Sync(arg)).nodes| == |d.nodes|
    ensures j != First(d.nodes, arg % 0x1_0000) ==> Step(d, Sync(arg)).nodes[j] == d.nodes[j]
  {
  }

  ghost predicate DistinctLocations(nodes: seq<Node>) {
    forall i, j :: 0 <= i < j < |nodes| ==> nodes[i].location != nodes[j].location
  }

  /** A remove takes the first node at its location out of the list, which is the one with index `k`, and changes
      nothing else; without such a node it fails and changes nothing at all. */
  lemma RemoveTakesFirst(d: Display, arg: u32, k: nat)
    requires Good(d) && k <= |d.nodes|
    requires k < |d.nodes| ==> d.nodes[k].location == arg % 0x1_0000
    requires forall j :: 0 <= j < k ==> d.nodes[j].location != arg % 0x1_0000
    ensures Succeeds(d, Remove(arg)) <==> k < |d.nodes|
    ensures var r := Step(d, Remove(arg));
            if k == |d.nodes| then r == d
            else
              && |r.nodes| == |d.nodes| - 1 && r.screen == d.screen
              && (forall i :: 0 <= i < |r.nodes| ==> r.nodes[i] == d.nodes[if i < k then i else i + 1])
              && (DistinctLocations(d.nodes) ==> !Live(r, arg % 0x1_0000))
  {
    FirstIs(d.nodes, arg % 0x1_0000, k);
  }

  /** After a remove at distinct locations, in every run that leaves the location alone, nothing blinks there. */
  lemma RemovedStaysGone(d: Display, arg: u32, ops: seq<Op>)
    requires Good(d) && DistinctLocations(d.nodes)
    requires RunOk(ops) && Untouched(ops, arg % 0x1_0000)
    ensures RunOk([Remove(arg)] + ops)
    ensures !Live(Run(d, [Remove(arg)] + ops), arg % 0x1_0000)
  {
    RemoveTakesFirst(d, arg, First(d.nodes, arg % 0x1_0000));
    assert [Remove(arg)][..0] == [];
    assert Run(d, [Remove(arg)]) == Step(d, Remove(arg));
    RunAppend(d, [Remove(arg)], ops);
    RunIsolated(Step(d, Remove(arg)), ops, arg % 0x1_0000);
  }

  // ---------- what is displayed ----------

  /** The character on the screen is the one the status asks for. */
  predicate Agrees(n: Node, screen: seq<byte>)
    requires |screen| == VIDEO_BYTES && GoodNode(n)
  {
    screen[2 * n.location] == if On(n) then n.onChar else n.offChar
  }

  /** The cells whose character is wrong. Sync always draws the off character, so syncing to a node that is
      on leaves its target wrong until the target toggles or is synced again. */
  function Stale(d: Display, stale: set<u16>, op: Op): set<u16>
    requires Good(d)
  {
    if !Succeeds(d, op) then stale else
    match op
    case Add(user) => stale - {user.location}
    case Remove(_) => stale
    case Find(_) => stale
    case Sync(arg) =>
      var s, t := NodeAt(d, arg / 0x1_0000), NodeAt(d, arg % 0x1_0000);
      if On(s) && t.onChar != t.offChar then stale + {t.location} else stale - {t.location}
    case Tick => set l | l in stale && !(Live(d, l) && Toggles(NodeAt(d, l)))
  }

  ghost predicate DisplayedExcept(d: Display, stale: set<u16>)
    requires Good(d)
  {
    forall i :: 0 <= i < |d.nodes| ==> (Agrees(d.nodes[i], d.screen) <==> d.nodes[i].location !in stale)
  }

  lemma {:induction false} TickScreenAt(nodes: seq<Node>, screen: seq<byte>, k: nat, i: nat)
    requires |screen| == VIDEO_BYTES && i < |nodes| && k <= |nodes|
    requires forall j :: 0 <= j < |nodes| ==> GoodNode(nodes[j])
    requires DistinctLocations(nodes)
    ensures TickScreen(nodes, screen, k)[2 * nodes[i].location] ==
            if i < k && Toggles(nodes[i]) then (if On(nodes[i]) then nodes[i].offChar else nodes[i].onChar)
            else screen[2 * nodes[i].location]
  {
    if k > 0 {
      TickScreenAt(nodes, screen, k - 1, i);
      if k - 1 < i {
        assert nodes[k - 1].location != nodes[i].location;
      } else if i < k - 1 {
        assert nodes[i].location != nodes[k - 1].location;
      }
    }
  }

  lemma {:induction false} TickScreenElsewhere(nodes: seq<Node>, screen: seq<byte>, k: nat, b: nat)
    requires |screen| == VIDEO_BYTES && k <= |nodes| && b < VIDEO_BYTES
    requires forall j :: 0 <= j < |nodes| ==> GoodNode(nodes[j])
    requires forall j :: 0 <= j < |nodes| ==> 2 * nodes[j].location != b
    ensures TickScreen(nodes, screen, k)[b] == screen[b]
  {
    if k > 0 {
      TickScreenElsewhere(nodes, screen, k - 1, b);
    }
  }

  predicate FreshAdd(d: Display, op: Op) {
    op.Add? ==> op.user.location != 0 && !Live(d, op.user.location)
  }

  lemma StepDistinct(d: Display, op: Op)
    requires Good(d) && DistinctLocations(d.nodes) && FreshAdd(d, op)
    ensures DistinctLocations(Step(d, op).nodes)
  {
  }

  lemma TickAgrees(n: Node, before: seq<byte>, after: seq<byte>)
    requires GoodNode(n) && |before| == |after| == VIDEO_BYTES
    requires after[2 * n.location] ==
             if Toggles(n) then (if On(n) then n.offChar else n.onChar) else before[2 * n.location]
    ensures Agrees(TickNode(n), after) <==> Toggles(n) || Agrees(n, before)
  {
  }

  lemma TickDisplayed(d: Display, stale: set<u16>)
    requires Good(d) && DistinctLocations(d.nodes) && DisplayedExcept(d, stale)
    ensures Good(Step(d, Tick)) && DisplayedExcept(Step(d, Tick), Stale(d, stale, Tick))
  {
    StepGood(d, Tick);
    var d' := Step(d, Tick);
    forall i | 0 <= i < |d'.nodes|
      ensures Agrees(d'.nodes[i], d'.screen) <==> d'.nodes[i].location !in Stale(d, stale, Tick)
    {
      var n := d.nodes[i];
      TickScreenAt(d.nodes, d.screen, |d.nodes|, i);
      FirstIs(d.nodes, n.location, i);
      TickAgrees(n, d.screen, d'.screen);
      assert n.location in Stale(d, stale, Tick) <==> n.location in stale && !Toggles(n);
    }
  }

  lemma StepDisplayed(d: Display, stale: set<u16>, op: Op)
    requires Good(d) && DistinctLocations(d.nodes) && DisplayedExcept(d, stale) && FreshAdd(d, op)
    ensures Good(Step(d, op)) && DisplayedExcept(Step(d, op), Stale(d, stale, op))
  {
    StepGood(d, op);
    if op.Tick? {
      TickDisplayed(d, stale);
    }
  }

  /** Every add of the run is at a location that has no live node at that moment. */
  ghost predicate FreshRun(d: Display, ops: seq<Op>)
    requires Good(d)
    decreases |ops|
  {
    ops == [] ||
    (RunOk(ops) && FreshRun(d, ops[..|ops| - 1]) && FreshAdd(Run(d, ops[..|ops| - 1]), ops[|ops| - 1]))
  }

  ghost function StaleAfter(d: Display, ops: seq<Op>): set<u16>
    requires Good(d) && RunOk(ops)
    decreases |ops|
  {
    if ops == [] then {}
    else Stale(Run(d, ops[..|ops| - 1]), StaleAfter(d, ops[..|ops| - 1]), ops[|ops| - 1])
  }

  /** In every run with distinct locations from an empty list, a cell shows the character of its status
      exactly when it is not stale. */
  lemma {:induction false} DisplayInEveryRun(d: Display, ops: seq<Op>)
    requires Good(d) && d.nodes == [] && RunOk(ops) && FreshRun(d, ops)
    ensures DistinctLocations(Run(d, ops).nodes)
    ensures DisplayedExcept(Run(d, ops), StaleAfter(d, ops))
    decreases |ops|
  {
    if ops != [] {
      var before := ops[..|ops| - 1];
      DisplayInEveryRun(d, before);
      StepDistinct(Run(d, before), ops[|ops| - 1]);
      StepDisplayed(Run(d, before), StaleAfter(d, before), ops[|ops| - 1]);
    }
  }

  /** Without syncs nothing is ever stale. */
  lemma {:induction false} NoSyncNoStale(d: Display, ops: seq<Op>)
    requires Good(d) && RunOk(ops)
    requires forall i :: 0 <= i < |ops| ==> !ops[i].Sync?
    ensures StaleAfter(d, ops) == {}
    decreases |ops|
  {
    if ops != [] {
      NoSyncNoStale(d, ops[..|ops| - 1]);
    }
  }

  // ---------- a batch of adds followed by clock ticks ----------

  function Adds(users: seq<Node>): (ops: seq<Op>)
    ensures |ops| == |users| && forall i :: 0 <= i < |users| ==> ops[i] == Add(users[i])
  {
    seq(|users|, i requires 0 <= i < |users| => Add(users[i]))
  }

  function Clock(t: nat): (ops: seq<Op>)
    ensures |ops| == t && forall i :: 0 <= i < t ==> ops[i] == Tick
  {
    seq(t, _ => Tick)
  }

  /** Nodes at strictly increasing valid locations. */
  ghost predicate Increasing(users: seq<Node>) {
    && (forall i :: 0 <= i < |users| ==> 1 <= users[i].location < SCREEN_CELLS)
    && (forall i, j :: 0 <= i < j < |users| ==> users[i].location < users[j].location)
  }

  lemma {:induction false} IncreasingFits(users: seq<Node>, i: nat)
    requires Increasing(users) && i < |users|
    ensures users[i].location > i
  {
    if i > 0 {
      IncreasingFits(users, i - 1);
      assert users[i - 1].location < users[i].location;
    }
  }

  /** The nodes are the started users, last one first. */
  ghost predicate Stacked(nodes: seq<Node>, users: seq<Node>) {
    forall i, j :: 0 <= i < |users| && 0 <= j < |nodes| && i + j == |users| - 1 ==> nodes[j] == Started(users[i])
  }

  /** The run of a batch ends with the add of its last user. */
  lemma AddsInit(d: Display, users: seq<Node>) returns (before: Display)
    requires Good(d) && users != [] && RunOk(Adds(users))
    ensures var n := |users| - 1;
            && RunOk(Adds(users[..n])) && before == Run(d, Adds(users[..n])) && Good(before)
            && Run(d, Adds(users)) == Step(before, Add(users[n]))
            && (FreshRun(d, Adds(users)) <==>
                  FreshRun(d, Adds(users[..n])) && FreshAdd(before, Add(users[n])))
  {
    var n := |users| - 1;
    assert Adds(users)[..n] == Adds(users[..n]);
    before := Run(d, Adds(users[..n]));
  }

  lemma {:induction false} AddsRun(d: Display, users: seq<Node>)
    requires Good(d) && d.nodes == [] && Increasing(users)
    ensures RunOk(Adds(users)) && FreshRun(d, Adds(users))
    ensures var nodes := Run(d, Adds(users)).nodes;
            |nodes| == |users| && Stacked(nodes, users)
    decreases |users|
  {
    if users != [] {
      var n := |users| - 1;
      var before := AddsInit(d, users);
      AddsRun(d, users[..n]);
      IncreasingFits(users, n);
      StackedFresh(before.nodes, users);
      StackedNext(before.nodes, users);
    }
  }

  lemma StackedNext(nodes: seq<Node>, users: seq<Node>)
    requires users != [] && |nodes| == |users| - 1 && Stacked(nodes, users[..|users| - 1])
    ensures Stacked([Started(users[|users| - 1])] + nodes, users)
  {
  }

  /** The next user's location is not in use yet. */
  lemma StackedFresh(nodes: seq<Node>, users: seq<Node>)
    requires users != [] && Increasing(users) && |nodes| == |users| - 1 && Stacked(nodes, users[..|users| - 1])
    ensures First(nodes, users[|users| - 1].location) == |nodes|
  {
    var n := |users| - 1;
    forall j | 0 <= j < |nodes|
      ensures nodes[j].location != users[n].location
    {
      var i := n - 1 - j;
      assert users[..n][i] == users[i] && users[i].location < users[n].location;
      assert nodes[j] == Started(users[i]);
    }
    FirstIs(nodes, users[n].location, n);
  }

  lemma StackedFirst(nodes: seq<Node>, users: seq<Node>, i: nat)
    requires Increasing(users) && |nodes| == |users| && Stacked(nodes, users) && i < |users|
    ensures First(nodes, users[i].location) < |nodes|
    ensures nodes[First(nodes, users[i].location)] == Started(users[i])
  {
    var k := |users| - 1 - i;
    assert nodes[k] == Started(users[i]);
    forall j | 0 <= j < k
      ensures nodes[j].location != users[i].location
    {
      var m := |users| - 1 - j;
      assert users[i].location < users[m].location && nodes[j] == Started(users[m]);
    }
    FirstIs(nodes, users[i].location, k);
  }

  lemma FreshRunTick(d: Display, ops: seq<Op>)
    requires Good(d) && RunOk(ops) && FreshRun(d, ops)
    ensures RunOk(ops + [Tick]) && FreshRun(d, ops + [Tick])
  {
  }

  lemma {:induction false} FreshRunAppendTicks(d: Display, ops: seq<Op>, t: nat)
    requires Good(d) && RunOk(ops) && FreshRun(d, ops)
    ensures RunOk(ops + Clock(t)) && FreshRun(d, ops + Clock(t))
  {
    if t == 0 {
      assert ops + Clock(0) == ops;
    } else {
      FreshRunAppendTicks(d, ops, t - 1);
      FreshRunTick(d, ops + Clock(t - 1));
      assert ops + Clock(t) == (ops + Clock(t - 1)) + [Tick];
    }
  }

  ghost predicate NothingAt(d: Display, b: int) {
    forall i :: 0 <= i < |d.nodes| ==> 2 * d.nodes[i].location != b
  }

  /** A byte that belongs to no node and to no add keeps its value. */
  lemma {:induction false} ElsewhereUnchanged(d: Display, ops: seq<Op>, b: nat)
    requires Good(d) && RunOk(ops) && b < VIDEO_BYTES && NothingAt(d, b)
    requires forall i :: 0 <= i < |ops| && ops[i].Add? ==> 2 * ops[i].user.location != b
    ensures NothingAt(Run(d, ops), b) && Run(d, ops).screen[b] == d.screen[b]
    decreases |ops|
  {
    if ops != [] {
      var before := Run(d, ops[..|ops| - 1]);
      ElsewhereUnchanged(d, ops[..|ops| - 1], b);
      if ops[|ops| - 1].Tick? {
        TickScreenElsewhere(before.nodes, before.screen, |before.nodes|, b);
      }
    }
  }

  lemma {:induction false} ClockCount(t: nat)
    ensures TickCount(Clock(t)) == t
  {
    if t > 0 {
      assert Clock(t)[..t - 1] == Clock(t - 1);
      ClockCount(t - 1);
    }
  }

  lemma AddedNode(d: Display, users: seq<Node>, i: nat)
    requires Good(d) && d.nodes == [] && Increasing(users) && i < |users|
    ensures RunOk(Adds(users))
    ensures var added := Run(d, Adds(users));
            Live(added, users[i].location) && NodeAt(added, users[i].location) == Started(users[i])
  {
    AddsRun(d, users);
    StackedFirst(Run(d, Adds(users)).nodes, users, i);
  }

  lemma BatchNode(d: Display, users: seq<Node>, t: nat, i: nat)
    requires Good(d) && d.nodes == [] && Increasing(users) && i < |users|
    ensures RunOk(Adds(users) + Clock(t))
    ensures var r := Run(d, Adds(users) + Clock(t));
            Live(r, users[i].location) && NodeAt(r, users[i].location) == PhaseOf(users[i], t)
  {
    AddedNode(d, users, i);
    RunAppend(d, Adds(users), Clock(t));
    ClockCount(t);
    RunIsolated(Run(d, Adds(users)), Clock(t), users[i].location);
    ClosedForm(users[i], t);
  }

  lemma BatchDisplayed(d: Display, users: seq<Node>, t: nat)
    requires Good(d) && d.nodes == [] && Increasing(users)
    ensures RunOk(Adds(users) + Clock(t))
    ensures DisplayedExcept(Run(d, Adds(users) + Clock(t)), {})
  {
    BatchFresh(d, users, t);
    DisplayInEveryRun(d, Adds(users) + Clock(t));
    NoSyncNoStale(d, Adds(users) + Clock(t));
  }

  /** A batch and clock ticks: no syncs, and every add at a location of its own. */
  lemma BatchFresh(d: Display, users: seq<Node>, t: nat)
    requires Good(d) && d.nodes == [] && Increasing(users)
    ensures var ops := Adds(users) + Clock(t);
            RunOk(ops) && FreshRun(d, ops) && forall i :: 0 <= i < |ops| ==> !ops[i].Sync?
  {
    AddsRun(d, users);
    FreshRunAppendTicks(d, Adds(users), t);
  }

  lemma ShownPhase(r: Display, user: Node, t: nat)
    requires Good(r) && DisplayedExcept(r, {}) && user.location < SCREEN_CELLS
    requires Live(r, user.location) && NodeAt(r, user.location) == PhaseOf(user, t)
    ensures r.screen[2 * user.location] ==
            if t % Period(user) < Span(user.onLength) then user.onChar else user.offChar
  {
    assert Agrees(NodeAt(r, user.location), r.screen);
  }

  /** Add a batch of cells, let the clock tick `t` times: every cell of the batch shows its on character during
      the on part of its period and its off character during the rest. */
  lemma Animation(d: Display, users: seq<Node>, t: nat, i: nat)
    requires Good(d) && d.nodes == [] && Increasing(users) && i < |users|
    ensures RunOk(Adds(users) + Clock(t))
    ensures Run(d, Adds(users) + Clock(t)).screen[2 * users[i].location] ==
            if t % Period(users[i]) < Span(users[i].onLength) then users[i].onChar else users[i].offChar
  {
    BatchDisplayed(d, users, t);
    BatchNode(d, users, t, i);
    ShownPhase(Run(d, Adds(users) + Clock(t)), users[i], t);
  }

  /** The same run leaves every byte of the screen alone that holds no character of the batch. */
  lemma AnimationBackground(d: Display, users: seq<Node>, t: nat, b: nat)
    requires Good(d) && d.nodes == [] && Increasing(users) && b < VIDEO_BYTES
    requires forall i :: 0 <= i < |users| ==> 2 * users[i].location != b
    ensures RunOk(Adds(users) + Clock(t))
    ensures Run(d, Adds(users) + Clock(t)).screen[b] == d.screen[b]
  {
    ElsewhereUnchanged(d, Adds(users) + Clock(t), b);
  }
}

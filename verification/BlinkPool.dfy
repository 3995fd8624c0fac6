/** The blinker's memory: 2000 slots, a list threaded through them, and first-fit allocation that takes a slot
    to be free when its location is 0. A pointer is the index of a slot, or NULL. */
module BlinkPool {
  import opened Bytes
  import opened BlinkList

  datatype Slot = Slot(node: Node, next: int)

  const NULL: int := -1
  const ZERO_SLOT := Slot(Node(0, 0, 0, 0, 0, 0, 0), NULL)

  function PtrAt(chain: seq<int>, i: nat): int {
    if i < |chain| then chain[i] else NULL
  }

  ghost predicate Pointers(chain: seq<int>) {
    && (forall i :: 0 <= i < |chain| ==> 0 <= chain[i] < SCREEN_CELLS)
    && (forall i, j :: 0 <= i < j < |chain| ==> chain[i] != chain[j])
  }

  ghost predicate LinkedAt(slots: seq<Slot>, chain: seq<int>, i: int)
    requires |slots| == SCREEN_CELLS && Pointers(chain) && 0 <= i < |chain|
  {
    slots[chain[i]].next == PtrAt(chain, i + 1)
  }

  ghost predicate LiveAt(slots: seq<Slot>, chain: seq<int>, p: int)
    requires |slots| == SCREEN_CELLS && 0 <= p < SCREEN_CELLS
  {
    p in chain <==> slots[p].node.location != 0
  }

  /** `chain` lists, in order and without repetition, the slots reachable from `head`: the list ends, and it
      visits exactly the slots whose location is not 0. */
  ghost predicate Shape(slots: seq<Slot>, head: int, chain: seq<int>) {
    && |slots| == SCREEN_CELLS
    && Pointers(chain)
    && head == PtrAt(chain, 0)
    && (forall i :: 0 <= i < |chain| ==> LinkedAt(slots, chain, i))
    && (forall p :: 0 <= p < SCREEN_CELLS ==> LiveAt(slots, chain, p))
  }

  function NodesOf(slots: seq<Slot>, chain: seq<int>): (r: seq<Node>)
    requires forall i :: 0 <= i < |chain| ==> 0 <= chain[i] < |slots|
    ensures |r| == |chain|
    ensures forall i :: 0 <= i < |chain| ==> r[i] == slots[chain[i]].node
  {
    seq(|chain|, i requires 0 <= i < |chain| => slots[chain[i]].node)
  }

  // ---------- shape lemmas ----------

  lemma {:induction false} SamePrefix(slots: seq<Slot>, head: int, a: seq<int>, b: seq<int>, n: nat)
    requires Shape(slots, head, a) && Shape(slots, head, b) && n <= |a|
    ensures PtrAt(a, n) == PtrAt(b, n)
    ensures n <= |b|
  {
    if n > 0 {
      SamePrefix(slots, head, a, b, n - 1);
      assert a[n - 1] == b[n - 1];
      assert LinkedAt(slots, a, n - 1) && LinkedAt(slots, b, n - 1);
    }
  }

  /** The list is determined by the memory. */
  lemma ChainUnique(slots: seq<Slot>, head: int, a: seq<int>, b: seq<int>)
    requires Shape(slots, head, a) && Shape(slots, head, b)
    ensures a == b
  {
    SamePrefix(slots, head, a, b, |a|);
    SamePrefix(slots, head, b, a, |b|);
    forall i | 0 <= i < |a|
      ensures a[i] == b[i]
    {
      SamePrefix(slots, head, a, b, i);
    }
  }

  ghost function Below(n: nat): (s: set<int>)
    ensures |s| == n && forall p :: p in s <==> 0 <= p < n
  {
    if n == 0 then {} else Below(n - 1) + {n - 1}
  }

  ghost function FreeSlots(slots: seq<Slot>): set<int> {
    set p | 0 <= p < |slots| && slots[p].node.location == 0
  }

  ghost function Elements(chain: seq<int>): set<int> {
    set p | p in chain
  }

  lemma {:induction false} DistinctCount(chain: seq<int>)
    requires forall i, j :: 0 <= i < j < |chain| ==> chain[i] != chain[j]
    ensures |Elements(chain)| == |chain|
  {
    if chain != [] {
      DistinctCount(chain[1..]);
      assert Elements(chain) == Elements(chain[1..]) + {chain[0]};
    }
  }

  /** Live and free slots always add up to the pool. */
  lemma PoolConserved(slots: seq<Slot>, head: int, chain: seq<int>)
    requires Shape(slots, head, chain)
    ensures |chain| + |FreeSlots(slots)| == 2000
  {
    DistinctCount(chain);
    forall p | 0 <= p < SCREEN_CELLS
      ensures p in Elements(chain) <==> p !in FreeSlots(slots)
    {
      assert LiveAt(slots, chain, p);
    }
    PoolCount(Elements(chain), FreeSlots(slots), SCREEN_CELLS);
  }

  lemma PoolCount(live: set<int>, free: set<int>, n: nat)
    requires forall p :: p in live ==> 0 <= p < n
    requires forall p :: p in free ==> 0 <= p < n
    requires forall p :: 0 <= p < n ==> (p in live <==> p !in free)
    ensures |live| + |free| == n
  {
    assert live + free == Below(n);
    assert live !! free;
  }

  /** Index of the first free slot, or the pool size. */
  function FirstFree(slots: seq<Slot>): (i: nat)
    ensures i <= |slots|
    ensures i < |slots| ==> slots[i].node.location == 0
    ensures forall j :: 0 <= j < i ==> slots[j].node.location != 0
  {
    if slots == [] then 0
    else if slots[0].node.location == 0 then 0
    else 1 + FirstFree(slots[1..])
  }

  lemma FullWhenNoneFree(slots: seq<Slot>, head: int, chain: seq<int>)
    requires Shape(slots, head, chain)
    ensures FirstFree(slots) < 2000 <==> |chain| < 2000
    ensures |chain| <= 2000
  {
    PoolConserved(slots, head, chain);
    var i := FirstFree(slots);
    if i < |slots| {
      assert i in FreeSlots(slots);
    } else {
      assert FreeSlots(slots) == {};
    }
  }

  /** What a successful add does to the memory, whatever the location. */
  function AddSlots(slots: seq<Slot>, head: int, user: Node): (r: (seq<Slot>, int))
    requires FirstFree(slots) < |slots|
    ensures |r.0| == |slots|
  {
    var p := FirstFree(slots);
    (slots[p := Slot(Started(user), head)], p)
  }

  lemma AddShape(slots: seq<Slot>, head: int, chain: seq<int>, user: Node)
    requires Shape(slots, head, chain) && FirstFree(slots) < |slots| && user.location != 0
    ensures var (slots', head') := AddSlots(slots, head, user);
            && Shape(slots', head', [head'] + chain)
            && NodesOf(slots', [head'] + chain) == [Started(user)] + NodesOf(slots, chain)
  {
    var (slots', head') := AddSlots(slots, head, user);
    var chain' := [head'] + chain;
    assert head' !in chain by {
      assert LiveAt(slots, chain, head');
    }
    assert Pointers(chain');
    forall i | 0 <= i < |chain'|
      ensures LinkedAt(slots', chain', i)
    {
      assert i > 0 ==> LinkedAt(slots, chain, i - 1);
    }
    forall p | 0 <= p < SCREEN_CELLS
      ensures LiveAt(slots', chain', p)
    {
      assert LiveAt(slots, chain, p);
    }
    AddNodes(slots, chain, head', Slot(Started(user), head));
  }

  lemma AddNodes(slots: seq<Slot>, chain: seq<int>, p: nat, slot: Slot)
    requires p < |slots| && p !in chain && forall i :: 0 <= i < |chain| ==> 0 <= chain[i] < |slots|
    ensures NodesOf(slots[p := slot], [p] + chain) == [slot.node] + NodesOf(slots, chain)
  {
  }

  /** An add that reports success keeps a well-shaped list exactly when its location is not 0. */
  lemma AddKeepsShapeIff(slots: seq<Slot>, head: int, chain: seq<int>, user: Node)
    requires Shape(slots, head, chain) && FirstFree(slots) < |slots|
    ensures var (slots', head') := AddSlots(slots, head, user);
            (exists chain' :: Shape(slots', head', chain')) <==> user.location != 0
  {
    var (slots', head') := AddSlots(slots, head, user);
    if user.location != 0 {
      AddShape(slots, head, chain, user);
    } else {
      forall chain'
        ensures !Shape(slots', head', chain')
      {
        assert PtrAt(chain', 0) == head' ==> head' in chain';
        assert |slots'| == SCREEN_CELLS;
        assert !LiveAt(slots', chain', head') || head' !in chain';
      }
    }
  }

  /** Two adds at location 0 hand out one slot twice, and the list never ends. */
  lemma ZeroLocationTwiceLoops(slots: seq<Slot>, head: int, a: Node, b: Node)
    requires FirstFree(slots) < |slots| && a.location == 0 && b.location == 0
    ensures var (slots1, head1) := AddSlots(slots, head, a);
            FirstFree(slots1) < |slots1| &&
            var (slots2, head2) := AddSlots(slots1, head1, b);
            0 <= head2 < |slots2| && slots2[head2].next == head2
  {
    var (slots1, head1) := AddSlots(slots, head, a);
    assert forall j :: 0 <= j < FirstFree(slots) ==> slots1[j] == slots[j];
    assert slots1[head1].node.location == 0;
  }

  lemma UpdateShape(slots: seq<Slot>, head: int, chain: seq<int>, k: nat, node: Node)
    requires Shape(slots, head, chain) && k < |chain|
    requires node.location == slots[chain[k]].node.location
    ensures var slots' := slots[chain[k] := slots[chain[k]].(node := node)];
            && Shape(slots', head, chain)
            && NodesOf(slots', chain) == NodesOf(slots, chain)[k := node]
  {
    var slots' := slots[chain[k] := slots[chain[k]].(node := node)];
    forall i | 0 <= i < |chain|
      ensures LinkedAt(slots', chain, i)
    {
      assert LinkedAt(slots, chain, i);
    }
    forall p | 0 <= p < SCREEN_CELLS
      ensures LiveAt(slots', chain, p)
    {
      assert LiveAt(slots, chain, p);
    }
    assert NodesOf(slots', chain) == NodesOf(slots, chain)[k := node];
  }

  /** The memory after unlinking and clearing the `k`-th slot of the list. */
  ghost function RemoveSlots(slots: seq<Slot>, head: int, chain: seq<int>, k: nat): (seq<Slot>, int)
    requires Shape(slots, head, chain) && k < |chain|
  {
    var next := slots[chain[k]].next;
    var unlinked := if k == 0 then slots else slots[chain[k - 1] := slots[chain[k - 1]].(next := next)];
    (unlinked[chain[k] := ZERO_SLOT], if k == 0 then next else head)
  }

  function Without(chain: seq<int>, k: nat): (r: seq<int>)
    requires k < |chain|
    ensures |r| == |chain| - 1
    ensures forall i :: 0 <= i < |r| ==> r[i] == if i < k then chain[i] else chain[i + 1]
  {
    chain[..k] + chain[k + 1..]
  }

  lemma WithoutIn(chain: seq<int>, k: nat, p: int)
    requires k < |chain| && Pointers(chain)
    ensures p in Without(chain, k) <==> p in chain && p != chain[k]
  {
  }

  lemma RemoveShape(slots: seq<Slot>, head: int, chain: seq<int>, k: nat)
    requires Shape(slots, head, chain) && k < |chain|
    ensures var (slots', head') := RemoveSlots(slots, head, chain, k);
            && Shape(slots', head', Without(chain, k))
            && NodesOf(slots', Without(chain, k)) == NodesOf(slots, chain)[..k] + NodesOf(slots, chain)[k + 1..]
  {
    var (slots', head') := RemoveSlots(slots, head, chain, k);
    var chain' := Without(chain, k);
    assert Pointers(chain');
    assert LinkedAt(slots, chain, k);
    forall i | 0 <= i < |chain'|
      ensures LinkedAt(slots', chain', i)
    {
      assert LinkedAt(slots, chain, if i < k then i else i + 1);
    }
    forall p | 0 <= p < SCREEN_CELLS
      ensures LiveAt(slots', chain', p)
    {
      assert LiveAt(slots, chain, p);
      WithoutIn(chain, k, p);
    }
    RemoveNodes(slots, slots', chain, k);
  }

  lemma RemoveNodes(slots: seq<Slot>, slots': seq<Slot>, chain: seq<int>, k: nat)
    requires Pointers(chain) && |slots| == |slots'| == SCREEN_CELLS && k < |chain|
    requires forall i :: 0 <= i < |chain| && i != k ==> slots'[chain[i]].node == slots[chain[i]].node
    ensures NodesOf(slots', Without(chain, k)) == NodesOf(slots, chain)[..k] + NodesOf(slots, chain)[k + 1..]
  {
  }

  // ---------- the driver ----------

  /** The list when the clock has visited its first `k` nodes. */
  ghost function TickedTo(nodes: seq<Node>, k: nat): (r: seq<Node>)
    ensures |r| == |nodes|
    ensures forall i :: 0 <= i < |nodes| ==> r[i] == if i < k then TickNode(nodes[i]) else nodes[i]
  {
    seq(|nodes|, i requires 0 <= i < |nodes| => if i < k then TickNode(nodes[i]) else nodes[i])
  }

  lemma TickedNext(nodes: seq<Node>, screen: seq<byte>, k: nat)
    requires k < |nodes| && |screen| == VIDEO_BYTES
    requires forall i :: 0 <= i < |nodes| ==> GoodNode(nodes[i])
    ensures TickedTo(nodes, k)[k := TickNode(nodes[k])] == TickedTo(nodes, k + 1)
    ensures TickScreen([nodes[k]], TickScreen(nodes, screen, k), 1) == TickScreen(nodes, screen, k + 1)
  {
  }

  lemma TicksDone(nodes: seq<Node>, screen: seq<byte>)
    requires Good(Display(nodes, screen))
    ensures var done := Display(TickedTo(nodes, |nodes|), TickScreen(nodes, screen, |nodes|));
            Good(done) && Step(Display(nodes, screen), Op.Tick) == done
  {
    StepGood(Display(nodes, screen), Op.Tick);
    assert TickedTo(nodes, |nodes|) == TickAll(nodes);
  }

  /** The conditional move: `keep` unless the flag is set. */
  function MoveIf(flag: bool, moved: byte, keep: byte): byte {
    if flag then moved else keep
  }

  class Blinker {
    const slots: array<Slot>
    const video: array<byte>
    var head: int
    ghost var chain: seq<int>

    ghost predicate Valid()
      reads this, slots, video
    {
      && slots.Length == SCREEN_CELLS
      && video.Length == VIDEO_BYTES
      && Shape(slots[..], head, chain)
      && Good(View())
    }

    ghost function View(): Display
      requires forall i :: 0 <= i < |chain| ==> 0 <= chain[i] < slots.Length
      reads this, slots, video
    {
      Display(NodesOf(slots[..], chain), video[..])
    }

    constructor (video: array<byte>)
      requires video.Length == VIDEO_BYTES
      ensures Valid() && this.video == video && fresh(slots)
      ensures View() == Display([], video[..])
    {
      this.video := video;
      slots := new Slot[SCREEN_CELLS](_ => ZERO_SLOT);
      head := NULL;
      chain := [];
    }

    /** First-fit allocation; NULL when no slot is free. */
    method Malloc() returns (p: int)
      requires Valid()
      ensures p == if FirstFree(slots[..]) < SCREEN_CELLS then FirstFree(slots[..]) else NULL
    {
      var i := 0;
      while i < SCREEN_CELLS
        invariant i <= SCREEN_CELLS
        invariant forall j :: 0 <= j < i ==> slots[j].node.location != 0
      {
        if slots[i].node.location == 0 {
          assert slots[..][i].node.location == 0;
          return i;
        }
        i := i + 1;
      }
      return NULL;
    }

    /** Pointer to the first node at `location`, or NULL. */
    method FindHelper(location: u16) returns (p: int)
      requires Valid()
      ensures p == PtrAt(chain, First(View().nodes, location))
    {
      p := head;
      ghost var k := 0;
      while p != NULL
        invariant k <= |chain| && p == PtrAt(chain, k)
        invariant forall j :: 0 <= j < k ==> View().nodes[j].location != location
        decreases |chain| - k
      {
        if slots[p].node.location == location {
          FirstIs(View().nodes, location, k);
          return;
        }
        assert LinkedAt(slots[..], chain, k);
        p := slots[p].next;
        k := k + 1;
      }
      FirstIs(View().nodes, location, k);
    }

    method Add(user: Node) returns (rc: int)
      requires Valid()
      modifies `head, `chain, slots, video
      ensures rc == if Succeeds(old(View()), Op.Add(user)) then 0 else -1
      ensures Succeeds(old(View()), Op.Add(user)) <==>
              user.location < SCREEN_CELLS && FirstFree(old(slots[..])) < SCREEN_CELLS
      ensures rc == 0 ==> (slots[..], head) == AddSlots(old(slots[..]), old(head), user)
      ensures user.location != 0 ==> Valid() && View() == Step(old(View()), Op.Add(user))
    {
      FullWhenNoneFree(slots[..], head, chain);
      if user.location >= SCREEN_CELLS {
        return -1;
      }
      var started := user.(status := 1, countdown := user.onLength);
      var p := Malloc();
      if p == NULL {
        return -1;
      }
      if user.location != 0 {
        AddShape(slots[..], head, chain, user);
      }
      slots[p] := Slot(started, head);
      head := p;
      video[2 * user.location] := user.onChar;
      chain := [p] + chain;
      return 0;
    }

    /** The link that holds `p`: the slot before it, or NULL for the list head itself. */
    method FindLink(p: int, ghost k: nat) returns (link: int)
      requires Valid() && k < |chain| && p == chain[k]
      ensures link == if k == 0 then NULL else chain[k - 1]
    {
      link := NULL;
      ghost var j := 0;
      while (if link == NULL then head else slots[link].next) != p
        invariant j <= k && link == if j == 0 then NULL else chain[j - 1]
        decreases k - j
      {
        assert j > 0 ==> LinkedAt(slots[..], chain, j - 1);
        link := if link == NULL then head else slots[link].next;
        j := j + 1;
      }
      assert j > 0 ==> LinkedAt(slots[..], chain, j - 1);
    }

    method Remove(arg: u32) returns (rc: int)
      requires Valid()
      modifies `head, `chain, slots
      ensures rc == if Succeeds(old(View()), Op.Remove(arg)) then 0 else -1
      ensures Valid() && View() == Step(old(View()), Op.Remove(arg))
    {
      var p := FindHelper(arg % 0x1_0000);
      if p == NULL {
        return -1;
      }
      ghost var k := First(View().nodes, arg % 0x1_0000);
      ghost var before := slots[..];
      RemoveShape(before, head, chain, k);
      StepGood(View(), Op.Remove(arg));
      var link := FindLink(p, k);
      var next := slots[p].next;
      if link == NULL {
        head := next;
      } else {
        slots[link] := slots[link].(next := next);
      }
      slots[p] := ZERO_SLOT;
      assert (slots[..], head) == RemoveSlots(before, old(head), chain, k);
      chain := Without(chain, k);
      return 0;
    }

    method Find(location: u16) returns (rc: int, found: Slot)
      requires Valid()
      ensures rc == if Succeeds(View(), Op.Find(location)) then 0 else -1
      ensures rc == 0 ==> found.node == NodeAt(View(), location)
      ensures rc == 0 ==> found.next == PtrAt(chain, First(View().nodes, location) + 1)
    {
      ghost var k := First(View().nodes, location);
      assert k < |chain| ==> LinkedAt(slots[..], chain, k);
      var p := FindHelper(location);
      if p == NULL {
        return -1, ZERO_SLOT;
      }
      return 0, slots[p];
    }

    method Sync(arg: u32) returns (rc: int)
      requires Valid()
      modifies slots, video
      ensures rc == if Succeeds(old(View()), Op.Sync(arg)) then 0 else -1
      ensures Valid() && View() == Step(old(View()), Op.Sync(arg))
    {
      var source := FindHelper(arg / 0x1_0000);
      if source == NULL {
        return -1;
      }
      var target := FindHelper(arg % 0x1_0000);
      if target == NULL {
        return -1;
      }
      ghost var t := First(View().nodes, arg % 0x1_0000);
      var copied := CopyTiming(slots[source].node, slots[target].node);
      UpdateShape(slots[..], head, chain, t, copied);
      slots[target] := slots[target].(node := copied);
      // the test leaves the sign and overflow flags clear, so the signed-less move never happens
      var signFlag := copied.status % 2 >= 0x80;
      video[2 * copied.location] := MoveIf(signFlag, copied.onChar, copied.offChar);
      return 0;
    }

    /** The tasklet's work on one node. */
    method TickSlot(p: int)
      requires 0 <= p < slots.Length && video.Length == VIDEO_BYTES && GoodNode(slots[p].node)
      modifies slots, video
      ensures slots[..] == old(slots[..])[p := old(slots[p]).(node := TickNode(old(slots[p].node)))]
      ensures video[..] == TickScreen([old(slots[p].node)], old(video[..]), 1)
    {
      var n := slots[p].node;
      var c := Decrement(n.countdown);
      if SignedPositive(c) {
        slots[p] := slots[p].(node := n.(countdown := c));
      } else if n.status % 2 == 1 {
        video[2 * n.location] := n.offChar;
        slots[p] := slots[p].(node := n.(countdown := n.offLength, status := FlipBit0(n.status)));
      } else {
        video[2 * n.location] := n.onChar;
        slots[p] := slots[p].(node := n.(countdown := n.onLength, status := FlipBit0(n.status)));
      }
      assert TickScreen([n], old(video[..]), 0) == old(video[..]);
    }

    /** The clock has visited the first `k` nodes of the list `nodes`. */
    ghost predicate Ticked(nodes: seq<Node>, screen: seq<byte>, k: nat)
      requires |screen| == VIDEO_BYTES && k <= |nodes|
      requires forall i :: 0 <= i < |nodes| ==> GoodNode(nodes[i])
      reads this, slots, video
    {
      && slots.Length == SCREEN_CELLS && video.Length == VIDEO_BYTES && |chain| == |nodes|
      && Shape(slots[..], head, chain)
      && NodesOf(slots[..], chain) == TickedTo(nodes, k)
      && video[..] == TickScreen(nodes, screen, k)
    }

    /** One turn of the tasklet's loop; returns the next pointer of the list. */
    method Visit(p: int, ghost nodes: seq<Node>, ghost screen: seq<byte>, ghost k: nat) returns (next: int)
      requires |screen| == VIDEO_BYTES && k < |nodes| == |chain| && p == chain[k]
      requires forall i :: 0 <= i < |nodes| ==> GoodNode(nodes[i])
      requires Ticked(nodes, screen, k)
      modifies slots, video
      ensures Ticked(nodes, screen, k + 1) && next == PtrAt(chain, k + 1)
    {
      ghost var memory := slots[..];
      assert memory[p].node == NodesOf(memory, chain)[k] == nodes[k];
      UpdateShape(memory, head, chain, k, TickNode(nodes[k]));
      TickedNext(nodes, screen, k);
      assert LinkedAt(memory, chain, k);
      TickSlot(p);
      next := slots[p].next;
    }

    method Tick()
      requires Valid()
      modifies slots, video
      ensures Valid() && View() == Step(old(View()), Op.Tick)
    {
      ghost var nodes, screen := View().nodes, View().screen;
      assert TickedTo(nodes, 0) == nodes;
      TicksDone(nodes, screen);
      VisitAll(nodes, screen);
    }

    /** The tasklet's loop. */
    method VisitAll(ghost nodes: seq<Node>, ghost screen: seq<byte>)
      requires |screen| == VIDEO_BYTES
      requires forall i :: 0 <= i < |nodes| ==> GoodNode(nodes[i])
      requires Ticked(nodes, screen, 0)
      modifies slots, video
      ensures Ticked(nodes, screen, |nodes|)
    {
      var p := head;
      ghost var k := 0;
      while p != NULL
        invariant k <= |chain| == |nodes| && p == PtrAt(chain, k)
        invariant Ticked(nodes, screen, k)
        decreases |chain| - k
      {
        p := Visit(p, nodes, screen, k);
        k := k + 1;
      }
    }

    /** Any sequence of driver calls refines the plain list. */
    method Perform(ops: seq<Op>)
      requires Valid() && RunOk(ops)
      modifies `head, `chain, slots, video
      ensures Valid() && View() == Run(old(View()), ops)
    {
      ghost var start := View();
      var i := 0;
      while i < |ops|
        invariant i <= |ops| && Valid()
        invariant View() == Run(start, ops[..i])
      {
        match ops[i] {
          case Add(user) => var _ := Add(user);
          case Remove(arg) => var _ := Remove(arg);
          case Find(location) => var _, _ := Find(location);
          case Sync(arg) => var _ := Sync(arg);
          case Tick => Tick();
        }
        assert ops[..i + 1][..i] == ops[..i];
        i := i + 1;
      }
      assert ops[..i] == ops;
    }
  }
}

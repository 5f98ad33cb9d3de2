/** hub.go: broadcasts reach every client through three bounded queues, each of which drops its oldest
    entry rather than block. First the calls as the program makes them, then every interleaving of their
    single channel operations. */
module Hub {
  import opened Disk
  import opened Ring

  // ---------- The calls, uninterrupted ----------

  class Client {
    const inboxDepth: nat
    const outDepth: nat
    var inbox: seq<seq<byte>>
    var out: seq<seq<byte>>

    ghost predicate Valid()
      reads this
    {
      0 < inboxDepth && |inbox| <= inboxDepth && 0 < outDepth && |out| <= outDepth
    }

    constructor (inboxDepth: nat, outDepth: nat)
      requires inboxDepth > 0 && outDepth > 0
      ensures Valid() && inbox == [] && out == []
    {
      this.inboxDepth, this.outDepth := inboxDepth, outDepth;
      inbox, out := [], [];
    }

    /** One turn of drain: the oldest inbox entry goes out, pushing old output away if need be. */
    method Drain()
      requires Valid() && inbox != []
      modifies this
      ensures Valid() && inbox == old(inbox)[1..]
      ensures out == LastN(old(out) + [old(inbox)[0]], outDepth)
    {
      var data := inbox[0];
      inbox := inbox[1..];
      while |out| >= outDepth
        invariant |out| <= outDepth && inbox == old(inbox)[1..]
        invariant LastN(out + [data], outDepth) == LastN(old(out) + [data], outDepth)
        decreases |out|
      {
        out := out[1..];
      }
      out := out + [data];
    }
  }

  class Hub {
    const queueDepth: nat
    var queue: seq<seq<byte>>
    var clients: set<Client>

    ghost predicate Valid()
      reads this, clients
    {
      0 < queueDepth && |queue| <= queueDepth && forall c :: c in clients ==> c.Valid()
    }

    constructor (queueDepth: nat)
      requires queueDepth > 0
      ensures Valid() && queue == [] && clients == {}
    {
      this.queueDepth := queueDepth;
      queue, clients := [], {};
    }

    method Broadcast(data: seq<byte>)
      requires Valid()
      modifies this`queue
      ensures Valid()
      ensures queue == if data == [] then old(queue) else LastN(old(queue) + [data], queueDepth)
    {
      if |data| == 0 {
        return;
      }
      if |queue| < queueDepth {
        queue := queue + [data];
        return;
      }
      if |queue| > 0 {
        queue := queue[1..];
      }
      if |queue| < queueDepth {
        queue := queue + [data];
      }
    }

    /** Hands one entry to every client, in whatever order the map yields them. */
    method Dispatch(data: seq<byte>)
      requires Valid()
      modifies clients
      ensures Valid() && queue == old(queue) && clients == old(clients)
      ensures forall c :: c in clients ==>
        c.inbox == LastN(old(c.inbox) + [data], c.inboxDepth) && c.out == old(c.out)
    {
      var todo := clients;
      while todo != {}
        invariant todo <= clients == old(clients) && Valid()
        invariant forall c :: c in clients ==> c.out == old(c.out)
        invariant forall c :: c in clients ==>
          c.inbox == if c in todo then old(c.inbox) else LastN(old(c.inbox) + [data], c.inboxDepth)
        decreases |todo|
      {
        var c :| c in todo;
        todo := todo - {c};
        if |c.inbox| < c.inboxDepth {
          c.inbox := c.inbox + [data];
          continue;
        }
        if |c.inbox| > 0 {
          c.inbox := c.inbox[1..];
        }
        if |c.inbox| < c.inboxDepth {
          c.inbox := c.inbox + [data];
        }
      }
    }
  }

  // ---------- Every interleaving ----------

  /** A broadcast with its position among all broadcasts. */
  datatype Item = Item(index: nat, data: seq<byte>)

  /** What a goroutine holds between two channel operations on a full queue: nothing, an entry it has just
      failed to send, or one for which it has already made room. */
  datatype Pending = Idle | Blocked(item: Item) | Retrying(item: Item)

  datatype ClientState = ClientState(
    inbox: seq<Item>,
    held: Pending,            // what drain has taken from the inbox and not yet put out
    out: seq<Item>,
    delivered: seq<Item>      // what the reader has received, in order
  )

  datatype HubState = HubState(
    log: seq<seq<byte>>,      // every broadcast so far
    sending: Pending,         // the broadcast under way
    queue: seq<Item>,
    dispatching: seq<Item>,   // the entry being dispatched, if any
    todo: set<nat>,           // clients it has not reached yet
    current: nat,             // the client whose inbox is being made room in
    making: Pending,          // how far that is
    clients: map<nat, ClientState>,
    registered: set<nat>
  )

  datatype Depths = Depths(queue: nat, inbox: nat, out: nat)

  datatype HubStep =
    | Register(c: nat) | Unregister(c: nat)
    | Broadcast(data: seq<byte>) | BroadcastDrop | BroadcastRetry
    | DispatchTake | DispatchTry(c: nat) | DispatchDrop | DispatchRetry | DispatchDone
    | DrainTake(c: nat) | DrainTry(c: nat) | DrainDrop(c: nat)
    | Receive(c: nat)

  ghost predicate Enabled(s: HubState, step: HubStep) {
    match step
    case Register(c) => c !in s.clients && s.dispatching == []   // Register takes the write lock
    case Unregister(c) => c in s.registered && s.dispatching == []
    case Broadcast(data) => s.sending.Idle? && data != []
    case BroadcastDrop => s.sending.Blocked?
    case BroadcastRetry => s.sending.Retrying?
    case DispatchTake => s.dispatching == [] && s.queue != []
    case DispatchTry(c) => s.dispatching != [] && c in s.todo && c in s.clients && s.making.Idle?
    case DispatchDrop => s.making.Blocked? && s.current in s.clients
    case DispatchRetry => s.making.Retrying? && s.current in s.clients
    case DispatchDone => s.dispatching != [] && s.todo == {} && s.making.Idle?
    case DrainTake(c) => c in s.clients && s.clients[c].held.Idle? && s.clients[c].inbox != []
    case DrainTry(c) => c in s.clients && s.clients[c].held.Retrying?
    case DrainDrop(c) => c in s.clients && s.clients[c].held.Blocked?
    case Receive(c) => c in s.clients && s.clients[c].out != []
  }

  ghost function Rest<T>(q: seq<T>): seq<T> {
    if q == [] then q else q[1..]
  }

  ghost function Next(s: HubState, step: HubStep, depths: Depths): HubState
    requires Enabled(s, step)
  {
    match step
    case Register(c) => s.(clients := s.clients[c := ClientState([], Idle, [], [])], registered := s.registered + {c})
    case Unregister(c) => s.(registered := s.registered - {c})
    case Broadcast(data) =>
      var item := Item(|s.log|, data);
      var s1 := s.(log := s.log + [data]);
      if |s.queue| < depths.queue then s1.(queue := s.queue + [item]) else s1.(sending := Blocked(item))
    case BroadcastDrop => s.(queue := Rest(s.queue), sending := Retrying(s.sending.item))
    case BroadcastRetry =>
      if |s.queue| < depths.queue then s.(queue := s.queue + [s.sending.item], sending := Idle)
      else s.(sending := Idle)
    case DispatchTake => s.(dispatching := [s.queue[0]], queue := s.queue[1..], todo := s.registered)
    case DispatchTry(c) =>
      var k := s.clients[c];
      if |k.inbox| < depths.inbox
      then s.(clients := s.clients[c := k.(inbox := k.inbox + s.dispatching)], todo := s.todo - {c})
      else s.(current := c, making := Blocked(s.dispatching[0]))
    case DispatchDrop =>
      var k := s.clients[s.current];
      s.(clients := s.clients[s.current := k.(inbox := Rest(k.inbox))], making := Retrying(s.making.item))
    case DispatchRetry =>
      var k := s.clients[s.current];
      var s1 := s.(making := Idle, todo := s.todo - {s.current});
      if |k.inbox| < depths.inbox
      then s1.(clients := s.clients[s.current := k.(inbox := k.inbox + s.dispatching)])
      else s1
    case DispatchDone => s.(dispatching := [])
    case DrainTake(c) =>
      var k := s.clients[c];
      s.(clients := s.clients[c := k.(inbox := k.inbox[1..], held := Retrying(k.inbox[0]))])
    case DrainTry(c) =>
      var k := s.clients[c];
      s.(clients := s.clients[c :=
        if |k.out| < depths.out then k.(out := k.out + [k.held.item], held := Idle)
        else k.(held := Blocked(k.held.item))])
    case DrainDrop(c) =>
      var k := s.clients[c];
      s.(clients := s.clients[c := k.(out := Rest(k.out), held := Retrying(k.held.item))])
    case Receive(c) =>
      var k := s.clients[c];
      s.(clients := s.clients[c := k.(delivered := k.delivered + [k.out[0]], out := k.out[1..])])
  }

  ghost function Held(p: Pending): seq<Item> {
    if p.Idle? then [] else [p.item]
  }

  /** Items in broadcast order, none twice. */
  ghost predicate Increasing(items: seq<Item>) {
    forall i, j :: 0 <= i < j < |items| ==> items[i].index < items[j].index
  }

  /** Everything on its way to a client, the part nearest to the reader first. */
  ghost function Chain(s: HubState, c: nat): seq<Item>
    requires c in s.clients
  {
    Near(s.clients[c]) + Ahead(s, c)
  }

  /** The part of the chain the client has taken in. */
  ghost function Near(k: ClientState): seq<Item> {
    k.delivered + k.out + Held(k.held) + k.inbox
  }

  /** The part of the chain that has not reached the client's inbox. */
  ghost function Ahead(s: HubState, c: nat): seq<Item> {
    (if c in s.todo then s.dispatching else []) + s.queue + Held(s.sending)
  }

  /** The items are broadcasts. */
  ghost predicate Logged(items: seq<Item>, log: seq<seq<byte>>) {
    forall i :: 0 <= i < |items| ==> items[i].index < |log| && items[i].data == log[items[i].index]
  }

  ghost predicate InTransit(s: HubState, items: seq<Item>) {
    Increasing(items) && Logged(items, s.log)
  }

  ghost predicate HubInv(s: HubState, depths: Depths) {
    && depths.queue > 0 && depths.inbox > 0 && depths.out > 0
    && InTransit(s, s.dispatching + s.queue + Held(s.sending))
    && (forall c :: c in s.clients ==> InTransit(s, Chain(s, c)))
    && |s.dispatching| <= 1
    && s.registered <= s.clients.Keys && s.todo <= s.clients.Keys
    && (s.dispatching == [] ==> s.todo == {} && s.making.Idle?)
    && (!s.making.Idle? ==> s.current in s.todo)
    && (s.sending.Retrying? ==> |s.queue| < depths.queue)
    && (s.making.Retrying? ==> |s.clients[s.current].inbox| < depths.inbox)
    && |s.queue| <= depths.queue && forall c :: c in s.clients ==> |s.clients[c].inbox| <= depths.inbox
  }

  ghost function InitHub(): HubState {
    HubState([], Idle, [], [], {}, 0, Idle, map[], {})
  }

  /** b is a, or a without one of its entries. */
  ghost predicate Shrinks(a: seq<Item>, b: seq<Item>) {
    b == a || exists i :: 0 <= i < |a| && b == a[..i] + a[i + 1..]
  }

  lemma SameIsShrunk(a: seq<Item>)
    ensures Shrinks(a, a)
  {
  }

  lemma ShrinksAt(a: seq<Item>, x: Item, b: seq<Item>)
    ensures Shrinks(a + [x] + b, a + b)
  {
    var all := a + [x] + b;
    assert all[..|a|] + all[|a| + 1..] == a + b;
  }

  /** Shrinking a part shrinks the whole. */
  lemma ShrinksInside(head: seq<Item>, a: seq<Item>, b: seq<Item>, tail: seq<Item>)
    requires Shrinks(a, b)
    ensures Shrinks(head + a + tail, head + b + tail)
  {
    if b != a {
      var i :| 0 <= i < |a| && b == a[..i] + a[i + 1..];
      assert head + a + tail == (head + a[..i]) + [a[i]] + (a[i + 1..] + tail);
      ShrinksAt(head + a[..i], a[i], a[i + 1..] + tail);
      assert head + b + tail == (head + a[..i]) + (a[i + 1..] + tail);
    }
  }

  lemma ShrinkingKeeps(s: HubState, a: seq<Item>, b: seq<Item>)
    requires InTransit(s, a) && Shrinks(a, b)
    ensures InTransit(s, b)
  {
    if b != a {
      var i :| 0 <= i < |a| && b == a[..i] + a[i + 1..];
      assert a == a[..i] + [a[i]] + a[i + 1..];
      WithoutOne(s, a[..i], a[i], a[i + 1..]);
    }
  }

  /** Losing one item keeps the order. */
  lemma WithoutOne(s: HubState, a: seq<Item>, x: Item, b: seq<Item>)
    requires InTransit(s, a + [x] + b)
    ensures InTransit(s, a + b)
  {
    var all, some := a + [x] + b, a + b;
    forall i | 0 <= i < |some| ensures some[i] == all[if i < |a| then i else i + 1] {}
  }

  /** A new broadcast is later than everything under way. */
  lemma NewestLast(s: HubState, items: seq<Item>, data: seq<byte>)
    requires InTransit(s, items)
    ensures InTransit(s.(log := s.log + [data]), items + [Item(|s.log|, data)])
    ensures InTransit(s.(log := s.log + [data]), items)
  {
  }

  /** The entries not yet handed to every client stay in order. */
  lemma AheadNext(s: HubState, step: HubStep, depths: Depths)
    requires HubInv(s, depths) && Enabled(s, step)
    ensures var t := Next(s, step, depths); InTransit(t, t.dispatching + t.queue + Held(t.sending))
  {
    hide Increasing, Logged, Chain;
    var t := Next(s, step, depths);
    var was, now := s.dispatching + s.queue + Held(s.sending), t.dispatching + t.queue + Held(t.sending);
    match step
    case Broadcast(data) =>
      NewestLast(s, was, data);
      assert now == was + [Item(|s.log|, data)];
    case BroadcastDrop =>
      if s.queue != [] {
        assert was == s.dispatching + [s.queue[0]] + (s.queue[1..] + Held(s.sending));
        WithoutOne(s, s.dispatching, s.queue[0], s.queue[1..] + Held(s.sending));
        assert now == s.dispatching + (s.queue[1..] + Held(s.sending));
      }
    case DispatchDone =>
      assert was == [] + [s.dispatching[0]] + now;
      WithoutOne(s, [], s.dispatching[0], now);
      assert [] + now == now;
    case _ =>
      assert now == was;
  }

  /** Dropping a broadcast, taking one up and finishing with one only ever shorten what lies ahead of a
      client. */
  lemma AheadShrinks(s: HubState, step: HubStep, depths: Depths, c: nat)
    requires HubInv(s, depths) && Enabled(s, step)
    requires step.BroadcastDrop? || step.BroadcastRetry? || step.DispatchTake? || step.DispatchDone?
    ensures Shrinks(Ahead(s, c), Ahead(Next(s, step, depths), c))
  {
    if step.BroadcastDrop? {
      DropShrinks(s, depths, c);
    } else if step.DispatchTake? {
      TakeShrinks(s, depths, c);
    } else {
      hide InTransit, Chain;
      assert Ahead(Next(s, step, depths), c) == Ahead(s, c);
    }
  }

  lemma DropShrinks(s: HubState, depths: Depths, c: nat)
    requires Enabled(s, BroadcastDrop)
    ensures Shrinks(Ahead(s, c), Ahead(Next(s, BroadcastDrop, depths), c))
  {
    hide Shrinks;
    SameIsShrunk(Ahead(s, c));
    if s.queue != [] {
      var disp := if c in s.todo then s.dispatching else [];
      var tail := s.queue[1..] + Held(s.sending);
      ShrinksAt(disp, s.queue[0], tail);
      assert Ahead(s, c) == disp + [s.queue[0]] + tail;
      assert Ahead(Next(s, BroadcastDrop, depths), c) == disp + tail;
    }
  }

  lemma TakeShrinks(s: HubState, depths: Depths, c: nat)
    requires Enabled(s, DispatchTake)
    ensures Shrinks(Ahead(s, c), Ahead(Next(s, DispatchTake, depths), c))
  {
    hide Shrinks;
    SameIsShrunk(Ahead(s, c));
    var t := Next(s, DispatchTake, depths);
    var tail := s.queue[1..] + Held(s.sending);
    ShrinksAt([], s.queue[0], tail);
    assert Ahead(s, c) == [] + [s.queue[0]] + tail;
    if c in s.registered {
      assert Ahead(t, c) == [] + [s.queue[0]] + tail;
    } else {
      assert Ahead(t, c) == [] + tail;
    }
  }

  /** Moving an entry on inside a client leaves what the client has taken in alone. */
  lemma MovesInside(k: ClientState)
    ensures k.held.Idle? && k.inbox != [] ==>
      Near(k.(inbox := k.inbox[1..], held := Retrying(k.inbox[0]))) == Near(k)
    ensures !k.held.Idle? ==> Near(k.(out := k.out + [k.held.item], held := Idle)) == Near(k)
    ensures !k.held.Idle? ==> Near(k.(held := Blocked(k.held.item))) == Near(k)
    ensures k.out != [] ==> Near(k.(delivered := k.delivered + [k.out[0]], out := k.out[1..])) == Near(k)
  {
  }

  /** Making room in a client's queues shortens it. */
  lemma MakesRoom(k: ClientState)
    ensures Shrinks(Near(k), Near(k.(inbox := Rest(k.inbox))))
    ensures k.held.Blocked? ==> Shrinks(Near(k), Near(k.(out := Rest(k.out), held := Retrying(k.held.item))))
  {
    hide Shrinks, Near;
    SameIsShrunk(Near(k));
    if k.inbox != [] {
      InboxShrinks(k);
    }
    MakesRoomForNothing(k);
    if k.held.Blocked? && k.out != [] {
      OutShrinks(k);
    }
  }

  lemma InboxShrinks(k: ClientState)
    requires k.inbox != []
    ensures Shrinks(Near(k), Near(k.(inbox := Rest(k.inbox))))
  {
    hide Shrinks;
    var head := k.delivered + k.out + Held(k.held);
    assert Near(k) == head + [k.inbox[0]] + k.inbox[1..];
    ShrinksAt(head, k.inbox[0], k.inbox[1..]);
  }

  lemma OutShrinks(k: ClientState)
    requires k.held.Blocked? && k.out != []
    ensures Shrinks(Near(k), Near(k.(out := Rest(k.out), held := Retrying(k.held.item))))
  {
    hide Shrinks;
    var tail := k.out[1..] + Held(k.held) + k.inbox;
    assert Near(k.(out := Rest(k.out), held := Retrying(k.held.item))) == k.delivered + tail;
    assert Near(k) == k.delivered + [k.out[0]] + tail;
    ShrinksAt(k.delivered, k.out[0], tail);
  }

  lemma NearShrinks(s: HubState, step: HubStep, depths: Depths, c: nat)
    requires Enabled(s, step) && c in s.clients
    requires step.DispatchDrop? || step.DrainTake? || step.DrainTry? || step.DrainDrop? || step.Receive?
    ensures c in Next(s, step, depths).clients
    ensures Shrinks(Near(s.clients[c]), Near(Next(s, step, depths).clients[c]))
  {
    hide Near;
    MovesInside(s.clients[c]);
    MakesRoom(s.clients[c]);
  }

  /** Putting the dispatched entry into an inbox moves it from ahead of the client to the client. */
  lemma DispatchMoves(s: HubState, step: HubStep, depths: Depths, c: nat)
    requires HubInv(s, depths) && Enabled(s, step) && c in s.clients
    requires step.DispatchTry? || step.DispatchRetry?
    ensures Chain(Next(s, step, depths), c) == Chain(s, c)
  {
    hide InTransit;
    var t := Next(s, step, depths);
    var k := s.clients[c];
    assert Ahead(s, c) == (if c in s.todo then s.dispatching else []) + Ahead(s.(todo := s.todo - {c}), c);
    if t.clients[c] != k {
      assert Near(t.clients[c]) == Near(k) + s.dispatching;
    }
  }

  lemma ChainNext(s: HubState, step: HubStep, depths: Depths, c: nat)
    requires HubInv(s, depths) && Enabled(s, step)
    requires c in Next(s, step, depths).clients
    ensures InTransit(Next(s, step, depths), Chain(Next(s, step, depths), c))
  {
    hide HubInv, Next, InTransit, Chain;
    ClientsStay(s, step, depths);
    match step
    case Register(d) => RegisterStep(s, d, depths, c);
    case Unregister(d) => UnregisterStep(s, d, depths, c);
    case Broadcast(data) => BroadcastStep(s, data, depths, c);
    case DispatchTry(_) => MovingStep(s, step, depths, c);
    case DispatchRetry => MovingStep(s, step, depths, c);
    case BroadcastDrop => AheadStep(s, step, depths, c);
    case BroadcastRetry => AheadStep(s, step, depths, c);
    case DispatchTake => AheadStep(s, step, depths, c);
    case DispatchDone => AheadStep(s, step, depths, c);
    case _ => NearStep(s, step, depths, c);
  }

  lemma ClientsStay(s: HubState, step: HubStep, depths: Depths)
    requires HubInv(s, depths) && Enabled(s, step)
    ensures Next(s, step, depths).clients.Keys == s.clients.Keys + if step.Register? then {step.c} else {}
    ensures forall c :: c in s.clients ==> InTransit(s, Chain(s, c))
  {
    hide InTransit, Chain;
  }

  lemma RegisterStep(s: HubState, d: nat, depths: Depths, c: nat)
    requires HubInv(s, depths) && Enabled(s, Register(d)) && (c == d || c in s.clients)
    ensures InTransit(Next(s, Register(d), depths), Chain(Next(s, Register(d), depths), c))
  {
    hide Increasing, Logged, Near;
    var t := Next(s, Register(d), depths);
    NothingNear();
    if c == d {
      assert Chain(t, c) == s.dispatching + s.queue + Held(s.sending);
    } else {
      assert Chain(t, c) == Chain(s, c);
    }
  }

  lemma UnregisterStep(s: HubState, d: nat, depths: Depths, c: nat)
    requires HubInv(s, depths) && Enabled(s, Unregister(d)) && c in s.clients
    ensures InTransit(Next(s, Unregister(d), depths), Chain(Next(s, Unregister(d), depths), c))
  {
    hide Increasing, Logged, Near, Held;
    assert Chain(Next(s, Unregister(d), depths), c) == Chain(s, c);
  }

  lemma BroadcastStep(s: HubState, data: seq<byte>, depths: Depths, c: nat)
    requires HubInv(s, depths) && Enabled(s, Broadcast(data)) && c in s.clients
    ensures InTransit(Next(s, Broadcast(data), depths), Chain(Next(s, Broadcast(data), depths), c))
  {
    hide Increasing, Logged, Near;
    var t := Next(s, Broadcast(data), depths);
    NewestLast(s, Chain(s, c), data);
    BroadcastAhead(s, data, depths, c);
    assert Chain(t, c) == Chain(s, c) + [Item(|s.log|, data)];
  }

  lemma BroadcastAhead(s: HubState, data: seq<byte>, depths: Depths, c: nat)
    requires Enabled(s, Broadcast(data)) && c in s.clients
    ensures Ahead(Next(s, Broadcast(data), depths), c) == Ahead(s, c) + [Item(|s.log|, data)]
  {
  }

  lemma MovingStep(s: HubState, step: HubStep, depths: Depths, c: nat)
    requires HubInv(s, depths) && Enabled(s, step) && c in s.clients
    requires step.DispatchTry? || step.DispatchRetry?
    ensures InTransit(Next(s, step, depths), Chain(Next(s, step, depths), c))
  {
    hide Increasing, Logged, Near, Ahead;
    DispatchMoves(s, step, depths, c);
  }

  lemma NothingNear()
    ensures Near(ClientState([], Idle, [], [])) == []
  {
  }

  lemma AheadStep(s: HubState, step: HubStep, depths: Depths, c: nat)
    requires HubInv(s, depths) && Enabled(s, step) && c in s.clients
    requires step.BroadcastDrop? || step.BroadcastRetry? || step.DispatchTake? || step.DispatchDone?
    ensures InTransit(Next(s, step, depths), Chain(Next(s, step, depths), c))
  {
    hide Increasing, Logged, Near, Shrinks, Ahead;
    var t := Next(s, step, depths);
    var near := Near(s.clients[c]);
    AheadShrinks(s, step, depths, c);
    ShrinksInside(near, Ahead(s, c), Ahead(t, c), []);
    assert near + Ahead(s, c) + [] == Chain(s, c) && near + Ahead(t, c) + [] == Chain(t, c);
    ShrinkingKeeps(s, Chain(s, c), Chain(t, c));
  }

  lemma NearStep(s: HubState, step: HubStep, depths: Depths, c: nat)
    requires HubInv(s, depths) && Enabled(s, step) && c in s.clients
    requires step.DispatchDrop? || step.DrainTake? || step.DrainTry? || step.DrainDrop? || step.Receive?
    ensures InTransit(Next(s, step, depths), Chain(Next(s, step, depths), c))
  {
    hide Increasing, Logged, Near, Shrinks;
    var t := Next(s, step, depths);
    NearShrinks(s, step, depths, c);
    assert Ahead(t, c) == Ahead(s, c);
    hide Ahead;
    ShrinksInside([], Near(s.clients[c]), Near(t.clients[c]), Ahead(s, c));
    assert [] + Near(s.clients[c]) + Ahead(s, c) == Chain(s, c);
    assert [] + Near(t.clients[c]) + Ahead(s, c) == Chain(t, c);
    ShrinkingKeeps(s, Chain(s, c), Chain(t, c));
  }

  lemma BookkeepingNext(s: HubState, step: HubStep, depths: Depths)
    requires HubInv(s, depths) && Enabled(s, step)
    ensures var t := Next(s, step, depths);
      && |t.dispatching| <= 1
      && t.registered <= t.clients.Keys && t.todo <= t.clients.Keys
      && (t.dispatching == [] ==> t.todo == {} && t.making.Idle?)
      && (!t.making.Idle? ==> t.current in t.todo)
      && (t.sending.Retrying? ==> |t.queue| < depths.queue)
      && (t.making.Retrying? ==> |t.clients[t.current].inbox| < depths.inbox)
      && |t.queue| <= depths.queue && forall c :: c in t.clients ==> |t.clients[c].inbox| <= depths.inbox
  {
    hide InTransit, Chain;
  }

  lemma HubInvNext(s: HubState, step: HubStep, depths: Depths)
    requires HubInv(s, depths) && Enabled(s, step)
    ensures HubInv(Next(s, step, depths), depths)
  {
    AheadNext(s, step, depths);
    BookkeepingNext(s, step, depths);
    hide Next, InTransit, Chain, Enabled;
    forall c | c in Next(s, step, depths).clients
      ensures InTransit(Next(s, step, depths), Chain(Next(s, step, depths), c))
    {
      ChainNext(s, step, depths, c);
    }
  }

  ghost predicate HubReaches(s: HubState, steps: seq<HubStep>, t: HubState, depths: Depths)
    decreases |steps|
  {
    if steps == [] then s == t
    else Enabled(s, steps[0]) && HubReaches(Next(s, steps[0], depths), steps[1..], t, depths)
  }

  lemma {:induction false} HubRunInv(s: HubState, steps: seq<HubStep>, t: HubState, depths: Depths)
    requires HubInv(s, depths) && HubReaches(s, steps, t, depths)
    ensures HubInv(t, depths)
    decreases |steps|
  {
    hide HubInv, Next, Enabled;
    if steps != [] {
      HubInvNext(s, steps[0], depths);
      HubRunInv(Next(s, steps[0], depths), steps[1..], t, depths);
    }
  }

  lemma InitHubInv(depths: Depths)
    requires depths.queue > 0 && depths.inbox > 0 && depths.out > 0
    ensures HubInv(InitHub(), depths)
  {
  }

  lemma DeliveredFirst(s: HubState, c: nat)
    requires c in s.clients
    ensures s.clients[c].delivered <= Chain(s, c)
  {
    var k := s.clients[c];
    assert Chain(s, c) == k.delivered + (k.out + Held(k.held) + k.inbox + Ahead(s, c));
  }

  /** However the stages interleave and whatever they discard, each client receives broadcasts in the
      order they were made, none twice and none altered; and a broadcast or a dispatch that has made room
      finds it, so neither loses the entry it is sending. */
  lemma ClientsSeeSubsequences(steps: seq<HubStep>, t: HubState, depths: Depths)
    requires depths.queue > 0 && depths.inbox > 0 && depths.out > 0
    requires HubReaches(InitHub(), steps, t, depths)
    ensures forall c :: c in t.clients ==>
      Increasing(t.clients[c].delivered) && Logged(t.clients[c].delivered, t.log)
    ensures t.sending.Retrying? ==> Next(t, BroadcastRetry, depths).queue == t.queue + [t.sending.item]
    ensures t.making.Retrying? ==>
      && t.current in t.clients && t.dispatching != []
      && Next(t, DispatchRetry, depths).clients[t.current].inbox == t.clients[t.current].inbox + t.dispatching
  {
    hide HubReaches, Chain;
    InitHubInv(depths);
    HubRunInv(InitHub(), steps, t, depths);
    forall c | c in t.clients
      ensures Increasing(t.clients[c].delivered) && Logged(t.clients[c].delivered, t.log)
    {
      var k := t.clients[c];
      DeliveredFirst(t, c);
      assert forall i :: 0 <= i < |k.delivered| ==> Chain(t, c)[i] == k.delivered[i];
    }
  }

  /** Whatever holds of every broadcast holds of everything a client receives. */
  lemma DeliveredKeeps(steps: seq<HubStep>, t: HubState, depths: Depths, good: seq<byte> -> bool, c: nat, i: nat)
    requires depths.queue > 0 && depths.inbox > 0 && depths.out > 0
    requires HubReaches(InitHub(), steps, t, depths)
    requires forall data :: data in t.log ==> good(data)
    requires c in t.clients && i < |t.clients[c].delivered|
    ensures good(t.clients[c].delivered[i].data)
  {
    ClientsSeeSubsequences(steps, t, depths);
    var item := t.clients[c].delivered[i];
    assert t.log[item.index] in t.log;
  }

  // ---------- What is not lost ----------

  /** The step takes an entry out of a queue on its way to client c and throws it away. */
  ghost predicate Loses(s: HubState, step: HubStep, c: nat)
    requires c in s.clients
  {
    || (step.BroadcastDrop? && s.queue != [])
    || (step.DispatchDrop? && s.current == c && s.clients[c].inbox != [])
    || (step == DrainDrop(c) && s.clients[c].out != [])
  }

  /** The broadcasts from one on. */
  ghost function ItemsFrom(log: seq<seq<byte>>, from: nat): seq<Item>
    requires from <= |log|
  {
    seq(|log| - from, i requires 0 <= i < |log| - from => Item(from + i, log[from + i]))
  }

  /** A step that loses nothing keeps all that is on its way to a registered client, in order, with a new
      broadcast behind it. */
  lemma StepConserves(s: HubState, step: HubStep, depths: Depths, c: nat)
    requires HubInv(s, depths) && Enabled(s, step) && c in s.registered
    requires !Loses(s, step, c) && step != Unregister(c)
    ensures var t := Next(s, step, depths);
      && c in t.registered && c in t.clients && s.log <= t.log
      && Chain(t, c) == Chain(s, c) + ItemsFrom(t.log, |s.log|)
  {
    hide InTransit, Near, Ahead;
    var t := Next(s, step, depths);
    assert ItemsFrom(t.log, |s.log|) == if step.Broadcast? then [Item(|s.log|, step.data)] else [];
    assert c in t.registered && c in t.clients;
    if step.DispatchTry? || step.DispatchRetry? {
      DispatchMoves(s, step, depths, c);
    } else {
      AheadConserved(s, step, depths, c);
      NearConserved(s, step, depths, c);
    }
    if step.Broadcast? {
      assert Chain(s, c) + [Item(|s.log|, step.data)]
        == Near(s.clients[c]) + (Ahead(s, c) + [Item(|s.log|, step.data)]);
    } else {
      assert Chain(s, c) + [] == Chain(s, c);
    }
  }

  lemma AheadConserved(s: HubState, step: HubStep, depths: Depths, c: nat)
    requires HubInv(s, depths) && Enabled(s, step) && c in s.registered && c in s.clients
    requires !Loses(s, step, c) && step != Unregister(c) && !step.DispatchTry? && !step.DispatchRetry?
    ensures Ahead(Next(s, step, depths), c)
      == Ahead(s, c) + if step.Broadcast? then [Item(|s.log|, step.data)] else []
  {
    hide InTransit, Chain;
    var t := Next(s, step, depths);
    if step.Broadcast? {
      BroadcastAhead(s, step.data, depths, c);
    } else {
      assert (if c in t.todo then t.dispatching else []) + t.queue
        == (if c in s.todo then s.dispatching else []) + s.queue + QueueGains(s, step);
      assert QueueGains(s, step) + Held(t.sending) == Held(s.sending);
    }
  }

  /** What the step moves from the sender into the queue. */
  ghost function QueueGains(s: HubState, step: HubStep): seq<Item> {
    if step.BroadcastRetry? then Held(s.sending) else []
  }

  lemma NearConserved(s: HubState, step: HubStep, depths: Depths, c: nat)
    requires HubInv(s, depths) && Enabled(s, step) && c in s.clients && c in Next(s, step, depths).clients
    requires !Loses(s, step, c) && !step.DispatchTry? && !step.DispatchRetry?
    ensures Near(Next(s, step, depths).clients[c]) == Near(s.clients[c])
  {
    hide InTransit, Chain, Near;
    MovesInside(s.clients[c]);
    MakesRoomForNothing(s.clients[c]);
    if step.DispatchDrop? && s.current == c {
      assert s.clients[c].(inbox := Rest(s.clients[c].inbox)) == s.clients[c];
    }
  }

  lemma MakesRoomForNothing(k: ClientState)
    ensures k.held.Blocked? && k.out == [] ==>
      Near(k.(out := Rest(k.out), held := Retrying(k.held.item))) == Near(k)
  {
  }

  /** The run loses nothing on its way to client c, who stays registered. */
  ghost predicate LosesNothing(s: HubState, steps: seq<HubStep>, depths: Depths, c: nat)
    decreases |steps|
  {
    steps == [] ||
    (&& c in s.clients && Enabled(s, steps[0]) && !Loses(s, steps[0], c) && steps[0] != Unregister(c)
     && LosesNothing(Next(s, steps[0], depths), steps[1..], depths, c))
  }

  /** In every run that throws nothing away on its way to a registered client, what was on its way and every
      broadcast since, complete and in order, is what the client has received and what is still on its way. */
  lemma {:induction false} NothingIsLost(s: HubState, steps: seq<HubStep>, t: HubState, depths: Depths, c: nat)
    requires HubInv(s, depths) && HubReaches(s, steps, t, depths)
    requires c in s.registered && LosesNothing(s, steps, depths, c)
    ensures c in t.registered && c in t.clients && s.log <= t.log
    ensures Chain(t, c) == Chain(s, c) + ItemsFrom(t.log, |s.log|)
    decreases |steps|
  {
    hide HubInv, Next, Enabled, Chain, Loses;
    if steps == [] {
      RegisteredIsKnown(s, depths, c);
      assert Chain(s, c) + [] == Chain(s, c);
    } else {
      var next := Next(s, steps[0], depths);
      HubInvNext(s, steps[0], depths);
      StepConserves(s, steps[0], depths, c);
      NothingIsLost(next, steps[1..], t, depths, c);
      assert ItemsFrom(t.log, |s.log|) == ItemsFrom(next.log, |s.log|) + ItemsFrom(t.log, |next.log|);
      assert Chain(s, c) + ItemsFrom(next.log, |s.log|) + ItemsFrom(t.log, |next.log|)
        == Chain(s, c) + (ItemsFrom(next.log, |s.log|) + ItemsFrom(t.log, |next.log|));
    }
  }

  lemma RegisteredIsKnown(s: HubState, depths: Depths, c: nat)
    requires HubInv(s, depths) && c in s.registered
    ensures c in s.clients
  {
  }

  /** And room is only made in a queue that was found full. */
  lemma BlocksOnlyWhenFull(s: HubState, step: HubStep, depths: Depths)
    requires HubInv(s, depths) && Enabled(s, step)
    ensures var t := Next(s, step, depths);
      && (t.sending.Blocked? && !s.sending.Blocked? ==> |s.queue| >= depths.queue)
      && (t.making.Blocked? && !s.making.Blocked? ==>
            t.current in s.clients && |s.clients[t.current].inbox| >= depths.inbox)
      && forall c :: c in s.clients && c in t.clients && t.clients[c].held.Blocked? && !s.clients[c].held.Blocked? ==>
           |s.clients[c].out| >= depths.out
  {
    hide InTransit, Chain;
  }
}

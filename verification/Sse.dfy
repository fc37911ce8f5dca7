/**
 The live event fan-out of `ui/sse.rs`: a broadcast ring, one forwarder per client and a
 bounded queue behind each, as a transition system whose steps interleave freely.
 */
module Sse {
  import opened Text

  datatype UplinkEvent = UplinkEvent(deviceId: string, current: int, receivedAt: Bytes)

  const BROADCAST_CAPACITY := 64
  const CLIENT_BUFFER := 16

  /** One SSE client: its forwarder's place in the history, its queue, what it was handed
      and what it lost. */
  datatype Client = Client(
    start: nat,               // events published before it subscribed
    next: nat,                // position of its forwarder
    queue: seq<UplinkEvent>,
    delivered: seq<UplinkEvent>,
    dropped: nat,             // met a full queue
    skipped: nat,             // overwritten in the ring before they were read
    discarded: nat,           // still queued, or taken by the forwarder, when it left
    connected: bool,
    forwarding: bool)

  datatype Hub = Hub(published: seq<UplinkEvent>, clients: map<nat, Client>)

  datatype Step =
    | Publish(event: UplinkEvent)
    | Subscribe(client: nat)
    | Forward(client: nat)
    | Poll(client: nat)
    | Disconnect(client: nat)

  // --- Steps --------------------------------------------------------------------------

  function NewClient(published: nat): Client {
    Client(published, published, [], [], 0, 0, 0, true, true)
  }

  predicate Lagging(c: Client, published: nat) { published > c.next + BROADCAST_CAPACITY }

  /** A receiver that fell behind the ring jumps to the oldest event still in it. */
  function CatchUp(c: Client, published: nat): Client
    requires Lagging(c, published)
  {
    var oldest := published - BROADCAST_CAPACITY;
    c.(next := oldest, skipped := c.skipped + (oldest - c.next))
  }

  /** `try_send`: it fails for good once the receiver is gone, and loses the event when the
      queue is full. */
  function TrySend(c: Client, event: UplinkEvent): Client {
    var c := c.(next := c.next + 1);
    if !c.connected then c.(forwarding := false, discarded := c.discarded + 1)
    else if |c.queue| == CLIENT_BUFFER then c.(dropped := c.dropped + 1)
    else c.(queue := c.queue + [event])
  }

  /** One turn of the forwarder loop; with nothing to receive, it waits. */
  function ForwardOnce(c: Client, published: seq<UplinkEvent>): Client {
    if !c.forwarding || c.next >= |published| then c
    else if Lagging(c, |published|) then CatchUp(c, |published|)
    else TrySend(c, published[c.next])
  }

  function PollOnce(c: Client): Client {
    if !c.connected || c.queue == [] then c
    else c.(queue := c.queue[1..], delivered := c.delivered + [c.queue[0]])
  }

  /** Behind the ring, a forwarder takes the oldest event still there; at the tail it waits;
      otherwise it takes the next event, and only a client that left or has sixteen waiting
      does not get it. */
  lemma ForwardExactly(c: Client, published: seq<UplinkEvent>)
    ensures ForwardOnce(c, published) ==
            if !c.forwarding || c.next >= |published| then c
            else if |published| > c.next + 64 then c.(next := |published| - 64, skipped := c.skipped + (|published| - 64 - c.next))
            else if !c.connected then c.(next := c.next + 1, forwarding := false, discarded := c.discarded + 1)
            else if |c.queue| == 16 then c.(next := c.next + 1, dropped := c.dropped + 1)
            else c.(next := c.next + 1, queue := c.queue + [published[c.next]])
  {}

  /** A connected client with something waiting is handed the head of its queue. */
  lemma PollExactly(c: Client)
    ensures var n := if c.connected && c.queue != [] then 1 else 0;
            PollOnce(c) == c.(queue := c.queue[n..], delivered := c.delivered + c.queue[..n])
  {
    assert c.queue[0..] == c.queue && c.delivered + c.queue[..0] == c.delivered;
    if c.queue != [] {
      assert c.queue[..1] == [c.queue[0]];
    }
  }

  function Leave(c: Client): Client {
    c.(connected := false, queue := [], discarded := c.discarded + |c.queue|)
  }

  function OnClient(c: Client, published: seq<UplinkEvent>, s: Step): Client {
    match s
    case Forward(_) => ForwardOnce(c, published)
    case Poll(_) => PollOnce(c)
    case Disconnect(_) => Leave(c)
    case _ => c
  }

  function Next(h: Hub, s: Step): Hub {
    match s
    case Publish(event) => h.(published := h.published + [event])
    case Subscribe(client) =>
      if client in h.clients then h else h.(clients := h.clients[client := NewClient(|h.published|)])
    case _ =>
      if s.client !in h.clients then h
      else h.(clients := h.clients[s.client := OnClient(h.clients[s.client], h.published, s)])
  }

  function Run(steps: seq<Step>): Hub {
    if steps == [] then Hub([], map[]) else Next(Run(steps[..|steps| - 1]), steps[|steps| - 1])
  }

  // --- The invariant ------------------------------------------------------------------

  function Held(c: Client): seq<UplinkEvent> { c.delivered + c.queue }

  /** `held` are the events published at strictly increasing positions of [from, to): in
      order, and none of them twice. */
  predicate PickedAt(at: seq<nat>, held: seq<UplinkEvent>, published: seq<UplinkEvent>, from: nat, to: nat) {
    && |at| == |held| && to <= |published|
    && (forall i :: 0 <= i < |at| ==> from <= at[i] < to)
    && (forall i :: 0 <= i < |at| ==> held[i] == published[at[i]])
    && (forall i, j :: 0 <= i < j < |at| ==> at[i] < at[j])
  }

  ghost predicate InOrder(held: seq<UplinkEvent>, published: seq<UplinkEvent>, from: nat, to: nat) {
    exists at: seq<nat> :: PickedAt(at, held, published, from, to)
  }

  /** Every event published since the client subscribed is accounted for exactly once. */
  predicate Conserved(c: Client, published: nat) {
    && c.start <= c.next <= published
    && published - c.start
       == |c.delivered| + |c.queue| + c.dropped + c.skipped + c.discarded + (published - c.next)
  }

  ghost predicate ClientOk(c: Client, published: seq<UplinkEvent>) {
    && Conserved(c, |published|)
    && |c.queue| <= CLIENT_BUFFER
    && (c.connected ==> c.discarded == 0 && c.forwarding)
    && InOrder(Held(c), published, c.start, c.next)
  }

  ghost predicate HubOk(h: Hub) {
    forall id :: id in h.clients ==> ClientOk(h.clients[id], h.published)
  }

  lemma PublishKeepsClient(c: Client, published: seq<UplinkEvent>, event: UplinkEvent)
    requires ClientOk(c, published)
    ensures ClientOk(c, published + [event])
  {
    var at :| PickedAt(at, Held(c), published, c.start, c.next);
    assert PickedAt(at, Held(c), published + [event], c.start, c.next);
  }

  lemma ForwardKeepsClient(c: Client, published: seq<UplinkEvent>)
    requires ClientOk(c, published)
    ensures ClientOk(ForwardOnce(c, published), published)
  {
    ForwardHolds(c, published);
    hide PickedAt;
  }

  lemma ForwardHolds(c: Client, published: seq<UplinkEvent>)
    requires InOrder(Held(c), published, c.start, c.next) && c.start <= c.next <= |published|
    ensures var c' := ForwardOnce(c, published); InOrder(Held(c'), published, c.start, c'.next)
  {
    var c' := ForwardOnce(c, published);
    var at :| PickedAt(at, Held(c), published, c.start, c.next);
    if c'.queue == c.queue {
      assert PickedAt(at, Held(c'), published, c.start, c'.next);
    } else {
      assert Held(c') == Held(c) + [published[c.next]];
      assert PickedAt(at + [c.next], Held(c'), published, c.start, c'.next);
    }
  }

  lemma PollKeepsClient(c: Client, published: seq<UplinkEvent>)
    requires ClientOk(c, published)
    ensures ClientOk(PollOnce(c), published) && Held(PollOnce(c)) == Held(c)
  {
    assert Held(PollOnce(c)) == Held(c);
  }

  lemma LeaveKeepsClient(c: Client, published: seq<UplinkEvent>)
    requires ClientOk(c, published)
    ensures ClientOk(Leave(c), published)
  {
    var at :| PickedAt(at, Held(c), published, c.start, c.next);
    assert Held(c)[..|c.delivered|] == c.delivered == Held(Leave(c));
    assert PickedAt(at[..|c.delivered|], Held(Leave(c)), published, c.start, c.next);
  }

  lemma StepKeepsHub(h: Hub, s: Step)
    requires HubOk(h)
    ensures HubOk(Next(h, s))
  {
    hide ClientOk, ForwardOnce, PollOnce, Leave;
    var h' := Next(h, s);
    forall id | id in h'.clients ensures ClientOk(h'.clients[id], h'.published) {
      if id in h.clients {
        var c := h.clients[id];
        match s {
          case Publish(event) => PublishKeepsClient(c, h.published, event);
          case Forward(_) => ForwardKeepsClient(c, h.published);
          case Poll(_) => PollKeepsClient(c, h.published);
          case Disconnect(_) => LeaveKeepsClient(c, h.published);
          case Subscribe(_) =>
        }
      } else {
        NewClientOk(h.published);
      }
    }
  }

  lemma NewClientOk(published: seq<UplinkEvent>)
    ensures ClientOk(NewClient(|published|), published)
  {
    assert PickedAt([], Held(NewClient(|published|)), published, |published|, |published|);
  }

  // --- Main results --------------------------------------------------------------------

  /** Under every interleaving, each client's events are an ordered, duplicate-free part of
      what was published since it subscribed, every published event is delivered, queued,
      dropped, skipped, discarded or unread, and no queue exceeds its bound. */
  lemma {:induction false} EveryRunIsSafe(steps: seq<Step>)
    ensures HubOk(Run(steps))
  {
    hide HubOk, Next;
    if steps == [] {
      assert HubOk(Hub([], map[])) by { EmptyHubOk(); }
    } else {
      EveryRunIsSafe(steps[..|steps| - 1]);
      StepKeepsHub(Run(steps[..|steps| - 1]), steps[|steps| - 1]);
    }
  }

  lemma EmptyHubOk()
    ensures HubOk(Hub([], map[]))
  {}

  /** The steps a client's stream may depend on: its own and every publish. */
  predicate Concerns(s: Step, id: nat) { s.Publish? || s.client == id }

  function Projection(steps: seq<Step>, id: nat): seq<Step> {
    if steps == [] then []
    else Projection(steps[..|steps| - 1], id)
         + if Concerns(steps[|steps| - 1], id) then [steps[|steps| - 1]] else []
  }

  /** No other client, however slow, changes a client's state or what is published. */
  lemma {:induction false} ClientsAreIsolated(steps: seq<Step>, id: nat)
    ensures var h, p := Run(steps), Run(Projection(steps, id));
            && h.published == p.published
            && (id in h.clients <==> id in p.clients)
            && (id in h.clients ==> h.clients[id] == p.clients[id])
  {
    hide OnClient;
    if steps != [] {
      var front, last := steps[..|steps| - 1], steps[|steps| - 1];
      ClientsAreIsolated(front, id);
      if Concerns(last, id) {
        var q := Projection(front, id);
        assert (q + [last])[..|q|] == q;
        assert Run(Projection(steps, id)) == Next(Run(q), last);
      } else {
        assert Projection(steps, id) == Projection(front, id);
      }
    }
  }

  function EventsOf(steps: seq<Step>): seq<UplinkEvent> {
    if steps == [] then []
    else EventsOf(steps[..|steps| - 1])
         + if steps[|steps| - 1].Publish? then [steps[|steps| - 1].event] else []
  }

  /** What is published is exactly what was sent, in order, whatever clients did or did not do
      in between: no send is refused, delayed or repeated. */
  lemma {:induction false} EverySendIsPublished(steps: seq<Step>)
    ensures Run(steps).published == EventsOf(steps)
  {
    hide OnClient;
    if steps != [] {
      EverySendIsPublished(steps[..|steps| - 1]);
    }
  }

  lemma {:induction false} OnlySubscribersAreClients(steps: seq<Step>, id: nat)
    ensures id in Run(steps).clients <==> exists k :: 0 <= k < |steps| && steps[k] == Subscribe(id)
  {
    hide OnClient;
    if steps != [] {
      OnlySubscribersAreClients(steps[..|steps| - 1], id);
      assert steps == steps[..|steps| - 1] + [steps[|steps| - 1]];
    }
  }

  lemma {:induction false} StartStays(steps: seq<Step>, k: nat, id: nat)
    requires k <= |steps| && id in Run(steps[..k]).clients
    ensures id in Run(steps).clients && Run(steps).clients[id].start == Run(steps[..k]).clients[id].start
    decreases |steps|
  {
    if k == |steps| {
      assert steps[..k] == steps;
    } else {
      assert steps[..|steps| - 1][..k] == steps[..k];
      StartStays(steps[..|steps| - 1], k, id);
    }
  }

  /** Over every run, a client starts after exactly the events sent before it subscribed. */
  lemma StartsWhereItSubscribes(steps: seq<Step>, k: nat, id: nat)
    requires k < |steps| && steps[k] == Subscribe(id) && forall i :: 0 <= i < k ==> steps[i] != Subscribe(id)
    ensures id in Run(steps).clients && Run(steps).clients[id].start == |EventsOf(steps[..k])|
  {
    OnlySubscribersAreClients(steps[..k], id);
    EverySendIsPublished(steps[..k]);
    assert steps[..k + 1][..k] == steps[..k];
    assert Run(steps[..k + 1]) == Next(Run(steps[..k]), steps[k]);
    hide Run, EventsOf;
    StartStays(steps, k + 1, id);
  }

  /** What it is handed or waits for it is, in order and without repetition, some of the events
      sent from then on, and none sent before. */
  lemma HeldSinceSubscribing(steps: seq<Step>, k: nat, id: nat) returns (at: seq<nat>)
    requires k < |steps| && steps[k] == Subscribe(id) && forall i :: 0 <= i < k ==> steps[i] != Subscribe(id)
    ensures id in Run(steps).clients
    ensures var held := Run(steps).clients[id].delivered + Run(steps).clients[id].queue;
            && |at| == |held|
            && (forall i :: 0 <= i < |at| ==> |EventsOf(steps[..k])| <= at[i] < |EventsOf(steps)| && held[i] == EventsOf(steps)[at[i]])
            && (forall i, j :: 0 <= i < j < |at| ==> at[i] < at[j])
  {
    StartsWhereItSubscribes(steps, k, id);
    EveryRunIsSafe(steps);
    EverySendIsPublished(steps);
    hide Run, EventsOf;
    var h := Run(steps);
    var c := h.clients[id];
    assert ClientOk(c, h.published);
    at :| PickedAt(at, Held(c), h.published, c.start, c.next);
  }

  // --- When a client loses nothing --------------------------------------------------------

  /** Whether the step at `k` makes the client lose events: its forwarder finds itself
      behind the ring, or its queue full. */
  predicate LosesAt(steps: seq<Step>, k: nat, id: nat)
    requires k < |steps|
  {
    var h := Run(steps[..k]);
    steps[k] == Forward(id) && id in h.clients && LosesNow(h.clients[id], |h.published|)
  }

  predicate LosesNow(c: Client, published: nat) {
    && c.forwarding && c.next < published
    && (Lagging(c, published) || (c.connected && |c.queue| == CLIENT_BUFFER))
  }

  function Losses(c: Client): nat { c.dropped + c.skipped }

  lemma OnClientLosses(c: Client, published: seq<UplinkEvent>, s: Step)
    ensures Losses(OnClient(c, published, s)) ==
            Losses(c) + if !s.Forward? || !LosesNow(c, |published|) then 0
                        else if Lagging(c, |published|) then |published| - BROADCAST_CAPACITY - c.next else 1
  {}

  lemma {:induction false} LossesAreCounted(steps: seq<Step>, id: nat)
    requires id in Run(steps).clients
    ensures var c := Run(steps).clients[id];
            Losses(c) > 0 <==> exists k :: 0 <= k < |steps| && LosesAt(steps, k, id)
  {
    hide LosesAt;
    var front, last := steps[..|steps| - 1], steps[|steps| - 1];
    var n := |front|;
    forall k | 0 <= k < n ensures LosesAt(steps, k, id) <==> LosesAt(front, k, id) {
      PrefixLoses(steps, k, id);
    }
    if id in Run(front).clients {
      LossesAreCounted(front, id);
      LastStepLoses(steps, id);
    } else {
      NoLossBeforeSubscribing(steps, id);
    }
  }

  lemma PrefixLoses(steps: seq<Step>, k: nat, id: nat)
    requires k < |steps| - 1
    ensures LosesAt(steps, k, id) <==> LosesAt(steps[..|steps| - 1], k, id)
  {
    assert steps[..|steps| - 1][..k] == steps[..k];
  }

  lemma HubStepLoses(h: Hub, s: Step, id: nat)
    requires id in h.clients
    ensures id in Next(h, s).clients
    ensures var c, c' := h.clients[id], Next(h, s).clients[id];
            if s == Forward(id) && LosesNow(c, |h.published|) then Losses(c') > Losses(c) else Losses(c') == Losses(c)
  {
    OnClientLosses(h.clients[id], h.published, s);
    hide OnClient, Losses;
  }

  lemma LastStepLoses(steps: seq<Step>, id: nat)
    requires steps != [] && id in Run(steps[..|steps| - 1]).clients
    ensures id in Run(steps).clients
    ensures var c, c' := Run(steps[..|steps| - 1]).clients[id], Run(steps).clients[id];
            if LosesAt(steps, |steps| - 1, id) then Losses(c') > Losses(c) else Losses(c') == Losses(c)
  {
    hide Next, LosesNow, Losses;
    HubStepLoses(Run(steps[..|steps| - 1]), steps[|steps| - 1], id);
  }

  lemma {:induction false} ClientsStay(steps: seq<Step>, k: nat, id: nat)
    requires k <= |steps| && id in Run(steps[..k]).clients
    ensures id in Run(steps).clients
    decreases |steps|
  {
    if k == |steps| {
      assert steps[..k] == steps;
    } else {
      assert steps[..|steps| - 1][..k] == steps[..k];
      ClientsStay(steps[..|steps| - 1], k, id);
    }
  }

  lemma NoLossBeforeSubscribing(steps: seq<Step>, id: nat)
    requires steps != [] && id !in Run(steps[..|steps| - 1]).clients && id in Run(steps).clients
    ensures Losses(Run(steps).clients[id]) == 0
    ensures forall k :: 0 <= k < |steps| ==> !LosesAt(steps, k, id)
  {
    NewClientsLostNothing(Run(steps[..|steps| - 1]), steps[|steps| - 1], id);
    hide Next, Losses, LosesNow;
    forall k | 0 <= k < |steps| ensures !LosesAt(steps, k, id) {
      NotThereYet(steps, k, id);
    }
  }

  lemma NewClientsLostNothing(h: Hub, s: Step, id: nat)
    requires id !in h.clients && id in Next(h, s).clients
    ensures Losses(Next(h, s).clients[id]) == 0
  {
    hide OnClient;
  }

  lemma NotThereYet(steps: seq<Step>, k: nat, id: nat)
    requires k < |steps| && id !in Run(steps[..|steps| - 1]).clients
    ensures !LosesAt(steps, k, id)
  {
    hide Next, LosesNow;
    if id in Run(steps[..k]).clients {
      assert steps[..|steps| - 1][..k] == steps[..k];
      ClientsStay(steps[..|steps| - 1], k, id);
    }
  }

  lemma AllPositions(at: seq<nat>, held: seq<UplinkEvent>, published: seq<UplinkEvent>, from: nat, to: nat)
    requires PickedAt(at, held, published, from, to) && from <= to && |held| == to - from
    ensures held == published[from..to]
  {
    forall i | 0 <= i < |at| ensures at[i] == from + i {
      AtLeast(at, held, published, from, to, i);
      AtMost(at, held, published, from, to, i);
    }
  }

  lemma {:induction false} AtLeast(at: seq<nat>, held: seq<UplinkEvent>, published: seq<UplinkEvent>, from: nat, to: nat, i: nat)
    requires PickedAt(at, held, published, from, to) && i < |at|
    ensures at[i] >= from + i
  {
    if i > 0 {
      AtLeast(at, held, published, from, to, i - 1);
      assert at[i - 1] < at[i];
    }
  }

  lemma {:induction false} AtMost(at: seq<nat>, held: seq<UplinkEvent>, published: seq<UplinkEvent>, from: nat, to: nat, i: nat)
    requires PickedAt(at, held, published, from, to) && i < |at|
    ensures at[i] + (|at| - i) <= to
    decreases |at| - i
  {
    if i < |at| - 1 {
      AtMost(at, held, published, from, to, i + 1);
      assert at[i] < at[i + 1];
    }
  }

  /** A connected client holds every event its forwarder has passed, exactly when the
      forwarder never found itself more than 64 events behind nor the queue full. */
  lemma LosesNothingExactly(steps: seq<Step>, id: nat)
    requires id in Run(steps).clients && Run(steps).clients[id].connected
    ensures var h := Run(steps); var c := h.clients[id];
            && c.start <= c.next <= |h.published|
            && (Held(c) == h.published[c.start..c.next]
                <==> forall k :: 0 <= k < |steps| ==> !LosesAt(steps, k, id))
  {
    hide LosesAt, Run;
    EveryRunIsSafe(steps);
    LossesAreCounted(steps, id);
    var h := Run(steps);
    var c := h.clients[id];
    var at :| PickedAt(at, Held(c), h.published, c.start, c.next);
    if Losses(c) == 0 {
      AllPositions(at, Held(c), h.published, c.start, c.next);
    }
  }

  // --- The hub as the process keeps it -----------------------------------------------------

  /** The ring holds only the last 64 events; the whole history is what it stands for. */
  class EventHub {
    ghost var history: seq<UplinkEvent>
    var ring: seq<UplinkEvent>
    var sent: nat
    var clients: map<nat, Client>

    ghost predicate Valid()
      reads this
    {
      && sent == |history|
      && |ring| == (if sent < BROADCAST_CAPACITY then sent else BROADCAST_CAPACITY)
      && ring == history[sent - |ring|..]
      && HubOk(State())
    }

    ghost function State(): Hub
      reads this
    {
      Hub(history, clients)
    }

    constructor ()
      ensures Valid() && State() == Hub([], map[])
    {
      history, ring, sent, clients := [], [], 0, map[];
    }

    /** `send`: never blocks, and touches no client. */
    method Send(event: UplinkEvent)
      requires Valid()
      modifies this
      ensures Valid() && State() == Next(old(State()), Publish(event))
      ensures history == old(history) + [event] && clients == old(clients) && sent == old(sent) + 1
      ensures |ring| <= 64 && ring[|ring| - 1] == event
    {
      hide HubOk;
      StepKeepsHub(State(), Publish(event));
      history := history + [event];
      ring := ring + [event];
      assert ring == history[|history| - |ring|..];
      if |ring| > BROADCAST_CAPACITY {
        ring := ring[1..];
        assert ring == history[|history| - |ring|..];
      }
      sent := sent + 1;
    }

    method Open(client: nat)
      requires Valid()
      modifies this
      ensures Valid() && State() == Next(old(State()), Subscribe(client))
      ensures history == old(history) && client in clients && clients == old(clients)[client := clients[client]]
      ensures if client in old(clients) then clients == old(clients)
              else var c := clients[client];
                && c.next == c.start == old(sent) && c.queue == [] && c.delivered == []
                && c.dropped == c.skipped == c.discarded == 0 && c.connected && c.forwarding
    {
      hide HubOk;
      StepKeepsHub(State(), Subscribe(client));
      if client !in clients {
        clients := clients[client := NewClient(sent)];
      }
    }

    /** One turn of a client's forwarder, reading the ring only. */
    method ForwardTurn(client: nat)
      requires Valid()
      modifies this
      ensures Valid() && State() == Next(old(State()), Forward(client))
      ensures history == old(history) && clients == if client in clients then old(clients)[client := clients[client]] else old(clients)
      ensures client in old(clients) ==>
                && client in clients
                && var c := old(clients)[client];
                   clients[client] ==
                     if !c.forwarding || c.next >= |history| then c
                     else if |history| > c.next + 64 then c.(next := |history| - 64, skipped := c.skipped + (|history| - 64 - c.next))
                     else if !c.connected then c.(next := c.next + 1, forwarding := false, discarded := c.discarded + 1)
                     else if |c.queue| == 16 then c.(next := c.next + 1, dropped := c.dropped + 1)
                     else c.(next := c.next + 1, queue := c.queue + [history[c.next]])
    {
      hide HubOk;
      StepKeepsHub(State(), Forward(client));
      if client !in clients {
        return;
      }
      var c := clients[client];
      if !c.forwarding || c.next >= sent {
        assert clients == clients[client := c];
        return;
      }
      var oldest := sent - |ring|;
      var c' := c;
      if c.next < oldest {
        c' := c.(next := oldest, skipped := c.skipped + (oldest - c.next));
      } else {
        assert ring[c.next - oldest] == history[c.next];
        c' := TrySend(c, ring[c.next - oldest]);
      }
      assert c' == ForwardOnce(c, history);
      ForwardExactly(c, history);
      hide ForwardOnce;
      clients := clients[client := c'];
    }

    /** `poll_next`: the head of the queue, if there is one. */
    method PollNext(client: nat) returns (event: seq<UplinkEvent>)
      requires Valid()
      modifies this
      ensures Valid() && State() == Next(old(State()), Poll(client))
      ensures history == old(history) && clients == if client in clients then old(clients)[client := clients[client]] else old(clients)
      ensures client in old(clients) ==>
                && client in clients
                && var c := old(clients)[client];
                   event == (if c.connected && c.queue != [] then [c.queue[0]] else [])
                   && clients[client] == c.(queue := c.queue[|event|..], delivered := c.delivered + event)
      ensures client !in old(clients) ==> event == []
    {
      hide HubOk;
      StepKeepsHub(State(), Poll(client));
      event := [];
      if client in clients {
        var c := clients[client];
        if c.connected && c.queue != [] {
          event := [c.queue[0]];
        }
        clients := clients[client := PollOnce(c)];
        PollExactly(c);
        hide PollOnce;
        assert clients[client] == PollOnce(c);
      }
    }

    method Close(client: nat)
      requires Valid()
      modifies this
      ensures Valid() && State() == Next(old(State()), Disconnect(client))
      ensures history == old(history) && clients == if client in clients then old(clients)[client := clients[client]] else old(clients)
      ensures client in old(clients) ==>
                && client in clients
                && var c := old(clients)[client];
                   clients[client] == c.(connected := false, queue := [], discarded := c.discarded + |c.queue|)
    {
      hide HubOk;
      StepKeepsHub(State(), Disconnect(client));
      if client in clients {
        clients := clients[client := Leave(clients[client])];
      }
    }
  }
}

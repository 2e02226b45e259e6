/**
 Server and client at work at once, over one FIFO channel each way. The server blocks where
 `send_meta` waits for an acknowledgement, the client wherever it receives.
 */
module PullProtocol {
  import opened ByteStrings
  import opened Runs
  import opened PullMessages
  import opened PullServer
  import opened PullClient
  import opened PullRoundTrip

  /** `acts` is what the server has still to do; `consumed` what the client has received so far. */
  datatype System = System(acts: seq<Act>, toClient: seq<Msg>, toServer: seq<Msg>, client: Client, consumed: seq<Msg>)

  datatype Event = ServerSends | ServerIsAcknowledged | ClientReceives

  ghost predicate Enabled(s: System, e: Event) {
    match e
    case ServerSends => 0 < |s.acts| && s.acts[0].Send?
    case ServerIsAcknowledged => 0 < |s.acts| && s.acts[0].AwaitAck? && 0 < |s.toServer|
    case ClientReceives => 0 < |s.toClient| && s.client.phase !in {Finished, Broken}
  }

  ghost function Next(s: System, e: Event, n: nat): System
    requires Enabled(s, e)
  {
    match e
    case ServerSends => s.(acts := s.acts[1..], toClient := s.toClient + [s.acts[0].msg])
    case ServerIsAcknowledged =>
      var busy := s.toServer[0].Header? && s.toServer[0].status == STATUS_BUSY;
      s.(acts := (if busy then [Send(s.acts[0].retry)] + s.acts else s.acts[1..]), toServer := s.toServer[1..])
    case ClientReceives =>
      var (client, acks) := Receive(s.client, s.toClient[0], n);
      s.(client := client, toClient := s.toClient[1..], toServer := s.toServer + acks,
         consumed := s.consumed + [s.toClient[0]])
  }

  /** What the event sends has room in a channel of the given capacity; `send` blocks on a full one. */
  ghost predicate HasRoom(s: System, e: Event, n: nat, capacity: nat)
    requires Enabled(s, e)
  {
    match e
    case ServerSends => |s.toClient| < capacity
    case ServerIsAcknowledged => true
    case ClientReceives => |s.toServer| + |Receive(s.client, s.toClient[0], n).1| <= capacity
  }

  ghost predicate CanMove(s: System, n: nat, capacity: nat) {
    exists e :: Enabled(s, e) && HasRoom(s, e, n, capacity)
  }

  ghost function Step(n: nat): (System, Event, System) -> bool {
    (s: System, e: Event, t: System) => Enabled(s, e) && t == Next(s, e, n)
  }

  ghost function Start(home: seq<Entry>, n: nat): System
    requires 0 < n
  {
    System(LoginScript(home, n), [], [], EMPTY_CLIENT, [])
  }

  // The shape of a script ------------------------------------------------------------------

  /** Each meta is followed by the wait for its acknowledgement, to send it again if that is busy; there is no
      other wait. */
  ghost predicate Balanced(acts: seq<Act>)
    decreases |acts|
  {
    |acts| == 0 ||
    (acts[0].Send? &&
     if acts[0].msg.Meta?
     then 1 < |acts| && acts[1] == AwaitAck(acts[0].msg) && Balanced(acts[2..])
     else Balanced(acts[1..]))
  }

  lemma {:induction false} BalancedConcat(a: seq<Act>, b: seq<Act>)
    requires Balanced(a) && Balanced(b)
    ensures Balanced(a + b)
    decreases |a|
  {
    if |a| == 0 {
      assert a + b == b;
    } else if a[0].msg.Meta? {
      assert (a + b)[2..] == a[2..] + b;
      BalancedConcat(a[2..], b);
    } else {
      assert (a + b)[1..] == a[1..] + b;
      BalancedConcat(a[1..], b);
    }
  }

  lemma {:induction false} SendAllBalanced(msgs: seq<Msg>)
    requires forall i :: 0 <= i < |msgs| ==> !msgs[i].Meta?
    ensures Balanced(SendAll(msgs))
  {
    if |msgs| != 0 {
      assert SendAll(msgs)[1..] == SendAll(msgs[1..]);
      SendAllBalanced(msgs[1..]);
    }
  }

  lemma {:induction false} NoMetaInChunks(content: Bytes, n: nat)
    requires 0 < n
    ensures forall i :: 0 <= i < |Chunks(content, n)| ==> !Chunks(content, n)[i].Meta?
    decreases |content|
  {
    if n <= |content| {
      NoMetaInChunks(content[n..], n);
    }
  }

  lemma {:induction false} AnnounceBalanced(path: PathName, kind: Kind)
    requires 0 < |path|
    ensures Balanced(Announce(path, kind))
  {
    var acts := Announce(path, kind);
    var tail := acts[1..][2..];
    assert |tail| != 0 ==> tail[1..] == [];
    assert Balanced(tail);
    assert Balanced(acts[1..]);
  }

  lemma {:induction false} EntryBalanced(e: Entry, prefix: PathName, n: nat)
    requires 0 < n
    ensures Balanced(EntryScript(e, prefix, n))
    decreases e, 0
  {
    var path := prefix + [e.name];
    if !Hidden(e.name) {
      match e.node
      case File(content) =>
        AnnounceBalanced(path, Regular);
        NoMetaInChunks(content, n);
        SendAllBalanced(Chunks(content, n));
        BalancedConcat(Announce(path, Regular), SendAll(Chunks(content, n)));
      case Dir(entries) =>
        AnnounceBalanced(path, Directory);
        ScriptBalanced(entries, path, n);
        BalancedConcat(Announce(path, Directory), Script(entries, path, n));
    }
  }

  lemma {:induction false} ScriptBalanced(entries: seq<Entry>, prefix: PathName, n: nat)
    requires 0 < n
    ensures Balanced(Script(entries, prefix, n))
    decreases entries, 1
  {
    if |entries| != 0 {
      EntryBalanced(entries[0], prefix, n);
      ScriptBalanced(entries[1..], prefix, n);
      BalancedConcat(EntryScript(entries[0], prefix, n), Script(entries[1..], prefix, n));
    }
  }

  lemma {:induction false} LoginBalanced(home: seq<Entry>, n: nat)
    requires 0 < n
    ensures Balanced(LoginScript(home, n))
  {
    var bye := [Send(Header(OP_NONE, STATUS_OK))];
    ScriptBalanced(home, [], n);
    assert bye[1..] == [] && Balanced(bye);
    BalancedConcat(Script(home, [], n), bye);
  }

  // The invariant ------------------------------------------------------------------------

  function Metas(msgs: seq<Msg>): nat {
    if |msgs| == 0 then 0 else (if msgs[0].Meta? then 1 else 0) + Metas(msgs[1..])
  }

  lemma {:induction false} MetasConcat(a: seq<Msg>, b: seq<Msg>)
    ensures Metas(a + b) == Metas(a) + Metas(b)
  {
    if |a| == 0 {
      assert a + b == b;
    } else {
      assert (a + b)[0] == a[0] && (a + b)[1..] == a[1..] + b;
      MetasConcat(a[1..], b);
    }
  }

  /** Between meta and acknowledgement exactly one of the two is on its way, otherwise none is. */
  ghost predicate Aligned(s: System) {
    if 0 < |s.acts| && s.acts[0].AwaitAck?
    then Balanced(s.acts[1..]) && |s.toServer| + Metas(s.toClient) == 1
    else Balanced(s.acts) && |s.toServer| + Metas(s.toClient) == 0
  }

  ghost predicate Inv(s: System, home: seq<Entry>, n: nat)
    requires 0 < n
  {
    && s.consumed + s.toClient + Sends(s.acts) == Sends(LoginScript(home, n))
    && s.client == Feed(EMPTY_CLIENT, s.consumed, n)
    && (forall i :: 0 <= i < |s.toServer| ==> s.toServer[i].Header? && s.toServer[i].status == STATUS_OK)
    && Aligned(s)
  }

  lemma {:induction false} StartInv(home: seq<Entry>, n: nat)
    requires 0 < n
    ensures Inv(Start(home, n), home, n)
  {
    hide LoginScript, Balanced, Sends;
    LoginBalanced(home, n);
    NoWaitAhead(LoginScript(home, n));
  }

  lemma {:induction false} NothingFromEmptyHome(s: System, home: seq<Entry>, n: nat)
    requires 0 < n && Inv(s, home, n)
    ensures |home| == 0 ==> s.consumed == [] && s.toClient == [] && Sends(s.acts) == []
  {
    var all := s.consumed + s.toClient + Sends(s.acts);
    assert |home| == 0 ==> |all| == 0;
  }

  /** What the client has consumed, and what is still to come, bring it to its end. */
  lemma {:induction false} RestFinishes(s: System, home: seq<Entry>, n: nat)
    requires 0 < n && WellNamed(home) && Inv(s, home, n) && 0 < |home|
    ensures Feed(s.client, s.toClient + Sends(s.acts), n).phase == Finished
  {
    hide WellNamed, Aligned, Feed, Receive, Sends, LoginScript, Flatten;
    var rest := s.toClient + Sends(s.acts);
    ClientRebuildsTree(home, n);
    assert s.consumed + rest == Sends(LoginScript(home, n));
    FeedConcat(EMPTY_CLIENT, s.consumed, rest, n);
  }

  /** As long as something is still to come, the client has not finished, and it never loses its place. */
  lemma {:induction false} ClientInPlace(s: System, home: seq<Entry>, n: nat)
    requires 0 < n && WellNamed(home) && Inv(s, home, n)
    ensures s.client.phase != Broken
    ensures 0 < |s.toClient| + |Sends(s.acts)| ==> s.client.phase != Finished
  {
    hide WellNamed, Aligned, Receive, Sends, LoginScript;
    var rest := s.toClient + Sends(s.acts);
    NothingFromEmptyHome(s, home, n);
    if 0 < |home| {
      RestFinishes(s, home, n);
      if s.client.phase == Broken || (s.client.phase == Finished && 0 < |rest|) {
        ClosedStays(s.client, rest, n);
      }
    }
  }

  lemma {:induction false} SendKeepsInv(s: System, home: seq<Entry>, n: nat)
    requires 0 < n && Inv(s, home, n) && Enabled(s, ServerSends)
    ensures Inv(Next(s, ServerSends, n), home, n)
  {
    hide Feed, Receive, LoginScript, WellNamed;
    var t, m := Next(s, ServerSends, n), s.acts[0].msg;
    assert t.consumed + (s.toClient + [m]) + Sends(t.acts) == s.consumed + s.toClient + ([m] + Sends(t.acts));
    MetasConcat(s.toClient, [m]);
    assert [m][1..] == [];
    assert Metas([m]) == if m.Meta? then 1 else 0;
    if m.Meta? {
      assert s.acts[1..][1..] == s.acts[2..];
    } else {
      NoWaitAhead(s.acts[1..]);
    }
  }

  lemma {:induction false} NoWaitAhead(acts: seq<Act>)
    requires Balanced(acts)
    ensures 0 < |acts| ==> acts[0].Send?
  {
  }

  lemma {:induction false} AcknowledgeKeepsInv(s: System, home: seq<Entry>, n: nat)
    requires 0 < n && Inv(s, home, n) && Enabled(s, ServerIsAcknowledged)
    ensures Inv(Next(s, ServerIsAcknowledged, n), home, n)
  {
    assert [] + Sends(s.acts[1..]) == Sends(s.acts[1..]);
  }

  /** A busy acknowledgement makes the server send the meta again and wait again. */
  lemma {:induction false} BusyIsRetried(s: System, n: nat, meta: Msg)
    requires 0 < |s.acts| && s.acts[0] == AwaitAck(meta) && 0 < |s.toServer|
    requires s.toServer[0].Header? && s.toServer[0].status == 0x03
    ensures var waiting := Next(s, ServerIsAcknowledged, n);
            && Enabled(waiting, ServerSends)
            && Next(waiting, ServerSends, n) == s.(toServer := s.toServer[1..], toClient := s.toClient + [meta])
  {
    assert ([Send(meta)] + s.acts)[1..] == s.acts;
  }

  /** A message the client can use makes it acknowledge exactly a meta. */
  lemma {:induction false} OneAckPerMeta(c: Client, m: Msg, n: nat)
    requires Receive(c, m, n).0.phase != Broken
    ensures var acks := Receive(c, m, n).1;
            if m.Meta? then |acks| == 1 && acks[0].Header? && acks[0].status == STATUS_OK else acks == []
  {
  }

  lemma {:induction false} ReceiveKeepsInv(s: System, home: seq<Entry>, n: nat)
    requires 0 < n && WellNamed(home) && Inv(s, home, n) && Enabled(s, ClientReceives)
    ensures Inv(Next(s, ClientReceives, n), home, n)
  {
    var t, m, rest := Next(s, ClientReceives, n), s.toClient[0], s.toClient[1..] + Sends(s.acts);
    NotBrokenNext(s, home, n);
    OneAckPerMeta(s.client, m, n);
    FeedConcat(EMPTY_CLIENT, s.consumed, [m], n);
    FeedFirst(s.client, m, [], n);
    hide Receive, Feed, LoginScript, WellNamed, Sends, Balanced;
    assert [m] + [] == [m];
    assert s.toClient == [m] + t.toClient;
    Reassociate(s.consumed, m, t.toClient, Sends(s.acts));
  }

  lemma {:induction false} Reassociate<T>(a: seq<T>, x: T, b: seq<T>, c: seq<T>)
    ensures a + [x] + b + c == a + ([x] + b) + c
  {
  }

  /** The message at the head of the channel is of the kind and length the client waits for. */
  lemma {:induction false} NotBrokenNext(s: System, home: seq<Entry>, n: nat)
    requires 0 < n && WellNamed(home) && Inv(s, home, n) && Enabled(s, ClientReceives)
    ensures Receive(s.client, s.toClient[0], n).0.phase != Broken
  {
    hide WellNamed, Aligned, Feed, Receive, Sends, LoginScript;
    var m, rest := s.toClient[0], s.toClient[1..] + Sends(s.acts);
    var next := Receive(s.client, m, n).0;
    NothingFromEmptyHome(s, home, n);
    if 0 < |home| {
      RestFinishes(s, home, n);
      assert s.toClient + Sends(s.acts) == [m] + rest;
      FeedFirst(s.client, m, rest, n);
      if next.phase == Broken {
        ClosedStays(next, rest, n);
      }
    }
  }

  // Runs -----------------------------------------------------------------------------------

  ghost predicate PullRun(home: seq<Entry>, n: nat, run: seq<System>, events: seq<Event>)
    requires 0 < n
  {
    IsRun(Step(n), run, events) && run[0] == Start(home, n)
  }

  lemma {:induction false} RunInv(home: seq<Entry>, n: nat, run: seq<System>, events: seq<Event>, i: nat)
    requires 0 < n && WellNamed(home) && PullRun(home, n, run, events) && i < |run|
    ensures Inv(run[i], home, n)
  {
    var inv := s => Inv(s, home, n);
    forall s, e, t | inv(s) && Step(n)(s, e, t) ensures inv(t) {
      match e
      case ServerSends => SendKeepsInv(s, home, n);
      case ServerIsAcknowledged => AcknowledgeKeepsInv(s, home, n);
      case ClientReceives => ReceiveKeepsInv(s, home, n);
    }
    StartInv(home, n);
    Kept(Step(n), inv, run, events, 0, i);
  }

  /** In every reachable state every message the client takes is one it can use there. */
  lemma {:induction false} HandshakeAligned(home: seq<Entry>, n: nat, run: seq<System>, events: seq<Event>, i: nat)
    requires 0 < n && WellNamed(home) && PullRun(home, n, run, events) && i < |run|
    ensures run[i].client.phase != Broken
  {
    RunInv(home, n, run, events, i);
    ClientInPlace(run[i], home, n);
  }

  /** The message to be received next, if it makes the client acknowledge, finds the way back empty. */
  lemma {:induction false} RoomForAck(s: System, home: seq<Entry>, n: nat)
    requires 0 < n && WellNamed(home) && Inv(s, home, n) && Enabled(s, ClientReceives)
    ensures |s.toServer| + |Receive(s.client, s.toClient[0], n).1| <= 1
  {
    NotBrokenNext(s, home, n);
    OneAckPerMeta(s.client, s.toClient[0], n);
  }

  /** However small the channels are, some side can move until the server has nothing to do and nothing is on its
      way to the client. */
  lemma {:induction false} SomeSideCanMove(s: System, home: seq<Entry>, n: nat, capacity: nat)
    requires 0 < n && WellNamed(home) && Inv(s, home, n) && 0 < capacity
    ensures CanMove(s, n, capacity) <==> s.acts != [] || s.toClient != []
  {
    ClientInPlace(s, home, n);
    hide WellNamed, Balanced, Feed, Receive;
    if s.toClient != [] {
      assert Enabled(s, ClientReceives);
      RoomForAck(s, home, n);
      assert HasRoom(s, ClientReceives, n, capacity);
    } else if s.acts != [] {
      var e := if s.acts[0].Send? then ServerSends else ServerIsAcknowledged;
      assert Enabled(s, e) && HasRoom(s, e, n, capacity);
    }
  }

  ghost function Work(s: System): nat {
    3 * |s.acts| + 2 * |s.toClient| + |s.toServer|
  }

  /** Every step of a run is progress, so no run is longer than the work at its start. */
  lemma {:induction false} PullRunsEnd(home: seq<Entry>, n: nat, run: seq<System>, events: seq<Event>)
    requires 0 < n && WellNamed(home) && PullRun(home, n, run, events)
    ensures |events| + Work(run[|events|]) <= Work(Start(home, n))
  {
    var last := |events|;
    if last != 0 {
      Prefix(Step(n), run, events);
      PullRunsEnd(home, n, run[..last], events[..last - 1]);
      RunInv(home, n, run, events, last - 1);
    }
  }

  /**
   A run that cannot go on, with channels of whatever capacity, has completed the pull: the client has
   left its loop with the server's visible tree. This holds if and only if the home directory has an
   entry at all; if it has none the server sends nothing and the client waits for ever.
   */
  lemma {:induction false} PullCompletesIff(
      home: seq<Entry>, n: nat, run: seq<System>, events: seq<Event>, capacity: nat)
    requires 0 < n && WellNamed(home) && PullRun(home, n, run, events) && 0 < capacity
    requires !CanMove(run[|events|], n, capacity)
    ensures var last := run[|events|];
            && last.acts == [] && last.toClient == [] && last.toServer == []
            && (last.client == Client(Finished, Flatten(home, []), false) <==> 0 < |home|)
            && (last.client == EMPTY_CLIENT <==> |home| == 0)
  {
    var last := run[|events|];
    RunInv(home, n, run, events, |events|);
    SomeSideCanMove(last, home, n, capacity);
    assert last.consumed == Sends(LoginScript(home, n));
    if 0 < |home| {
      ClientRebuildsTree(home, n);
    }
  }

  /** Where a run cannot go on, the client of a nonempty home directory has left its loop, with the paths of the home
      directory without a component that starts with a dot, and with what is there. */
  lemma {:induction false} PullEndsWithTree(
      home: seq<Entry>, n: nat, run: seq<System>, events: seq<Event>, capacity: nat, path: PathName)
    requires 0 < n && WellNamed(home) && PullRun(home, n, run, events) && 0 < capacity
    requires !CanMove(run[|events|], n, capacity) && 0 < |home| && 0 < |path|
    ensures var client := run[|events|].client;
            && client.phase == Finished && !client.orphans
            && (path in client.files <==>
                  && Lookup(home, path).Some?
                  && forall i :: 0 <= i < |path| ==> !(0 < |path[i]| && path[i][0] == '.'))
            && (path in client.files ==> client.files[path] == Lookup(home, path).value)
  {
    PullCompletesIff(home, n, run, events, capacity);
    ClientRebuildsTree(home, n);
    PulledTree(home, n, path);
  }

  /** The server's home directory is empty: the run of no steps cannot go on, and the client awaits a header. */
  lemma {:induction false} EmptyHomeWaits(n: nat, capacity: nat)
    requires 0 < n
    ensures PullRun([], n, [Start([], n)], [])
    ensures !CanMove(Start([], n), n, capacity) && Start([], n).client.phase == AwaitHeader
  {
  }
}

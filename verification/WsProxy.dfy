/** The WebSocket-to-TCP proxy as a step system: connecting, flushing what came early,
    then pumping both ways (src/wsproxy.rs). */
module WsProxy {
  import opened Bytes

  const MAX_PENDING: nat := 64
  const READ_BUFFER: nat := 16 * 1024

  /** What a client sends: data, as binary or as text, other frames, or a close. */
  datatype Message = Binary(data: seq<byte>) | Text(utf8: seq<byte>) | Other | Close

  /** The side that forwards to the server: waiting for a frame, or with bytes of one still to write. */
  datatype Upstream = Idle | Writing(rest: seq<byte>)

  /** The side that forwards to the client: waiting for bytes, or with a chunk to send. */
  datatype Downstream = Waiting | Sending(chunk: seq<byte>)

  datatype Phase =
    | Connecting(pending: seq<seq<byte>>)
    | Flushing(queue: seq<seq<byte>>)
    | Pumping(up: Upstream, down: Downstream)
    | Closed

  /** The proxy's phase, and what has crossed each of its edges. */
  datatype State = State(
    phase: Phase,
    taken: nat,
    early: seq<seq<byte>>,
    late: seq<seq<byte>>,
    tcp: seq<byte>,
    read: nat,
    toClient: seq<byte>,
    closeFrames: nat)

  /** One thing that can happen. Writes and reads move any number of bytes; a failure may strike at any point. */
  datatype Event =
    | Frame
    | ClientGone
    | Connected
    | ConnectFailed
    | Write(n: nat)
    | WriteFailed
    | Read(n: nat)
    | ServerGone
    | Sent
    | SendFailed

  /** Everything the two peers ever send. */
  datatype Peers = Peers(client: seq<Message>, server: seq<byte>)

  // ---------------------------------------------------------------- steps

  function PushPending(pending: seq<seq<byte>>, data: seq<byte>): seq<seq<byte>> {
    if |pending| < MAX_PENDING then pending + [data] else pending
  }

  function Settled(queue: seq<seq<byte>>): Phase {
    if queue == [] then Pumping(Idle, Waiting) else Flushing(queue)
  }

  function Payload(m: Message): seq<byte>
    requires m.Binary? || m.Text?
  {
    match m
    case Binary(data) => data
    case Text(utf8) => utf8
  }

  /** Ending with a close frame to the client, which every end but the client's own before the connection sends. */
  function Hung(s: State): State {
    s.(phase := Closed, closeFrames := s.closeFrames + 1)
  }

  /** The next frame of the client, where the proxy is ready to take it. */
  function TakeFrame(s: State, m: Message): State {
    match s.phase
    case Connecting(pending) =>
      (match m
       case Close => s.(phase := Closed, taken := s.taken + 1)
       case Other => s.(taken := s.taken + 1)
       case _ => s.(phase := Connecting(PushPending(pending, Payload(m))), taken := s.taken + 1,
           early := s.early + [Payload(m)]))
    case Pumping(Idle, down) =>
      (match m
       case Close => Hung(s.(taken := s.taken + 1))
       case Other => s.(taken := s.taken + 1)
       case _ => s.(phase := Pumping(Writing(Payload(m)), down), taken := s.taken + 1, late := s.late + [Payload(m)]))
    case _ => s
  }

  function Next(peers: Peers, s: State, event: Event): State {
    match event
    case Frame => if s.taken < |peers.client| then TakeFrame(s, peers.client[s.taken]) else s
    case ClientGone =>
      (match s.phase
       case Connecting(_) => s.(phase := Closed)
       case Pumping(Idle, _) => Hung(s)
       case _ => s)
    case Connected => if s.phase.Connecting? then s.(phase := Settled(s.phase.pending)) else s
    case ConnectFailed => if s.phase.Connecting? then Hung(s) else s
    case Write(n) =>
      (match s.phase
       case Flushing(queue) =>
         if queue == [] || n > |queue[0]| then s
         else s.(phase := if n == |queue[0]| then Settled(queue[1..]) else Flushing([queue[0][n..]] + queue[1..]),
             tcp := s.tcp + queue[0][..n])
       case Pumping(Writing(rest), down) =>
         if n > |rest| then s
         else s.(phase := Pumping(if n == |rest| then Idle else Writing(rest[n..]), down), tcp := s.tcp + rest[..n])
       case _ => s)
    case WriteFailed => if s.phase.Flushing? || (s.phase.Pumping? && s.phase.up.Writing?) then Hung(s) else s
    case Read(n) =>
      if s.phase.Pumping? && s.phase.down.Waiting? && 0 < n <= READ_BUFFER && s.read + n <= |peers.server|
      then s.(phase := s.phase.(down := Sending(peers.server[s.read..s.read + n])), read := s.read + n)
      else s
    case ServerGone => if s.phase.Pumping? && s.phase.down.Waiting? then Hung(s) else s
    case Sent =>
      if s.phase.Pumping? && s.phase.down.Sending?
      then s.(phase := s.phase.(down := Waiting), toClient := s.toClient + s.phase.down.chunk)
      else s
    case SendFailed => if s.phase.Pumping? && s.phase.down.Sending? then Hung(s) else s
  }

  const START: State := State(Connecting([]), 0, [], [], [], 0, [], 0)

  /** A target that is malformed or not on the allowlist is closed before anything is dialled. */
  function Start(wellFormed: bool, target: string, allowed: seq<string>): State {
    if wellFormed && target in allowed then START else Hung(START)
  }

  function After(peers: Peers, start: State, events: seq<Event>): State {
    if events == [] then start else Next(peers, After(peers, start, events[..|events| - 1]), events[|events| - 1])
  }

  // ---------------------------------------------------------------- what crosses the proxy

  function Flat(frames: seq<seq<byte>>): seq<byte> {
    if frames == [] then [] else frames[0] + Flat(frames[1..])
  }

  lemma {:induction false} FlatAppend(a: seq<seq<byte>>, b: seq<seq<byte>>)
    ensures Flat(a + b) == Flat(a) + Flat(b)
  {
    if a == [] {
      assert a + b == b;
    } else {
      assert (a + b)[1..] == a[1..] + b;
      FlatAppend(a[1..], b);
    }
  }

  lemma FlatOne(frame: seq<byte>)
    ensures Flat([frame]) == frame
  {
    assert [frame][1..] == [];
  }

  /** The frames kept of those that arrive before the connection: the first 64. */
  function Kept(early: seq<seq<byte>>): seq<seq<byte>> {
    if |early| <= MAX_PENDING then early else early[..MAX_PENDING]
  }

  /** The data frames of a stretch of the client's messages, in order. */
  function Payloads(messages: seq<Message>): seq<seq<byte>> {
    if messages == [] then []
    else
      var m := messages[|messages| - 1];
      Payloads(messages[..|messages| - 1]) + if m.Binary? || m.Text? then [Payload(m)] else []
  }

  predicate IsPrefix<T(==)>(a: seq<T>, b: seq<T>) {
    |a| <= |b| && b[..|a|] == a
  }

  /** What is due to the server: the kept early frames, then all later ones. */
  function Due(s: State): seq<byte> {
    Flat(Kept(s.early)) + Flat(s.late)
  }

  /** The bytes taken from the client and not yet written. */
  function Owed(s: State): seq<byte> {
    match s.phase
    case Connecting(pending) => Flat(pending)
    case Flushing(queue) => Flat(queue)
    case Pumping(Writing(rest), _) => rest
    case _ => []
  }

  function Held(s: State): seq<byte> {
    if s.phase.Pumping? && s.phase.down.Sending? then s.phase.down.chunk else []
  }

  ghost predicate UpInvariant(peers: Peers, s: State) {
    && s.taken <= |peers.client| && s.early + s.late == Payloads(peers.client[..s.taken])
    && (s.phase.Connecting? ==> s.phase.pending == Kept(s.early) && s.late == [] && s.tcp == [])
    && (s.phase.Flushing? ==> s.late == [])
    && (if s.phase.Closed? then IsPrefix(s.tcp, Due(s)) else s.tcp + Owed(s) == Due(s))
  }

  ghost predicate DownInvariant(peers: Peers, s: State) {
    && s.read <= |peers.server|
    && (if s.phase.Closed? then IsPrefix(s.toClient, peers.server[..s.read]) else
        s.toClient + Held(s) == peers.server[..s.read])
    && s.closeFrames <= (if s.phase.Closed? then 1 else 0)
  }

  lemma KeptPush(early: seq<seq<byte>>, data: seq<byte>)
    ensures PushPending(Kept(early), data) == Kept(early + [data])
  {
    if |early| < MAX_PENDING {
      assert (early + [data]) == early + [data];
    } else {
      assert (early + [data])[..MAX_PENDING] == early[..MAX_PENDING];
    }
  }

  lemma OneMorePayload(messages: seq<Message>, n: nat)
    requires n < |messages|
    ensures Payloads(messages[..n + 1]) ==
            Payloads(messages[..n]) + if messages[n].Binary? || messages[n].Text? then [Payload(messages[n])] else []
  {
    assert messages[..n + 1][..n] == messages[..n];
  }

  lemma PrefixOf(a: seq<byte>, b: seq<byte>)
    ensures IsPrefix(a, a + b)
  {
  }

  /** Hanging up leaves a prefix of what was due. */
  lemma HungKeepsUp(peers: Peers, s: State)
    requires UpInvariant(peers, s) && !s.phase.Closed?
    ensures UpInvariant(peers, Hung(s)) && UpInvariant(peers, s.(phase := Closed))
  {
    hide Payloads, Flat, Kept;
    PrefixOf(s.tcp, Owed(s));
  }

  lemma FrameKeepsUp(peers: Peers, s: State)
    requires UpInvariant(peers, s) && s.taken < |peers.client|
    ensures UpInvariant(peers, TakeFrame(s, peers.client[s.taken]))
  {
    hide Payloads, Flat, Kept;
    var m := peers.client[s.taken];
    var after := TakeFrame(s, m);
    OneMorePayload(peers.client, s.taken);
    if s.phase.Connecting? && (m.Binary? || m.Text?) {
      KeptPush(s.early, Payload(m));
      assert s.early + s.late == s.early && after.early + after.late == after.early;
      NoFrames();
    } else if s.phase.Connecting? || (s.phase.Pumping? && s.phase.up.Idle? && !m.Binary? && !m.Text?) {
      var kept := s.(taken := s.taken + 1);
      assert UpInvariant(peers, kept) by { assert s.early + s.late + [] == s.early + s.late; }
      HungKeepsUp(peers, kept);
    } else if s.phase.Pumping? && s.phase.up.Idle? {
      FlatAppend(s.late, [Payload(m)]);
      FlatOne(Payload(m));
      assert s.early + s.late + [Payload(m)] == s.early + (s.late + [Payload(m)]);
      assert Due(after) == Due(s) + Payload(m);
    }
  }

  lemma NoFrames()
    ensures Flat([]) == []
  {
  }

  lemma WriteKeepsUp(peers: Peers, s: State, n: nat)
    requires UpInvariant(peers, s)
    ensures UpInvariant(peers, Next(peers, s, Write(n)))
  {
    hide Payloads, Kept;
    match s.phase
    case Flushing(queue) =>
      if queue != [] && n <= |queue[0]| {
        var rest := [queue[0][n..]] + queue[1..];
        assert rest[1..] == queue[1..];
        assert s.tcp + Flat(queue) == s.tcp + queue[0][..n] + (queue[0][n..] + Flat(queue[1..]));
        if n == |queue[0]| {
          assert queue[0][n..] + Flat(queue[1..]) == Flat(queue[1..]);
        }
      }
    case Pumping(Writing(rest), _) =>
      if n <= |rest| {
        assert s.tcp + rest == s.tcp + rest[..n] + rest[n..];
      }
    case _ =>
  }

  lemma StepKeepsUp(peers: Peers, s: State, event: Event)
    requires UpInvariant(peers, s)
    ensures UpInvariant(peers, Next(peers, s, event))
  {
    hide TakeFrame, Payloads, Flat, Kept;
    match event
    case Frame => if s.taken < |peers.client| { FrameKeepsUp(peers, s); }
    case Write(n) => WriteKeepsUp(peers, s, n);
    case Connected => NoFrames();
    case _ => if !s.phase.Closed? { HungKeepsUp(peers, s); }
  }

  lemma StepKeepsDown(peers: Peers, s: State, event: Event)
    requires DownInvariant(peers, s)
    ensures DownInvariant(peers, Next(peers, s, event))
  {
    if s.phase.Pumping? {
      PrefixOf(s.toClient, Held(s));
    }
  }

  lemma {:induction false} EveryRunKeeps(peers: Peers, start: State, events: seq<Event>)
    requires UpInvariant(peers, start) && DownInvariant(peers, start)
    ensures UpInvariant(peers, After(peers, start, events)) && DownInvariant(peers, After(peers, start, events))
  {
    hide UpInvariant, DownInvariant, Next;
    if events != [] {
      var before := After(peers, start, events[..|events| - 1]);
      EveryRunKeeps(peers, start, events[..|events| - 1]);
      StepKeepsUp(peers, before, events[|events| - 1]);
      StepKeepsDown(peers, before, events[|events| - 1]);
    }
  }

  lemma StartsInvariant(peers: Peers, wellFormed: bool, target: string, allowed: seq<string>)
    ensures UpInvariant(peers, Start(wellFormed, target, allowed)) &&
            DownInvariant(peers, Start(wellFormed, target, allowed))
  {
  }

  /**
   Stream order, over every interleaving of frames, connecting, partial writes, reads and failures. The bytes written to
   the server are a prefix of the first 64 frames that came before the connection and all that came after it, so of
   everything the client sent when no more than 64 came early. The bytes sent to the client are a prefix of what the
   server sent. There is at most one close frame, and it comes at the end.
   */
  lemma StreamOrder(peers: Peers, wellFormed: bool, target: string, allowed: seq<string>, events: seq<Event>)
    ensures var s := After(peers, Start(wellFormed, target, allowed), events);
            && s.taken <= |peers.client| && s.early + s.late == Payloads(peers.client[..s.taken])
            && IsPrefix(s.tcp, Flat(Kept(s.early)) + Flat(s.late))
            && (|s.early| <= MAX_PENDING ==> IsPrefix(s.tcp, Flat(Payloads(peers.client[..s.taken]))))
            && IsPrefix(s.toClient, peers.server)
            && s.closeFrames <= 1 && (s.closeFrames == 1 ==> s.phase.Closed?)
  {
    hide After, Flat, Payloads;
    StartsInvariant(peers, wellFormed, target, allowed);
    EveryRunKeeps(peers, Start(wellFormed, target, allowed), events);
    var s := After(peers, Start(wellFormed, target, allowed), events);
    FlatAppend(s.early, s.late);
    PrefixOf(s.tcp, Owed(s));
    PrefixOf(s.toClient, Held(s));
    assert peers.server[..s.read][..|s.toClient|] == peers.server[..|s.toClient|];
  }

  /** Nothing is lost: whenever a side waits for more, everything due to the other end has crossed. */
  lemma NothingLost(peers: Peers, wellFormed: bool, target: string, allowed: seq<string>, events: seq<Event>)
    ensures var s := After(peers, Start(wellFormed, target, allowed), events);
            s.phase.Pumping? ==>
              && s.taken <= |peers.client| && s.read <= |peers.server|
              && (s.phase.up.Idle? ==> s.tcp == Flat(Kept(s.early)) + Flat(s.late))
              && (s.phase.up.Idle? && |s.early| <= MAX_PENDING ==> s.tcp == Flat(Payloads(peers.client[..s.taken])))
              && (s.phase.down.Waiting? ==> s.toClient == peers.server[..s.read])
  {
    hide After, Flat, Payloads;
    StartsInvariant(peers, wellFormed, target, allowed);
    EveryRunKeeps(peers, Start(wellFormed, target, allowed), events);
    var s := After(peers, Start(wellFormed, target, allowed), events);
    FlatAppend(s.early, s.late);
  }

  /**
   Closing is final: once closed, nothing crosses and no second close frame is sent, and a refused target never opens.
   */
  lemma {:induction false} ClosedStays(peers: Peers, start: State, events: seq<Event>)
    requires start.phase.Closed?
    ensures After(peers, start, events) == start
  {
    if events != [] {
      ClosedStays(peers, start, events[..|events| - 1]);
    }
  }

  /** Nothing is written to a server that is not on the allowlist. */
  lemma OnlyAllowedTargets(peers: Peers, wellFormed: bool, target: string, allowed: seq<string>, events: seq<Event>)
    ensures After(peers, Start(wellFormed, target, allowed), events).tcp != [] ==> wellFormed && target in allowed
  {
    if !(wellFormed && target in allowed) {
      ClosedStays(peers, Start(wellFormed, target, allowed), events);
    }
  }

  // ---------------------------------------------------------------- why it closes

  /** Whether the proxy would take a frame, or notice that the client has gone. */
  predicate Listens(s: State) {
    s.phase.Connecting? || (s.phase.Pumping? && s.phase.up.Idle?)
  }

  /** A close frame or the end of the client's stream, while the proxy listens. */
  predicate ClientLeaves(peers: Peers, s: State, event: Event) {
    Listens(s) &&
    (event.ClientGone? || (event.Frame? && s.taken < |peers.client| && peers.client[s.taken].Close?))
  }

  /** A failure of the connection, a write, a read or a send, or the end of the server's stream, where it can strike. */
  predicate Fails(s: State, event: Event) {
    match event
    case ConnectFailed => s.phase.Connecting?
    case WriteFailed => s.phase.Flushing? || (s.phase.Pumping? && s.phase.up.Writing?)
    case ServerGone => s.phase.Pumping? && s.phase.down.Waiting?
    case SendFailed => s.phase.Pumping? && s.phase.down.Sending?
    case _ => false
  }

  lemma StepCloses(peers: Peers, s: State, event: Event)
    requires !s.phase.Closed?
    ensures Next(peers, s, event).phase.Closed? <==> ClientLeaves(peers, s, event) || Fails(s, event)
    ensures Next(peers, s, event).phase.Closed? ==>
              Next(peers, s, event).closeFrames ==
              s.closeFrames + if s.phase.Connecting? && ClientLeaves(peers, s, event) then 0 else 1
    ensures !Next(peers, s, event).phase.Closed? ==> Next(peers, s, event).closeFrames == s.closeFrames
  {
  }

  ghost predicate LeavesAt(peers: Peers, events: seq<Event>, k: nat) {
    k < |events| && ClientLeaves(peers, After(peers, START, events[..k]), events[k])
  }

  ghost predicate FailsAt(peers: Peers, events: seq<Event>, k: nat) {
    k < |events| && Fails(After(peers, START, events[..k]), events[k])
  }

  /** The client left before there was a connection. */
  ghost predicate LeavesEarly(peers: Peers, events: seq<Event>, k: nat) {
    LeavesAt(peers, events, k) && After(peers, START, events[..k]).phase.Connecting?
  }

  /**
   A proxy to an allowed target is closed exactly when the client left or something failed, and only for that. It has
   then sent one close frame, unless the client left before there was a connection, and none at any other time.
   */
  lemma {:induction false} ClosedExactlyWhen(peers: Peers, events: seq<Event>)
    ensures var s := After(peers, START, events);
            && (s.phase.Closed? <==> exists k :: LeavesAt(peers, events, k) || FailsAt(peers, events, k))
            && s.closeFrames == (if s.phase.Closed? && !(exists k :: LeavesEarly(peers, events, k)) then 1 else 0)
  {
    hide Next, Fails, ClientLeaves;
    if events != [] {
      var n := |events| - 1;
      var front := events[..n];
      var before := After(peers, START, front);
      ClosedExactlyWhen(peers, front);
      forall k | 0 <= k < n
        ensures LeavesAt(peers, events, k) == LeavesAt(peers, front, k)
        ensures FailsAt(peers, events, k) == FailsAt(peers, front, k)
        ensures LeavesEarly(peers, events, k) == LeavesEarly(peers, front, k)
      {
        assert front[..k] == events[..k];
      }
      assert LeavesAt(peers, events, n) == ClientLeaves(peers, before, events[n]);
      assert FailsAt(peers, events, n) == Fails(before, events[n]);
      if before.phase.Closed? {
        ClosedIsDeaf(peers, before, events[n]);
        if k :| LeavesAt(peers, front, k) || FailsAt(peers, front, k) {
          assert LeavesAt(peers, events, k) || FailsAt(peers, events, k);
        }
      } else {
        StepCloses(peers, before, events[n]);
        if Next(peers, before, events[n]).phase.Closed? {
          assert LeavesAt(peers, events, n) || FailsAt(peers, events, n);
          assert LeavesEarly(peers, events, n) == (before.phase.Connecting? && ClientLeaves(peers, before, events[n]));
        }
      }
    }
  }

  lemma ClosedIsDeaf(peers: Peers, s: State, event: Event)
    requires s.phase.Closed?
    ensures Next(peers, s, event) == s && !ClientLeaves(peers, s, event) && !Fails(s, event)
  {
  }

  // ---------------------------------------------------------------- what can always cross

  lemma {:induction false} AfterMore(peers: Peers, start: State, a: seq<Event>, b: seq<Event>)
    ensures After(peers, start, a + b) == After(peers, After(peers, start, a), b)
    decreases |b|
  {
    hide Next;
    if b == [] {
      assert a + b == a;
    } else {
      var front := b[..|b| - 1];
      assert (a + b)[..|a + b| - 1] == a + front;
      AfterMore(peers, start, a, front);
    }
  }

  lemma AfterOne(peers: Peers, s: State, event: Event)
    ensures After(peers, s, [event]) == Next(peers, s, event)
  {
    hide Next;
    assert [event][..0] == [];
  }

  lemma AfterTwo(peers: Peers, s: State, first: Event, second: Event)
    ensures After(peers, s, [first, second]) == Next(peers, Next(peers, s, first), second)
  {
    hide Next;
    AfterOne(peers, s, first);
    assert [first, second][..1] == [first];
  }

  function Frames(n: nat): (events: seq<Event>)
    ensures |events| == n
  {
    seq(n, _ => Frame)
  }

  /** Writes that finish each of the given frames. */
  function WholeWrites(frames: seq<seq<byte>>): (events: seq<Event>)
    ensures |events| == |frames|
  {
    seq(|frames|, i requires 0 <= i < |frames| => Write(|frames[i]|))
  }

  predicate IsData(m: Message) {
    m.Binary? || m.Text?
  }

  lemma {:induction false} FramesWait(peers: Peers, n: nat)
    requires n <= |peers.client| && forall i | 0 <= i < n :: IsData(peers.client[i])
    ensures var frames := Payloads(peers.client[..n]);
            && |frames| == n
            && After(peers, START, Frames(n)) == State(Connecting(Kept(frames)), n, frames, [], [], 0, [], 0)
  {
    hide Kept;
    if n == 0 {
      assert Kept([]) == [] by { NothingKept(); }
    } else {
      FramesWait(peers, n - 1);
      OneMorePayload(peers.client, n - 1);
      KeptPush(Payloads(peers.client[..n - 1]), Payload(peers.client[n - 1]));
      assert Frames(n)[..n - 1] == Frames(n - 1);
    }
  }

  lemma NothingKept()
    ensures Kept([]) == []
  {
  }

  lemma {:induction false} QueueFlushes(peers: Peers, s: State)
    requires s.phase.Flushing? && s.phase.queue != []
    ensures After(peers, s, WholeWrites(s.phase.queue)) ==
            s.(phase := Pumping(Idle, Waiting), tcp := s.tcp + Flat(s.phase.queue))
    decreases if s.phase.Flushing? then |s.phase.queue| else 0
  {
    hide After;
    var queue := s.phase.queue;
    var first, rest := Write(|queue[0]|), queue[1..];
    var after := Next(peers, s, first);
    assert WholeWrites(queue) == [first] + WholeWrites(rest);
    AfterMore(peers, s, [first], WholeWrites(rest));
    AfterOne(peers, s, first);
    assert queue[0][..|queue[0]|] == queue[0];
    if rest == [] {
      NoFrames();
      assert queue[0] + [] == queue[0];
      assert After(peers, after, []) == after by { NothingHappens(peers, after); }
    } else {
      QueueFlushes(peers, after);
      assert s.tcp + queue[0] + Flat(rest) == s.tcp + (queue[0] + Flat(rest));
    }
  }

  lemma NothingHappens(peers: Peers, s: State)
    ensures After(peers, s, []) == s
  {
  }

  /**
   Frames that come early arrive: once the connection stands and each has been written, the server has the first 64 of
   them, in order, and both sides wait for more.
   */
  lemma EarlyFramesArrive(peers: Peers, n: nat)
    requires n <= |peers.client| && forall i | 0 <= i < n :: IsData(peers.client[i])
    ensures var frames := Payloads(peers.client[..n]);
            |frames| == n &&
            var kept := if n <= 64 then frames else frames[..64];
            After(peers, START, Frames(n) + [Connected] + WholeWrites(kept)) ==
            State(Pumping(Idle, Waiting), n, frames, [], Flat(kept), 0, [], 0)
  {
    hide After, Flat, Payloads;
    FramesWait(peers, n);
    var frames := Payloads(peers.client[..n]);
    var kept := if n <= 64 then frames else frames[..64];
    var waiting := After(peers, START, Frames(n));
    var connected := Next(peers, waiting, Connected);
    AfterMore(peers, START, Frames(n), [Connected]);
    AfterOne(peers, waiting, Connected);
    AfterMore(peers, START, Frames(n) + [Connected], WholeWrites(kept));
    if kept == [] {
      NothingHappens(peers, connected);
      NoFrames();
    } else {
      QueueFlushes(peers, connected);
    }
  }

  /** A later frame arrives, whole, behind what has been written, whatever the other side does. */
  lemma LaterFrameArrives(peers: Peers, s: State, n: nat)
    requires s.phase.Pumping? && s.phase.up.Idle? && s.taken < |peers.client| && IsData(peers.client[s.taken])
    requires n < |Payload(peers.client[s.taken])|
    ensures var data := Payload(peers.client[s.taken]);
            After(peers, s, [Frame, Write(n)] + [Write(|data| - n)]) ==
            s.(taken := s.taken + 1, late := s.late + [data], tcp := s.tcp + data)
  {
    hide After;
    var data := Payload(peers.client[s.taken]);
    AfterTwo(peers, s, Frame, Write(n));
    var half := Next(peers, Next(peers, s, Frame), Write(n));
    AfterMore(peers, s, [Frame, Write(n)], [Write(|data| - n)]);
    AfterOne(peers, half, Write(|data| - n));
    assert data[n..][..|data| - n] == data[n..];
    assert s.tcp + data[..n] + data[n..] == s.tcp + data;
  }

  /** Bytes of the server reach the client, up to 16 KiB at a time and unchanged. */
  lemma ServerBytesArrive(peers: Peers, s: State, n: nat)
    requires s.phase.Pumping? && s.phase.down.Waiting? && 0 < n <= 16_384 && s.read + n <= |peers.server|
    ensures After(peers, s, [Read(n), Sent]) ==
            s.(read := s.read + n, toClient := s.toClient + peers.server[s.read..s.read + n])
  {
    hide After;
    AfterTwo(peers, s, Read(n), Sent);
  }

  /** An event that is no failure and no goodbye. */
  predicate Harmless(event: Event) {
    event.Frame? || event.Connected? || event.Write? || event.Read? || event.Sent?
  }

  predicate AllHarmless(events: seq<Event>) {
    forall i | 0 <= i < |events| :: Harmless(events[i])
  }

  /** How much there is still to do. */
  function Left(peers: Peers, s: State): int {
    4 * (|peers.client| - s.taken + |peers.server| - s.read) +
    match s.phase
    case Connecting(pending) => 2 + MAX_PENDING
    case Flushing(queue) => 1 + |queue|
    case Pumping(up, down) => (if up.Writing? then 1 else 0) + (if down.Sending? then 1 else 0)
    case Closed => 0
  }

  /** Whether everything there is to carry has been taken and passed on. */
  predicate AllCarried(peers: Peers, s: State) {
    s.phase == Pumping(Idle, Waiting) && s.taken == |peers.client| && s.read == |peers.server|
  }

  /** The event that takes an open proxy further. */
  function Useful(peers: Peers, s: State): Event
    requires !s.phase.Closed?
  {
    match s.phase
    case Connecting(_) => Connected
    case Flushing(queue) => if queue == [] then Write(0) else Write(|queue[0]|)
    case Pumping(Writing(rest), _) => Write(|rest|)
    case Pumping(Idle, Sending(_)) => Sent
    case Pumping(Idle, Waiting) => if s.taken < |peers.client| then Frame else Read(1)
  }

  /** What every open state keeps: a short queue that is never empty while it is flushed. */
  predicate Sound(peers: Peers, s: State) {
    && s.taken <= |peers.client| && s.read <= |peers.server|
    && (s.phase.Connecting? ==> |s.phase.pending| <= MAX_PENDING)
    && (s.phase.Flushing? ==> 0 < |s.phase.queue| <= MAX_PENDING)
  }

  lemma StepKeepsSound(peers: Peers, s: State, event: Event)
    requires Sound(peers, s)
    ensures Sound(peers, Next(peers, s, event))
  {
  }

  lemma {:induction false} EveryRunIsSound(peers: Peers, wellFormed: bool, target: string, allowed: seq<string>,
                                           events: seq<Event>)
    ensures Sound(peers, After(peers, Start(wellFormed, target, allowed), events))
  {
    hide Sound, Next;
    if events == [] {
      assert Sound(peers, Start(wellFormed, target, allowed)) by { StartIsSound(peers, wellFormed, target, allowed); }
    } else {
      EveryRunIsSound(peers, wellFormed, target, allowed, events[..|events| - 1]);
      var before := After(peers, Start(wellFormed, target, allowed), events[..|events| - 1]);
      StepKeepsSound(peers, before, events[|events| - 1]);
    }
  }

  lemma StartIsSound(peers: Peers, wellFormed: bool, target: string, allowed: seq<string>)
    ensures Sound(peers, Start(wellFormed, target, allowed))
  {
  }

  lemma UsefulStep(peers: Peers, s: State)
    requires Sound(peers, s) && !s.phase.Closed? && !AllCarried(peers, s)
    requires forall i | s.taken <= i < |peers.client| :: !peers.client[i].Close?
    ensures var after := Next(peers, s, Useful(peers, s));
            && Harmless(Useful(peers, s)) && !after.phase.Closed? && s.taken <= after.taken
            && 0 <= Left(peers, after) < Left(peers, s)
  {
  }

  lemma {:induction false} Drains(peers: Peers, s: State) returns (events: seq<Event>)
    requires Sound(peers, s) && !s.phase.Closed?
    requires forall i | s.taken <= i < |peers.client| :: !peers.client[i].Close?
    ensures AllHarmless(events) && AllCarried(peers, After(peers, s, events))
    decreases Left(peers, s)
  {
    hide After, Sound, Next, Left, AllCarried, Useful, Harmless;
    if AllCarried(peers, s) {
      events := [];
      NothingHappens(peers, s);
    } else {
      var event := Useful(peers, s);
      UsefulStep(peers, s);
      StepKeepsSound(peers, s, event);
      var more := Drains(peers, Next(peers, s, event));
      events := [event] + more;
      AfterMore(peers, s, [event], more);
      AfterOne(peers, s, event);
    }
  }

  /**
   Nothing gets stuck: whatever has happened so far, as long as the proxy is open and the client sends no close frame,
   there is a way on without failures at whose end all the client's frames have crossed, but for early ones beyond the
   first 64, and all the server's bytes.
   */
  lemma CanDeliverAll(peers: Peers, wellFormed: bool, target: string, allowed: seq<string>, events: seq<Event>)
    returns (more: seq<Event>)
    requires var s := After(peers, Start(wellFormed, target, allowed), events);
             !s.phase.Closed? && forall i | s.taken <= i < |peers.client| :: !peers.client[i].Close?
    ensures AllHarmless(more)
    ensures var s := After(peers, Start(wellFormed, target, allowed), events + more);
            && s.early + s.late == Payloads(peers.client) && s.tcp == Flat(Kept(s.early)) + Flat(s.late)
            && s.toClient == peers.server
  {
    hide After, Flat, Payloads, Kept, Sound;
    var start := Start(wellFormed, target, allowed);
    EveryRunIsSound(peers, wellFormed, target, allowed, events);
    more := Drains(peers, After(peers, start, events));
    AfterMore(peers, start, events, more);
    StreamOrder(peers, wellFormed, target, allowed, events + more);
    NothingLost(peers, wellFormed, target, allowed, events + more);
    assert peers.client[..|peers.client|] == peers.client && peers.server[..|peers.server|] == peers.server;
  }
}

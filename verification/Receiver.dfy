/** The receiving peer: the handshake rounds and the stop-and-wait receive loop. */
module Receiver {
  import opened Common
  import opened Protocol

  datatype Status = Running | Success | HashMismatch | PeerError | TimedOut

  /** The arguments of `receive_file`, with the file hash as an abstract function. */
  datatype Config = Config(id: string, peer: Endpoint, expectedHash: string, hash: Bytes -> string)

  /** The outcome of one wait; `packet` is `None` when the datagram does not parse. */
  datatype Event = Timeout | Received(from: Endpoint, packet: Option<Control>)

  /** The output file, the loop variables and what was sent so far. */
  datatype State = State(out: Bytes, current: nat, retries: nat, status: Status, sent: seq<Control>)

  function Start(cfg: Config): State {
    State([], 0, 0, Running, [Get(cfg.id)])
  }

  /** `seekp` then `write`: overwrite from `off`, with zeros where the file was shorter. */
  function WriteAt(out: Bytes, off: nat, payload: Bytes): (r: Bytes)
    ensures off == |out| ==> r == out + payload
  {
    var padded := if off <= |out| then out else out + seq(off - |out|, _ => 0);
    padded[..off] + payload + (if off + |payload| <= |padded| then padded[off + |payload|..] else [])
  }

  /** The packet that asks again after a time-out. */
  function Nudge(cfg: Config, current: nat): Control {
    if current == 0 then Get(cfg.id) else Ack(cfg.id, current)
  }

  function SendAck(cfg: Config, s: State): State {
    s.(sent := s.sent + [Ack(cfg.id, s.current)])
  }

  function OnTimeout(cfg: Config, s: State): State {
    s.(retries := s.retries + 1,
       status := if s.retries + 1 < MAX_RETRIES then Running else TimedOut,
       sent := s.sent + [Nudge(cfg, s.current)])
  }

  function OnData(cfg: Config, s: State, off: nat, payload: Bytes): State {
    if off == s.current then
      SendAck(cfg, s.(out := WriteAt(s.out, off, payload), current := s.current + |payload|))
    else if off < s.current then
      SendAck(cfg, s)
    else
      s
  }

  function OnDone(cfg: Config, s: State, finalSize: nat): State {
    if s.current != finalSize then
      s
    else if cfg.hash(s.out) != cfg.expectedHash then
      s.(status := HashMismatch)
    else
      SendAck(cfg, s).(status := Success)
  }

  function OnPeerPacket(cfg: Config, s: State, packet: Control): State {
    match packet
    case Data(id, off, payload) => if id == cfg.id then OnData(cfg, s, off, payload) else s
    case Done(id, finalSize, _) => if id == cfg.id then OnDone(cfg, s, finalSize) else s
    case Error(_, _) => s.(status := PeerError)
    case _ => s
  }

  /** One turn of the loop; a finished receiver is left alone. */
  function OnEvent(cfg: Config, s: State, e: Event): State {
    if s.status != Running then s
    else match e
      case Timeout => OnTimeout(cfg, s)
      case Received(from, packet) =>
        if from != cfg.peer then s
        else if packet.None? then s.(retries := 0)
        else OnPeerPacket(cfg, s.(retries := 0), packet.value)
  }

  function Run(cfg: Config, events: seq<Event>): State {
    if events == [] then Start(cfg)
    else OnEvent(cfg, Run(cfg, events[..|events| - 1]), events[|events| - 1])
  }

  lemma RunOneMore(cfg: Config, xs: seq<Event>, x: Event)
    ensures Run(cfg, xs + [x]) == OnEvent(cfg, Run(cfg, xs), x)
  {
    hide OnEvent;
    assert (xs + [x])[..|xs|] == xs;
  }

  lemma {:induction false} FinishedStays(cfg: Config, xs: seq<Event>, ys: seq<Event>)
    requires Run(cfg, xs).status != Running
    ensures Run(cfg, xs + ys) == Run(cfg, xs)
    decreases |ys|
  {
    if ys == [] {
      assert xs + ys == xs;
    } else {
      FinishedStays(cfg, xs, ys[..|ys| - 1]);
      assert (xs + ys)[..|xs + ys| - 1] == xs + ys[..|ys| - 1];
    }
  }

  /** The receive loop, fed with the outcomes of its waits until it returns or they run out. */
  method ReceiveFile(cfg: Config, events: seq<Event>) returns (result: State)
    ensures result == Run(cfg, events)
  {
    var out: Bytes := [];
    var sent := [Get(cfg.id)];
    var current: nat := 0;
    var retries: nat := 0;
    var i := 0;
    while retries < MAX_RETRIES && i < |events|
      invariant 0 <= i <= |events| && retries <= MAX_RETRIES
      invariant Run(cfg, events[..i])
             == State(out, current, retries, if retries < MAX_RETRIES then Running else TimedOut, sent)
      decreases |events| - i
    {
      var event := events[i];
      assert events[..i + 1][..i] == events[..i];
      assert events == events[..i + 1] + events[i + 1..];
      i := i + 1;
      if event.Received? {
        if event.from != cfg.peer {
          continue;
        }
        retries := 0;
        if event.packet.None? {
          continue;
        }
        var packet := event.packet.value;
        if packet.Data? {
          if packet.transferId != cfg.id {
            continue;
          }
          if packet.offset == current {
            out := WriteAt(out, packet.offset, packet.payload);
            current := current + |packet.payload|;
            sent := sent + [Ack(cfg.id, current)];
          } else if packet.offset < current {
            sent := sent + [Ack(cfg.id, current)];
          }
        }
        if packet.Done? {
          if packet.transferId != cfg.id {
            continue;
          }
          if current != packet.finalSize {
            continue;
          }
          if cfg.hash(out) != cfg.expectedHash {
            result := State(out, current, retries, HashMismatch, sent);
            FinishedStays(cfg, events[..i], events[i..]);
            return;
          }
          sent := sent + [Ack(cfg.id, current)];
          result := State(out, current, retries, Success, sent);
          FinishedStays(cfg, events[..i], events[i..]);
          return;
        }
        if packet.Error? {
          result := State(out, current, retries, PeerError, sent);
          FinishedStays(cfg, events[..i], events[i..]);
          return;
        }
      } else {
        retries := retries + 1;
        if current == 0 {
          sent := sent + [Get(cfg.id)];
        } else {
          sent := sent + [Ack(cfg.id, current)];
        }
      }
    }
    result := State(out, current, retries, if retries < MAX_RETRIES then Running else TimedOut, sent);
    assert events[..i] + events[i..] == events == events[..|events|];
    if retries == MAX_RETRIES {
      FinishedStays(cfg, events[..i], events[i..]);
    }
  }

  predicate FromPeer(cfg: Config, e: Event) {
    e.Received? && e.from == cfg.peer
  }

  function CountTimeouts(events: seq<Event>): nat {
    if events == [] then 0
    else CountTimeouts(events[..|events| - 1]) + (if events[|events| - 1].Timeout? then 1 else 0)
  }

  /** `events` ends in a stretch without a packet from the peer that holds `n` time-outs. */
  ghost predicate EndsWithSilence(cfg: Config, events: seq<Event>, n: nat) {
    exists j :: 0 <= j <= |events| && CountTimeouts(events[j..]) == n
                && forall i :: j <= i < |events| ==> !FromPeer(cfg, events[i])
  }

  /** The time-outs since the last packet from the peer. */
  function Silence(cfg: Config, events: seq<Event>): nat {
    if events == [] then 0
    else
      var e := events[|events| - 1];
      if FromPeer(cfg, e) then 0
      else Silence(cfg, events[..|events| - 1]) + (if e.Timeout? then 1 else 0)
  }

  /** While the loop runs, `retries` is the number of time-outs since the last packet from the peer. */
  lemma {:induction false} RetriesCountTheSilence(cfg: Config, events: seq<Event>)
    requires Run(cfg, events).status == Running
    ensures Run(cfg, events).retries == Silence(cfg, events) < MAX_RETRIES
  {
    if events != [] {
      RetriesCountTheSilence(cfg, events[..|events| - 1]);
    }
  }

  lemma {:induction false} SilenceIsTheLongest(cfg: Config, events: seq<Event>)
    ensures EndsWithSilence(cfg, events, Silence(cfg, events))
    ensures forall n: nat :: EndsWithSilence(cfg, events, n) ==> n <= Silence(cfg, events)
  {
    if events == [] {
      assert CountTimeouts(events[0..]) == 0;
    } else {
      var front, e := events[..|events| - 1], events[|events| - 1];
      assert events == front + [e];
      SilenceIsTheLongest(cfg, front);
      SilenceGrows(cfg, front, e, Silence(cfg, front));
      forall n: nat | EndsWithSilence(cfg, events, n)
        ensures n <= Silence(cfg, events)
      {
        SilenceShrinks(cfg, front, e, n);
      }
    }
  }

  lemma SilenceGrows(cfg: Config, front: seq<Event>, e: Event, n: nat)
    requires EndsWithSilence(cfg, front, n)
    ensures EndsWithSilence(cfg, front + [e],
              if FromPeer(cfg, e) then 0 else if e.Timeout? then n + 1 else n)
  {
    var j :| 0 <= j <= |front| && CountTimeouts(front[j..]) == n
             && forall i :: j <= i < |front| ==> !FromPeer(cfg, front[i]);
    var all := front + [e];
    if FromPeer(cfg, e) {
      assert all[|all|..] == [];
    } else {
      var tail := all[j..];
      assert tail[..|tail| - 1] == front[j..] && tail[|tail| - 1] == e;
    }
  }

  lemma SilenceShrinks(cfg: Config, front: seq<Event>, e: Event, n: nat)
    requires EndsWithSilence(cfg, front + [e], n)
    ensures n == 0 || (!FromPeer(cfg, e) && EndsWithSilence(cfg, front, if e.Timeout? then n - 1 else n))
  {
    var all := front + [e];
    var j :| 0 <= j <= |all| && CountTimeouts(all[j..]) == n
             && forall i :: j <= i < |all| ==> !FromPeer(cfg, all[i]);
    if j == |all| {
      assert all[j..] == [];
    } else {
      var tail := all[j..];
      assert tail[..|tail| - 1] == front[j..] && tail[|tail| - 1] == all[|front|] == e;
      assert forall i :: j <= i < |front| ==> front[i] == all[i];
    }
  }

  /** The loop was still waiting before event `k - 1`, which completes 20 time-outs in silence. */
  ghost predicate BudgetSpentAt(cfg: Config, events: seq<Event>, k: nat) {
    && 0 < k <= |events|
    && Run(cfg, events[..k - 1]).status == Running
    && EndsWithSilence(cfg, events[..k], MAX_RETRIES)
  }

  lemma TimesOutAtTwenty(cfg: Config, front: seq<Event>, e: Event)
    requires Run(cfg, front).status == Running
    ensures Silence(cfg, front + [e]) <= MAX_RETRIES
    ensures Run(cfg, front + [e]).status == TimedOut <==> Silence(cfg, front + [e]) == MAX_RETRIES
  {
    assert (front + [e])[..|front|] == front;
    RetriesCountTheSilence(cfg, front);
  }

  lemma LastEventSpendsTheBudget(cfg: Config, front: seq<Event>, e: Event)
    requires Run(cfg, front).status == Running
    ensures Run(cfg, front + [e]).status == TimedOut <==> BudgetSpentAt(cfg, front + [e], |front| + 1)
  {
    var all := front + [e];
    assert all[..|all| - 1] == front && all[..|all|] == all;
    TimesOutAtTwenty(cfg, front, e);
    SilenceIsTheLongest(cfg, all);
    hide Run, Silence, EndsWithSilence;
  }

  /**
   `receive_file` reports a time-out exactly when, while it was still waiting, the history
   reached 20 time-outs with no packet from the peer between them.  Strangers neither use up
   nor refill the budget; any packet from the peer refills it.
   */
  lemma {:induction false} TimesOutExactlyAfterTwentySilentWaits(cfg: Config, events: seq<Event>)
    ensures Run(cfg, events).status == TimedOut <==> exists k :: BudgetSpentAt(cfg, events, k)
  {
    if events != [] {
      var n := |events|;
      var front := events[..n - 1];
      TimesOutExactlyAfterTwentySilentWaits(cfg, front);
      assert events == front + [events[n - 1]];
      forall k | 0 < k < n
        ensures BudgetSpentAt(cfg, front, k) == BudgetSpentAt(cfg, events, k)
      {
        assert front[..k] == events[..k] && front[..k - 1] == events[..k - 1];
      }
      if Run(cfg, front).status == Running {
        LastEventSpendsTheBudget(cfg, front, events[n - 1]);
      }
    }
  }
}

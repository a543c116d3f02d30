/** The receiver's handshake rounds over the candidate endpoints. */
module HandshakeRounds {
  import opened Common
  import opened Protocol
  import Sender

  /** What one wait of a round brought. */
  datatype Reply = Silence | Packet(from: Endpoint, packet: Option<Handshake>)

  predicate Accepts(token: string, reply: Reply) {
    && reply.Packet? && reply.packet.Some?
    && reply.packet.value.ServerHello? && reply.packet.value.transferId == token
  }

  function Hello(token: string): Message {
    Hs(ClientHello(VERSION_1, token, token))
  }

  /** One hello to every candidate, in order. */
  function HelloToAll(peers: seq<Endpoint>, token: string): seq<Sent> {
    seq(|peers|, i requires 0 <= i < |peers| => Sent(peers[i], Hello(token)))
  }

  function Rounds(peers: seq<Endpoint>, token: string, n: nat): seq<Sent> {
    if n == 0 then [] else Rounds(peers, token, n - 1) + HelloToAll(peers, token)
  }

  /**
   At most 20 rounds; the answer is the source of the first server hello for this token,
   there is none exactly when none of the 20 waits brought one, and every round greeted
   every candidate once.
   */
  method PerformHandshake(peers: seq<Endpoint>, token: string, replies: seq<Reply>)
    returns (peer: Option<Endpoint>, sent: seq<Sent>, rounds: nat)
    requires |replies| == MAX_RETRIES
    ensures rounds <= MAX_RETRIES
    ensures peer.Some? <==> exists i :: 0 <= i < MAX_RETRIES && Accepts(token, replies[i])
    ensures peer.Some? ==> 0 < rounds && Accepts(token, replies[rounds - 1])
                           && peer.value == replies[rounds - 1].from
    ensures peer.None? ==> rounds == MAX_RETRIES
    ensures forall i :: 0 <= i < rounds - 1 ==> !Accepts(token, replies[i])
    ensures sent == Rounds(peers, token, rounds)
  {
    peer, sent, rounds := None, [], 0;
    while rounds < MAX_RETRIES
      invariant rounds <= MAX_RETRIES && peer.None?
      invariant forall i :: 0 <= i < rounds ==> !Accepts(token, replies[i])
      invariant sent == Rounds(peers, token, rounds)
    {
      ghost var before := sent;
      for p := 0 to |peers|
        invariant sent == before + HelloToAll(peers, token)[..p]
      {
        sent := sent + [Sent(peers[p], Hello(token))];
      }
      assert HelloToAll(peers, token)[..|peers|] == HelloToAll(peers, token);
      rounds := rounds + 1;
      if Accepts(token, replies[rounds - 1]) {
        peer := Some(replies[rounds - 1].from);
        return;
      }
    }
  }

  /** The number of hellos in `r` rounds over `m` candidates. */
  function Before(r: nat, m: nat): nat {
    if r == 0 then 0 else Before(r - 1, m) + m
  }

  lemma {:induction false} LaterRoundsAreBehind(r: nat, n: nat, m: nat)
    requires r < n
    ensures Before(r, m) + m <= Before(n, m)
  {
    if r < n - 1 {
      LaterRoundsAreBehind(r, n - 1, m);
    }
  }

  /** Round by round and candidate by candidate. */
  lemma {:induction false} RoundsGreetEverybody(peers: seq<Endpoint>, token: string, n: nat, r: nat, p: nat)
    requires r < n && p < |peers|
    ensures |Rounds(peers, token, n)| == Before(n, |peers|) && Before(r, |peers|) + p < Before(n, |peers|)
    ensures Rounds(peers, token, n)[Before(r, |peers|) + p] == Sent(peers[p], Hello(token))
  {
    RoundsLength(peers, token, n - 1);
    RoundsLength(peers, token, n);
    LaterRoundsAreBehind(r, n, |peers|);
    var k := Before(r, |peers|) + p;
    if r < n - 1 {
      LaterRoundsAreBehind(r, n - 1, |peers|);
      RoundsGreetEverybody(peers, token, n - 1, r, p);
      InFront(Rounds(peers, token, n - 1), HelloToAll(peers, token), k);
    } else {
      InBack(Rounds(peers, token, n - 1), HelloToAll(peers, token), p);
    }
  }

  lemma InFront(a: seq<Sent>, b: seq<Sent>, k: nat)
    requires k < |a|
    ensures (a + b)[k] == a[k]
  {
  }

  lemma InBack(a: seq<Sent>, b: seq<Sent>, p: nat)
    requires p < |b|
    ensures (a + b)[|a| + p] == b[p]
  {
  }

  lemma {:induction false} RoundsLength(peers: seq<Endpoint>, token: string, n: nat)
    ensures |Rounds(peers, token, n)| == Before(n, |peers|)
  {
    if n > 0 {
      RoundsLength(peers, token, n - 1);
    }
  }

  /**
   The two peers' handshakes fit: a waiting session admits the hello exactly if the token is
   not empty and registered.  It answers the sender of the hello with exactly one packet, and
   that packet is accepted exactly if the hello was admitted.
   */
  lemma HelloIsAdmittedExactly(env: Sender.Env, s: Sender.State, token: string, from: Endpoint, peer: Endpoint)
    requires s.phase.WaitingHello? && s.offset <= |env.file|
    ensures var step := Sender.OnPacket(env, s, AsDatagram(Hello(token)), from);
            && (step.next.phase.Authenticated? <==> token != "" && env.lookup(token).Some?)
            && (step.next.phase.Authenticated? ==>
                  step.next.remote == from && step.next.meta == env.lookup(token).value)
            && |step.sent| == 1 && step.sent[0].to == from && step.sent[0].message.Hs?
            && (Accepts(token, Packet(peer, Some(step.sent[0].message.handshake))) <==> step.next.phase.Authenticated?)
  {
  }

  /** The answer to the hello for another token is not accepted. */
  lemma OnlyTheOwnAnswerIsAccepted(env: Sender.Env, s: Sender.State, other: string, token: string,
                                   from: Endpoint, peer: Endpoint)
    requires s.phase.WaitingHello? && s.offset <= |env.file| && other != token
    ensures var sent := Sender.OnPacket(env, s, AsDatagram(Hello(other)), from).sent;
            forall m :: m in sent && m.message.Hs? ==> !Accepts(token, Packet(peer, Some(m.message.handshake)))
  {
  }
}

/** Flow control of an RPC bulk transfer: send tokens at the client, acknowledgements at the server. */
module RpcFlow {
  import opened Arithmetic

  /** Longest acknowledgement period the server supports. */
  const MAX_ACK_PERIOD := 8

  /**
   * `total` packets are sent. Each acknowledgement releases `period` further ones, and `depth`
   * periods may be outstanding. `stray` acknowledgements are still on their way at the start.
   */
  datatype Params = Params(total: nat, period: nat, depth: nat, stray: nat)

  /** Periods that may be outstanding: pipelining below two means one. */
  function Depth(pipelining: nat): (d: nat)
    ensures d >= 1
  {
    if pipelining > 1 then pipelining else 1
  }

  datatype State = State(
    tokens: nat,              // client: packets that may be sent now
    sent: nat,                // client: packets sent
    data: seq<nat>,           // data packets in flight
    received: seq<nat>,       // server: packets received
    unacked: seq<nat>,        // server: packets received since the last acknowledgement
    acks: seq<seq<nat>>,      // acknowledgements in flight
    confirmed: seq<nat>)      // client: packets it has been told about

  datatype Action = Send | Deliver | AckArrives

  ghost predicate ValidParams(p: Params) {
    p.period > 0 && p.depth > 0
  }

  /** Acknowledgements without packet numbers, as sent when the server becomes ready. */
  function Blank(n: nat): (r: seq<seq<nat>>)
    ensures |r| == n
  {
    if n == 0 then [] else [[]] + Blank(n - 1)
  }

  function Init(p: Params): State {
    State(p.period * p.depth, 0, [], [], [], Blank(p.stray), [])
  }

  predicate Enabled(p: Params, s: State, a: Action) {
    match a
    case Send => s.tokens > 0 && s.sent < p.total
    case Deliver => s.data != []
    case AckArrives => s.acks != []
  }

  /** Server side of one packet: remember it, and acknowledge a full period. */
  function Acknowledge(p: Params, s: State, x: nat): State {
    if p.period > MAX_ACK_PERIOD then s
    else if |s.unacked| + 1 >= p.period then s.(unacked := [], acks := s.acks + [s.unacked + [x]])
    else s.(unacked := s.unacked + [x])
  }

  function Step(p: Params, s: State, a: Action): State {
    if !Enabled(p, s, a) then s else
      match a
      case Send => s.(tokens := s.tokens - 1, sent := s.sent + 1, data := s.data + [s.sent])
      case Deliver => Acknowledge(p, s.(data := s.data[1..], received := s.received + [s.data[0]]), s.data[0])
      case AckArrives => s.(tokens := s.tokens + p.period, acks := s.acks[1..], confirmed := s.confirmed + s.acks[0])
  }

  /** State after any interleaving of client, server and channel steps. */
  function Run(p: Params, actions: seq<Action>): State
    decreases |actions|
  {
    if actions == [] then Init(p) else Step(p, Run(p, actions[..|actions| - 1]), actions[|actions| - 1])
  }

  // ----- Invariant -----

  function Join(xs: seq<seq<nat>>): seq<nat> {
    if xs == [] then [] else xs[0] + Join(xs[1..])
  }

  lemma {:induction false} JoinAppend(xs: seq<seq<nat>>, x: seq<nat>)
    ensures Join(xs + [x]) == Join(xs) + x
    decreases |xs|
  {
    if xs == [] {
      assert Join([x]) == x + Join([]);
    } else {
      JoinAppend(xs[1..], x);
      assert (xs + [x])[1..] == xs[1..] + [x];
    }
  }

  /** The first `n` packet numbers. */
  function Upto(n: nat): seq<nat> {
    if n == 0 then [] else Upto(n - 1) + [n - 1]
  }

  /** Every packet is in one place, every token is accounted for. */
  ghost predicate Inv(p: Params, s: State) {
    && s.sent <= p.total
    && s.received + s.data == Upto(s.sent)
    && if p.period <= MAX_ACK_PERIOD then
         && |s.unacked| < p.period
         && s.tokens + |s.data| + |s.unacked| + p.period * |s.acks| == p.period * (p.depth + p.stray)
         && s.confirmed + Join(s.acks) + s.unacked == s.received
       else
         && s.unacked == []
         && s.tokens + s.sent + p.period * |s.acks| == p.period * (p.depth + p.stray)
  }

  lemma {:induction false} UptoLength(n: nat)
    ensures |Upto(n)| == n
    decreases n
  {
    if n > 0 {
      UptoLength(n - 1);
    }
  }

  lemma {:induction false} JoinBlank(n: nat)
    ensures Join(Blank(n)) == []
    decreases n
  {
    if n > 0 {
      JoinBlank(n - 1);
    }
  }

  lemma InitInv(p: Params)
    requires ValidParams(p)
    ensures Inv(p, Init(p))
  {
    JoinBlank(p.stray);
    assert p.period * p.depth + p.period * p.stray == p.period * (p.depth + p.stray);
  }

  lemma SendInv(p: Params, s: State)
    requires ValidParams(p) && Inv(p, s) && Enabled(p, s, Send)
    ensures Inv(p, Step(p, s, Send))
  {
    assert s.received + (s.data + [s.sent]) == (s.received + s.data) + [s.sent];
  }

  lemma DeliverInv(p: Params, s: State)
    requires ValidParams(p) && Inv(p, s) && Enabled(p, s, Deliver)
    ensures Inv(p, Step(p, s, Deliver))
  {
    hide Upto, Join;
    var x, t := s.data[0], Step(p, s, Deliver);
    assert t.received + t.data == s.received + s.data;
    if p.period <= MAX_ACK_PERIOD {
      if |s.unacked| + 1 >= p.period {
        JoinAppend(s.acks, s.unacked + [x]);
        assert p.period * (|s.acks| + 1) == p.period * |s.acks| + p.period;
        assert t.confirmed + Join(t.acks) + t.unacked == (s.confirmed + Join(s.acks) + s.unacked) + [x];
      } else {
        assert t.confirmed + Join(t.acks) + t.unacked == (s.confirmed + Join(s.acks) + s.unacked) + [x];
      }
    }
  }

  lemma AckInv(p: Params, s: State)
    requires ValidParams(p) && Inv(p, s) && Enabled(p, s, AckArrives)
    ensures Inv(p, Step(p, s, AckArrives))
  {
    var t := Step(p, s, AckArrives);
    assert p.period * |s.acks| == p.period * (|s.acks| - 1) + p.period;
    assert t.confirmed + Join(t.acks) + t.unacked == s.confirmed + Join(s.acks) + s.unacked;
  }

  lemma {:induction false} RunInv(p: Params, actions: seq<Action>)
    requires ValidParams(p)
    ensures Inv(p, Run(p, actions))
    decreases |actions|
  {
    if actions == [] {
      InitInv(p);
    } else {
      var s, a := Run(p, actions[..|actions| - 1]), actions[|actions| - 1];
      RunInv(p, actions[..|actions| - 1]);
      if Enabled(p, s, a) {
        match a
        case Send => SendInv(p, s);
        case Deliver => DeliverInv(p, s);
        case AckArrives => AckInv(p, s);
      }
    }
  }

  // ----- What it means for a transfer -----

  /** The server is never owed more than the agreed number of packets, at any point of any run. */
  lemma WindowBound(p: Params, actions: seq<Action>)
    requires ValidParams(p)
    ensures var s := Run(p, actions);
      |s.received| <= s.sent <= |s.received| + p.period * (p.depth + p.stray)
  {
    hide Run, Join, Upto;
    RunInv(p, actions);
    var s := Run(p, actions);
    UptoLength(s.sent);
    MulMono(p.period, 0, |s.acks|);
  }

  /** Packets arrive in order, and the client hears of them in order, whole periods at a time. */
  lemma InOrder(p: Params, actions: seq<Action>)
    requires ValidParams(p) && p.period <= MAX_ACK_PERIOD
    ensures var s := Run(p, actions); s.confirmed <= s.received <= Upto(s.sent)
  {
    RunInv(p, actions);
    var s := Run(p, actions);
    assert s.confirmed + Join(s.acks) + s.unacked == s.confirmed + (Join(s.acks) + s.unacked);
  }

  ghost predicate Quiet(p: Params, s: State) {
    forall a :: !Enabled(p, s, a)
  }

  function Work(p: Params, s: State): int {
    3 * (p.total - s.sent) + 2 * |s.data| + |s.acks|
  }

  /** Every step uses up work, so no run goes on for ever. */
  lemma StepsEnd(p: Params, actions: seq<Action>, a: Action)
    requires ValidParams(p) && Enabled(p, Run(p, actions), a)
    ensures 0 <= Work(p, Step(p, Run(p, actions), a)) < Work(p, Run(p, actions))
  {
    RunInv(p, actions);
  }

  /**
   * No deadlock: when nothing can move any more, the transfer is complete, whether or not the
   * number of packets is a multiple of the period. A period the server does not support makes it
   * stop after the initial tokens, so then the transfer completes only if they suffice.
   */
  lemma QuietMeansDone(p: Params, actions: seq<Action>)
    requires ValidParams(p) && Quiet(p, Run(p, actions))
    ensures var s := Run(p, actions);
      && s.received == Upto(s.sent)
      && (s.sent == p.total <==> p.period <= MAX_ACK_PERIOD || p.total <= p.period * (p.depth + p.stray))
  {
    RunInv(p, actions);
    var s := Run(p, actions);
    assert !Enabled(p, s, Send) && !Enabled(p, s, Deliver) && !Enabled(p, s, AckArrives);
    assert s.received + [] == s.received;
    assert p.period * |s.acks| == 0;
    MulMono(p.period, 1, p.depth + p.stray);
  }
}

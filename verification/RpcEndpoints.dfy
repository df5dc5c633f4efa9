/** The two ends of a bulk transfer: the client's token semaphore and the server's acknowledgement array. */
module RpcEndpoints {
  import opened Options
  import opened RpcFlow

  class Client {
    var tokens: nat
    var tokensOnAck: nat

    constructor ()
      ensures tokens == 0 && tokensOnAck == 1
    {
      tokens, tokensOnAck := 0, 1;
    }

    /** Give the semaphore `n` times. */
    method Give(n: nat)
      modifies `tokens
      ensures tokens == old(tokens) + n
    {
      for i := 0 to n
        invariant tokens == old(tokens) + i
      {
        tokens := tokens + 1;
      }
    }

    /** Reset the semaphore and load the initial tokens of a transfer. */
    method StartTransfer(ackPeriod: nat, pipelining: nat)
      modifies this
      ensures tokensOnAck == if ackPeriod > 0 then ackPeriod else old(tokensOnAck)
      ensures ackPeriod > 0 ==> tokens == Init(Params(0, ackPeriod, Depth(pipelining), 0)).tokens
    {
      tokens := 0;
      if ackPeriod > 0 {
        tokensOnAck := ackPeriod;
      }
      var startTokens := tokensOnAck;
      if pipelining > 1 {
        startTokens := startTokens * pipelining;
      }
      Give(startTokens);
    }

    /** An acknowledgement for the running command arrived. */
    method AckReceived()
      modifies `tokens
      ensures tokens == old(tokens) + tokensOnAck
    {
      Give(tokensOnAck);
    }

    /** Take a token; fails when none arrives in time. */
    method AckWait() returns (ok: bool)
      modifies `tokens
      ensures ok <==> old(tokens) > 0
      ensures tokens == if ok then old(tokens) - 1 else old(tokens)
    {
      ok := tokens > 0;
      if ok {
        tokens := tokens - 1;
      }
    }
  }

  class Server {
    const acks: array<nat>
    var counter: nat

    ghost predicate Valid()
      reads this, acks
    {
      acks.Length == MAX_ACK_PERIOD && counter <= acks.Length
    }

    /** Packets received since the last acknowledgement. */
    ghost function Unacked(): seq<nat>
      requires Valid()
      reads this, acks
    {
      acks[..counter]
    }

    constructor ()
      ensures Valid() && Unacked() == [] && fresh(acks)
    {
      acks := new nat[MAX_ACK_PERIOD];
      counter := 0;
    }

    method PullDataReset()
      requires Valid()
      modifies `counter
      ensures Valid() && Unacked() == []
    {
      counter := 0;
    }

    /** Send what is stored. On an interface without room nothing is sent and nothing is reset. */
    method SendAck(roomy: bool) returns (ack: Option<seq<nat>>)
      requires Valid()
      modifies `counter
      ensures Valid()
      ensures roomy ==> ack == Some(old(Unacked())) && Unacked() == []
      ensures !roomy ==> ack == None && Unacked() == old(Unacked())
    {
      if !roomy {
        return None;
      }
      ack := Some(acks[..counter]);
      PullDataReset();
    }

    /** Account for one received packet; with a full period an acknowledgement goes out. */
    method AckData(offset: nat, ackPeriod: nat, roomy: bool) returns (ack: Option<seq<nat>>)
      requires Valid() && (0 < ackPeriod <= MAX_ACK_PERIOD ==> counter < acks.Length)
      modifies `counter, acks
      ensures Valid()
      ensures !(0 < ackPeriod <= MAX_ACK_PERIOD) ==> ack == None && Unacked() == old(Unacked())
      ensures 0 < ackPeriod <= MAX_ACK_PERIOD ==>
        if |old(Unacked())| + 1 >= ackPeriod && roomy then ack == Some(old(Unacked()) + [offset]) && Unacked() == []
        else ack == None && Unacked() == old(Unacked()) + [offset]
      ensures 0 < ackPeriod <= MAX_ACK_PERIOD ==>
        |Unacked()| == StoredAfter(|old(Unacked())|, ackPeriod, roomy)
    {
      ack := None;
      if 0 < ackPeriod <= acks.Length {
        ghost var was := Unacked();
        acks[counter] := offset;
        counter := counter + 1;
        assert acks[..counter] == was + [offset];
        if counter >= ackPeriod {
          ack := SendAck(roomy);
        }
      }
    }
  }

  /** One packet at the server object is one acknowledgement step of the flow model. */
  method ServerStep(server: Server, p: Params, s: State, x: nat) returns (t: State)
    requires server.Valid() && ValidParams(p) && server.Unacked() == s.unacked
    requires |s.unacked| < p.period && |s.unacked| < MAX_ACK_PERIOD
    modifies server, server.acks
    ensures server.Valid() && t == Acknowledge(p, s, x) && server.Unacked() == t.unacked
  {
    var ack := server.AckData(x, p.period, true);
    t := s;
    if ack.Some? {
      t := s.(unacked := [], acks := s.acks + [ack.value]);
    } else if p.period <= MAX_ACK_PERIOD {
      t := s.(unacked := s.unacked + [x]);
    }
  }

  // ----- When the next packet still has a slot -----

  /** Packets stored, and acknowledgements that found no room, since the last acknowledgement of a command. */
  datatype Backlog = Backlog(stored: nat, failed: nat)

  /** Backlog after packets that found room for an acknowledgement or not. */
  function Received(period: nat, rooms: seq<bool>): Backlog
    decreases |rooms|
  {
    if rooms == [] then Backlog(0, 0) else
      var b, roomy := Received(period, rooms[..|rooms| - 1]), rooms[|rooms| - 1];
      Backlog(StoredAfter(b.stored, period, roomy),
              if b.stored + 1 < period then b.failed else if roomy then 0 else b.failed + 1)
  }

  /** Packets stored after one more. */
  function StoredAfter(stored: nat, period: nat, roomy: bool): nat {
    if stored + 1 >= period && roomy then 0 else stored + 1
  }

  /** The next packet has a slot if and only if few enough acknowledgements in a row have found no room. */
  lemma {:induction false} SlotExact(period: nat, rooms: seq<bool>)
    requires 0 < period <= MAX_ACK_PERIOD
    ensures var b := Received(period, rooms);
      && (if b.failed == 0 then b.stored < period else b.stored == period - 1 + b.failed)
      && (b.stored < MAX_ACK_PERIOD <==> b.failed <= MAX_ACK_PERIOD - period)
    decreases |rooms|
  {
    if rooms != [] {
      SlotExact(period, rooms[..|rooms| - 1]);
    }
  }

  /** While there is room the array never holds more than one period. */
  lemma {:induction false} RoomySlots(period: nat, rooms: seq<bool>)
    requires 0 < period <= MAX_ACK_PERIOD && forall i :: 0 <= i < |rooms| ==> rooms[i]
    ensures Received(period, rooms).failed == 0 && Received(period, rooms).stored < period
    decreases |rooms|
  {
    if rooms != [] {
      RoomySlots(period, rooms[..|rooms| - 1]);
    }
  }

  /** Without any room, packets are stored one by one: after eight of them the ninth has no slot. */
  lemma {:induction false} RoomlessSlots(period: nat, rooms: seq<bool>)
    requires 0 < period <= MAX_ACK_PERIOD && forall i :: 0 <= i < |rooms| ==> !rooms[i]
    ensures Received(period, rooms).stored == |rooms|
    decreases |rooms|
  {
    if rooms != [] {
      RoomlessSlots(period, rooms[..|rooms| - 1]);
    }
  }
}

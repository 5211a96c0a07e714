/** The forwarder's two concurrent maps: one FEC sender and one FEC receiver for each peer. */
module PeerTables {
  import opened Bytes
  import opened ErasureCode
  import opened FecCodec

  class SenderTable {
    const code: Code
    const config: FecConfig
    var senders: map<Node, FecSender>
    ghost var Repr: set<object>

    ghost predicate Valid()
      reads this, Repr
    {
      && this in Repr && senders.Values <= Repr
      && ValidCounts(config.dataShards, config.parityShards)
      && (forall p :: p in senders ==> senders[p].Valid() && senders[p].code == code && senders[p].config == config)
      && (forall p, q :: p in senders && q in senders && p != q ==> senders[p] != senders[q])
    }

    ghost function View(): map<Node, Sending>
      requires Valid()
      reads this, Repr
    {
      map p | p in senders :: senders[p].View()
    }

    constructor (code: Code, config: FecConfig)
      requires ValidCounts(config.dataShards, config.parityShards)
      ensures Valid() && View() == map[] && senders == map[] && fresh(Repr)
      ensures this.code == code && this.config == config
    {
      this.code := code;
      this.config := config;
      senders := map[];
      Repr := {this};
    }

    /** `entry(peer).or_insert_with(...)`: a peer that already has a sender keeps it. */
    method Add(peer: Node)
      requires Valid()
      modifies this
      ensures Valid() && fresh(Repr - old(Repr))
      ensures View() == map[peer := Sending([], 0)] + old(View())
    {
      hide FecSender.View, FecSender.Valid;
      if peer !in senders {
        var sender := new FecSender(code, config);
        senders := senders[peer := sender];
        Repr := Repr + {sender};
      }
    }

    /** One call on one sender; the others stay as they are. */
    method Submit(peer: Node, payload: Data) returns (frames: Option<seq<(byte, Data)>>)
      requires Valid() && peer in senders
      modifies Repr
      ensures Valid() && senders == old(senders) && Repr == old(Repr)
      ensures var (sending, batch) := Submitted(config, old(View())[peer], payload);
              View() == old(View())[peer := sending]
              && frames == Emitted(code, config, old(View())[peer].blockId, batch)
    {
      hide FecSender.Valid, Submitted, Flushed, Emitted;
      assert forall q :: q in senders && q != peer ==> senders[q] != senders[peer];
      frames := senders[peer].Submit(payload);
    }

    method FlushPartial(peer: Node) returns (frames: Option<seq<(byte, Data)>>)
      requires Valid() && peer in senders
      modifies Repr
      ensures Valid() && senders == old(senders) && Repr == old(Repr)
      ensures var (sending, batch) := Flushed(old(View())[peer]);
              View() == old(View())[peer := sending]
              && frames == Emitted(code, config, old(View())[peer].blockId, batch)
    {
      hide FecSender.Valid, Submitted, Flushed, Emitted;
      assert forall q :: q in senders && q != peer ==> senders[q] != senders[peer];
      frames := senders[peer].FlushPartial();
    }
  }

  class ReceiverTable {
    var receivers: map<Node, FecReceiver>
    ghost var Repr: set<object>

    ghost predicate Valid()
      reads this, Repr
    {
      && this in Repr
      && (forall p :: p in receivers ==>
            receivers[p] in Repr && receivers[p].Repr <= Repr && this !in receivers[p].Repr && receivers[p].Valid())
      && (forall p, q :: p in receivers && q in receivers && p != q ==> receivers[p].Repr !! receivers[q].Repr)
    }

    ghost function View(): map<Node, map<nat, Pending>>
      requires Valid()
      reads this, Repr
    {
      map p | p in receivers :: receivers[p].View()
    }

    constructor ()
      ensures Valid() && View() == map[] && receivers == map[] && fresh(Repr)
    {
      receivers := map[];
      Repr := {this};
    }

    method Attach(peer: Node, receiver: FecReceiver)
      requires Valid() && peer !in receivers && receiver.Valid() && receiver.Repr !! Repr
      modifies this
      ensures Valid() && Repr == old(Repr) + receiver.Repr
      ensures View() == old(View())[peer := receiver.View()]
    {
      hide FecReceiver.View, FecReceiver.Valid;
      OwnsItself(receiver);
      receivers := receivers[peer := receiver];
      Repr := Repr + receiver.Repr;
    }

    method Add(peer: Node)
      requires Valid()
      modifies this
      ensures Valid() && fresh(Repr - old(Repr))
      ensures View() == map[peer := map[]] + old(View())
    {
      hide FecReceiver.View, FecReceiver.Valid;
      if peer !in receivers {
        var receiver := new FecReceiver();
        Attach(peer, receiver);
      }
    }

    static lemma OwnsItself(r: FecReceiver)
      requires r.Valid()
      ensures r in r.Repr
    {
    }

    /** One call on one receiver; the others stay as they are. */
    method Deliver(peer: Node, code: Code, payload: Data, now: Nanos) returns (o: Outcome)
      requires Valid() && peer in receivers
      modifies receivers[peer].Repr
      ensures receivers == old(receivers) && Repr == old(Repr)
      ensures receivers[peer].Valid() && fresh(receivers[peer].Repr - old(receivers[peer].Repr))
      ensures (receivers[peer].View(), o) == Receive(code, old(receivers[peer].View()), payload, now)
      ensures forall p :: p in receivers && p != peer ==>
        receivers[p].Repr == old(receivers[p].Repr) && receivers[p].Valid()
        && receivers[p].View() == old(receivers[p].View())
    {
      hide Receive, FecReceiver.View, FecReceiver.Valid;
      forall p | p in receivers ensures receivers[p] in receivers[p].Repr { OwnsItself(receivers[p]); }
      assert forall p :: p in receivers && p != peer ==> receivers[p].Repr !! receivers[peer].Repr;
      o := receivers[peer].ReceiveShard(code, payload, now);
    }

    method ReceiveShard(peer: Node, code: Code, payload: Data, now: Nanos) returns (o: Outcome)
      requires Valid() && peer in receivers
      modifies Repr
      ensures Valid() && receivers == old(receivers) && fresh(Repr - old(Repr))
      ensures var (pending, outcome) := Receive(code, old(View())[peer], payload, now);
              View() == old(View())[peer := pending] && o == outcome
    {
      hide Receive, FecReceiver.View, FecReceiver.Valid;
      o := Deliver(peer, code, payload, now);
      Repr := Repr + receivers[peer].Repr;
    }

    method ExpireOld(peer: Node, maxAgeMs: nat, now: Nanos)
      requires Valid() && peer in receivers
      modifies Repr
      ensures Valid() && receivers == old(receivers) && Repr == old(Repr)
      ensures View() == old(View())[peer := Unexpired(old(View())[peer], maxAgeMs, now)]
    {
      hide Unexpired, FecReceiver.View, FecReceiver.Valid;
      forall p | p in receivers ensures receivers[p] in receivers[p].Repr { OwnsItself(receivers[p]); }
      assert forall p :: p in receivers && p != peer ==> receivers[p].Repr !! receivers[peer].Repr;
      receivers[peer].ExpireOld(maxAgeMs, now);
    }
  }
}

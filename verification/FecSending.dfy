/** Whole runs of one FEC sender: nothing submitted is lost, repeated or reordered on the way into blocks. */
module FecSending {
  import opened Bytes
  import opened FecCodec

  datatype SendEvent = Submit(payload: Data) | FlushTimer

  /** The sender after a run, with the batches it emitted and the ids it gave them. */
  datatype Sent = Sent(state: Sending, batches: seq<seq<Data>>, ids: seq<nat>)

  function SendStep(cfg: FecConfig, s: Sent, e: SendEvent): Sent {
    var (state, batch) := match e
      case Submit(p) => Submitted(cfg, s.state, p)
      case FlushTimer => Flushed(s.state);
    match batch
    case None => s.(state := state)
    case Some(b) => Sent(state, s.batches + [b], s.ids + [s.state.blockId])
  }

  function SendRun(cfg: FecConfig, events: seq<SendEvent>): Sent {
    if events == [] then Sent(Sending([], 0), [], [])
    else SendStep(cfg, SendRun(cfg, events[..|events| - 1]), events[|events| - 1])
  }

  function AllSubmitted(events: seq<SendEvent>): seq<Data> {
    if events == [] then []
    else
      var e := events[|events| - 1];
      AllSubmitted(events[..|events| - 1]) + (if e.Submit? then [e.payload] else [])
  }

  function Flatten(batches: seq<seq<Data>>): seq<Data> {
    if batches == [] then [] else Flatten(batches[..|batches| - 1]) + batches[|batches| - 1]
  }

  lemma FlattenSnoc(batches: seq<seq<Data>>, b: seq<Data>)
    ensures Flatten(batches + [b]) == Flatten(batches) + b
  {
    assert (batches + [b])[..|batches|] == batches;
  }

  /** The payloads of the emitted blocks, then the buffer, are the submitted sequence; batches are never
      empty or oversized; ids count up modulo 65536. */
  ghost predicate Conserved(cfg: FecConfig, s: Sent, submitted: seq<Data>) {
    && Flatten(s.batches) + s.state.buffer == submitted
    && |s.state.buffer| < cfg.dataShards
    && (forall j :: 0 <= j < |s.batches| ==> 0 < |s.batches[j]| <= cfg.dataShards)
    && |s.ids| == |s.batches| && (forall j :: 0 <= j < |s.ids| ==> s.ids[j] == j % U16)
    && s.state.blockId == |s.ids| % U16
  }

  lemma {:induction false} SenderConserves(cfg: FecConfig, events: seq<SendEvent>)
    requires cfg.dataShards >= 1
    ensures Conserved(cfg, SendRun(cfg, events), AllSubmitted(events))
    decreases |events|
  {
    if events != [] {
      var init, e := events[..|events| - 1], events[|events| - 1];
      SenderConserves(cfg, init);
      StepConserves(cfg, SendRun(cfg, init), AllSubmitted(init), e);
    }
  }

  /** Emitting everything pending as one block moves it from the buffer to the blocks. */
  lemma EmissionConserves(cfg: FecConfig, s: Sent, submitted: seq<Data>, all: seq<Data>)
    requires Conserved(cfg, s, submitted) && s.state.buffer <= all && 0 < |all| <= cfg.dataShards
    ensures Conserved(cfg, Sent(Sending([], (s.state.blockId + 1) % U16), s.batches + [all], s.ids + [s.state.blockId]),
                      submitted + all[|s.state.buffer|..])
  {
    FlattenSnoc(s.batches, all);
    hide Flatten;
    assert all == s.state.buffer + all[|s.state.buffer|..];
    var f := Flatten(s.batches);
    assert f + all + [] == f + all == (f + s.state.buffer) + all[|s.state.buffer|..];
    assert (|s.ids| % U16 + 1) % U16 == (|s.ids| + 1) % U16;
  }

  lemma BufferingConserves(cfg: FecConfig, s: Sent, submitted: seq<Data>, p: Data)
    requires Conserved(cfg, s, submitted) && |s.state.buffer| + 1 < cfg.dataShards
    ensures Conserved(cfg, s.(state := s.state.(buffer := s.state.buffer + [p])), submitted + [p])
  {
    hide Flatten;
    assert Flatten(s.batches) + (s.state.buffer + [p]) == (Flatten(s.batches) + s.state.buffer) + [p];
  }

  lemma StepConserves(cfg: FecConfig, s: Sent, submitted: seq<Data>, e: SendEvent)
    requires Conserved(cfg, s, submitted)
    ensures Conserved(cfg, SendStep(cfg, s, e), submitted + (if e.Submit? then [e.payload] else []))
  {
    var buffer := s.state.buffer;
    assert |buffer| < cfg.dataShards;
    hide Conserved;
    match e
    case Submit(p) =>
      var all := buffer + [p];
      if |all| >= cfg.dataShards {
        EmissionConserves(cfg, s, submitted, all);
        assert all[|buffer|..] == [p];
      } else {
        BufferingConserves(cfg, s, submitted, p);
      }
    case FlushTimer =>
      assert submitted + [] == submitted;
      if buffer != [] {
        EmissionConserves(cfg, s, submitted, buffer);
        assert buffer[|buffer|..] == [];
      }
  }
}

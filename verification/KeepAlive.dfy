/** No reply is lost as long as its request is kept alive, and polling often enough keeps it alive. */
module KeepAlive {
  import opened Values
  import opened RequestTable
  import opened TableInvariant
  import opened TableGuarantees

  // ----- no lost replies

  /** The request is not invalidated, and whenever the table takes the time to judge its age it is no
      more than the expiration time after its last access. */
  predicate KeptAlive(cfg: Config, s: State, ev: Event, id: uint64)
    requires id in s.entries
  {
    var deadline := s.entries[id].lastAccess + cfg.expirationNs;
    match ev
    case Do(Poll(i), o1, _) => i == id ==> s.env.clock + o1.dt <= deadline
    case Do(GetReply(i), o1, o2) =>
      i == id && id !in s.env.done && !o1.finish ==> s.env.clock + o2.dt <= deadline  // else no age is judged
    case Do(Invalidate(i), _, _) => i != id
    case Visit(i, o) => i == id ==> s.env.clock + o.dt <= deadline
    case _ => true
  }

  /** One step of a request that is kept alive: polls tell the truth about the thread, a fetch delivers
      as soon as the thread has finished, and nothing but a delivery ends the request. */
  lemma AliveStep(cfg: Config, s: State, ev: Event, id: uint64)
    requires Inv(cfg, s) && WithinLimits(Step(cfg, s, ev).0)
    requires id in s.entries && !s.entries[id].invalidated && KeptAlive(cfg, s, ev, id)
    ensures var (s', a) := Step(cfg, s, ev);
      && (Asks(ev, Op.Poll(id)) ==> a == Readiness(id in s'.env.done))
      && (Asks(ev, Op.GetReply(id)) && (id in s.env.done || ev.first.finish) ==>
            a == Delivery(cfg.protocol(id, s.entries[id].input)))
      && (!(Asks(ev, Op.GetReply(id)) && a.Delivery?) ==>
            id in s'.entries && !s'.entries[id].invalidated && s'.entries[id].input == s.entries[id].input)
  {
    assert LiveOk(cfg, s, id);
    if !Concerns(ev, id) {
      Untouched(cfg, s, ev, id);
    } else if Asks(ev, Op.GetReply(id)) {
      NotBoth(cfg, s, id);
      GetReplyExactly(cfg, s, id, ev.first, ev.second);
    } else if Asks(ev, Op.Poll(id)) {
      RemovalMeans(cfg, s.env, id, s.entries[id], ev.first);
    } else if ev.Visit? {
      RemovalMeans(cfg, s.env, id, s.entries[id], ev.obs);
    }
  }

  /** Events i+1 .. j-1 keep the request alive and none of them has delivered it yet. */
  ghost predicate KeptAliveBetween(cfg: Config, evs: seq<Event>, i: nat, j: nat, id: uint64)
    requires i < j <= |evs|
  {
    forall k | i < k < j ::
      && (id in Before(cfg, evs, k).entries ==> KeptAlive(cfg, Before(cfg, evs, k), evs[k], id))
      && !(Asks(evs[k], Op.GetReply(id)) && ReplyTo(cfg, evs, k).Delivery?)
  }

  lemma {:induction false} AliveUntil(cfg: Config, evs: seq<Event>, i: nat, j: nat, id: uint64)
    requires Legal(cfg, evs) && i < j <= |evs|
    requires ReplyTo(cfg, evs, i) == Accepted(id)
    requires KeptAliveBetween(cfg, evs, i, j, id)
    ensures evs[i].Do? && evs[i].op.Submit?
    ensures var s := Before(cfg, evs, j);
      id in s.entries && !s.entries[id].invalidated && s.entries[id].input == evs[i].op.payload
  {
    hide Step, Inv, KeptAlive;
    Reachable(cfg, evs, j - 1, j);
    if i + 1 < j {
      AliveUntil(cfg, evs, i, j - 1, id);
      AliveStep(cfg, Before(cfg, evs, j - 1), evs[j - 1], id);
    } else {
      AcceptedMeans(cfg, Before(cfg, evs, i), evs[i]);
    }
  }

  /** No reply is lost: from its submission on, a request that is kept alive stays in the table whatever
      other clients, threads and cleanups do; every poll for it reports whether its thread has finished;
      and the first fetch after that delivers the outcome for the payload that was submitted. */
  lemma NoLostReply(cfg: Config, evs: seq<Event>, i: nat, j: nat, id: uint64)
    requires Legal(cfg, evs) && i < j < |evs|
    requires ReplyTo(cfg, evs, i) == Accepted(id)
    requires KeptAliveBetween(cfg, evs, i, j, id)
    requires id in Before(cfg, evs, j).entries ==> KeptAlive(cfg, Before(cfg, evs, j), evs[j], id)
    ensures evs[i].Do? && evs[i].op.Submit?
    ensures var s := Before(cfg, evs, j);
      id in s.entries && !s.entries[id].invalidated && s.entries[id].input == evs[i].op.payload
    ensures Asks(evs[j], Op.Poll(id)) ==> ReplyTo(cfg, evs, j) == Readiness(id in Before(cfg, evs, j + 1).env.done)
    ensures Asks(evs[j], Op.GetReply(id)) && id in Before(cfg, evs, j).env.done ==>
              ReplyTo(cfg, evs, j) == Delivery(cfg.protocol(id, evs[i].op.payload))
  {
    hide Step, Inv, KeptAlive;
    Reachable(cfg, evs, j, j + 1);
    AliveUntil(cfg, evs, i, j, id);
    AliveStep(cfg, Before(cfg, evs, j), evs[j], id);
  }

  // ----- polling often enough keeps a request alive

  /** The clock after the step bounds every reading taken within it. */
  lemma ReadingsWithin(cfg: Config, s: State, ev: Event, id: uint64)
    requires id in s.entries && s.entries[id].valid && !Asks(ev, Op.Invalidate(id))
    requires Step(cfg, s, ev).0.env.clock <= s.entries[id].lastAccess + cfg.expirationNs
    ensures KeptAlive(cfg, s, ev, id)
  {
  }

  /** A live request's last access only moves forward, and a poll moves it to the present. */
  lemma AccessMoves(cfg: Config, s: State, ev: Event, id: uint64)
    requires Inv(cfg, s) && WithinLimits(Step(cfg, s, ev).0)
    requires id in s.entries && !s.entries[id].invalidated && KeptAlive(cfg, s, ev, id)
    ensures var s' := Step(cfg, s, ev).0;
      id in s'.entries ==>
        && s.entries[id].lastAccess <= s'.entries[id].lastAccess
        && (Asks(ev, Op.Poll(id)) ==> s'.entries[id].lastAccess == s'.env.clock)
  {
    assert LiveOk(cfg, s, id);
    if !Concerns(ev, id) {
      Untouched(cfg, s, ev, id);
    } else if Asks(ev, Op.Poll(id)) {
      RemovalMeans(cfg, s.env, id, s.entries[id], ev.first);
    }
  }

  /** Event m is the submission of the request (event i) or a poll for it. */
  predicate Touches(evs: seq<Event>, i: nat, m: nat, id: uint64)
    requires m < |evs|
  {
    m == i || Asks(evs[m], Op.Poll(id))
  }

  function ClockAfter(cfg: Config, evs: seq<Event>, m: nat): nat
    requires m < |evs|
  {
    Before(cfg, evs, m + 1).env.clock
  }

  /** Between events i and j nobody invalidates the request or fetches its reply, and at the end of each
      event the submission or some poll is at most the expiration time ago. */
  ghost predicate PolledOften(cfg: Config, evs: seq<Event>, i: nat, j: nat, id: uint64)
    requires i < j <= |evs|
  {
    forall k | i < k < j ::
      && !Asks(evs[k], Op.Invalidate(id))
      && !(Asks(evs[k], Op.GetReply(id)) && ReplyTo(cfg, evs, k).Delivery?)
      && exists m :: i <= m < k && Touches(evs, i, m, id)
           && ClockAfter(cfg, evs, k) <= ClockAfter(cfg, evs, m) + cfg.expirationNs
  }

  /** Every submission or poll so far is recorded in the last access. */
  ghost predicate AccessCovers(cfg: Config, evs: seq<Event>, i: nat, j: nat, id: uint64)
    requires i < j <= |evs| && id in Before(cfg, evs, j).entries
  {
    forall m | i <= m < j && Touches(evs, i, m, id) ::
      ClockAfter(cfg, evs, m) <= Before(cfg, evs, j).entries[id].lastAccess
  }

  lemma AccessCoversStep(cfg: Config, evs: seq<Event>, i: nat, j: nat, id: uint64)
    requires Legal(cfg, evs) && i < j < |evs| && id in Before(cfg, evs, j).entries
    requires AccessCovers(cfg, evs, i, j, id) && !Before(cfg, evs, j).entries[id].invalidated
    requires KeptAlive(cfg, Before(cfg, evs, j), evs[j], id) && id in Before(cfg, evs, j + 1).entries
    ensures AccessCovers(cfg, evs, i, j + 1, id)
  {
    hide Step, Inv, KeptAlive;
    Reachable(cfg, evs, j, j + 1);
    AccessMoves(cfg, Before(cfg, evs, j), evs[j], id);
    assert Before(cfg, evs, j + 1) == Step(cfg, Before(cfg, evs, j), evs[j]).0;
    forall m | i <= m < j + 1 && Touches(evs, i, m, id)
      ensures ClockAfter(cfg, evs, m) <= Before(cfg, evs, j + 1).entries[id].lastAccess
    {
      hide Before;
      if m < j { assert ClockAfter(cfg, evs, m) <= Before(cfg, evs, j).entries[id].lastAccess; }
    }
  }

  lemma PollInTime(cfg: Config, evs: seq<Event>, i: nat, j: nat, id: uint64)
    requires Legal(cfg, evs) && i < j < |evs| && id in Before(cfg, evs, j).entries
    requires AccessCovers(cfg, evs, i, j, id) && PolledOften(cfg, evs, i, j + 1, id)
    ensures KeptAlive(cfg, Before(cfg, evs, j), evs[j], id)
  {
    hide Step, Inv, KeptAlive;
    Reachable(cfg, evs, j, j + 1);
    LiveIsValid(cfg, Before(cfg, evs, j), id);
    assert Before(cfg, evs, j + 1) == Step(cfg, Before(cfg, evs, j), evs[j]).0;
    assert ClockAfter(cfg, evs, j) == Before(cfg, evs, j + 1).env.clock;
    hide Before;
    ReadingsWithin(cfg, Before(cfg, evs, j), evs[j], id);
  }

  /** So a client that polls at least once every expiration time, measured on the server's clock from the
      answer to one poll to the end of the next, meets the condition of NoLostReply. */
  lemma {:induction false} PollingKeepsAlive(cfg: Config, evs: seq<Event>, i: nat, j: nat, id: uint64)
    requires Legal(cfg, evs) && i < j <= |evs| && ReplyTo(cfg, evs, i) == Accepted(id)
    requires PolledOften(cfg, evs, i, j, id)
    ensures KeptAliveBetween(cfg, evs, i, j, id)
    ensures id in Before(cfg, evs, j).entries && AccessCovers(cfg, evs, i, j, id)
  {
    hide Step, Inv, KeptAlive, AccessCovers, KeptAliveBetween, PolledOften, At;
    PolledOftenSoFar(cfg, evs, i, j, id);
    if i + 1 < j {
      PollingKeepsAlive(cfg, evs, i, j - 1, id);
      AliveUntil(cfg, evs, i, j - 1, id);
      PollInTime(cfg, evs, i, j - 1, id);
      KeptAliveLonger(cfg, evs, i, j - 1, id);
      AliveUntil(cfg, evs, i, j, id);
      AccessCoversStep(cfg, evs, i, j - 1, id);
    } else {
      SubmissionCovers(cfg, evs, i, id);
      assert KeptAliveBetween(cfg, evs, i, j, id) by { NothingBetween(cfg, evs, i, id); }
    }
  }

  lemma PolledOftenSoFar(cfg: Config, evs: seq<Event>, i: nat, j: nat, id: uint64)
    requires i < j <= |evs| && PolledOften(cfg, evs, i, j, id)
    ensures i + 1 < j ==> PolledOften(cfg, evs, i, j - 1, id) && !Asks(evs[j - 1], Op.Invalidate(id))
                          && !(Asks(evs[j - 1], Op.GetReply(id)) && ReplyTo(cfg, evs, j - 1).Delivery?)
  {
    hide ReplyTo, ClockAfter;
  }

  lemma NothingBetween(cfg: Config, evs: seq<Event>, i: nat, id: uint64)
    requires i < |evs|
    ensures KeptAliveBetween(cfg, evs, i, i + 1, id)
  {
  }

  lemma KeptAliveLonger(cfg: Config, evs: seq<Event>, i: nat, j: nat, id: uint64)
    requires i < j < |evs| && KeptAliveBetween(cfg, evs, i, j, id)
    requires id in Before(cfg, evs, j).entries && KeptAlive(cfg, Before(cfg, evs, j), evs[j], id)
    requires !(Asks(evs[j], Op.GetReply(id)) && ReplyTo(cfg, evs, j).Delivery?)
    ensures KeptAliveBetween(cfg, evs, i, j + 1, id)
  {
    hide Before, ReplyTo, KeptAlive;
  }

  lemma SubmissionCovers(cfg: Config, evs: seq<Event>, i: nat, id: uint64)
    requires Legal(cfg, evs) && i < |evs| && ReplyTo(cfg, evs, i) == Accepted(id)
    ensures id in Before(cfg, evs, i + 1).entries && AccessCovers(cfg, evs, i, i + 1, id)
  {
    hide Step, Inv;
    Reachable(cfg, evs, i, i + 1);
    AcceptedMeans(cfg, Before(cfg, evs, i), evs[i]);
  }

  lemma LiveIsValid(cfg: Config, s: State, id: uint64)
    requires Inv(cfg, s) && id in s.entries
    ensures s.entries[id].valid
  {
    assert LiveOk(cfg, s, id);
  }
}

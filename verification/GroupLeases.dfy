/** Processes sharing one region under an advisory lock: every interleaving of their steps, deaths included. */
module GroupLeases {
  import opened Text
  import opened Numerals
  import opened GroupRegion

  /** What one region handle is doing. Storing the generation and storing the marker are separate steps; a lease is
      granted once both are done. */
  datatype Phase =
    | Reading(generation: nat)
    | Locked(repair: bool)
    | Reserved(repair: bool)
    | Writing(repair: bool, generation: nat, committed: bool)

  /** `committed` is the payload last committed, `granted` counts write and repair leases, `torn` the handles that
      died between the two stores. */
  datatype State = State(
    region: Bytes,
    handles: map<nat, Phase>,
    committed: Bytes,
    granted: nat,
    torn: nat)

  datatype Event =
    | Read(h: nat)
    | EndRead(h: nat)
    | Lock(h: nat, repair: bool)
    | Reserve(h: nat)
    | Mark(h: nat)
    | Write(h: nat, i: nat, b: Byte)
    | Commit(h: nat)
    | Drop(h: nat)
    | Die(h: nat)

  function Initial(payloadLen: nat): State {
    State(NewRegion(payloadLen), map[], Zeros(payloadLen), 0, 0)
  }

  /** A shared lock coexists with shared locks only, an exclusive one with none. */
  predicate SharedFree(s: State) { forall h :: h in s.handles ==> s.handles[h].Reading? }

  predicate ExclusiveFree(s: State) { forall h :: h !in s.handles }

  function Without(s: State, h: nat): State { s.(handles := map k | k in s.handles && k != h :: s.handles[k]) }

  function With(s: State, h: nat, p: Phase): State { s.(handles := s.handles[h := p]) }

  /** A read lease: refused on an unclean region. */
  function ReadOutcome(region: Bytes): Result<nat, RegionError>
    requires HasHeader(region)
  {
    if Dirty(region) then Err(UncleanWrite(Generation(region))) else Ok(Generation(region))
  }

  /** The checks under the exclusive lock, before anything is stored. */
  function LockOutcome(region: Bytes, repair: bool): Result<nat, RegionError>
    requires HasHeader(region)
  {
    if Dirty(region) && !repair then Err(UncleanWrite(Generation(region)))
    else if Generation(region) + 1 >= U64_BOUND then Err(GenerationOverflow)
    else Ok(Generation(region) + 1)
  }

  /** One step; a step that is not enabled, or is refused, changes nothing. */
  function Step(s: State, e: Event): State
    requires HasHeader(s.region)
  {
    match e
    case Read(h) =>
      if h !in s.handles && SharedFree(s) && ReadOutcome(s.region).Ok?
      then With(s, h, Reading(Generation(s.region))) else s
    case EndRead(h) => if h in s.handles && s.handles[h].Reading? then Without(s, h) else s
    case Lock(h, repair) =>
      if ExclusiveFree(s) && LockOutcome(s.region, repair).Ok? then With(s, h, Locked(repair)) else s
    case Reserve(h) =>
      if h in s.handles && s.handles[h].Locked?
      then With(s.(region := WithGeneration(s.region, Generation(s.region) + 1)), h, Reserved(s.handles[h].repair))
      else s
    case Mark(h) =>
      if h in s.handles && s.handles[h].Reserved?
      then With(s.(region := WithMarker(s.region, 1), granted := s.granted + 1), h,
                Writing(s.handles[h].repair, Generation(s.region), false))
      else s
    case Write(h, i, b) =>
      if h in s.handles && s.handles[h].Writing? && !s.handles[h].committed && i < |s.region| - HEADER_LEN
      then s.(region := WithPayloadByte(s.region, i, b)) else s
    case Commit(h) =>
      if h in s.handles && s.handles[h].Writing? && !s.handles[h].committed
      then With(s.(region := WithMarker(s.region, 0), committed := Payload(s.region)), h, s.handles[h].(committed := true))
      else s
    case Drop(h) =>
      if h in s.handles && s.handles[h].Writing?
      then Without(if s.handles[h].committed then s.(region := WithMarker(s.region, 0)) else s, h) else s
    case Die(h) =>
      if h in s.handles then Without(if s.handles[h].Reserved? then s.(torn := s.torn + 1) else s, h) else s
  }

  predicate SomeoneReserved(s: State) { exists h :: h in s.handles && s.handles[h].Reserved? }

  ghost predicate Inv(s: State, payloadLen: nat) {
    && HasHeader(s.region) && ValidateHeader(s.region) == Ok(payloadLen) && |s.region| == HEADER_LEN + payloadLen
    && Generation(s.region) < U64_BOUND
    && Generation(s.region) == s.granted + s.torn + (if SomeoneReserved(s) then 1 else 0)
    // the lock
    && (forall h, k :: h in s.handles && k in s.handles && !s.handles[h].Reading? ==> k == h)
    // the marker
    && (!Dirty(s.region) ==> Payload(s.region) == s.committed)
    && (forall h :: h in s.handles ==>
          match s.handles[h]
          case Reading(g) => !Dirty(s.region) && g == Generation(s.region)
          case Locked(repair) => (Dirty(s.region) ==> repair) && Generation(s.region) + 1 < U64_BOUND
          case Reserved(repair) => Dirty(s.region) ==> repair
          case Writing(_, g, committed) => g == Generation(s.region) && (committed <==> !Dirty(s.region)))
  }

  lemma InitialInv(payloadLen: nat)
    requires 0 < payloadLen && HEADER_LEN + payloadLen < U64_BOUND
    ensures Inv(Initial(payloadLen), payloadLen)
  {
    NewRegionIsValid(payloadLen);
  }

  lemma StepKeepsInv(s: State, e: Event, payloadLen: nat)
    requires Inv(s, payloadLen)
    ensures Inv(Step(s, e), payloadLen)
  {
    hide Dirty, Payload, Generation, ValidateHeader, WithGeneration, WithMarker, WithPayloadByte, GroupRegion.SameIdentity;
    var t := Step(s, e);
    StoreMarker(s.region, 0);
    StoreMarker(s.region, 1);
    IdentityDecides(s.region, WithMarker(s.region, 0));
    IdentityDecides(s.region, WithMarker(s.region, 1));
    if e.Reserve? && Generation(s.region) + 1 < U64_BOUND {
      StoreGeneration(s.region, Generation(s.region) + 1);
      IdentityDecides(s.region, WithGeneration(s.region, Generation(s.region) + 1));
      if e.h in s.handles && s.handles[e.h].Locked? {
        assert t.handles[e.h].Reserved?;
      }
    }
    if e.Write? && e.i < |s.region| - HEADER_LEN {
      StorePayloadByte(s.region, e.i, e.b);
      IdentityDecides(s.region, WithPayloadByte(s.region, e.i, e.b));
    }
    assert |t.region| == |s.region|;
    if !SomeoneReserved(s) {
      assert forall h :: h in s.handles ==> !s.handles[h].Reserved?;
    }
  }

  // ----- runs

  ghost predicate HasRegion(s: State) { HasHeader(s.region) }

  ghost function Run(s: State, events: seq<Event>): (t: State)
    requires HasRegion(s)
    ensures HasRegion(t)
    decreases |events|
  {
    if events == [] then s else Step(Run(s, events[..|events| - 1]), events[|events| - 1])
  }

  lemma {:induction false} RunKeepsInv(s: State, events: seq<Event>, payloadLen: nat)
    requires Inv(s, payloadLen)
    ensures Inv(Run(s, events), payloadLen)
    decreases |events|
  {
    if events != [] {
      RunKeepsInv(s, events[..|events| - 1], payloadLen);
      StepKeepsInv(Run(s, events[..|events| - 1]), events[|events| - 1], payloadLen);
    }
  }

  /** The event is the commit of a writer that holds the region. */
  predicate Commits(s: State, e: Event) {
    e.Commit? && e.h in s.handles && s.handles[e.h].Writing? && !s.handles[e.h].committed
  }

  /** The payload that a run last committed, counted from the events alone. */
  ghost function LastCommitted(s: State, events: seq<Event>): Bytes
    requires HasRegion(s)
    decreases |events|
  {
    if events == [] then s.committed
    else
      var init, e := events[..|events| - 1], events[|events| - 1];
      var before := Run(s, init);
      if Commits(before, e)
      then Payload(before.region) else LastCommitted(s, init)
  }

  lemma {:induction false} CommittedIsLast(s: State, events: seq<Event>)
    requires HasRegion(s)
    ensures Run(s, events).committed == LastCommitted(s, events)
    decreases |events|
  {
    hide Step, Commits;
    if events != [] {
      var init := events[..|events| - 1];
      CommittedIsLast(s, init);
      StepCommits(Run(s, init), events[|events| - 1]);
    }
  }

  lemma StepCommits(s: State, e: Event)
    requires HasRegion(s)
    ensures Step(s, e).committed == if Commits(s, e) then Payload(s.region) else s.committed
  {}

  /** From creation on, whatever the handles do: a granted read lease sees exactly the last committed payload, or the
      initial zeros; no writer is active beside it; the header still validates to the original length; and the
      generation counts the write and repair leases granted, plus those torn or not yet marked. */
  lemma CommittedReadsOnly(payloadLen: nat, events: seq<Event>, h: nat)
    requires 0 < payloadLen && HEADER_LEN + payloadLen < U64_BOUND
    ensures HasRegion(Initial(payloadLen))
    ensures var s := Run(Initial(payloadLen), events);
            && ValidateHeader(s.region) == Ok(payloadLen)
            && Generation(s.region) == s.granted + s.torn + (if SomeoneReserved(s) then 1 else 0)
            && (h in s.handles && s.handles[h].Reading? ==>
                  && Payload(s.region) == LastCommitted(Initial(payloadLen), events)
                  && s.handles[h].generation == Generation(s.region) == s.granted + s.torn
                  && SharedFree(s))
  {
    InitialInv(payloadLen);
    RunKeepsInv(Initial(payloadLen), events, payloadLen);
    CommittedIsLast(Initial(payloadLen), events);
  }

  lemma StepGeneration(s: State, e: Event, payloadLen: nat)
    requires Inv(s, payloadLen)
    ensures Generation(s.region) <= Generation(Step(s, e).region)
    ensures s.granted <= Step(s, e).granted && s.torn <= Step(s, e).torn
  {
    StoreMarker(s.region, 0);
    StoreMarker(s.region, 1);
    if Generation(s.region) + 1 < U64_BOUND {
      StoreGeneration(s.region, Generation(s.region) + 1);
    }
    if e.Write? && e.i < |s.region| - HEADER_LEN {
      StorePayloadByte(s.region, e.i, e.b);
    }
  }

  /** Generations never decrease. */
  lemma {:induction false} GenerationsIncrease(s: State, events: seq<Event>, payloadLen: nat)
    requires Inv(s, payloadLen)
    ensures Generation(s.region) <= Generation(Run(s, events).region)
    decreases |events|
  {
    if events != [] {
      var init := events[..|events| - 1];
      GenerationsIncrease(s, init, payloadLen);
      RunKeepsInv(s, init, payloadLen);
      StepGeneration(Run(s, init), events[|events| - 1], payloadLen);
    }
  }

  /** A lease is refused at the last generation, and nothing is stored. */
  lemma GenerationOverflows(s: State, h: nat, repair: bool, payloadLen: nat)
    requires Inv(s, payloadLen) && Generation(s.region) == U64_BOUND - 1
    ensures LockOutcome(s.region, repair).Err? && Step(s, Lock(h, repair)) == s
  {}

  /** A region at the last generation that nobody is writing never changes again, repairs included. */
  lemma {:induction false} LastGenerationIsFinal(s: State, events: seq<Event>, payloadLen: nat)
    requires Inv(s, payloadLen) && Generation(s.region) == U64_BOUND - 1 && SharedFree(s)
    ensures SharedFree(Run(s, events)) && Run(s, events).region == s.region && Run(s, events).granted == s.granted
    decreases |events|
  {
    hide Inv, Generation, LockOutcome;
    if events != [] {
      var init, e := events[..|events| - 1], events[|events| - 1];
      LastGenerationIsFinal(s, init, payloadLen);
      RunKeepsInv(s, init, payloadLen);
      if e.Lock? {
        GenerationOverflows(Run(s, init), e.h, e.repair, payloadLen);
      }
    }
  }

  // ----- fail closed

  /** A mutation was begun and not committed, and whoever holds the region now is repairing it. */
  ghost predicate Unclean(s: State) {
    && HasRegion(s) && Dirty(s.region)
    && forall h :: h in s.handles ==> !s.handles[h].Reading? && s.handles[h].repair
  }

  /** A writer that ends without committing leaves the region unclean, however it ends. */
  lemma AbandonedIsUnclean(s: State, h: nat, e: Event, payloadLen: nat)
    requires Inv(s, payloadLen) && h in s.handles && s.handles[h].Writing? && !s.handles[h].committed
    requires e == Drop(h) || e == Die(h)
    ensures Unclean(Step(s, e)) && Step(s, e).region == s.region
  {}

  lemma UncleanStep(s: State, e: Event, payloadLen: nat)
    requires Inv(s, payloadLen) && Unclean(s) && !Commits(s, e)
    ensures Unclean(Step(s, e))
  {
    StoreMarker(s.region, 1);
    if Generation(s.region) + 1 < U64_BOUND {
      StoreGeneration(s.region, Generation(s.region) + 1);
    }
    if e.Write? && e.i < |s.region| - HEADER_LEN {
      StorePayloadByte(s.region, e.i, e.b);
    }
  }

  /** An unclean region stays so until a writer commits: until then no read and no ordinary write lease is granted,
      and only a repair can commit. Commits by handles that hold nothing change nothing. */
  lemma {:induction false} UncleanUntilRepairCommits(s: State, events: seq<Event>, payloadLen: nat)
    requires Inv(s, payloadLen) && Unclean(s)
    requires forall i :: 0 <= i < |events| ==> !Commits(Run(s, events[..i]), events[i])
    ensures Unclean(Run(s, events))
    ensures ReadOutcome(Run(s, events).region).Err? && LockOutcome(Run(s, events).region, false).Err?
    ensures forall e :: Commits(Run(s, events), e) ==> Run(s, events).handles[e.h].repair
    decreases |events|
  {
    if events != [] {
      var init := events[..|events| - 1];
      forall i | 0 <= i < |init|
        ensures !Commits(Run(s, init[..i]), init[i])
      {
        assert init[..i] == events[..i];
      }
      UncleanUntilRepairCommits(s, init, payloadLen);
      RunKeepsInv(s, init, payloadLen);
      UncleanStep(Run(s, init), events[|events| - 1], payloadLen);
    }
  }

  /** A committed repair opens the region again, with what the repair wrote. */
  lemma RepairReopens(s: State, h: nat, payloadLen: nat)
    requires Inv(s, payloadLen) && h in s.handles && s.handles[h].Writing? && !s.handles[h].committed
    ensures var t := Step(Step(s, Commit(h)), Drop(h));
            && !Dirty(t.region) && ExclusiveFree(t) && Payload(t.region) == Payload(s.region) == t.committed
            && ReadOutcome(t.region) == Ok(Generation(s.region))
  {
    StepKeepsInv(s, Commit(h), payloadLen);
    StoreMarker(s.region, 0);
    StoreMarker(WithMarker(s.region, 0), 0);
  }
}

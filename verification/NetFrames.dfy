/** Lockstep: what every run of the two consoles keeps true of frames and inputs, that both hold
    the same data for every frame but frame 5, and how far apart they can get. */
module NetFrames {
  import opened NetConsole
  import opened NetSystem

  /** The reading for frame `n`; frames before 5 have none. */
  predicate Reading(l: Log, n: nat, pad: Pad) {
    n >= BUFFER_SIZE && n - BUFFER_SIZE < |l.readings| && l.readings[n - BUFFER_SIZE] == pad
  }

  /** The parts of a frame that only the host decides. */
  predicate SameHead(p: CtrlPacket, q: CtrlPacket) {
    p.frameSeed == q.frameSeed && p.callbackSector == q.callbackSector && p.game == q.game
    && p.pads[2] == q.pads[2] && p.pads[3] == q.pads[3]
  }

  /** The third and fourth controllers are disconnected, and before frame 5 all four. */
  predicate Absent(pads: Pads, n: nat) {
    pads[2].status == -1 && pads[3].status == -1 && (n < 5 ==> pads[0].status == -1 && pads[1].status == -1)
  }

  /** A frame that has been sent. The guest's input may be missing in it. */
  predicate SentFrame(s: System, n: nat)
    requires n < |s.sent|
  {
    var p := s.sent[n];
    && p.frameNumber == n && p.haveInput[0] && p.haveInput[2] && p.haveInput[3] && Absent(p.pads, n)
    && (n <= BUFFER_SIZE ==> p.haveInput[1])
    && (n > BUFFER_SIZE ==> Reading(s.hostLog, n, p.pads[0]))
    && (n > BUFFER_SIZE && p.haveInput[1] ==> n < s.taken && Reading(s.guestLog, n, p.pads[1]))
  }

  /** The ring slot of a frame from the current one to four later, on the host. */
  predicate HostFrame(s: System, n: nat) {
    var p := Slot(s.host.ring, n);
    && p.frameNumber == n && p.haveSentOrRecv == (n < s.host.position)
    && (n < s.host.position && n < |s.sent| ==>
          SameHead(p, s.sent[n]) && (n <= BUFFER_SIZE ==> HasInputs(p))
              && (n < BUFFER_SIZE ==> p.pads == s.sent[n].pads))
    && (n > BUFFER_SIZE ==> p.haveInput[0] == (n < s.host.nextInput) && p.haveInput[1] == (n < s.taken))
    && (n > BUFFER_SIZE && p.haveInput[0] ==> Reading(s.hostLog, n, p.pads[0]))
    && (n > BUFFER_SIZE && p.haveInput[1] ==> Reading(s.guestLog, n, p.pads[1]))
  }

  predicate GuestFrame(s: System, n: nat) {
    var p := Slot(s.guest.ring, n);
    && p.frameNumber == n && p.haveSentOrRecv == (n < s.guest.position)
    && (n < s.guest.position && n < |s.sent| ==>
          SameHead(p, s.sent[n]) && p.haveInput[0] && (n <= BUFFER_SIZE ==> p.haveInput[1])
          && (n < BUFFER_SIZE ==> p.pads == s.sent[n].pads)
          && (n > BUFFER_SIZE ==> Reading(s.hostLog, n, p.pads[0])))
    && (n > BUFFER_SIZE ==> p.haveInput[1] == (n < s.guest.nextInput))
    && (n > BUFFER_SIZE && p.haveInput[1] ==> Reading(s.guestLog, n, p.pads[1]))
  }

  ghost predicate Frames(s: System) {
    && (forall n: nat :: s.host.frameCount <= n < s.host.frameCount + BUFFER_SIZE ==> HostFrame(s, n))
    && (forall n: nat :: s.guest.frameCount <= n < s.guest.frameCount + BUFFER_SIZE ==> GuestFrame(s, n))
    && (forall n: nat :: n < |s.sent| ==> SentFrame(s, n))
  }

  /** How far a console's threads are ahead of its frame counter. */
  predicate Ahead(c: Console) {
    && c.position <= c.frameCount + BUFFER_SIZE && (c.frameCount > 0 ==> c.frameCount < c.position)
    && BUFFER_SIZE <= c.nextInput && (c.nextInput <= BUFFER_SIZE || c.nextInput < c.frameCount + BUFFER_SIZE)
    && (c.frameCount > BUFFER_SIZE ==> c.frameCount < c.nextInput)
  }

  predicate Counts(s: System) {
    && Ahead(s.host) && Ahead(s.guest) && s.host.waitingInput == []
    && |s.sent| == s.host.position && s.guest.position <= s.host.position
    && s.toGuest == s.sent[s.guest.position..]
    && |s.hostLog.readings| == s.host.nextInput - BUFFER_SIZE
    && |s.guestLog.readings| == s.guest.nextInput - BUFFER_SIZE
    && BUFFER_SIZE <= s.taken <= s.guest.nextInput && s.taken <= s.host.frameCount + BUFFER_SIZE
    && (s.host.frameCount > BUFFER_SIZE ==> s.host.frameCount < s.taken)
  }

  /** The readings among some packets. */
  function Inputs(q: seq<SendPacket>): seq<SendPacket> {
    if q == [] then [] else if q[0].Input? then [q[0]] + Inputs(q[1..]) else Inputs(q[1..])
  }

  lemma {:induction false} InputsJoin(a: seq<SendPacket>, b: seq<SendPacket>)
    ensures Inputs(a + b) == Inputs(a) + Inputs(b)
  {
    if a == [] {
      assert a + b == b;
    } else {
      InputsJoin(a[1..], b);
      assert (a + b)[1..] == a[1..] + b;
    }
  }

  /** The guest's packets on their way to the host, oldest first. */
  function Pipeline(s: System): seq<SendPacket> { s.toHost + s.guest.sendBuffer + s.guest.waitingInput }

  /** The readings on their way are those of the frames from `taken` on, in order. */
  predicate Queued(s: System) {
    var q := Inputs(Pipeline(s));
    && |q| == s.guest.nextInput - s.taken
    && (forall i :: 0 <= i < |q| ==> q[i].Input? && q[i].wiimote == CLIENTS_WIIMOTE && q[i].frame == s.taken + i
                                     && Reading(s.guestLog, q[i].frame, q[i].pad))
    && |s.guest.waitingInput| <= 1 && (s.guest.waitingInput != [] ==> s.guest.waitingInput[0].Input?)
  }

  /** What every console holds for frame `n` once it has reached it. */
  predicate Agreed(s: System, p: CtrlPacket, n: nat) {
    && n < |s.sent| && SameHead(p, s.sent[n])
    && (n < BUFFER_SIZE ==> p.pads == s.sent[n].pads)
    && (n > BUFFER_SIZE ==> Reading(s.hostLog, n, p.pads[0]) && Reading(s.guestLog, n, p.pads[1]))
  }

  /** The frames that were reached, as they were when they were. */
  ghost predicate Held(s: System) {
    && |s.hostLog.held| == s.host.frameCount + 1 && |s.guestLog.held| == s.guest.frameCount + 1
    && s.hostLog.held[0] == s.guestLog.held[0]
    && (forall n: nat :: 0 < n <= s.host.frameCount ==> Agreed(s, s.hostLog.held[n], n))
    && (forall n: nat :: 0 < n <= s.guest.frameCount ==> Agreed(s, s.guestLog.held[n], n))
  }

  ghost predicate Lockstep(s: System) { Counts(s) && Frames(s) && Queued(s) && Held(s) }

  lemma StartLockstep()
    ensures Lockstep(Start())
  {
    var s := Start();
    StartFrames(s);
    assert Inputs(Pipeline(s)) == [];
  }

  lemma StartFrames(s: System)
    requires s == Start()
    ensures Frames(s)
  {
    forall n: nat | n < BUFFER_SIZE ensures HostFrame(s, n) && GuestFrame(s, n) {
      assert n == 0 || n == 1 || n == 2 || n == 3 || n == 4;
    }
  }

  // ----- what a step cannot undo -----

  /** Nothing that was read, sent or delivered is forgotten. */
  predicate Grew(s: System, s': System) {
    && s.hostLog.readings <= s'.hostLog.readings && s.guestLog.readings <= s'.guestLog.readings
    && s.sent <= s'.sent && s.taken <= s'.taken
  }

  lemma GrowKeepsSent(s: System, s': System)
    requires Grew(s, s') && forall n: nat :: n < |s.sent| ==> SentFrame(s, n)
    ensures forall n: nat :: n < |s.sent| ==> SentFrame(s', n)
  {
    forall n: nat | n < |s.sent| ensures SentFrame(s', n) { assert SentFrame(s, n); }
  }

  lemma GrowKeepsAgreed(s: System, s': System, held: seq<CtrlPacket>, k: nat)
    requires Grew(s, s') && k < |held| && forall n: nat :: 0 < n <= k ==> Agreed(s, held[n], n)
    ensures forall n: nat :: 0 < n <= k ==> Agreed(s', held[n], n)
  {
    forall n: nat | 0 < n <= k ensures Agreed(s', held[n], n) { assert Agreed(s, held[n], n); }
  }

  /** A step that moves neither console to another frame keeps what was held. */
  lemma GrowKeepsHeld(s: System, s': System)
    requires Held(s) && Grew(s, s') && s'.hostLog.held == s.hostLog.held && s'.guestLog.held == s.guestLog.held
    requires s'.host.frameCount == s.host.frameCount && s'.guest.frameCount == s.guest.frameCount
    ensures Held(s')
  {
    GrowKeepsAgreed(s, s', s.hostLog.held, s.host.frameCount);
    GrowKeepsAgreed(s, s', s.guestLog.held, s.guest.frameCount);
  }

  /** A step that leaves one ring, and what it is measured against, alone. */
  lemma GrowKeepsHost(s: System, s': System)
    requires Lockstep(s) && Grew(s, s') && s'.host.ring == s.host.ring && s'.host.frameCount == s.host.frameCount
    requires s'.host.position == s.host.position && s'.host.nextInput == s.host.nextInput && s'.taken == s.taken
    ensures forall n: nat :: s.host.frameCount <= n < s.host.frameCount + BUFFER_SIZE ==> HostFrame(s', n)
  {
    forall n: nat | s.host.frameCount <= n < s.host.frameCount + BUFFER_SIZE
      ensures HostFrame(s', n)
    {
      assert HostFrame(s, n);
    }
  }

  lemma GrowKeepsGuest(s: System, s': System)
    requires Lockstep(s) && Grew(s, s') && s'.guest.ring == s.guest.ring && s'.guest.frameCount == s.guest.frameCount
    requires s'.guest.position == s.guest.position && s'.guest.nextInput == s.guest.nextInput
    ensures forall n: nat :: s.guest.frameCount <= n < s.guest.frameCount + BUFFER_SIZE ==> GuestFrame(s', n)
  {
    forall n: nat | s.guest.frameCount <= n < s.guest.frameCount + BUFFER_SIZE
      ensures GuestFrame(s', n)
    {
      assert GuestFrame(s, n);
    }
  }

  // ----- each step -----

  lemma HostReadKeeps(s: System, pad: Pad)
    requires Lockstep(s) && Enabled(s, HostRead(pad))
    ensures Lockstep(Apply(s, HostRead(pad)))
  {
    var s', m := Apply(s, HostRead(pad)), s.host.nextInput;
    forall n: nat | s.host.frameCount <= n < s.host.frameCount + BUFFER_SIZE ensures HostFrame(s', n) {
      assert HostFrame(s, n);
      PutSlot(s.host.ring, m, WithInput(Slot(s.host.ring, m), HOSTS_WIIMOTE, pad), n);
    }
    GrowKeepsGuest(s, s');
    GrowKeepsSent(s, s');
    GrowKeepsHeld(s, s');
  }

  lemma GuestReadKeeps(s: System, pad: Pad)
    requires Lockstep(s) && Enabled(s, GuestRead(pad))
    ensures Lockstep(Apply(s, GuestRead(pad)))
  {
    var s', m := Apply(s, GuestRead(pad)), s.guest.nextInput;
    forall n: nat | s.guest.frameCount <= n < s.guest.frameCount + BUFFER_SIZE ensures GuestFrame(s', n) {
      assert GuestFrame(s, n);
      PutSlot(s.guest.ring, m, WithInput(Slot(s.guest.ring, m), CLIENTS_WIIMOTE, pad), n);
    }
    GrowKeepsHost(s, s');
    GrowKeepsSent(s, s');
    GrowKeepsHeld(s, s');
    QueueGrows(s, s', pad);
  }

  lemma QueueGrows(s: System, s': System, pad: Pad)
    requires Lockstep(s) && Enabled(s, GuestRead(pad)) && s' == Apply(s, GuestRead(pad))
    ensures Queued(s')
  {
    var x := Input(s.guest.nextInput, CLIENTS_WIIMOTE, pad);
    assert Pipeline(s') == Pipeline(s) + [x];
    InputsJoin(Pipeline(s), [x]);
    assert Inputs([x]) == [x];
  }

  /** Packets that only move along their way. */
  lemma MoveKeeps(s: System, step: Step)
    requires Lockstep(s) && Enabled(s, step) && (step.GuestQueueInput? || step.Transmit?)
    ensures Lockstep(Apply(s, step))
  {
    var s' := Apply(s, step);
    GrowKeepsHost(s, s');
    GrowKeepsGuest(s, s');
    GrowKeepsSent(s, s');
    GrowKeepsHeld(s, s');
    var w, b := s.guest.waitingInput, s.guest.sendBuffer;
    if step.Transmit? {
      assert s.toHost + [b[0]] + b[1..] + w == s.toHost + b + w;
    } else {
      assert w == [w[0]];
      assert s.toHost + (b + [w[0]]) + [] == s.toHost + b + w;
    }
  }

  lemma QueueReadKeeps(s: System, sector: nat)
    requires Lockstep(s) && Enabled(s, GuestQueueRead(sector))
    ensures Lockstep(Apply(s, GuestQueueRead(sector)))
  {
    var s' := Apply(s, GuestQueueRead(sector));
    GrowKeepsHost(s, s');
    GrowKeepsGuest(s, s');
    GrowKeepsSent(s, s');
    GrowKeepsHeld(s, s');
    var a, w, x := s.toHost + s.guest.sendBuffer, s.guest.waitingInput, DiscRead(1, sector);
    assert Pipeline(s) == a + w && Pipeline(s') == a + [x] + w;
    InputsJoin(a, w);
    InputsJoin(a + [x], w);
    InputsJoin(a, [x]);
    assert Inputs([x]) == [];
    assert Inputs(Pipeline(s')) == Inputs(Pipeline(s));
  }

  lemma HostTakeKeeps(s: System)
    requires Lockstep(s) && Enabled(s, HostTake)
    ensures Lockstep(Apply(s, HostTake))
  {
    var s', x := Apply(s, HostTake), s.toHost[0];
    GrowKeepsGuest(s, s');
    GrowKeepsSent(s, s');
    GrowKeepsHeld(s, s');
    TakeKeepsQueue(s, s');
    if x.Input? {
      TakeKeepsHost(s, s');
    } else {
      GrowKeepsHost(s, s');
    }
  }

  lemma InputsOne(x: SendPacket)
    ensures Inputs([x]) == if x.Input? then [x] else []
  {
  }

  lemma TakeKeepsQueue(s: System, s': System)
    requires Lockstep(s) && Enabled(s, HostTake) && s' == Apply(s, HostTake)
    ensures Queued(s') && s'.taken <= s'.guest.nextInput
    ensures s.toHost[0].Input? ==> s.toHost[0].frame == s.taken && s.toHost[0].wiimote == CLIENTS_WIIMOTE
                                   && Reading(s.guestLog, s.taken, s.toHost[0].pad)
  {
    hide Frames, Held, Registered, EntryFor, Delivered, Slot, Put, Inputs;
    var x, rest := s.toHost[0], s.toHost[1..] + s.guest.sendBuffer + s.guest.waitingInput;
    assert Pipeline(s) == [x] + rest && Pipeline(s') == rest;
    InputsJoin([x], rest);
    InputsOne(x);
    var q := Inputs(Pipeline(s));
    if x.Input? {
      assert q[0] == x;
      assert forall i :: 0 <= i < |Inputs(rest)| ==> Inputs(rest)[i] == q[i + 1];
    } else {
      assert Inputs(rest) == q;
    }
  }

  lemma TakeKeepsHost(s: System, s': System)
    requires Lockstep(s) && Enabled(s, HostTake) && s' == Apply(s, HostTake) && s.toHost[0].Input?
    ensures s'.taken <= s'.host.frameCount + BUFFER_SIZE
    ensures forall n: nat :: s.host.frameCount <= n < s.host.frameCount + BUFFER_SIZE ==> HostFrame(s', n)
  {
    var x := s.toHost[0];
    TakeKeepsQueue(s, s');
    TakenInWindow(s, x);
    forall n: nat | s.host.frameCount <= n < s.host.frameCount + BUFFER_SIZE ensures HostFrame(s', n) {
      assert HostFrame(s, n);
      PutSlot(s.host.ring, x.frame, WithInput(Slot(s.host.ring, x.frame), x.wiimote, x.pad), n);
    }
  }

  /** The host's ring has a slot for the next reading it takes. */
  lemma TakenInWindow(s: System, x: SendPacket)
    requires Lockstep(s) && x.Input? && x.frame == s.taken && CanDeliver(s.host, x.frame)
    ensures s.host.frameCount <= s.taken < s.host.frameCount + BUFFER_SIZE
  {
    WindowOnly(s, s.taken);
  }

  lemma WindowOnly(s: System, m: nat)
    requires Lockstep(s) && Slot(s.host.ring, m).frameNumber == m
    ensures s.host.frameCount <= m < s.host.frameCount + BUFFER_SIZE
  {
    var f := s.host.frameCount;
    var r := f + (m - f) % BUFFER_SIZE;
    assert HostFrame(s, r);
    assert r % BUFFER_SIZE == m % BUFFER_SIZE;
  }

  lemma HostSendKeeps(s: System, game: int)
    requires Lockstep(s) && Enabled(s, HostSend(game))
    ensures Lockstep(Apply(s, HostSend(game)))
  {
    var s', p := Apply(s, HostSend(game)), PacketToSend(s.host, game);
    GrowKeepsGuest(s, s');
    GrowKeepsSent(s, s');
    GrowKeepsHeld(s, s');
    SendKeepsHost(s, s', game);
    assert s'.sent[s.guest.position..] == s.sent[s.guest.position..] + [p];
  }

  lemma SendKeepsHost(s: System, s': System, game: int)
    requires Lockstep(s) && Enabled(s, HostSend(game)) && s' == Apply(s, HostSend(game))
    ensures s.host.position < s.host.frameCount + BUFFER_SIZE && SentFrame(s', s.host.position)
    ensures forall n: nat :: s.host.frameCount <= n < s.host.frameCount + BUFFER_SIZE ==> HostFrame(s', n)
  {
    var m, p := s.host.position, PacketToSend(s.host, game);
    WindowOnly(s, m);
    assert HostFrame(s, m);
    forall n: nat | s.host.frameCount <= n < s.host.frameCount + BUFFER_SIZE ensures HostFrame(s', n) {
      assert HostFrame(s, n);
      PutSlot(s.host.ring, m, p.(haveSentOrRecv := true), n);
    }
  }

  lemma GuestTakeKeeps(s: System)
    requires Lockstep(s) && Enabled(s, GuestTake) && !Early(s, GuestTake)
    ensures Lockstep(Apply(s, GuestTake))
  {
    hide GuestFrame, HostFrame, SentFrame, Agreed, Inputs, Merged, Slot, Put;
    var s' := Apply(s, GuestTake);
    NextFrameInWindow(s);
    forall n: nat | s.guest.frameCount <= n < s.guest.frameCount + BUFFER_SIZE ensures GuestFrame(s', n) {
      TakeKeepsGuest(s, s', n);
    }
    GrowKeepsHost(s, s');
    GrowKeepsSent(s, s');
    GrowKeepsHeld(s, s');
  }

  lemma TakeKeepsGuest(s: System, s': System, n: nat)
    requires Lockstep(s) && Enabled(s, GuestTake) && !Early(s, GuestTake) && s' == Apply(s, GuestTake)
    requires s.guest.frameCount <= n < s.guest.frameCount + BUFFER_SIZE
    ensures GuestFrame(s', n)
  {
    hide Queued, Held, HostFrame;
    var m, p := s.guest.position, s.toGuest[0];
    assert p == s.sent[m] && SentFrame(s, m);
    NextFrameInWindow(s);
    assert GuestFrame(s, m) && GuestFrame(s, n);
    PutSlot(s.guest.ring, m, Merged(p, Slot(s.guest.ring, m)), n);
  }

  /** A frame that the guest takes in time is one its ring has a slot for. */
  lemma NextFrameInWindow(s: System)
    requires Lockstep(s) && Enabled(s, GuestTake) && !Early(s, GuestTake)
    ensures s.guest.frameCount <= s.guest.position < s.guest.frameCount + BUFFER_SIZE
  {
    var m, f := s.guest.position, s.guest.frameCount;
    assert s.toGuest[0] == s.sent[m] && SentFrame(s, m);
    assert GuestFrame(s, f);
    SlotsRepeat(s.guest.ring, f);
  }

  lemma AdvanceKeeps(s: System, onHost: bool)
    requires Lockstep(s) && Enabled(s, Advance(onHost))
    ensures Lockstep(Apply(s, Advance(onHost)))
  {
    hide HostFrame, GuestFrame, SentFrame, Agreed, Inputs, Blocked, Fired;
    var s' := Apply(s, Advance(onHost));
    GrowKeepsSent(s, s');
    GrowKeepsAgreed(s, s', s.hostLog.held, s.host.frameCount);
    GrowKeepsAgreed(s, s', s.guestLog.held, s.guest.frameCount);
    if onHost {
      HostAdvanceKeeps(s, s');
      GrowKeepsGuest(s, s');
    } else {
      GuestAdvanceKeeps(s, s');
      GrowKeepsHost(s, s');
    }
  }

  lemma HostAdvanceKeeps(s: System, s': System)
    requires Lockstep(s) && Enabled(s, Advance(true)) && s' == Apply(s, Advance(true))
    ensures Counts(s') && Agreed(s', Slot(s.host.ring, s.host.frameCount + 1), s.host.frameCount + 1)
    ensures forall n: nat :: s'.host.frameCount <= n < s'.host.frameCount + BUFFER_SIZE ==> HostFrame(s', n)
  {
    hide Queued, Held, Blocked, Fired, GuestFrame, SentFrame;
    var f := s.host.frameCount;
    assert HostFrame(s, f) && HostFrame(s, f + 1);
    forall n: nat | f + 1 <= n < f + 1 + BUFFER_SIZE ensures HostFrame(s', n) {
      assert n < f + BUFFER_SIZE ==> HostFrame(s, n);
      HostSlotAfter(s, s', n);
    }
  }

  lemma HostSlotAfter(s: System, s': System, n: nat)
    requires Counts(s) && HostFrame(s, s.host.frameCount) && Enabled(s, Advance(true)) && s' == Apply(s, Advance(true))
    requires s.host.frameCount < n <= s.host.frameCount + BUFFER_SIZE
    requires n < s.host.frameCount + BUFFER_SIZE ==> HostFrame(s, n)
    ensures HostFrame(s', n)
  {
    hide Blocked, Fired;
    var f := s.host.frameCount;
    if n < f + BUFFER_SIZE {
      PutSlot(s.host.ring, f, Recycled(Slot(s.host.ring, f)), n);
    } else {
      SlotsRepeat(s'.host.ring, f);
    }
  }

  lemma GuestAdvanceKeeps(s: System, s': System)
    requires Lockstep(s) && Enabled(s, Advance(false)) && s' == Apply(s, Advance(false))
    ensures Counts(s') && Agreed(s', Slot(s.guest.ring, s.guest.frameCount + 1), s.guest.frameCount + 1)
    ensures forall n: nat :: s'.guest.frameCount <= n < s'.guest.frameCount + BUFFER_SIZE ==> GuestFrame(s', n)
  {
    hide Queued, Held, Blocked, Fired, HostFrame, SentFrame;
    var f := s.guest.frameCount;
    assert GuestFrame(s, f) && GuestFrame(s, f + 1);
    forall n: nat | f + 1 <= n < f + 1 + BUFFER_SIZE ensures GuestFrame(s', n) {
      assert n < f + BUFFER_SIZE ==> GuestFrame(s, n);
      GuestSlotAfter(s, s', n);
    }
  }

  lemma GuestSlotAfter(s: System, s': System, n: nat)
    requires Counts(s) && GuestFrame(s, s.guest.frameCount) && Enabled(s, Advance(false))
             && s' == Apply(s, Advance(false))
    requires s.guest.frameCount < n <= s.guest.frameCount + BUFFER_SIZE
    requires n < s.guest.frameCount + BUFFER_SIZE ==> GuestFrame(s, n)
    ensures GuestFrame(s', n)
  {
    hide Blocked, Fired;
    var f := s.guest.frameCount;
    if n < f + BUFFER_SIZE {
      PutSlot(s.guest.ring, f, Recycled(Slot(s.guest.ring, f)), n);
    } else {
      SlotsRepeat(s'.guest.ring, f);
    }
  }

  /** Steps of the disc reads touch no frame. */
  lemma DiscKeeps(s: System, step: Step)
    requires Lockstep(s) && Enabled(s, step) && (step.Issue? || step.HostRegister? || step.Complete?)
    ensures Lockstep(Apply(s, step))
  {
    var s' := Apply(s, step);
    GrowKeepsHost(s, s');
    GrowKeepsGuest(s, s');
    GrowKeepsSent(s, s');
    GrowKeepsHeld(s, s');
    assert Pipeline(s') == Pipeline(s);
  }

  lemma StepKeeps(s: System, step: Step)
    requires Lockstep(s) && Enabled(s, step) && !Early(s, step)
    ensures Lockstep(Apply(s, step))
  {
    match step {
      case HostRead(pad) => HostReadKeeps(s, pad);
      case GuestRead(pad) => GuestReadKeeps(s, pad);
      case GuestQueueInput => MoveKeeps(s, step);
      case GuestQueueRead(sector) => QueueReadKeeps(s, sector);
      case Transmit => MoveKeeps(s, step);
      case HostTake => HostTakeKeeps(s);
      case HostSend(game) => HostSendKeeps(s, game);
      case GuestTake => GuestTakeKeeps(s);
      case Advance(onHost) => AdvanceKeeps(s, onHost);
      case Issue(_, _) => DiscKeeps(s, step);
      case HostRegister(_) => DiscKeeps(s, step);
      case Complete(_, _) => DiscKeeps(s, step);
    }
  }

  /** In every run in which no frame 5 comes early, after any number of steps. */
  lemma {:induction false} RunLockstep(states: seq<System>, steps: seq<Step>, i: nat)
    requires Timely(states, steps) && i <= |steps|
    ensures Lockstep(states[i])
  {
    if i == 0 {
      StartLockstep();
    } else {
      RunLockstep(states, steps, i - 1);
      StepKeeps(states[i - 1], steps[i - 1]);
    }
  }

  // ----- frame 5 coming early -----

  /** The slot of frame 0 is for a later frame than the guest will ask for. */
  predicate Stuck(c: Console) {
    && c.frameCount < BUFFER_SIZE
    && Slot(c.ring, 0).frameNumber == if c.frameCount == 0 then BUFFER_SIZE else BUFFER_SIZE + BUFFER_SIZE
  }

  /** The guest is stuck before its first reading, so the host hears of none. */
  ghost predicate CutOff(s: System) {
    && Stuck(s.guest) && s.guest.nextInput == BUFFER_SIZE
    && (forall i :: 0 <= i < |s.toHost| ==> s.toHost[i].DiscRead?)
    && (forall i :: 0 <= i < |s.guest.sendBuffer| ==> s.guest.sendBuffer[i].DiscRead?)
    && s.guest.waitingInput == []
    && s.host.frameCount <= BUFFER_SIZE
    && (forall i :: 0 <= i < BUFFER_SIZE && s.host.ring[i].frameNumber > BUFFER_SIZE ==> !s.host.ring[i].haveInput[1])
  }

  lemma {:induction false} NoInputs(q: seq<SendPacket>)
    requires Inputs(q) == []
    ensures forall i :: 0 <= i < |q| ==> q[i].DiscRead?
  {
    if q != [] {
      NoInputs(q[1..]);
      assert forall i :: 0 < i < |q| ==> q[i] == q[1..][i - 1];
    }
  }

  lemma NoInputsInParts(a: seq<SendPacket>, b: seq<SendPacket>, c: seq<SendPacket>)
    requires Inputs(a + b + c) == []
    ensures forall i :: 0 <= i < |a| ==> a[i].DiscRead?
    ensures forall i :: 0 <= i < |b| ==> b[i].DiscRead?
    ensures forall i :: 0 <= i < |c| ==> c[i].DiscRead?
  {
    var q := a + b + c;
    NoInputs(q);
    assert forall i :: 0 <= i < |a| ==> q[i] == a[i];
    assert forall i :: 0 <= i < |b| ==> q[|a| + i] == b[i];
    assert forall i :: 0 <= i < |c| ==> q[|a| + |b| + i] == c[i];
  }

  /** The frame from `f` to `f + 4` whose slot is the `i`-th. */
  function FrameAt(f: nat, i: nat): (n: nat)
    requires i < BUFFER_SIZE
    ensures f <= n < f + BUFFER_SIZE && n % BUFFER_SIZE == i
  {
    f + (i + BUFFER_SIZE - f % BUFFER_SIZE) % BUFFER_SIZE
  }

  lemma EarlyFrameSticks(s: System)
    requires Lockstep(s) && Enabled(s, GuestTake) && Early(s, GuestTake)
    ensures Stuck(Apply(s, GuestTake).guest)
  {
    assert s.toGuest[0] == s.sent[s.guest.position] && SentFrame(s, s.guest.position);
  }

  lemma EarlyFrameCutsOff(s: System)
    requires Lockstep(s) && Enabled(s, GuestTake) && Early(s, GuestTake)
    ensures CutOff(Apply(s, GuestTake))
  {
    hide Merged;
    EarlyFrameSticks(s);
    NoInputsInParts(s.toHost, s.guest.sendBuffer, s.guest.waitingInput);
    forall i: nat | i < BUFFER_SIZE && s.host.ring[i].frameNumber > BUFFER_SIZE ensures !s.host.ring[i].haveInput[1] {
      var n := FrameAt(s.host.frameCount, i);
      assert HostFrame(s, n) && Slot(s.host.ring, n) == s.host.ring[i];
    }
  }

  lemma StuckStays(s: System, step: Step)
    requires Stuck(s.guest) && Enabled(s, step)
    ensures Stuck(Apply(s, step).guest)
  {
    var c := s.guest;
    SlotsRepeat(c.ring, 0);
  }

  lemma CutOffStays(s: System, step: Step)
    requires CutOff(s) && Enabled(s, step)
    ensures CutOff(Apply(s, step))
  {
    hide Stuck, Blocked, Registered, EntryFor, Allocated, Announced, Merged;
    StuckStays(s, step);
    if step.GuestRead? { StuckReadsNothing(s.guest); }
  }

  lemma StuckReadsNothing(c: Console)
    requires Stuck(c) && c.nextInput == BUFFER_SIZE
    ensures !(CanRead(c) && CanDeliver(c, c.nextInput))
  {
    SlotsRepeat(c.ring, 0);
  }

  /** The first early step up to `i`, if there is one. */
  lemma {:induction false} FirstEarly(states: seq<System>, steps: seq<Step>, i: nat) returns (k: nat)
    requires Run(states, steps) && i < |steps| && Early(states[i], steps[i])
    ensures k <= i && Early(states[k], steps[k]) && Timely(states[..k + 1], steps[..k])
  {
    hide Early, Enabled, Apply;
    if m: nat :| m < i && Early(states[m], steps[m]) {
      k := FirstEarly(states, steps, m);
    } else {
      k := i;
    }
  }

  /** Once a guest has taken frame 5 while it was at frame 0, in whatever run, it never gets past frame 4, and the host
      never past frame 5. */
  lemma {:induction false} EarlyFrameStops(states: seq<System>, steps: seq<Step>, i: nat, j: nat)
    requires Run(states, steps) && i < j <= |steps| && Early(states[i], steps[i])
    ensures CutOff(states[j])
    ensures states[j].guest.frameCount < BUFFER_SIZE && states[j].host.frameCount <= BUFFER_SIZE
    decreases j
  {
    if j == i + 1 {
      var k := FirstEarly(states, steps, i);
      RunLockstep(states[..k + 1], steps[..k], k);
      EarlyFrameCutsOff(states[k]);
      if k < i {
        EarlyFrameStops(states, steps, k, i);
        CutOffStays(states[i], steps[i]);
      }
    } else {
      EarlyFrameStops(states, steps, i, j - 1);
      CutOffStays(states[j - 1], steps[j - 1]);
    }
  }

  // ----- frames 0 to 4 of any run -----

  /** A frame before frame 5 that the host has sent, as every console holds it. */
  predicate AsSent(sent: seq<CtrlPacket>, p: CtrlPacket, n: nat) {
    n < |sent| && SameHead(p, sent[n]) && p.pads == sent[n].pads
  }

  /** A slot that is still for a frame before 5 is for its own, and holds it once it was sent or received, as the one
      of the current frame `f` does. */
  ghost predicate FirstSlots(sent: seq<CtrlPacket>, ring: Ring, f: nat) {
    && (forall i: nat :: i < BUFFER_SIZE ==>
          && ring[i].frameNumber % BUFFER_SIZE == i
          && (ring[i].frameNumber == i && ring[i].haveSentOrRecv ==> AsSent(sent, ring[i], i)))
    && (0 < f < BUFFER_SIZE ==> ring[f].frameNumber == f && ring[f].haveSentOrRecv)
  }

  /** What any run keeps of the frames before 5, whether or not frame 5 comes early. */
  ghost predicate FirstFrames(s: System) {
    && s.host.position == |s.sent| && s.guest.position <= |s.sent| && s.toGuest == s.sent[s.guest.position..]
    && BUFFER_SIZE <= s.host.nextInput && BUFFER_SIZE <= s.guest.nextInput
    && (forall n :: 0 <= n < |s.sent| ==>
          && s.sent[n].frameNumber == n
          && (n < BUFFER_SIZE ==> s.sent[n].haveInput == [true, true, true, true] && Absent(s.sent[n].pads, n)))
    && LaterReadings(Pipeline(s))
    && FirstHeld(s.sent, s.host, s.hostLog) && FirstHeld(s.sent, s.guest, s.guestLog)
    && s.hostLog.held[0] == s.guestLog.held[0]
  }

  predicate LaterReadings(q: seq<SendPacket>) { forall i :: 0 <= i < |q| && q[i].Input? ==> BUFFER_SIZE <= q[i].frame }

  ghost predicate FirstHeld(sent: seq<CtrlPacket>, c: Console, l: Log) {
    && FirstSlots(sent, c.ring, c.frameCount) && |l.held| == c.frameCount + 1
    && forall n :: 0 < n <= c.frameCount && n < BUFFER_SIZE ==> AsSent(sent, l.held[n], n)
  }

  lemma StartFirstFrames()
    ensures FirstFrames(Start())
  {
  }

  lemma FirstSlotsPut(sent: seq<CtrlPacket>, sent': seq<CtrlPacket>, ring: Ring, f: nat, n: nat, p: CtrlPacket)
    requires FirstSlots(sent, ring, f) && sent <= sent'
    requires p.frameNumber % BUFFER_SIZE == n % BUFFER_SIZE
    requires 0 < f < BUFFER_SIZE && f == n % BUFFER_SIZE ==> p.frameNumber == f && p.haveSentOrRecv
    requires p.frameNumber < BUFFER_SIZE && p.haveSentOrRecv ==> AsSent(sent', p, p.frameNumber)
    ensures FirstSlots(sent', Put(ring, n, p), f)
  {
    hide SameHead;
  }

  lemma FirstSlotsSame(sent: seq<CtrlPacket>, sent': seq<CtrlPacket>, ring: Ring, f: nat)
    requires FirstSlots(sent, ring, f) && sent <= sent'
    ensures FirstSlots(sent', ring, f)
  {
    hide SameHead;
  }

  /** Readings are for later frames. */
  lemma FirstFramesRead(s: System, step: Step)
    requires FirstFrames(s) && Enabled(s, step) && (step.HostRead? || step.GuestRead?)
    ensures FirstFrames(Apply(s, step))
  {
    hide FirstSlots, AsSent, Put;
    var s', onHost := Apply(s, step), step.HostRead?;
    var c := Me(s, onHost);
    FirstSlotsSame(s.sent, s'.sent, Me(s, !onHost).ring, Me(s, !onHost).frameCount);
    NumberOfSlot(s.sent, c.ring, c.frameCount, c.nextInput);
    FirstSlotsPut(s.sent, s'.sent, c.ring, c.frameCount, c.nextInput,
      WithInput(Slot(c.ring, c.nextInput), if onHost then HOSTS_WIIMOTE else CLIENTS_WIIMOTE, step.pad));
    var q, q' := Pipeline(s), Pipeline(s');
    if onHost {
      assert q' == q;
    } else {
      assert q' == q + s'.guest.waitingInput;
      assert forall i :: 0 <= i < |q| ==> q'[i] == q[i];
      assert forall i :: |q| <= i < |q'| ==> q'[i] == s'.guest.waitingInput[i - |q|];
    }
  }

  lemma LaterReadingsJoin(a: seq<SendPacket>, b: seq<SendPacket>)
    ensures LaterReadings(a + b) <==> LaterReadings(a) && LaterReadings(b)
  {
    assert forall i :: 0 <= i < |a| ==> (a + b)[i] == a[i];
    assert forall i :: 0 <= i < |b| ==> (a + b)[|a| + i] == b[i];
  }

  lemma FirstFramesTake(s: System)
    requires FirstFrames(s) && Enabled(s, HostTake)
    ensures FirstFrames(Apply(s, HostTake))
  {
    hide FirstSlots, AsSent, Put, Registered, EntryFor, LaterReadings;
    var s', x := Apply(s, HostTake), s.toHost[0];
    assert Pipeline(s) == [x] + Pipeline(s');
    LaterReadingsJoin([x], Pipeline(s'));
    FirstIsLater(x);
    FirstSlotsSame(s.sent, s'.sent, s.guest.ring, s.guest.frameCount);
    if x.Input? {
      NumberOfSlot(s.sent, s.host.ring, s.host.frameCount, x.frame);
      FirstSlotsPut(s.sent, s'.sent, s.host.ring, s.host.frameCount, x.frame,
          WithInput(Slot(s.host.ring, x.frame), x.wiimote, x.pad));
    } else {
      FirstSlotsSame(s.sent, s'.sent, s.host.ring, s.host.frameCount);
    }
  }

  lemma FirstFramesSend(s: System, game: int)
    requires FirstFrames(s) && Enabled(s, HostSend(game))
    ensures FirstFrames(Apply(s, HostSend(game)))
  {
    hide FirstSlots, Put, Announced, ReadySector;
    var s', p := Apply(s, HostSend(game)), PacketToSend(s.host, game);
    FirstSlotsSame(s.sent, s'.sent, s.guest.ring, s.guest.frameCount);
    NumberOfSlot(s.sent, s.host.ring, s.host.frameCount, s.host.position);
    FirstSlotsPut(s.sent, s'.sent, s.host.ring, s.host.frameCount, s.host.position, p.(haveSentOrRecv := true));
    assert s'.toGuest == s'.sent[s.guest.position..];
    assert p.frameNumber < BUFFER_SIZE ==> p.haveInput == [true, true, true, true] && Absent(p.pads, p.frameNumber);
    assert Pipeline(s') == Pipeline(s);
  }

  lemma FirstFramesReceive(s: System)
    requires FirstFrames(s) && Enabled(s, GuestTake)
    ensures FirstFrames(Apply(s, GuestTake))
  {
    hide FirstSlots, Put, LaterReadings, Disconnected;
    var s', m, p := Apply(s, GuestTake), s.guest.position, s.toGuest[0];
    assert p == s.sent[m];
    FirstSlotsSame(s.sent, s'.sent, s.host.ring, s.host.frameCount);
    var q := Merged(p, Slot(s.guest.ring, m));
    assert m < BUFFER_SIZE ==> q.pads == p.pads;
    NumberOfSlot(s.sent, s.guest.ring, s.guest.frameCount, m);
    FirstSlotsPut(s.sent, s'.sent, s.guest.ring, s.guest.frameCount, m, q);
    assert Pipeline(s') == Pipeline(s);
  }

  lemma FirstFramesAdvance(s: System, onHost: bool)
    requires FirstFrames(s) && Enabled(s, Advance(onHost))
    ensures FirstFrames(Apply(s, Advance(onHost)))
  {
    hide Blocked, Fired, FirstHeld, Put, HasInputs, LaterReadings;
    var s' := Apply(s, Advance(onHost));
    FirstHeldAdvanced(s.sent, Me(s, onHost), LogOf(s, onHost));
    HeldFirst(s.sent, s.host, s.hostLog);
    HeldFirst(s.sent, s.guest, s.guestLog);
    assert Pipeline(s') == Pipeline(s);
  }

  lemma HeldFirst(sent: seq<CtrlPacket>, c: Console, l: Log)
    requires FirstHeld(sent, c, l)
    ensures |l.held| > 0
  {
  }

  lemma AdvancedParts(c: Console, l: Log)
    requires CanAdvance(c)
    ensures var n, p := c.frameCount + 1, Slot(c.ring, c.frameCount);
            && Slot(c.ring, n).frameNumber == n && Slot(c.ring, n).haveSentOrRecv
            && Advanced(c).frameCount == n && Advanced(c).ring == Put(c.ring, n - 1, Recycled(p))
            && AdvancedLog(c, l).held == l.held + [Slot(c.ring, n)]
            && Recycled(p).frameNumber >= BUFFER_SIZE
            && Recycled(p).frameNumber % BUFFER_SIZE == p.frameNumber % BUFFER_SIZE
  {
    hide Blocked, Fired, Put, Slot, HasInputs;
  }

  lemma FirstHeldAdvanced(sent: seq<CtrlPacket>, c: Console, l: Log)
    requires FirstHeld(sent, c, l) && CanAdvance(c)
    ensures FirstHeld(sent, Advanced(c), AdvancedLog(c, l))
  {
    hide Blocked, Fired, FirstSlots, Put, Slot, HasInputs, AsSent, CanAdvance, Advanced, AdvancedLog, Recycled;
    var n := c.frameCount + 1;
    AdvancedParts(c, l);
    NumberOfSlot(sent, c.ring, n - 1, n - 1);
    NumberOfSlot(sent, c.ring, n - 1, n);
    FirstSlotsNext(sent, c.ring, n);
    FirstSlotsPut(sent, sent, c.ring, n, n - 1, Recycled(Slot(c.ring, n - 1)));
    HoldsMore(sent, l.held, Slot(c.ring, n), n);
  }

  lemma HoldsMore(sent: seq<CtrlPacket>, held: seq<CtrlPacket>, p: CtrlPacket, f: nat)
    requires |held| == f && forall n :: 0 < n < f && n < BUFFER_SIZE ==> AsSent(sent, held[n], n)
    requires 0 < f && (f < BUFFER_SIZE ==> AsSent(sent, p, f))
    ensures forall n :: 0 < n <= f && n < BUFFER_SIZE ==> AsSent(sent, (held + [p])[n], n)
  {
    hide AsSent;
  }

  lemma FirstSlotsNext(sent: seq<CtrlPacket>, ring: Ring, n: nat)
    requires n > 0 && FirstSlots(sent, ring, n - 1) && Slot(ring, n).frameNumber == n && Slot(ring, n).haveSentOrRecv
    ensures FirstSlots(sent, ring, n)
  {
  }

  lemma NumberOfSlot(sent: seq<CtrlPacket>, ring: Ring, f: nat, n: nat)
    requires FirstSlots(sent, ring, f)
    ensures 0 < f < BUFFER_SIZE && f == n % BUFFER_SIZE ==>
              Slot(ring, n).frameNumber == f && Slot(ring, n).haveSentOrRecv
    ensures Slot(ring, n).frameNumber % BUFFER_SIZE == n % BUFFER_SIZE
    ensures n < BUFFER_SIZE && Slot(ring, n).frameNumber == n && Slot(ring, n).haveSentOrRecv ==>
              AsSent(sent, Slot(ring, n), n)
  {
  }

  lemma FirstIsLater(x: SendPacket)
    ensures LaterReadings([x]) <==> (x.Input? ==> BUFFER_SIZE <= x.frame)
  {
    assert [x][0] == x;
  }

  lemma SamePipeline(s: System, step: Step)
    requires Enabled(s, step) && (step.GuestQueueInput? || step.Transmit?)
    ensures Pipeline(Apply(s, step)) == Pipeline(s)
  {
    var b, w := s.guest.sendBuffer, s.guest.waitingInput;
    if step.Transmit? {
      assert b == [b[0]] + b[1..];
    } else {
      assert w == [w[0]] + w[1..];
    }
  }

  lemma FirstFramesMove(s: System, step: Step)
    requires FirstFrames(s) && Enabled(s, step) && (step.GuestQueueInput? || step.GuestQueueRead? || step.Transmit?)
    ensures FirstFrames(Apply(s, step))
  {
    hide FirstSlots, AsSent, LaterReadings;
    var s' := Apply(s, step);
    FirstSlotsSame(s.sent, s'.sent, s.host.ring, s.host.frameCount);
    FirstSlotsSame(s.sent, s'.sent, s.guest.ring, s.guest.frameCount);
    var q, w := s.toHost + s.guest.sendBuffer, s.guest.waitingInput;
    if step.GuestQueueRead? {
      var x := DiscRead(1, step.sector);
      assert Pipeline(s) == q + w && Pipeline(s') == q + [x] + w;
      LaterReadingsJoin(q, w);
      LaterReadingsJoin(q, [x]);
      LaterReadingsJoin(q + [x], w);
      FirstIsLater(x);
    } else {
      SamePipeline(s, step);
    }
  }

  lemma FirstFramesDisc(s: System, step: Step)
    requires FirstFrames(s) && Enabled(s, step) && (step.Issue? || step.HostRegister? || step.Complete?)
    ensures FirstFrames(Apply(s, step))
  {
    hide FirstSlots, AsSent, Registered, Allocated, EntryFor, Completed;
    var s' := Apply(s, step);
    FirstSlotsSame(s.sent, s'.sent, s.host.ring, s.host.frameCount);
    FirstSlotsSame(s.sent, s'.sent, s.guest.ring, s.guest.frameCount);
    assert Pipeline(s') == Pipeline(s);
  }

  lemma {:induction false} RunFirstFrames(states: seq<System>, steps: seq<Step>, i: nat)
    requires Run(states, steps) && i <= |steps|
    ensures FirstFrames(states[i])
  {
    hide FirstFrames, Enabled, Apply;
    if i == 0 {
      StartFirstFrames();
    } else {
      RunFirstFrames(states, steps, i - 1);
      var s, step := states[i - 1], steps[i - 1];
      match step {
        case HostRead(_) => FirstFramesRead(s, step);
        case GuestRead(_) => FirstFramesRead(s, step);
        case HostTake => FirstFramesTake(s);
        case HostSend(game) => FirstFramesSend(s, game);
        case GuestTake => FirstFramesReceive(s);
        case Advance(onHost) => FirstFramesAdvance(s, onHost);
        case Issue(_, _) => FirstFramesDisc(s, step);
        case HostRegister(_) => FirstFramesDisc(s, step);
        case Complete(_, _) => FirstFramesDisc(s, step);
        case _ => FirstFramesMove(s, step);
      }
    }
  }

  // ----- what it means -----

  lemma AgreedSame(s: System, p: CtrlPacket, q: CtrlPacket, n: nat)
    requires n != BUFFER_SIZE && Agreed(s, p, n) && Agreed(s, q, n)
    ensures ViewOf(p) == ViewOf(q)
  {
    assert p.pads == [p.pads[0], p.pads[1], p.pads[2], p.pads[3]];
    assert q.pads == [q.pads[0], q.pads[1], q.pads[2], q.pads[3]];
  }

  lemma AgreedAbsent(s: System, p: CtrlPacket, n: nat)
    requires Lockstep(s) && Agreed(s, p, n)
    ensures Absent(p.pads, n)
  {
    assert SentFrame(s, n);
  }

  lemma CurrentAgreed(s: System, onHost: bool)
    requires Lockstep(s) && Me(s, onHost).frameCount > 0
    ensures Agreed(s, Slot(Me(s, onHost).ring, Me(s, onHost).frameCount), Me(s, onHost).frameCount)
  {
    var n := Me(s, onHost).frameCount;
    if onHost { assert HostFrame(s, n); } else { assert GuestFrame(s, n) && SentFrame(s, n); }
  }

  lemma AsSentSame(sent: seq<CtrlPacket>, p: CtrlPacket, q: CtrlPacket, n: nat)
    requires AsSent(sent, p, n) && AsSent(sent, q, n)
    ensures ViewOf(p) == ViewOf(q) && SameHead(p, q)
  {
  }

  lemma AsSentAbsent(sent: seq<CtrlPacket>, p: CtrlPacket, n: nat)
    requires AsSent(sent, p, n)
    ensures n < |sent| && (Absent(sent[n].pads, n) ==> Absent(p.pads, n))
  {
  }

  /** Every state of a run is one of a run so far without an early frame, or one after such a frame. */
  lemma RunLocksOrCuts(states: seq<System>, steps: seq<Step>, i: nat)
    requires Run(states, steps) && i <= |steps|
    ensures Lockstep(states[i]) || CutOff(states[i])
  {
    hide Early, Lockstep, CutOff, Enabled, Apply;
    if k: nat :| k < i && Early(states[k], steps[k]) {
      EarlyFrameStops(states, steps, k, i);
    } else {
      assert Timely(states[..i + 1], steps[..i]);
      RunLockstep(states[..i + 1], steps[..i], i);
    }
  }

  /** What the consoles hold for a frame, and what their rings hold for it while they are there. */
  predicate SameFrame(s: System, n: nat) {
    && |s.hostLog.held| == s.host.frameCount + 1 && |s.guestLog.held| == s.guest.frameCount + 1
    && (n <= s.host.frameCount && n <= s.guest.frameCount && n != BUFFER_SIZE ==>
          ViewOf(s.hostLog.held[n]) == ViewOf(s.guestLog.held[n]))
    && (n <= s.host.frameCount && n <= s.guest.frameCount ==> SameHead(s.hostLog.held[n], s.guestLog.held[n]))
    && (0 < n <= s.host.frameCount && n != BUFFER_SIZE ==> Absent(s.hostLog.held[n].pads, n))
    && (0 < n <= s.guest.frameCount && n != BUFFER_SIZE ==> Absent(s.guestLog.held[n].pads, n))
    && (0 < n == s.host.frameCount && n != BUFFER_SIZE ==> ViewOf(Slot(s.host.ring, n)) == ViewOf(s.hostLog.held[n]))
    && (0 < n == s.guest.frameCount && n != BUFFER_SIZE ==> ViewOf(Slot(s.guest.ring, n)) == ViewOf(s.guestLog.held[n]))
  }

  lemma SameInLockstep(s: System, n: nat)
    requires Lockstep(s)
    ensures SameFrame(s, n)
  {
    if 0 < n <= s.host.frameCount && n <= s.guest.frameCount && n != BUFFER_SIZE {
      AgreedSame(s, s.hostLog.held[n], s.guestLog.held[n], n);
    }
    if 0 < n <= s.host.frameCount { AgreedAbsent(s, s.hostLog.held[n], n); }
    if 0 < n <= s.guest.frameCount { AgreedAbsent(s, s.guestLog.held[n], n); }
    if 0 < n == s.host.frameCount && n != BUFFER_SIZE {
      CurrentAgreed(s, true);
      AgreedSame(s, Slot(s.host.ring, n), s.hostLog.held[n], n);
    }
    if 0 < n == s.guest.frameCount && n != BUFFER_SIZE {
      CurrentAgreed(s, false);
      AgreedSame(s, Slot(s.guest.ring, n), s.guestLog.held[n], n);
    }
  }

  lemma SameAfterEarly(s: System, n: nat)
    requires FirstFrames(s) && CutOff(s)
    ensures SameFrame(s, n)
  {
    hide SameHead, AsSent, ViewOf, Stuck, Absent;
    if 0 < n < BUFFER_SIZE && n <= s.host.frameCount { AsSentAbsent(s.sent, s.hostLog.held[n], n); }
    if 0 < n < BUFFER_SIZE && n <= s.guest.frameCount { AsSentAbsent(s.sent, s.guestLog.held[n], n); }
    if 0 < n < BUFFER_SIZE && n <= s.host.frameCount && n <= s.guest.frameCount {
      AsSentSame(s.sent, s.hostLog.held[n], s.guestLog.held[n], n);
    }
    if n == 0 { SameHeadItself(s.hostLog.held[0]); }
    if 0 < n < BUFFER_SIZE && n == s.host.frameCount { AsSentSame(s.sent, Slot(s.host.ring, n), s.hostLog.held[n], n); }
    if 0 < n < BUFFER_SIZE && n == s.guest.frameCount {
      AsSentSame(s.sent, Slot(s.guest.ring, n), s.guestLog.held[n], n);
    }
    StuckEarly(s.guest);
  }

  lemma SameHeadItself(p: CtrlPacket)
    ensures SameHead(p, p)
  {
  }

  lemma StuckEarly(c: Console)
    requires Stuck(c)
    ensures c.frameCount < BUFFER_SIZE
  {
  }

  /** Agreement: in every run, whatever the interleaving, both consoles hold the same controller data, seed,
      callback and game state for every frame but frame 5 that both have reached; of frame 5 they hold
      the same but for the first two controllers. In every other frame after frame 0 the third and fourth
      controllers are disconnected, and before frame 5 all are. What the ring holds for the current frame is what it
      held when the frame was reached. */
  lemma SameFrames(states: seq<System>, steps: seq<Step>, i: nat, n: nat)
    requires Run(states, steps) && i <= |steps|
    ensures var s := states[i];
            && |s.hostLog.held| == s.host.frameCount + 1 && |s.guestLog.held| == s.guest.frameCount + 1
            && (n <= s.host.frameCount && n <= s.guest.frameCount && n != BUFFER_SIZE ==>
                  ViewOf(s.hostLog.held[n]) == ViewOf(s.guestLog.held[n]))
            && (n <= s.host.frameCount && n <= s.guest.frameCount ==> SameHead(s.hostLog.held[n], s.guestLog.held[n]))
            && (forall onHost :: n != 5 && 0 < n <= Me(s, onHost).frameCount ==>
                  var pads := LogOf(s, onHost).held[n].pads;
                  && pads[2].status == -1 && pads[3].status == -1
                  && (n < 5 ==> pads[0].status == -1 && pads[1].status == -1))
            && (0 < n == s.host.frameCount && n != BUFFER_SIZE ==>
                  ViewOf(Slot(s.host.ring, n)) == ViewOf(s.hostLog.held[n]))
            && (0 < n == s.guest.frameCount && n != BUFFER_SIZE ==>
                  ViewOf(Slot(s.guest.ring, n)) == ViewOf(s.guestLog.held[n]))
  {
    hide Lockstep, CutOff, Enabled, Apply, FirstFrames, SameHead, ViewOf;
    RunLocksOrCuts(states, steps, i);
    if Lockstep(states[i]) {
      SameInLockstep(states[i], n);
    } else {
      RunFirstFrames(states, steps, i);
      SameAfterEarly(states[i], n);
    }
  }

  /** The data they agree on is the reading that each console's own controller thread took. */
  lemma FramesAreReadings(states: seq<System>, steps: seq<Step>, i: nat, n: nat)
    requires Run(states, steps) && i <= |steps|
    requires BUFFER_SIZE < n <= states[i].host.frameCount
    ensures var s := states[i];
            && n < |s.hostLog.held|
            && Reading(s.hostLog, n, s.hostLog.held[n].pads[HOSTS_WIIMOTE])
            && Reading(s.guestLog, n, s.hostLog.held[n].pads[CLIENTS_WIIMOTE])
  {
    RunLocksOrCuts(states, steps, i);
    assert Agreed(states[i], states[i].hostLog.held[n], n);
  }

  /** A console past frame 5 is at most three frames ahead, one before that at most five; and each ring holds exactly
      the frames from the current one to four later. */
  lemma BoundedSkew(states: seq<System>, steps: seq<Step>, i: nat)
    requires Timely(states, steps) && i <= |steps|
    ensures var s := states[i];
            && (s.host.frameCount > BUFFER_SIZE ==> s.guest.frameCount >= s.host.frameCount - 3)
            && (s.guest.frameCount > BUFFER_SIZE ==> s.host.frameCount >= s.guest.frameCount - 3)
            && s.host.frameCount <= s.guest.frameCount + BUFFER_SIZE
               && s.guest.frameCount <= s.host.frameCount + BUFFER_SIZE
            && (forall n: nat :: s.host.frameCount <= n < s.host.frameCount + BUFFER_SIZE ==>
                 Slot(s.host.ring, n).frameNumber == n)
            && (forall n: nat :: s.guest.frameCount <= n < s.guest.frameCount + BUFFER_SIZE ==>
                 Slot(s.guest.ring, n).frameNumber == n)
  {
    RunLockstep(states, steps, i);
    var s := states[i];
    forall n: nat | s.host.frameCount <= n < s.host.frameCount + BUFFER_SIZE
      ensures Slot(s.host.ring, n).frameNumber == n
    {
      assert HostFrame(s, n);
    }
    forall n: nat | s.guest.frameCount <= n < s.guest.frameCount + BUFFER_SIZE
      ensures Slot(s.guest.ring, n).frameNumber == n
    {
      assert GuestFrame(s, n);
    }
    if s.guest.frameCount > BUFFER_SIZE { assert SentFrame(s, s.guest.frameCount); }
  }


  // ----- seeds -----

  predicate SeedAfter(before: int, seed: int) {
    seed == (before * 1103515245 + 12345) % 0x1_0000_0000_0000_0000
  }

  /** The seed of the frame before frame `n`. */
  function SeedBefore(sent: seq<CtrlPacket>, n: nat): int
    requires n <= |sent|
  {
    if n == 0 then 0 else sent[n - 1].frameSeed
  }

  /** Each frame's seed follows from that of the frame before, in 64 bits, and the first one's from 0. */
  ghost predicate Seeded(sent: seq<CtrlPacket>, seed: int) {
    && seed == SeedBefore(sent, |sent|)
    && forall k :: 0 <= k < |sent| ==>
         SeedAfter(SeedBefore(sent, k), sent[k].frameSeed)
  }

  lemma SeedKeeps(s: System, step: Step)
    requires Seeded(s.sent, s.host.seed) && Enabled(s, step)
    ensures Seeded(Apply(s, step).sent, Apply(s, step).host.seed)
  {
    hide Enabled, Blocked, Fired, Registered, Announced, Disconnected, Merged, EntryFor;
    if step.HostSend? {
      SeedAppended(s.sent, s.host.seed, PacketToSend(s.host, step.game));
    } else {
      assert Apply(s, step).sent == s.sent && Apply(s, step).host.seed == s.host.seed;
    }
  }

  lemma NextSeedIs(seed: int)
    ensures SeedAfter(seed, NextSeed(seed))
  {
  }

  lemma SeedAppended(sent: seq<CtrlPacket>, seed: int, p: CtrlPacket)
    requires Seeded(sent, seed) && p.frameSeed == NextSeed(seed)
    ensures Seeded(sent + [p], NextSeed(seed))
  {
    hide SeedAfter, NextSeed;
    NextSeedIs(seed);
    assert forall k: nat :: k <= |sent| ==> SeedBefore(sent + [p], k) == SeedBefore(sent, k);
  }

  lemma SeedAt(sent: seq<CtrlPacket>, seed: int, n: nat)
    requires Seeded(sent, seed) && 0 < n < |sent|
    ensures SeedAfter(0, sent[0].frameSeed) && SeedAfter(sent[n - 1].frameSeed, sent[n].frameSeed)
  {
    hide SeedAfter;
    assert SeedBefore(sent, 0) == 0 && SeedBefore(sent, n) == sent[n - 1].frameSeed;
  }

  lemma {:induction false} RunSeeded(states: seq<System>, steps: seq<Step>, i: nat)
    requires Run(states, steps) && i <= |steps|
    ensures Seeded(states[i].sent, states[i].host.seed)
  {
    hide Seeded, Enabled, Apply;
    if i == 0 {
      NoneSeeded();
    } else {
      RunSeeded(states, steps, i - 1);
      SeedKeeps(states[i - 1], steps[i - 1]);
    }
  }

  lemma NoneSeeded()
    ensures Seeded(Start().sent, Start().host.seed)
  {
  }

  /** In every run the frames that a console has reached have the seeds that they were sent with. */
  lemma SeedsOfFrames(states: seq<System>, steps: seq<Step>, i: nat, n: nat, onHost: bool)
    requires Run(states, steps) && i <= |steps| && n != 5 && 0 < n <= Me(states[i], onHost).frameCount
    ensures var s := states[i];
            && n < |s.sent| && n < |LogOf(s, onHost).held|
            && LogOf(s, onHost).held[n].frameSeed == s.sent[n].frameSeed
            && SeedAfter(0, s.sent[0].frameSeed) && SeedAfter(s.sent[n - 1].frameSeed, s.sent[n].frameSeed)
  {
    hide Lockstep, CutOff, Enabled, Apply, FirstFrames;
    RunSeeded(states, steps, i);
    RunLocksOrCuts(states, steps, i);
    if Lockstep(states[i]) {
      SeedInLockstep(states[i], n, onHost);
    } else {
      RunFirstFrames(states, steps, i);
      SeedAfterEarly(states[i], n, onHost);
    }
    SeedAt(states[i].sent, states[i].host.seed, n);
  }

  lemma SeedInLockstep(s: System, n: nat, onHost: bool)
    requires Lockstep(s) && 0 < n <= Me(s, onHost).frameCount
    ensures n < |s.sent| && n < |LogOf(s, onHost).held| && LogOf(s, onHost).held[n].frameSeed == s.sent[n].frameSeed
  {
    assert Agreed(s, LogOf(s, onHost).held[n], n);
  }

  lemma SeedAfterEarly(s: System, n: nat, onHost: bool)
    requires FirstFrames(s) && CutOff(s) && n != 5 && 0 < n <= Me(s, onHost).frameCount
    ensures n < |s.sent| && n < |LogOf(s, onHost).held| && LogOf(s, onHost).held[n].frameSeed == s.sent[n].frameSeed
  {
    StuckEarly(s.guest);
    assert AsSent(s.sent, LogOf(s, onHost).held[n], n);
  }
}

/** The two consoles never wait for each other forever: in every state of a run some
    thread, interrupt, channel or disc read can go on, and only so many steps can be taken before a
    console moves to its next frame. */
module NetProgress {
  import opened NetConsole
  import opened NetSystem
  import opened NetFrames
  import opened NetDisc

  /** The host has room for the read that the next packet reports. */
  predicate HasRoom(s: System) {
    s.toHost != [] && s.toHost[0].DiscRead? ==> EntryFor(s.host.table, s.toHost[0].sector) < IOCTL_BUFFER_SIZE
  }

  predicate Progress(s: System, step: Step) { Enabled(s, step) && !Early(s, step) && !step.Issue? }

  /** The controller thread of a console that is waiting for its own input can read it. */
  lemma InputWanted(s: System, onHost: bool)
    requires Lockstep(s) && Me(s, onHost).nextInput <= Me(s, onHost).frameCount + 1
    ensures var c := Me(s, onHost); CanDeliver(c, c.nextInput) && (c.waitingInput == [] ==> CanRead(c))
  {
    var c := Me(s, onHost);
    if onHost { assert HostFrame(s, c.nextInput); } else { assert GuestFrame(s, c.nextInput); }
  }

  /** If the guest has a packet for the host, the packet can move. */
  lemma PacketMoves(s: System) returns (step: Step)
    requires Lockstep(s) && HasRoom(s) && Pipeline(s) != []
    requires s.taken <= s.host.frameCount + 1
    ensures Progress(s, step)
  {
    if s.toHost != [] {
      step := HostTake;
      if s.toHost[0].Input? {
        TakeHead(s);
        assert HostFrame(s, s.taken);
      }
    } else if s.guest.sendBuffer != [] {
      step := Transmit;
    } else {
      step := GuestQueueInput;
    }
  }

  lemma TakeHead(s: System)
    requires Lockstep(s) && s.toHost != [] && s.toHost[0].Input?
    ensures s.toHost[0].frame == s.taken && s.toHost[0].wiimote == CLIENTS_WIIMOTE
  {
    var x, rest := s.toHost[0], s.toHost[1..] + s.guest.sendBuffer + s.guest.waitingInput;
    assert Pipeline(s) == [x] + rest;
    assert Inputs(Pipeline(s))[0] == x;
  }

  /** The guest has read, or can read, the input for frame `n`. */
  lemma GuestInputComes(s: System, n: nat) returns (step: Step)
    requires Lockstep(s) && HasRoom(s) && s.guest.nextInput <= n <= s.guest.frameCount + 1
    ensures Progress(s, step)
  {
    if s.guest.waitingInput == [] {
      InputWanted(s, false);
      step := GuestRead(NO_PAD);
    } else if |s.guest.sendBuffer| < BUFFER_SIZE {
      step := GuestQueueInput;
    } else {
      step := Transmit;
    }
  }

  /** A callback that a frame waits for is one the disc will complete. */
  lemma ReadCompletes(s: System, onHost: bool, x: nat)
    requires Barrier(s) && Blocked(Me(s, onHost).table, x) && x in LogOf(s, onHost).issued
    ensures Enabled(s, Complete(onHost, x))
  {
    var c, l := Me(s, onHost), LogOf(s, onHost);
    var i := FindSector(c.table, x, 0);
    assert Pending(c.table, l) && c.table[i].state == Called && c.table[i].sector == x;
  }

  /** What the next frame announces was issued on both consoles. */
  lemma AnnouncedIsIssued(s: System, n: nat)
    requires Barrier(s) && 0 < n < |s.sent| && s.sent[n].callbackSector != 0
    ensures s.sent[n].callbackSector in s.hostLog.issued && s.sent[n].callbackSector in s.guestLog.issued
  {
    hide Pending, HostTable, GuestTable;
    AnnouncedAt(s.sent, n, |s.sent|);
  }

  lemma HostMoves(s: System) returns (step: Step)
    requires Lockstep(s) && Barrier(s) && HasRoom(s) && s.host.frameCount <= s.guest.frameCount
    ensures Progress(s, step)
  {
    hide Barrier, Queued, Held;
    var n, c := s.host.frameCount + 1, s.host;
    if c.position <= n {
      assert HostFrame(s, c.position);
      if c.position > BUFFER_SIZE && !Slot(c.ring, c.position).haveInput[0] {
        InputWanted(s, true);
        step := HostRead(NO_PAD);
      } else {
        step := HostSend(0);
      }
    } else {
      assert HostFrame(s, n) && SentFrame(s, n);
      if n > BUFFER_SIZE && s.taken <= n {
        if s.taken < s.guest.nextInput {
          QueueNotEmpty(s);
          step := PacketMoves(s);
        } else {
          step := GuestInputComes(s, n);
        }
      } else {
        step := LastHurdle(s, true);
      }
    }
  }

  lemma QueueNotEmpty(s: System)
    requires Lockstep(s) && s.taken < s.guest.nextInput
    ensures Pipeline(s) != []
  {
  }

  /** With everything else there, a frame waits at most for its callback's read. */
  lemma LastHurdle(s: System, onHost: bool) returns (step: Step)
    requires Lockstep(s) && Barrier(s)
    requires var c := Me(s, onHost);
             var next := Slot(c.ring, c.frameCount + 1);
             && c.frameCount + 1 < |s.sent| && next.frameNumber == c.frameCount + 1 && next.haveSentOrRecv
                && HasInputs(next)
             && next.callbackSector == s.sent[c.frameCount + 1].callbackSector
    ensures Progress(s, step)
  {
    hide Barrier, Lockstep;
    var c := Me(s, onHost);
    var x := Slot(c.ring, c.frameCount + 1).callbackSector;
    if Blocked(c.table, x) {
      AnnouncedIsIssued(s, c.frameCount + 1);
      ReadCompletes(s, onHost, x);
      step := Complete(onHost, x);
    } else {
      step := Advance(onHost);
    }
  }

  lemma GuestMoves(s: System) returns (step: Step)
    requires Lockstep(s) && Barrier(s) && HasRoom(s) && s.guest.frameCount < s.host.frameCount
    ensures Progress(s, step)
  {
    hide Barrier, Queued, Held;
    var n, c := s.guest.frameCount + 1, s.guest;
    if c.position <= n {
      assert GuestFrame(s, c.position) && SentFrame(s, c.position);
      assert s.toGuest[0] == s.sent[c.position];
      step := GuestTake;
    } else {
      assert GuestFrame(s, n) && SentFrame(s, n);
      step := LastHurdle(s, false);
    }
  }

  // ----- room in the host's table -----

  ghost function CalledBack(l: Log): set<nat> { set k | 0 <= k < |l.fired| :: l.fired[k].0 }

  /** The reads that a console has issued and the host has not called back. */
  ghost function Outstanding(s: System): set<nat> { s.hostLog.issued + s.guestLog.issued - CalledBack(s.hostLog) }

  ghost function Sectors(t: DiscTable, n: nat): set<nat>
    requires n <= IOCTL_BUFFER_SIZE
  {
    set i | 0 <= i < n :: t[i].sector
  }

  lemma {:induction false} SectorsCount(t: DiscTable, n: nat)
    requires n <= IOCTL_BUFFER_SIZE && forall i, j :: 0 <= i < j < n ==> t[i].sector != t[j].sector
    ensures |Sectors(t, n)| == n
  {
    if n > 0 {
      SectorsCount(t, n - 1);
      assert Sectors(t, n) == Sectors(t, n - 1) + {t[n - 1].sector};
    }
  }

  lemma CalledIsAnnounced(s: System)
    requires Barrier(s)
    ensures CalledBack(s.hostLog) <= AnnouncedIn(s.sent, s.host.frameCount + 1)
  {
    hide Pending, HostTable, GuestTable, Underway, AnnouncedOnce, AnnouncedIn;
    CallbacksInOrder(s.sent, s.host.frameCount, s.hostLog.fired);
    forall x | x in CalledBack(s.hostLog) ensures x in AnnouncedIn(s.sent, s.host.frameCount + 1) {
      var k :| 0 <= k < |s.hostLog.fired| && s.hostLog.fired[k].0 == x;
      AnnouncedAt(s.sent, s.hostLog.fired[k].1, s.host.frameCount + 1);
    }
  }

  lemma LiveIsOutstanding(s: System, i: nat)
    requires Barrier(s) && i < IOCTL_BUFFER_SIZE && Live(s.host.table[i])
    ensures s.host.table[i].sector in Outstanding(s)
  {
    hide Pending, GuestTable, AnnouncedOnce, AnnouncedIn, Callbacks;
    CalledIsAnnounced(s);
    assert Match(s.host.table[i], s.host.table[i].sector);
  }

  lemma PacketIsOutstanding(s: System)
    requires Barrier(s) && s.toHost != [] && s.toHost[0].DiscRead?
    ensures s.toHost[0].sector in Outstanding(s)
  {
    hide Pending, HostTable, GuestTable, AnnouncedOnce, AnnouncedIn, Callbacks;
    CalledIsAnnounced(s);
    var q := s.toHost + s.guest.sendBuffer;
    assert q[0] == s.toHost[0];
    NotFiredYet(s, s.toHost[0].sector);
  }

  /** With no more reads outstanding than the table has entries there is room for the next one. */
  lemma FewReadsFit(s: System)
    requires Barrier(s) && |Outstanding(s)| <= IOCTL_BUFFER_SIZE
    ensures HasRoom(s)
  {
    hide Pending, HostTable, GuestTable, Underway, AnnouncedOnce, AnnouncedIn, Callbacks, Outstanding;
    var t := s.host.table;
    if s.toHost != [] && s.toHost[0].DiscRead? && EntryFor(t, s.toHost[0].sector) == IOCTL_BUFFER_SIZE {
      var x, all := s.toHost[0].sector, Sectors(t, IOCTL_BUFFER_SIZE);
      FullTable(t, x);
      HostDistinct(s);
      SectorsCount(t, IOCTL_BUFFER_SIZE);
      forall i | 0 <= i < IOCTL_BUFFER_SIZE ensures t[i].sector in Outstanding(s) { LiveIsOutstanding(s, i); }
      PacketIsOutstanding(s);
      SubsetSmaller(all + {x}, Outstanding(s));
      assert false;
    }
  }

  lemma FullTable(t: DiscTable, x: nat)
    requires EntryFor(t, x) == IOCTL_BUFFER_SIZE
    ensures forall i :: 0 <= i < IOCTL_BUFFER_SIZE ==> Live(t[i]) && t[i].sector != x
  {
  }

  lemma SubsetSmaller(a: set<nat>, b: set<nat>)
    requires a <= b
    ensures |a| <= |b|
  {
    assert b == a + (b - a);
  }

  /** The reads that the host knows of and has not called back. */
  ghost function Known(s: System): set<nat> { s.hostLog.issued + s.guestLog.registered - CalledBack(s.hostLog) }

  ghost function LiveSectors(t: DiscTable, n: nat): set<nat>
    requires n <= IOCTL_BUFFER_SIZE
  {
    set i | 0 <= i < n && Live(t[i]) :: t[i].sector
  }

  lemma LiveMore(t: DiscTable, n: nat)
    requires n < IOCTL_BUFFER_SIZE && Distinct(t)
    ensures LiveSectors(t, n + 1) == LiveSectors(t, n) + if Live(t[n]) then {t[n].sector} else {}
    ensures Live(t[n]) ==> t[n].sector !in LiveSectors(t, n)
  {
  }

  lemma {:induction false} LiveCount(t: DiscTable, n: nat)
    requires n <= IOCTL_BUFFER_SIZE && Distinct(t)
    ensures |LiveSectors(t, n)| <= n && (|LiveSectors(t, n)| == n <==> forall i :: 0 <= i < n ==> Live(t[i]))
  {
    hide Distinct, Live;
    if n > 0 {
      LiveCount(t, n - 1);
      LiveMore(t, n - 1);
    }
  }

  lemma CalledIffAnnounced(s: System)
    requires Barrier(s) && Counts(s)
    ensures CalledBack(s.hostLog) == AnnouncedIn(s.sent, s.host.frameCount + 1)
  {
    hide Pending, HostTable, GuestTable, Underway, AnnouncedOnce;
    CalledIsAnnounced(s);
    forall x | x in AnnouncedIn(s.sent, s.host.frameCount + 1) ensures x in CalledBack(s.hostLog) {
      var n: nat :| 0 < n < s.host.frameCount + 1 && n < |s.sent| && s.sent[n].callbackSector == x != 0;
      CallbacksHave(s.sent, s.host.frameCount, n);
      var k :| 0 <= k < |s.hostLog.fired| && s.hostLog.fired[k] == (x, n);
      assert s.hostLog.fired[k].0 == x;
    }
  }

  lemma KnownIsLive(s: System)
    requires Barrier(s) && Counts(s)
    ensures LiveSectors(s.host.table, IOCTL_BUFFER_SIZE) == Known(s)
  {
    hide Pending, GuestTable, Underway, AnnouncedOnce, AnnouncedIn, Callbacks, CalledBack, Counts;
    CalledIffAnnounced(s);
    var t, all := s.host.table, LiveSectors(s.host.table, IOCTL_BUFFER_SIZE);
    forall x: nat ensures x in all <==> Has(t, x) {
      if Has(t, x) { var i :| 0 <= i < IOCTL_BUFFER_SIZE && Match(t[i], x); assert t[i].sector in all; }
    }
  }

  /** The next reported read finds room exactly if the host knows of at most as many reads, this one included, as its
      table has entries. */
  lemma RoomIffFewKnown(s: System)
    requires Barrier(s) && Counts(s) && s.toHost != [] && s.toHost[0].DiscRead?
    ensures HasRoom(s) <==> |Known(s) + {s.toHost[0].sector}| <= IOCTL_BUFFER_SIZE
  {
    hide Barrier, Counts, Known, EntryFor;
    var t, x := s.host.table, s.toHost[0].sector;
    KnownIsLive(s);
    DistinctHost(s);
    LiveCount(t, IOCTL_BUFFER_SIZE);
    if EntryFor(t, x) == IOCTL_BUFFER_SIZE {
      FullTable(t, x);
      assert x !in Known(s);
    } else {
      RoomFor(t, x);
      if x in Known(s) { assert Known(s) + {x} == Known(s); }
    }
  }

  lemma DistinctHost(s: System)
    requires Barrier(s)
    ensures Distinct(s.host.table)
  {
  }

  lemma RoomFor(t: DiscTable, x: nat)
    requires EntryFor(t, x) < IOCTL_BUFFER_SIZE
    ensures x in LiveSectors(t, IOCTL_BUFFER_SIZE) || !Live(t[EntryFor(t, x)])
  {
  }

  // ----- progress -----

  /** No deadlock: as long as no more reads are outstanding than the host's table has entries, some step other
      than a new disc read can happen, and it is not the early frame. */
  lemma NoDeadlock(states: seq<System>, steps: seq<Step>, i: nat)
    requires Timely(states, steps) && i <= |steps| && |Outstanding(states[i])| <= IOCTL_BUFFER_SIZE
    ensures exists step :: Progress(states[i], step)
  {
    RunBarrier(states, steps, i);
    RunLockstep(states, steps, i);
    FewReadsFit(states[i]);
    hide Barrier, Lockstep, Progress;
    var step;
    if states[i].host.frameCount <= states[i].guest.frameCount {
      step := HostMoves(states[i]);
    } else {
      step := GuestMoves(states[i]);
    }
  }

  /** How much the consoles can still do without a new frame or a new disc read: inputs to take and
      frames to send, each with the stations that its packet has to pass, and reads to report and complete. */
  function Work(s: System): int {
    (s.host.frameCount + BUFFER_SIZE - s.host.nextInput)
    + 4 * (s.guest.frameCount + BUFFER_SIZE - s.guest.nextInput)
    + 3 * |s.guest.waitingInput| + 3 * |s.guest.waitingReads| + 2 * |s.guest.sendBuffer| + |s.toHost|
    + 2 * (s.host.frameCount + BUFFER_SIZE - s.host.position) + |s.toGuest|
    + |s.host.waitingReads| + |s.hostLog.flight| + |s.guestLog.flight|
  }

  lemma WorkLeft(s: System)
    requires Lockstep(s)
    ensures Work(s) >= 0
  {
    hide Frames, Queued, Held;
  }

  lemma GuestStepIsWork(s: System, step: Step)
    requires Lockstep(s) && Enabled(s, step)
    requires step.GuestRead? || step.GuestQueueInput? || step.GuestQueueRead? || step.Transmit? || step.GuestTake?
    ensures Work(Apply(s, step)) == Work(s) - 1
  {
    hide Frames, Queued, Held, Registered, Allocated, EntryFor, Announced, Slot, Put, Disconnected, Merged, Completed;
    if step.GuestQueueInput? { assert |s.guest.waitingInput[1..]| == |s.guest.waitingInput| - 1; }
  }

  lemma HostStepIsWork(s: System, step: Step)
    requires Lockstep(s) && Enabled(s, step) && (step.HostRead? || step.HostTake? || step.HostSend?)
    ensures Work(Apply(s, step)) == Work(s) - 1
  {
    hide Frames, Queued, Held, Registered, Allocated, EntryFor, Announced, Slot, Put, Disconnected, Merged, Completed;
  }

  lemma ReadStepIsWork(s: System, step: Step)
    requires Enabled(s, step) && (step.Issue? || step.HostRegister? || step.Complete?)
    ensures if step.Issue? then Work(Apply(s, step)) <= Work(s) + 4 else Work(Apply(s, step)) == Work(s) - 1
  {
    hide Frames, Queued, Held, Registered, Allocated, EntryFor, Announced, Slot, Put, Disconnected, Merged, Completed;
    match step {
      case Complete(onHost, sector) => FlightLess(LogOf(s, onHost).flight, sector);
      case Issue(onHost, sector) => FlightMore(LogOf(s, onHost).flight, sector, EntryFor(Me(s, onHost).table, sector));
      case HostRegister(_) =>
    }
  }

  /** Every step is one piece of work less, but for a new frame and a new disc read. */
  lemma StepIsWork(s: System, step: Step)
    requires Lockstep(s) && Enabled(s, step)
    ensures !step.Advance? && !step.Issue? ==> Work(Apply(s, step)) == Work(s) - 1
    ensures step.Issue? ==> Work(Apply(s, step)) <= Work(s) + 4
  {
    hide Lockstep, Enabled, Apply, Work;
    match step {
      case HostRead(_) => HostStepIsWork(s, step);
      case HostTake => HostStepIsWork(s, step);
      case HostSend(_) => HostStepIsWork(s, step);
      case Issue(_, _) => ReadStepIsWork(s, step);
      case HostRegister(_) => ReadStepIsWork(s, step);
      case Complete(_, _) => ReadStepIsWork(s, step);
      case Advance(_) =>
      case _ => GuestStepIsWork(s, step);
    }
  }

  lemma FlightLess(m: map<nat, nat>, x: nat)
    requires x in m
    ensures |m - {x}| == |m| - 1
  {
    assert (m - {x}).Keys == m.Keys - {x};
    assert |(m - {x}).Keys| == |m - {x}| && |m.Keys| == |m|;
  }

  lemma FlightMore(m: map<nat, nat>, x: nat, i: nat)
    ensures |m[x := i]| <= |m| + 1
  {
    assert m[x := i].Keys == m.Keys + {x};
    assert |m[x := i].Keys| == |m[x := i]| && |m.Keys| == |m|;
  }

  /** How many disc reads are issued in the steps from `i` to `j`. */
  function Issues(steps: seq<Step>, i: nat, j: nat): nat
    requires i <= j <= |steps|
    decreases j
  {
    if i == j then 0 else Issues(steps, i, j - 1) + if steps[j - 1].Issue? then 1 else 0
  }

  /** Some console moves on: only so many steps can follow each other without a new frame, by the work left
      and the disc reads issued on the way. */
  lemma {:induction false} FrameComes(states: seq<System>, steps: seq<Step>, i: nat, j: nat)
    requires Timely(states, steps) && i <= j <= |steps|
    requires forall k :: i <= k < j ==> !steps[k].Advance?
    ensures j - i <= Work(states[i]) + 5 * Issues(steps, i, j) - Work(states[j])
    ensures j - i <= Work(states[i]) + 5 * Issues(steps, i, j)
    decreases j
  {
    hide Work, Lockstep, Apply, Enabled;
    RunLockstep(states, steps, j);
    WorkLeft(states[j]);
    if i < j {
      FrameComes(states, steps, i, j - 1);
      RunLockstep(states, steps, j - 1);
      StepIsWork(states[j - 1], steps[j - 1]);
    }
  }
}

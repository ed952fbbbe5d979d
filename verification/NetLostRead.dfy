/** Reads that are lost, and when none is: a frame names one read, so of several that are ready for one frame all but
    one are marked as announced without being named, and a read that frame 0 names is never called back. */
module NetLostRead {
  import opened NetConsole
  import opened NetSystem
  import opened NetFrames
  import opened NetDisc

  /** A frame that names read `x`, and that a console can move to. */
  predicate Names(p: CtrlPacket, x: nat) { p.callbackSector == x && p.frameNumber != 0 }

  predicate NeverNamed(ring: Ring, x: nat) {
    forall i :: 0 <= i < BUFFER_SIZE && ring[i].haveSentOrRecv ==> !Names(ring[i], x)
  }

  predicate NotFired(l: Log, x: nat) { forall k :: 0 <= k < |l.fired| ==> l.fired[k].0 != x }

  /** The table keeps an entry for `x`, and takes it for announced. */
  ghost predicate Marked(t: DiscTable, x: nat) {
    Has(t, x) && forall i :: 0 <= i < IOCTL_BUFFER_SIZE && t[i].sector == x ==> t[i].haveSent
  }

  /** The host takes read `x` for announced, but no frame that has been sent names it. */
  ghost predicate Lost(s: System, x: nat) {
    && x != 0 && Marked(s.host.table, x)
    && NeverNamed(s.host.ring, x) && NeverNamed(s.guest.ring, x)
    && (forall i :: 0 <= i < |s.toGuest| ==> !Names(s.toGuest[i], x))
    && NotFired(s.hostLog, x) && NotFired(s.guestLog, x)
  }

  // ----- what is lost stays lost -----

  lemma MarkedEntry(t: DiscTable, x: nat, i: nat, e: DiscEntry)
    requires Marked(t, x) && i < IOCTL_BUFFER_SIZE
    requires e.sector == x ==> e.haveSent
    requires Match(t[i], x) ==> Match(e, x)
    ensures Marked(t[i := e], x)
  {
    var t': DiscTable := t[i := e];
    var k :| 0 <= k < IOCTL_BUFFER_SIZE && Match(t[k], x);
    assert Match(t'[k], x);
  }

  lemma MarkedAllocated(t: DiscTable, x: nat, y: nat)
    requires Marked(t, x) && EntryFor(t, y) < IOCTL_BUFFER_SIZE
    ensures Marked(Allocated(t, y), x) && (y == x ==> Allocated(t, y) == t)
  {
    var i := EntryFor(t, y);
    FindHas(t, y);
    if !Live(t[i]) { MarkedEntry(t, x, i, DiscEntry(Called, y, false, false, false)); }
  }

  lemma MarkedRegistered(t: DiscTable, x: nat, y: nat, client: nat)
    requires Marked(t, x) && EntryFor(t, y) < IOCTL_BUFFER_SIZE
    ensures Marked(Registered(t, y, client), x)
  {
    MarkedAllocated(t, x, y);
    var i, t' := EntryFor(t, y), Allocated(t, y);
    MarkedEntry(t', x, i, if client == 0 then t'[i].(have0 := true) else t'[i].(have1 := true));
  }

  lemma MarkedFired(t: DiscTable, x: nat, y: nat)
    requires Marked(t, x) && y != x
    ensures Marked(Fired(t, y), x)
  {
    var i := FindSector(t, y, 0);
    if y != 0 && i < IOCTL_BUFFER_SIZE { MarkedEntry(t, x, i, t[i].(state := Unused)); }
  }

  /** A marked read is not ready, so it is not the one that a frame names. */
  lemma MarkedAnnounced(t: DiscTable, x: nat)
    requires Marked(t, x) && x != 0
    ensures Marked(Announced(t), x) && ReadySector(t, IOCTL_BUFFER_SIZE) != x
  {
    var t' := Announced(t);
    var k :| 0 <= k < IOCTL_BUFFER_SIZE && Match(t[k], x);
    assert Match(t'[k], x);
  }

  lemma RingPut(ring: Ring, n: nat, p: CtrlPacket, x: nat)
    requires NeverNamed(ring, x) && (p.haveSentOrRecv ==> !Names(p, x))
    ensures NeverNamed(Put(ring, n, p), x)
  {
  }

  lemma LostStays(s: System, step: Step, x: nat)
    requires Lost(s, x) && Enabled(s, step)
    ensures Lost(Apply(s, step), x)
  {
    match step {
      case HostRead(pad) =>
            RingPut(s.host.ring, s.host.nextInput, WithInput(Slot(s.host.ring, s.host.nextInput), HOSTS_WIIMOTE, pad),
            x);
      case GuestRead(pad) =>
            RingPut(s.guest.ring, s.guest.nextInput,
            WithInput(Slot(s.guest.ring, s.guest.nextInput), CLIENTS_WIIMOTE, pad), x);
      case GuestQueueInput =>
      case GuestQueueRead(_) =>
      case Transmit =>
      case HostTake => LostTake(s, x);
      case HostSend(game) => LostSend(s, game, x);
      case GuestTake =>
        RingPut(s.guest.ring, s.guest.position, Merged(s.toGuest[0], Slot(s.guest.ring, s.guest.position)), x);
      case Advance(onHost) => LostAdvance(s, onHost, x);
      case Issue(onHost, sector) => if onHost { MarkedAllocated(s.host.table, x, sector); }
      case HostRegister(sector) => MarkedRegistered(s.host.table, x, sector, 0);
      case Complete(onHost, sector) =>
        if onHost {
          var i := s.hostLog.flight[sector];
          MarkedEntry(s.host.table, x, i, s.host.table[i].(state := Returned));
        }
    }
  }

  lemma LostTake(s: System, x: nat)
    requires Lost(s, x) && Enabled(s, HostTake)
    ensures Lost(Apply(s, HostTake), x)
  {
    hide Has, Registered, EntryFor;
    match s.toHost[0] {
      case Input(frame, wiimote, pad) =>
            RingPut(s.host.ring, frame, WithInput(Slot(s.host.ring, frame), wiimote, pad), x);
      case DiscRead(client, sector) => MarkedRegistered(s.host.table, x, sector, client);
    }
  }

  lemma LostSend(s: System, game: int, x: nat)
    requires Lost(s, x) && Enabled(s, HostSend(game))
    ensures Lost(Apply(s, HostSend(game)), x)
  {
    hide Has, Announced, ReadySector, Disconnected;
    MarkedAnnounced(s.host.table, x);
    RingPut(s.host.ring, s.host.position, PacketToSend(s.host, game).(haveSentOrRecv := true), x);
  }

  lemma LostAdvance(s: System, onHost: bool, x: nat)
    requires Lost(s, x) && Enabled(s, Advance(onHost))
    ensures Lost(Apply(s, Advance(onHost)), x)
  {
    hide Has, Blocked, Fired, FindSector;
    var c := Me(s, onHost);
    var next := Slot(c.ring, c.frameCount + 1);
    assert !Names(next, x);
    if onHost { MarkedFired(s.host.table, x, next.callbackSector); }
    RingPut(c.ring, c.frameCount, Recycled(Slot(c.ring, c.frameCount)), x);
  }

  /** On every run: the callback of a lost read is never made, on either console. */
  lemma {:induction false} LostForever(states: seq<System>, steps: seq<Step>, i: nat, j: nat, x: nat)
    requires Run(states, steps) && i <= j <= |steps| && Lost(states[i], x)
    ensures Lost(states[j], x) && NotFired(states[j].hostLog, x) && NotFired(states[j].guestLog, x)
    decreases j
  {
    hide Lost, Apply, Enabled;
    if i < j {
      LostForever(states, steps, i, j - 1, x);
      LostStays(states[j - 1], steps[j - 1], x);
    }
    LostNotFired(states[j], x);
  }

  lemma LostNotFired(s: System, x: nat)
    requires Lost(s, x)
    ensures NotFired(s.hostLog, x) && NotFired(s.guestLog, x)
  {
  }

  // ----- which reads a send loses -----

  /** At most one read is ready for a frame, and none for the first. */
  predicate OneReady(s: System, step: Step) {
    step.HostSend? ==>
      && (forall i, j :: 0 <= i < j < IOCTL_BUFFER_SIZE ==> !(Ready(s.host.table[i]) && Ready(s.host.table[j])))
      && (s.host.position == 0 ==> forall i :: 0 <= i < IOCTL_BUFFER_SIZE ==> !Ready(s.host.table[i]))
  }

  /** Runs in which frame 5 comes in time and at most one read gets ready for a frame. */
  ghost predicate Orderly(states: seq<System>, steps: seq<Step>) {
    Timely(states, steps) && forall i :: 0 <= i < |steps| ==> OneReady(states[i], steps[i])
  }

  /** Entries that are not in use are fresh, or those of reads that were called back. */
  ghost predicate Stale(s: System) {
    forall i :: 0 <= i < IOCTL_BUFFER_SIZE && !Live(s.host.table[i]) ==>
      s.host.table[i].sector == 0 || !NotFired(s.hostLog, s.host.table[i].sector)
  }

  /** No entry has come out of use. */
  predicate NoneFreed(t: DiscTable, t': DiscTable) {
    forall i :: 0 <= i < IOCTL_BUFFER_SIZE && !Live(t'[i]) ==> !Live(t[i]) && t'[i].sector == t[i].sector
  }

  lemma RegisteredFreesNone(t: DiscTable, x: nat, client: nat)
    requires EntryFor(t, x) < IOCTL_BUFFER_SIZE
    ensures NoneFreed(t, Allocated(t, x)) && NoneFreed(t, Registered(t, x, client))
  {
    var i := EntryFor(t, x);
    hide EntryFor, FindSector, FindUnused;
  }

  lemma StaleStays(s: System, step: Step)
    requires Stale(s) && Enabled(s, step)
    ensures Stale(Apply(s, step))
  {
    hide Blocked, EntryFor, FindSector, FindUnused, Registered, Allocated, Slot, Put, Ready;
    var s' := Apply(s, step);
    match step {
      case Issue(onHost, x) => RegisteredFreesNone(Me(s, onHost).table, x, 0);
      case HostRegister(x) => RegisteredFreesNone(s.host.table, x, 0);
      case HostTake =>
            if s.toHost[0].DiscRead? { RegisteredFreesNone(s.host.table, s.toHost[0].sector, s.toHost[0].client); }
      case Advance(onHost) => if onHost { StaleAdvance(s); }
      case _ => assert NoneFreed(s.host.table, s'.host.table);
    }
  }

  lemma StaleAdvance(s: System)
    requires Stale(s) && Enabled(s, Advance(true))
    ensures Stale(Apply(s, Advance(true)))
  {
    hide Blocked;
    var s', next := Apply(s, Advance(true)), Slot(s.host.ring, s.host.frameCount + 1);
    forall x: nat | !NotFired(s.hostLog, x) ensures !NotFired(s'.hostLog, x) { FiredMore(s, x); }
    if s'.hostLog.fired != s.hostLog.fired { assert s'.hostLog.fired[|s.hostLog.fired|].0 == next.callbackSector; }
  }

  lemma FiredMore(s: System, x: nat)
    requires Enabled(s, Advance(true)) && !NotFired(s.hostLog, x)
    ensures !NotFired(Apply(s, Advance(true)).hostLog, x)
  {
    var k :| 0 <= k < |s.hostLog.fired| && s.hostLog.fired[k].0 == x;
    assert Apply(s, Advance(true)).hostLog.fired[k].0 == x;
  }

  lemma {:induction false} RunStale(states: seq<System>, steps: seq<Step>, i: nat)
    requires Run(states, steps) && i <= |steps|
    ensures Stale(states[i])
  {
    if i > 0 {
      RunStale(states, steps, i - 1);
      StaleStays(states[i - 1], steps[i - 1]);
    }
  }

  /** What holds in every state of a run in which frame 5 comes in time. */
  ghost predicate InOrder(s: System) { Lockstep(s) && Barrier(s) && Stale(s) }

  /** A read that is ready has been named by no frame yet, and called back by nobody. */
  lemma ReadyIsNew(s: System, k: nat)
    requires InOrder(s) && k < IOCTL_BUFFER_SIZE && Ready(s.host.table[k])
    ensures var x := s.host.table[k].sector;
            && x != 0 && x !in AnnouncedIn(s.sent, |s.sent|)
            && NotFired(s.hostLog, x) && NotFired(s.guestLog, x)
            && (forall i :: 0 <= i < IOCTL_BUFFER_SIZE && s.host.table[i].sector == x ==> i == k)
  {
    hide Pending, GuestTable, Underway, AnnouncedOnce, AnnouncedIn, Callbacks, Has, Lockstep;
    var x := s.host.table[k].sector;
    NoSectorZero(s);
    HostDistinct(s);
    NotCalledYet(s, x);
  }

  lemma NotCalledYet(s: System, x: nat)
    requires Barrier(s) && x !in AnnouncedIn(s.sent, |s.sent|)
    ensures NotFired(s.hostLog, x) && NotFired(s.guestLog, x)
  {
    hide Pending, HostTable, GuestTable, Underway, AnnouncedOnce, AnnouncedIn;
    CallbacksInOrder(s.sent, s.host.frameCount, s.hostLog.fired);
    CallbacksInOrder(s.sent, s.guest.frameCount, s.guestLog.fired);
    NotAmong(s.sent, s.host.frameCount, s.hostLog, x);
    NotAmong(s.sent, s.guest.frameCount, s.guestLog, x);
  }

  lemma NotAmong(sent: seq<CtrlPacket>, f: nat, l: Log, x: nat)
    requires x !in AnnouncedIn(sent, |sent|)
    requires forall k :: 0 <= k < |l.fired| ==> CallbackOf(sent, f, l.fired[k].0, l.fired[k].1)
    ensures NotFired(l, x)
  {
    hide AnnouncedIn;
    forall k | 0 <= k < |l.fired| ensures l.fired[k].0 != x {
      AnnouncedAt(sent, l.fired[k].1, |sent|);
    }
  }

  /** No frame that was sent names it, so no frame in a ring or on its way does. */
  lemma NewIsNeverNamed(s: System, x: nat)
    requires Lockstep(s) && x != 0 && x !in AnnouncedIn(s.sent, |s.sent|)
    ensures NeverNamed(s.host.ring, x) && NeverNamed(s.guest.ring, x)
    ensures forall i :: 0 <= i < |s.toGuest| ==> !Names(s.toGuest[i], x)
  {
    hide Queued, Held, AnnouncedIn;
    forall n: nat | n < |s.sent| ensures !Names(s.sent[n], x) {
      assert SentFrame(s, n);
      if 0 < n && s.sent[n].callbackSector != 0 { AnnouncedAt(s.sent, n, |s.sent|); }
    }
    forall i: nat | i < BUFFER_SIZE && s.host.ring[i].haveSentOrRecv ensures !Names(s.host.ring[i], x) {
      var n := FrameAt(s.host.frameCount, i);
      assert HostFrame(s, n) && Slot(s.host.ring, n) == s.host.ring[i];
      assert SentFrame(s, n) && !Names(s.sent[n], x);
    }
    forall i: nat | i < BUFFER_SIZE && s.guest.ring[i].haveSentOrRecv ensures !Names(s.guest.ring[i], x) {
      var n := FrameAt(s.guest.frameCount, i);
      assert GuestFrame(s, n) && Slot(s.guest.ring, n) == s.guest.ring[i];
      assert SentFrame(s, n) && !Names(s.sent[n], x);
    }
  }

  /** A read that is ready when a frame is sent, and that the frame does not name or that frame 0 names, is
      lost from then on. */
  lemma UnnamedIsLost(s: System, game: int, k: nat)
    requires InOrder(s) && Enabled(s, HostSend(game)) && k < IOCTL_BUFFER_SIZE && Ready(s.host.table[k])
    requires s.host.table[k].sector != PacketToSend(s.host, game).callbackSector || s.host.position == 0
    ensures Lost(Apply(s, HostSend(game)), s.host.table[k].sector)
  {
    hide Lockstep, Barrier, Stale, AnnouncedIn, NotFired, NeverNamed, Apply, Enabled, Has, Marked, Announced,
      PacketToSend, Put;
    var x, s', p := s.host.table[k].sector, Apply(s, HostSend(game)), PacketToSend(s.host, game);
    ReadyIsNew(s, k);
    NewIsNeverNamed(s, x);
    MarkedWhenReady(s.host.table, k);
    Sent(s, game);
    RingPut(s.host.ring, s.host.position, p.(haveSentOrRecv := true), x);
  }

  /** What a send changes. */
  lemma Sent(s: System, game: int)
    requires Enabled(s, HostSend(game))
    ensures var s', p := Apply(s, HostSend(game)), PacketToSend(s.host, game);
            && s'.host.table == Announced(s.host.table) && s'.toGuest == s.toGuest + [p]
            && s'.host.ring == Put(s.host.ring, s.host.position, p.(haveSentOrRecv := true))
            && s'.guest == s.guest && s'.hostLog == s.hostLog && s'.guestLog == s.guestLog
    ensures PacketToSend(s.host, game).frameNumber == s.host.position
    ensures PacketToSend(s.host, game).callbackSector == ReadySector(s.host.table, IOCTL_BUFFER_SIZE)
  {
  }

  lemma MarkedWhenReady(t: DiscTable, k: nat)
    requires k < IOCTL_BUFFER_SIZE && Ready(t[k])
    requires forall i :: 0 <= i < IOCTL_BUFFER_SIZE && t[i].sector == t[k].sector ==> i == k
    ensures Marked(Announced(t), t[k].sector)
  {
    assert Match(Announced(t)[k], t[k].sector);
  }

  /** Exactly one read per frame: a send loses none of the reads that are ready exactly if there is at
      most one, and none when frame 0 is sent. */
  lemma LosesNoneIffOneReady(s: System, game: int)
    requires InOrder(s) && Enabled(s, HostSend(game))
    ensures (forall k :: 0 <= k < IOCTL_BUFFER_SIZE && Ready(s.host.table[k]) ==>
              !Lost(Apply(s, HostSend(game)), s.host.table[k].sector))
       <==> OneReady(s, HostSend(game))
  {
    hide Lost, Lockstep, Barrier, Stale, Disconnected, ReadySector, Apply;
    var t, p := s.host.table, PacketToSend(s.host, game);
    forall k | 0 <= k < IOCTL_BUFFER_SIZE && Ready(t[k]) && (t[k].sector != p.callbackSector || s.host.position == 0)
      ensures Lost(Apply(s, HostSend(game)), t[k].sector)
    {
      UnnamedIsLost(s, game, k);
    }
    forall i, j | 0 <= i < j < IOCTL_BUFFER_SIZE && Ready(t[i]) && Ready(t[j]) ensures t[i].sector != t[j].sector {
      ReadyIsNew(s, i);
    }
    if OneReady(s, HostSend(game)) {
      forall k | 0 <= k < IOCTL_BUFFER_SIZE && Ready(t[k]) ensures !Lost(Apply(s, HostSend(game)), t[k].sector) {
        NamedNotLost(s, game, k);
      }
    }
  }

  lemma NamedNotLost(s: System, game: int, k: nat)
    requires InOrder(s) && Enabled(s, HostSend(game)) && OneReady(s, HostSend(game))
    requires k < IOCTL_BUFFER_SIZE && Ready(s.host.table[k])
    ensures !Lost(Apply(s, HostSend(game)), s.host.table[k].sector)
  {
    hide Lockstep, Barrier, Stale, Apply, Enabled, Marked, NotFired, NeverNamed, PacketToSend;
    Sent(s, game);
    OnlyReady(s.host.table, k);
    var s', p := Apply(s, HostSend(game)), PacketToSend(s.host, game);
    assert s'.toGuest[|s.toGuest|] == p;
  }

  lemma OnlyReady(t: DiscTable, k: nat)
    requires k < IOCTL_BUFFER_SIZE && Ready(t[k])
    requires forall i, j :: 0 <= i < j < IOCTL_BUFFER_SIZE ==> !(Ready(t[i]) && Ready(t[j]))
    ensures ReadySector(t, IOCTL_BUFFER_SIZE) == t[k].sector
  {
    hide Ready;
  }

  // ----- runs in which nothing is lost -----

  /** Every read that the host takes for announced is named by a frame. */
  ghost predicate AllNamed(s: System) {
    forall i :: 0 <= i < IOCTL_BUFFER_SIZE && s.host.table[i].haveSent ==>
      s.host.table[i].sector in AnnouncedIn(s.sent, |s.sent|)
  }

  predicate NoneMarked(t: DiscTable, t': DiscTable) {
    forall i :: 0 <= i < IOCTL_BUFFER_SIZE && t'[i].haveSent ==> t[i].haveSent && t'[i].sector == t[i].sector
  }

  lemma RegisteredMarksNone(t: DiscTable, x: nat, client: nat)
    requires EntryFor(t, x) < IOCTL_BUFFER_SIZE
    ensures NoneMarked(t, Allocated(t, x)) && NoneMarked(t, Registered(t, x, client))
  {
    var i := EntryFor(t, x);
    hide EntryFor, FindSector, FindUnused;
  }

  lemma NamedStays(s: System, step: Step)
    requires AllNamed(s) && Barrier(s) && Counts(s) && Enabled(s, step) && OneReady(s, step)
    ensures AllNamed(Apply(s, step))
  {
    hide Barrier, Counts, AnnouncedIn, Blocked, EntryFor, FindSector, FindUnused, Registered, Allocated, Announced,
      Slot, Put, OneReady;
    var s' := Apply(s, step);
    match step {
      case Issue(onHost, x) => RegisteredMarksNone(Me(s, onHost).table, x, 0);
      case HostRegister(x) => RegisteredMarksNone(s.host.table, x, 0);
      case HostTake =>
        if s.toHost[0].DiscRead? { RegisteredMarksNone(s.host.table, s.toHost[0].sector, s.toHost[0].client); }
      case HostSend(game) => SendNames(s, game);
      case _ => assert NoneMarked(s.host.table, s'.host.table);
    }
  }

  lemma SendNames(s: System, game: int)
    requires AllNamed(s) && Barrier(s) && Counts(s) && Enabled(s, HostSend(game)) && OneReady(s, HostSend(game))
    ensures AllNamed(Apply(s, HostSend(game)))
  {
    hide Barrier, AnnouncedIn, Slot, Put, ReadySector;
    var t, p := s.host.table, PacketToSend(s.host, game);
    AnnouncedMore(s.sent, p, 0);
    NoSectorZero(s);
    forall k | 0 <= k < IOCTL_BUFFER_SIZE && Ready(t[k]) ensures p.callbackSector == t[k].sector { OnlyReady(t, k); }
  }

  lemma {:induction false} RunNamed(states: seq<System>, steps: seq<Step>, i: nat)
    requires Orderly(states, steps) && i <= |steps|
    ensures AllNamed(states[i])
  {
    hide Barrier, Lockstep, Apply, Enabled, OneReady, AllNamed;
    if i == 0 {
      NoneMarkedAtStart();
    } else {
      RunNamed(states, steps, i - 1);
      RunBarrier(states, steps, i - 1);
      RunCounts(states, steps, i - 1);
      NamedStays(states[i - 1], steps[i - 1]);
    }
  }

  lemma NoneMarkedAtStart()
    ensures AllNamed(Start())
  {
  }

  lemma RunCounts(states: seq<System>, steps: seq<Step>, i: nat)
    requires Timely(states, steps) && i <= |steps|
    ensures Counts(states[i])
  {
    RunLockstep(states, steps, i);
  }

  lemma SentStays(s: System, step: Step)
    requires Enabled(s, step)
    ensures s.sent <= Apply(s, step).sent
    ensures step.HostSend? ==> Apply(s, step).sent == s.sent + [PacketToSend(s.host, step.game)]
  {
  }

  lemma {:induction false} SentGrows(states: seq<System>, steps: seq<Step>, i: nat, j: nat)
    requires Run(states, steps) && i <= j <= |steps|
    ensures states[i].sent <= states[j].sent
    decreases j
  {
    hide Apply, Enabled;
    if i < j {
      SentGrows(states, steps, i, j - 1);
      SentStays(states[j - 1], steps[j - 1]);
    }
  }

  /** A read that both consoles have reported is named by the next frame, unless an earlier one named it. */
  lemma NextFrameNames(s: System, game: int, x: nat)
    requires AllNamed(s) && Barrier(s) && Counts(s) && Enabled(s, HostSend(game)) && OneReady(s, HostSend(game))
    requires x in s.hostLog.registered && x in s.guestLog.registered && x !in AnnouncedIn(s.sent, |s.sent|)
    ensures s.sent != [] && PacketToSend(s.host, game).callbackSector == x != 0
  {
    hide Pending, GuestTable, AnnouncedOnce, AnnouncedIn, Callbacks, Slot, Put, ReadySector;
    var t := s.host.table;
    AnnouncedGrows(s.sent, s.host.frameCount + 1, |s.sent|);
    RegistersAreIssued(s, x);
    assert Has(t, x);
    var k :| 0 <= k < IOCTL_BUFFER_SIZE && Match(t[k], x);
    assert Ready(t[k]);
    NoSectorZero(s);
    OnlyReady(t, k);
  }

  lemma NamedBefore(sent: seq<CtrlPacket>, x: nat) returns (n: nat)
    requires x in AnnouncedIn(sent, |sent|)
    ensures 0 < n < |sent| && sent[n].callbackSector == x != 0
  {
    n :| 0 < n < |sent| && sent[n].callbackSector == x != 0;
  }

  /** On every run in which at most one read is ready for a frame, no read is lost: once both consoles have reported
      it, the next frame names it, if no earlier one did, and each console that has reached that frame has called it
      back there. */
  lemma NoReadLost(states: seq<System>, steps: seq<Step>, i: nat, j: nat, x: nat) returns (n: nat)
    requires Orderly(states, steps) && i < j <= |steps| && steps[i].HostSend?
    requires x in states[i].hostLog.registered && x in states[i].guestLog.registered
    ensures 0 < n <= |states[i].sent| < |states[j].sent| && states[j].sent[n].callbackSector == x
    ensures x !in AnnouncedIn(states[i].sent, |states[i].sent|) ==> n == |states[i].sent|
    ensures forall onHost :: n <= Me(states[j], onHost).frameCount ==> (x, n) in LogOf(states[j], onHost).fired
  {
    hide Barrier, Lockstep, Counts, Apply, Enabled, Early, OneReady, AllNamed, AnnouncedIn;
    var s, game := states[i], steps[i].game;
    RunNamed(states, steps, i);
    RunBarrier(states, steps, i);
    RunCounts(states, steps, i);
    SentStays(s, steps[i]);
    SentGrows(states, steps, i + 1, j);
    if x in AnnouncedIn(s.sent, |s.sent|) {
      n := NamedBefore(s.sent, x);
    } else {
      NextFrameNames(s, game, x);
      n := |s.sent|;
    }
    CalledBackAt(states, steps, j, n);
  }

  lemma CalledBackAt(states: seq<System>, steps: seq<Step>, j: nat, n: nat)
    requires Timely(states, steps) && j <= |steps|
    requires 0 < n < |states[j].sent| && states[j].sent[n].callbackSector != 0
    ensures forall onHost :: n <= Me(states[j], onHost).frameCount ==>
              (states[j].sent[n].callbackSector, n) in LogOf(states[j], onHost).fired
  {
    hide Pending, HostTable, GuestTable, Underway, AnnouncedOnce, AnnouncedIn, Callbacks, Lockstep;
    RunBarrier(states, steps, j);
    FramesReached(states, steps, j);
    var s := states[j];
    forall onHost | n <= Me(s, onHost).frameCount ensures (s.sent[n].callbackSector, n) in LogOf(s, onHost).fired {
      CallbacksHave(s.sent, Me(s, onHost).frameCount, n);
    }
  }

  // ----- runs in which reads are lost -----

  /** Some orderly run leads here. */
  ghost predicate Reached(s: System) {
    exists states, steps :: Orderly(states, steps) && states[|steps|] == s
  }

  lemma StartReached()
    ensures Reached(Start())
  {
    var steps: seq<Step> := [];
    assert Orderly([Start()], steps) && [Start()][|steps|] == Start();
  }

  lemma StepReached(s: System, step: Step)
    requires Reached(s) && Enabled(s, step) && !Early(s, step) && OneReady(s, step)
    ensures Reached(Apply(s, step))
  {
    hide Apply, Enabled, Early, OneReady;
    var states, steps :| Orderly(states, steps) && states[|steps|] == s;
    var states', steps' := states + [Apply(s, step)], steps + [step];
    forall i | 0 <= i < |steps'|
      ensures Enabled(states'[i], steps'[i]) && states'[i + 1] == Apply(states'[i], steps'[i])
              && !Early(states'[i], steps'[i])
              && OneReady(states'[i], steps'[i])
    {
      if i < |steps| { assert states'[i] == states[i] && states'[i + 1] == states[i + 1] && steps'[i] == steps[i]; }
    }
    assert Orderly(states', steps') && states'[|steps'|] == Apply(s, step);
  }

  lemma ReachedInOrder(s: System)
    requires Reached(s)
    ensures InOrder(s)
  {
    var states, steps :| Orderly(states, steps) && states[|steps|] == s;
    RunLockstep(states, steps, |steps|);
    RunBarrier(states, steps, |steps|);
    RunStale(states, steps, |steps|);
  }

  /** The first entries of a table; the rest is not in use. */
  predicate TableIs(t: DiscTable, e: seq<DiscEntry>) {
    && |e| <= IOCTL_BUFFER_SIZE && (forall i :: 0 <= i < |e| ==> t[i] == e[i] && Live(e[i]))
    && forall i :: |e| <= i < IOCTL_BUFFER_SIZE ==> !Live(t[i])
  }

  lemma NewEntry(t: DiscTable, e: seq<DiscEntry>, x: nat)
    requires TableIs(t, e) && |e| < IOCTL_BUFFER_SIZE && forall i :: 0 <= i < |e| ==> e[i].sector != x
    ensures EntryFor(t, x) == |e| && TableIs(Allocated(t, x), e + [DiscEntry(Called, x, false, false, false)])
  {
    assert !Live(t[|e|]);
  }

  lemma OldEntry(t: DiscTable, e: seq<DiscEntry>, d: DiscEntry, client: nat)
    requires TableIs(t, e + [d]) && forall i :: 0 <= i < |e| ==> e[i].sector != d.sector
    ensures EntryFor(t, d.sector) == |e| < IOCTL_BUFFER_SIZE
    ensures TableIs(Registered(t, d.sector, client), e + [if client == 0 then d.(have0 := true) else d.(have1 := true)])
  {
    assert t[|e|] == (e + [d])[|e|] == d && Match(t[|e|], d.sector);
    assert forall i :: 0 <= i < |e| ==> t[i] == (e + [d])[i] == e[i];
  }

  /** Entries of sectors, with what both consoles have reported of them. */
  function Entries(sectors: seq<nat>, reported: bool): seq<DiscEntry> {
    seq(|sectors|, i requires 0 <= i < |sectors| => DiscEntry(Called, sectors[i], reported, reported, false))
  }

  /** Some frames have been sent, no packet is under way, and both consoles have issued and reported some reads. */
  ghost predicate ReadsReady(s: System, position: nat, sectors: seq<nat>) {
    && Reached(s) && s.host.position == position <= 1 && Slot(s.host.ring, position).frameNumber == position
    && s.host.waitingReads == {} && s.guest.waitingReads == {} && s.guest.sendBuffer == [] && s.toHost == []
    && TableIs(s.host.table, Entries(sectors, true)) && TableIs(s.guest.table, Entries(sectors, false))
    && (forall x :: x in s.hostLog.issued ==> x in sectors) && (forall x :: x in s.guestLog.issued ==> x in sectors)
  }

  lemma StartReads()
    ensures ReadsReady(Start(), 0, [])
  {
    StartReached();
  }

  lemma NoneReadyAtStart()
    ensures OneReady(Start(), HostSend(0))
  {
  }

  lemma UnusedStay(t: DiscTable)
    requires TableIs(t, [])
    ensures TableIs(Announced(t), [])
  {
  }

  lemma SendsFirst() returns (s: System)
    ensures ReadsReady(s, 1, [])
  {
    hide Reached, Announced, ReadySector, Outgoing, OneReady, Ready;
    StartReads();
    var s0 := Start();
    NoneReadyAtStart();
    StepReached(s0, HostSend(0));
    s := Apply(s0, HostSend(0));
    UnusedStay(s0.host.table);
  }

  /** One more read that both consoles issue and report. */
  lemma OneMoreRead(s0: System, position: nat, sectors: seq<nat>, x: nat) returns (s: System)
    requires ReadsReady(s0, position, sectors) && x != 0 && x !in sectors && |sectors| < IOCTL_BUFFER_SIZE
    ensures ReadsReady(s, position, sectors + [x])
  {
    hide Reached, TableIs;
    var e, d := Entries(sectors, true), DiscEntry(Called, x, false, false, false);
    var s1 := HostReadReported(s0, e, x);
    s := GuestReadReported(s1, e, Entries(sectors, false), x);
    assert Entries(sectors + [x], true) == e + [DiscEntry(Called, x, true, true, false)];
    assert Entries(sectors + [x], false) == Entries(sectors, false) + [d];
  }

  lemma HostReadReported(s0: System, e: seq<DiscEntry>, x: nat) returns (s: System)
    requires Reached(s0) && TableIs(s0.host.table, e) && |e| < IOCTL_BUFFER_SIZE && forall i :: 0 <= i < |e| ==>
               e[i].sector != x
    requires x != 0 && x !in s0.hostLog.issued && s0.host.waitingReads == {}
    ensures Reached(s) && TableIs(s.host.table, e + [DiscEntry(Called, x, true, false, false)])
            && s.host.waitingReads == {}
    ensures s.hostLog.issued == s0.hostLog.issued + {x} && s.guest == s0.guest && s.guestLog == s0.guestLog
            && s.toHost == s0.toHost
    ensures s.host.position == s0.host.position && s.host.ring == s0.host.ring
  {
    hide Reached, TableIs, EntryFor, Allocated, Registered;
    var d := DiscEntry(Called, x, false, false, false);
    NewEntry(s0.host.table, e, x);
    StepReached(s0, Issue(true, x));
    var s1 := Apply(s0, Issue(true, x));
    OldEntry(s1.host.table, e, d, 0);
    StepReached(s1, HostRegister(x));
    s := Apply(s1, HostRegister(x));
  }

  lemma GuestReadReported(s0: System, e: seq<DiscEntry>, e': seq<DiscEntry>, x: nat) returns (s: System)
    requires Reached(s0) && TableIs(s0.host.table, e + [DiscEntry(Called, x, true, false, false)])
             && TableIs(s0.guest.table, e')
    requires |e'| < IOCTL_BUFFER_SIZE && (forall i :: 0 <= i < |e| ==> e[i].sector != x) && forall i ::
               0 <= i < |e'| ==> e'[i].sector != x
    requires x != 0 && x !in s0.guestLog.issued && s0.guest.waitingReads == {} && s0.guest.sendBuffer == []
             && s0.toHost == []
    ensures Reached(s) && TableIs(s.host.table, e + [DiscEntry(Called, x, true, true, false)])
    ensures TableIs(s.guest.table, e' + [DiscEntry(Called, x, false, false, false)])
    ensures s.guestLog.issued == s0.guestLog.issued + {x} && s.guest.waitingReads == {} && s.guest.sendBuffer == []
            && s.toHost == []
    ensures s.hostLog == s0.hostLog && s.host.waitingReads == s0.host.waitingReads
    ensures s.host.position == s0.host.position && s.host.ring == s0.host.ring
  {
    hide Reached, TableIs, EntryFor, Allocated, Registered;
    NewEntry(s0.guest.table, e', x);
    StepReached(s0, Issue(false, x));
    var s1 := Apply(s0, Issue(false, x));
    StepReached(s1, GuestQueueRead(x));
    var s2 := Apply(s1, GuestQueueRead(x));
    StepReached(s2, Transmit);
    var s3 := Apply(s2, Transmit);
    assert s3.toHost == [DiscRead(1, x)];
    OldEntry(s3.host.table, e, DiscEntry(Called, x, true, false, false), 1);
    StepReached(s3, HostTake);
    s := Apply(s3, HostTake);
  }

  /** There is an orderly run after which two reads are ready for the next frame; sending it loses one of them. */
  lemma TwoReadyLoseOne(a: nat, b: nat) returns (s: System, x: nat)
    requires a != 0 && b != 0 && a != b
    ensures Reached(s) && Enabled(s, HostSend(0)) && s.host.position == 1 && x in {a, b}
    ensures x in s.hostLog.registered && x in s.guestLog.registered && Lost(Apply(s, HostSend(0)), x)
  {
    hide Reached, Lost, InOrder;
    s := SendsFirst();
    s := OneMoreRead(s, 1, [], a);
    s := OneMoreRead(s, 1, [a], b);
    ReachedInOrder(s);
    var t := s.host.table;
    assert t[0] == Entries([a, b], true)[0] && t[1] == Entries([a, b], true)[1];
    var k := if PacketToSend(s.host, 0).callbackSector == a then 1 else 0;
    x := t[k].sector;
    UnnamedIsLost(s, 0, k);
    ReadyIsReported(s, k);
  }

  lemma ReadyIsReported(s: System, k: nat)
    requires InOrder(s) && k < IOCTL_BUFFER_SIZE && Ready(s.host.table[k])
    ensures s.host.table[k].sector in s.hostLog.registered && s.host.table[k].sector in s.guestLog.registered
  {
    hide Pending, GuestTable, Underway, AnnouncedOnce, AnnouncedIn, Callbacks, Has, Lockstep, Stale;
  }

  /** A read that is ready before anything was sent is named by frame 0, and lost. */
  lemma FrameZeroLosesRead(a: nat) returns (s: System)
    requires a != 0
    ensures Reached(s) && Enabled(s, HostSend(0)) && s.host.position == 0 && PacketToSend(s.host, 0).callbackSector == a
    ensures Lost(Apply(s, HostSend(0)), a)
  {
    hide Reached, Lost, InOrder;
    StartReads();
    s := OneMoreRead(Start(), 0, [], a);
    ReachedInOrder(s);
    assert s.host.table[0] == Entries([a], true)[0];
    OnlyReady(s.host.table, 0);
    UnnamedIsLost(s, 0, 0);
  }
}

/** The disc-read barrier: an intercepted read's callback is made once on each console, at the same
    frame on both, and only after both consoles issued the read and it completed where the
    callback is made. */
module NetDisc {
  import opened NetConsole
  import opened NetSystem
  import opened NetFrames

  /** The reads announced in frames before `k`; frame 0, which nobody moves to, announces none. */
  ghost function AnnouncedIn(sent: seq<CtrlPacket>, k: nat): set<nat> {
    set n: nat | 0 < n < k && n < |sent| && sent[n].callbackSector != 0 :: sent[n].callbackSector
  }

  /** No read is announced twice. */
  ghost predicate AnnouncedOnce(sent: seq<CtrlPacket>) {
    forall m, n :: 0 < m < n < |sent| && sent[m].callbackSector != 0 ==>
      sent[n].callbackSector != sent[m].callbackSector
  }

  /** The callbacks of the frames up to `f`, with their frames. */
  function Callbacks(sent: seq<CtrlPacket>, f: nat): seq<(nat, nat)> {
    if f == 0 || f >= |sent| then []
    else Callbacks(sent, f - 1) + if sent[f].callbackSector != 0 then [(sent[f].callbackSector, f)] else []
  }

  /** No two entries are for the same read. */
  ghost predicate Distinct(t: DiscTable) {
    forall i, j :: 0 <= i < j < IOCTL_BUFFER_SIZE && Live(t[i]) && Live(t[j]) ==> t[i].sector != t[j].sector
  }

  /** The table has an entry for this read. */
  predicate Has(t: DiscTable, sector: nat) { exists i :: 0 <= i < IOCTL_BUFFER_SIZE && Match(t[i], sector) }

  /** Entries, and what the disc is still doing for this console. */
  ghost predicate Pending(t: DiscTable, l: Log) {
    && Distinct(t)
    && (forall i :: 0 <= i < IOCTL_BUFFER_SIZE && t[i].state == Returned ==> t[i].sector in l.completed)
    && (forall i :: 0 <= i < IOCTL_BUFFER_SIZE && t[i].state == Called && t[i].sector in l.issued ==>
          t[i].sector in l.flight)
    && (forall x :: x in l.flight ==>
          x in l.issued && l.flight[x] < IOCTL_BUFFER_SIZE && t[l.flight[x]].state == Called
              && t[l.flight[x]].sector == x)
    && l.completed <= l.issued && 0 !in l.issued
  }

  /** The host's entries are the reads that either console has told it of and that it has not
      called back. */
  ghost predicate HostTable(s: System) {
    var t := s.host.table;
    && (forall x: nat :: Has(t, x) <==>
          (x in s.hostLog.issued || x in s.guestLog.registered) && x !in AnnouncedIn(s.sent, s.host.frameCount + 1))
    && (forall i :: 0 <= i < IOCTL_BUFFER_SIZE && Live(t[i]) ==>
          && t[i].have0 == (t[i].sector in s.hostLog.registered)
          && t[i].have1 == (t[i].sector in s.guestLog.registered)
          && (t[i].sector in AnnouncedIn(s.sent, |s.sent|) ==> t[i].haveSent))
  }

  /** The guest's entries are the reads it issued and has not called back. */
  ghost predicate GuestTable(s: System) {
    forall x: nat :: Has(s.guest.table, x) <==>
      x in s.guestLog.issued && x !in AnnouncedIn(s.sent, s.guest.frameCount + 1)
  }

  /** The reads whose packets are under way to the host. */
  ghost predicate Underway(s: System) {
    var q := s.toHost + s.guest.sendBuffer;
    && (forall i :: 0 <= i < |q| && q[i].DiscRead? ==>
          q[i].client == 1 && q[i].sector in s.guestLog.issued && q[i].sector !in s.guestLog.registered
          && q[i].sector !in s.guest.waitingReads)
    && (forall i, j :: 0 <= i < j < |q| && q[i].DiscRead? && q[j].DiscRead? ==> q[i].sector != q[j].sector)
    && (forall x :: x in s.guest.waitingReads ==> x in s.guestLog.issued && x !in s.guestLog.registered)
    && s.guestLog.registered <= s.guestLog.issued
    && (forall x :: x in s.host.waitingReads ==> x in s.hostLog.issued && x !in s.hostLog.registered)
    && s.hostLog.registered <= s.hostLog.issued
  }

  ghost predicate Barrier(s: System) {
    && Pending(s.host.table, s.hostLog) && Pending(s.guest.table, s.guestLog)
    && HostTable(s) && GuestTable(s) && Underway(s)
    && AnnouncedOnce(s.sent)
    && (forall x :: x in AnnouncedIn(s.sent, |s.sent|) ==> x in s.hostLog.registered && x in s.guestLog.registered)
    && s.hostLog.fired == Callbacks(s.sent, s.host.frameCount)
       && s.guestLog.fired == Callbacks(s.sent, s.guest.frameCount)
    && AnnouncedIn(s.sent, s.host.frameCount + 1) <= s.hostLog.completed
    && AnnouncedIn(s.sent, s.guest.frameCount + 1) <= s.guestLog.completed
  }

  lemma StartBarrier()
    ensures Barrier(Start())
  {
  }

  // ----- table updates -----

  lemma FindHas(t: DiscTable, sector: nat)
    ensures FindSector(t, sector, 0) < IOCTL_BUFFER_SIZE <==> Has(t, sector)
  {
  }

  /** A changed entry for the same read. */
  lemma SameReadKept(t: DiscTable, i: nat, e: DiscEntry)
    requires Distinct(t) && i < IOCTL_BUFFER_SIZE && Live(t[i]) && Live(e) && e.sector == t[i].sector
    ensures Distinct(t[i := e]) && forall x: nat :: Has(t[i := e], x) <==> Has(t, x)
  {
    var t': DiscTable := t[i := e];
    forall x: nat ensures Has(t', x) <==> Has(t, x) {
      if Has(t, x) { var k :| 0 <= k < IOCTL_BUFFER_SIZE && Match(t[k], x); assert Match(t'[k], x); }
      if Has(t', x) { var k :| 0 <= k < IOCTL_BUFFER_SIZE && Match(t'[k], x); assert Match(t[k], x); }
    }
  }

  lemma NewReadAdded(t: DiscTable, i: nat, e: DiscEntry)
    requires Distinct(t) && i < IOCTL_BUFFER_SIZE && !Live(t[i]) && Live(e) && !Has(t, e.sector)
    ensures Distinct(t[i := e]) && forall x: nat :: Has(t[i := e], x) <==> Has(t, x) || x == e.sector
  {
    var t': DiscTable := t[i := e];
    forall x: nat ensures Has(t', x) <==> Has(t, x) || x == e.sector {
      if Has(t, x) { var k :| 0 <= k < IOCTL_BUFFER_SIZE && Match(t[k], x); assert Match(t'[k], x); }
      if x == e.sector { assert Match(t'[i], x); }
      if Has(t', x) { var k :| 0 <= k < IOCTL_BUFFER_SIZE && Match(t'[k], x); assert k != i ==> Match(t[k], x); }
    }
    forall k | 0 <= k < IOCTL_BUFFER_SIZE && Live(t[k]) ensures t[k].sector != e.sector {
      assert Match(t[k], t[k].sector);
    }
  }

  lemma ReadRemoved(t: DiscTable, i: nat)
    requires Distinct(t) && i < IOCTL_BUFFER_SIZE && Live(t[i])
    ensures Distinct(t[i := t[i].(state := Unused)])
    ensures forall x: nat :: Has(t[i := t[i].(state := Unused)], x) <==> Has(t, x) && x != t[i].sector
  {
    var t': DiscTable := t[i := t[i].(state := Unused)];
    forall x: nat ensures Has(t', x) <==> Has(t, x) && x != t[i].sector {
      if Has(t, x) && x != t[i].sector {
        var k :| 0 <= k < IOCTL_BUFFER_SIZE && Match(t[k], x); assert Match(t'[k], x);
      }
      if Has(t', x) { var k :| 0 <= k < IOCTL_BUFFER_SIZE && Match(t'[k], x); assert k != i && Match(t[k], x); }
    }
  }

  /** The entry for a sector, found or made. */
  lemma AllocatedHas(t: DiscTable, sector: nat)
    requires Distinct(t) && EntryFor(t, sector) < IOCTL_BUFFER_SIZE
    ensures var i, t' := EntryFor(t, sector), Allocated(t, sector);
            && Distinct(t') && Match(t'[i], sector)
            && (forall x: nat :: Has(t', x) <==> Has(t, x) || x == sector)
            && (if Has(t, sector) then t' == t
               else !Live(t[i]) && t' == t[i := DiscEntry(Called, sector, false, false, false)])
  {
    FindHas(t, sector);
    var i := EntryFor(t, sector);
    if !Has(t, sector) {
      NewReadAdded(t, i, DiscEntry(Called, sector, false, false, false));
    } else {
      assert Match(t[i], sector);
    }
  }

  /** One entry is for the sector afterwards, and says that the console issued the read. */
  lemma RegisteredHas(t: DiscTable, x: nat, client: nat) returns (i: nat)
    requires Distinct(t) && EntryFor(t, x) < IOCTL_BUFFER_SIZE && client < 2
    ensures i < IOCTL_BUFFER_SIZE && Distinct(Registered(t, x, client))
    ensures forall y: nat :: Has(Registered(t, x, client), y) <==> Has(t, y) || y == x
    ensures forall k :: 0 <= k < IOCTL_BUFFER_SIZE && k != i ==> Registered(t, x, client)[k] == t[k] && !Match(t[k], x)
    ensures if Has(t, x) then Match(t[i], x) else !Live(t[i])
    ensures var e := if Has(t, x) then t[i] else DiscEntry(Called, x, false, false, false);
            Registered(t, x, client)[i] == if client == 0 then e.(have0 := true) else e.(have1 := true)
  {
    i := EntryFor(t, x);
    AllocatedHas(t, x);
    var t' := Allocated(t, x);
    SameReadKept(t', i, if client == 0 then t'[i].(have0 := true) else t'[i].(have1 := true));
  }

  /** A read not yet reported by both consoles has not been called back. */
  lemma NotFiredYet(s: System, x: nat)
    requires Barrier(s) && !(x in s.hostLog.registered && x in s.guestLog.registered)
    ensures x !in AnnouncedIn(s.sent, |s.sent|) && x !in AnnouncedIn(s.sent, s.host.frameCount + 1)
    ensures x !in AnnouncedIn(s.sent, s.guest.frameCount + 1)
  {
    AnnouncedGrows(s.sent, s.host.frameCount + 1, |s.sent|);
    AnnouncedGrows(s.sent, s.guest.frameCount + 1, |s.sent|);
  }

  // ----- each step -----

  /** Steps that no part of this depends on. */
  lemma QuietKeeps(s: System, step: Step)
    requires Barrier(s) && Lockstep(s) && Enabled(s, step)
    requires step.HostRead? || step.GuestRead? || step.GuestQueueInput? || step.Transmit? || step.GuestTake?
    ensures Barrier(Apply(s, step))
  {
    hide Pending, HostTable, GuestTable, AnnouncedOnce, AnnouncedIn, Callbacks, Has, Slot, Put, WithInput, Merged;
    var s' := Apply(s, step);
    SameHostTable(s, s');
    SameGuestTable(s, s');
    SamePending(s.host.table, s.hostLog, s'.hostLog);
    SamePending(s.guest.table, s.guestLog, s'.guestLog);
    var q, q' := s.toHost + s.guest.sendBuffer, s'.toHost + s'.guest.sendBuffer;
    if step.Transmit? {
      assert q' == q;
    } else if step.GuestQueueInput? {
      assert q' == q + [s.guest.waitingInput[0]];
    }
  }

  lemma QueueReadBarrier(s: System, sector: nat)
    requires Barrier(s) && Enabled(s, GuestQueueRead(sector))
    ensures Barrier(Apply(s, GuestQueueRead(sector)))
  {
    var s' := Apply(s, GuestQueueRead(sector));
    var q, q' := s.toHost + s.guest.sendBuffer, s'.toHost + s'.guest.sendBuffer;
    assert q' == q + [DiscRead(1, sector)];
  }

  lemma TakeBarrier(s: System)
    requires Barrier(s) && Enabled(s, HostTake)
    ensures Barrier(Apply(s, HostTake))
  {
    hide Pending, HostTable, Underway, AnnouncedOnce, AnnouncedIn, Callbacks, Has, Registered, EntryFor, Slot, Put,
      WithInput;
    var s' := Apply(s, HostTake);
    TakeUnderway(s, s');
    SamePending(s.guest.table, s.guestLog, s'.guestLog);
    if s.toHost[0].DiscRead? { TakeReadBarrier(s, s'); } else { SameHostTable(s, s'); }
  }

  lemma SamePending(t: DiscTable, l: Log, l': Log)
    requires Pending(t, l) && l'.issued == l.issued && l'.completed == l.completed && l'.flight == l.flight
    ensures Pending(t, l')
  {
  }

  lemma TakeUnderway(s: System, s': System)
    requires Underway(s) && Enabled(s, HostTake) && s' == Apply(s, HostTake)
    ensures Underway(s')
  {
    hide Registered, EntryFor, Slot, Put, WithInput;
    var q, q' := s.toHost + s.guest.sendBuffer, s'.toHost + s'.guest.sendBuffer;
    assert q' == q[1..] && q[0] == s.toHost[0];
    forall i | 0 <= i < |q'| && q'[i].DiscRead?
      ensures q'[i].client == 1 && q'[i].sector in s'.guestLog.issued && q'[i].sector !in s'.guestLog.registered
              && q'[i].sector !in s'.guest.waitingReads
    {
      assert q'[i] == q[i + 1];
    }
  }

  /** Whatever the host's entries are measured against is the same. */
  lemma SameHostTable(s: System, s': System)
    requires HostTable(s) && s'.host.table == s.host.table && s'.host.frameCount == s.host.frameCount
             && s'.sent == s.sent
    requires s'.hostLog.issued == s.hostLog.issued && s'.hostLog.registered == s.hostLog.registered
    requires s'.guestLog.registered == s.guestLog.registered
    ensures HostTable(s')
  {
  }

  lemma SameGuestTable(s: System, s': System)
    requires GuestTable(s) && s'.guest.table == s.guest.table && s'.guest.frameCount == s.guest.frameCount
             && s'.sent == s.sent
    requires s'.guestLog.issued == s.guestLog.issued
    ensures GuestTable(s')
  {
  }

  lemma TakeReadBarrier(s: System, s': System)
    requires Barrier(s) && Enabled(s, HostTake) && s' == Apply(s, HostTake) && s.toHost[0].DiscRead?
    ensures Pending(s'.host.table, s'.hostLog) && HostTable(s')
  {
    hide Pending, HostTable, AnnouncedOnce, AnnouncedIn, Callbacks, Has, Registered, EntryFor;
    var x := s.toHost[0].sector;
    assert (s.toHost + s.guest.sendBuffer)[0] == s.toHost[0];
    RegisterPending(s, x, 1);
    RegisterTable(s, s', x, 1);
  }

  /** A read that one console tells the host of. */
  lemma RegisterPending(s: System, x: nat, client: nat)
    requires Barrier(s) && EntryFor(s.host.table, x) < IOCTL_BUFFER_SIZE && client < 2
    requires client == 0 ==> x in s.hostLog.issued && x !in s.hostLog.registered
    requires client == 1 ==> x !in s.guestLog.registered
    ensures Pending(Registered(s.host.table, x, client), s.hostLog)
  {
    hide Underway, GuestTable, AnnouncedOnce, AnnouncedIn, Callbacks, EntryFor, FindSector, FindUnused, Registered, Has;
    var i := RegisteredHas(s.host.table, x, client);
    NotFiredYet(s, x);
  }

  lemma RegisterTable(s: System, s': System, x: nat, client: nat)
    requires Barrier(s) && EntryFor(s.host.table, x) < IOCTL_BUFFER_SIZE && client < 2
    requires s'.host.table == Registered(s.host.table, x, client) && s'.sent == s.sent
             && s'.host.frameCount == s.host.frameCount
    requires s'.hostLog.issued == s.hostLog.issued
    requires s'.hostLog.registered == if client == 0 then s.hostLog.registered + {x} else s.hostLog.registered
    requires s'.guestLog.registered == if client == 1 then s.guestLog.registered + {x} else s.guestLog.registered
    requires client == 0 ==> x in s.hostLog.issued && x !in s.hostLog.registered
    requires client == 1 ==> x !in s.guestLog.registered
    ensures HostTable(s')
  {
    hide Pending, Underway, GuestTable, AnnouncedOnce, AnnouncedIn, Callbacks, EntryFor, FindSector, FindUnused,
      Registered, Has;
    HostDistinct(s);
    var i := RegisteredHas(s.host.table, x, client);
    NotFiredYet(s, x);
    RegistersAreIssued(s, x);
  }

  lemma HostDistinct(s: System)
    requires Barrier(s)
    ensures Distinct(s.host.table) && Distinct(s.guest.table)
  {
  }

  lemma RegistersAreIssued(s: System, x: nat)
    requires Barrier(s)
    ensures x in s.hostLog.registered ==> x in s.hostLog.issued
    ensures x in s.guestLog.registered ==> x in s.guestLog.issued
  {
  }

  lemma AnnouncedGrows(sent: seq<CtrlPacket>, j: nat, k: nat)
    requires j <= k || k >= |sent|
    ensures AnnouncedIn(sent, j) <= AnnouncedIn(sent, k)
  {
  }

  lemma HostRegisterBarrier(s: System, x: nat)
    requires Barrier(s) && Enabled(s, HostRegister(x))
    ensures Barrier(Apply(s, HostRegister(x)))
  {
    hide Pending, HostTable, Underway, AnnouncedOnce, AnnouncedIn, Callbacks, Has, Registered, EntryFor;
    var s' := Apply(s, HostRegister(x));
    WaitingIsIssued(s, x);
    RegisterPending(s, x, 0);
    RegisterTable(s, s', x, 0);
    SamePending(s'.host.table, s.hostLog, s'.hostLog);
    SameGuestTable(s, s');
    RegisterUnderway(s, s', x);
  }

  lemma WaitingIsIssued(s: System, x: nat)
    requires Underway(s) && x in s.host.waitingReads
    ensures x in s.hostLog.issued && x !in s.hostLog.registered
  {
  }

  lemma RegisterUnderway(s: System, s': System, x: nat)
    requires Underway(s) && Enabled(s, HostRegister(x)) && s' == Apply(s, HostRegister(x))
    ensures Underway(s')
  {
    hide Registered, EntryFor;
  }

  // ----- completion -----

  lemma CompleteBarrier(s: System, onHost: bool, x: nat)
    requires Barrier(s) && Enabled(s, Complete(onHost, x))
    ensures Barrier(Apply(s, Complete(onHost, x)))
  {
    hide Pending, HostTable, GuestTable, AnnouncedOnce, AnnouncedIn, Callbacks, Has, Underway, Completed;
    var s' := Apply(s, Complete(onHost, x));
    CompletePending(Me(s, onHost).table, LogOf(s, onHost), x);
    CompleteUnderway(s, s', onHost, x);
    if onHost {
      CompleteHostTable(s, s', x);
      SameGuestTable(s, s');
    } else {
      SameHostTable(s, s');
      CompleteGuestTable(s, s', x);
    }
  }

  lemma CompletePending(t: DiscTable, l: Log, x: nat)
    requires Pending(t, l) && x in l.flight
    ensures Pending(Completed(t, l.flight[x]), CompletedLog(l, x))
    ensures forall y: nat :: Has(Completed(t, l.flight[x]), y) <==> Has(t, y)
  {
    hide Has;
    SameReadKept(t, l.flight[x], t[l.flight[x]].(state := Returned));
  }

  lemma CompleteUnderway(s: System, s': System, onHost: bool, x: nat)
    requires Underway(s) && Enabled(s, Complete(onHost, x)) && s' == Apply(s, Complete(onHost, x))
    ensures Underway(s')
  {
    hide Completed;
  }

  lemma CompleteHostTable(s: System, s': System, x: nat)
    requires Barrier(s) && Enabled(s, Complete(true, x)) && s' == Apply(s, Complete(true, x))
    ensures HostTable(s')
  {
    hide Has, AnnouncedIn, Underway, GuestTable, AnnouncedOnce, Callbacks;
    CompletePending(s.host.table, s.hostLog, x);
  }

  lemma CompleteGuestTable(s: System, s': System, x: nat)
    requires Barrier(s) && Enabled(s, Complete(false, x)) && s' == Apply(s, Complete(false, x))
    ensures GuestTable(s')
  {
    hide Has, AnnouncedIn, Underway, HostTable, AnnouncedOnce, Callbacks;
    CompletePending(s.guest.table, s.guestLog, x);
  }

  // ----- issuing -----

  lemma IssueBarrier(s: System, onHost: bool, x: nat)
    requires Barrier(s) && Enabled(s, Issue(onHost, x))
    ensures Barrier(Apply(s, Issue(onHost, x)))
  {
    hide Pending, HostTable, GuestTable, AnnouncedOnce, AnnouncedIn, Callbacks, Has, Underway, Allocated, EntryFor;
    var s' := Apply(s, Issue(onHost, x));
    IssuePending(Me(s, onHost).table, LogOf(s, onHost), x);
    IssueUnderway(s, s', onHost, x);
    if onHost {
      IssueHostTable(s, s', x);
      SameGuestTable(s, s');
    } else {
      SameHostTable(s, s');
      IssueGuestTable(s, s', x);
    }
  }

  lemma IssuePending(t: DiscTable, l: Log, x: nat)
    requires Pending(t, l) && x !in l.issued && x != 0 && EntryFor(t, x) < IOCTL_BUFFER_SIZE
    ensures Pending(Allocated(t, x), IssuedLog(t, l, x))
  {
    hide Has, FindSector, FindUnused;
    AllocatedHas(t, x);
  }

  lemma IssueUnderway(s: System, s': System, onHost: bool, x: nat)
    requires Underway(s) && Enabled(s, Issue(onHost, x)) && s' == Apply(s, Issue(onHost, x))
    ensures Underway(s')
  {
    hide Allocated, EntryFor;
  }

  lemma IssueHostTable(s: System, s': System, x: nat)
    requires Barrier(s) && Enabled(s, Issue(true, x)) && s' == Apply(s, Issue(true, x))
    ensures HostTable(s')
  {
    hide Pending, Underway, GuestTable, AnnouncedOnce, AnnouncedIn, Callbacks, Has, EntryFor, FindSector, FindUnused,
      Allocated;
    HostDistinct(s);
    RegistersAreIssued(s, x);
    AllocatedHas(s.host.table, x);
    NotFiredYet(s, x);
    var t', i := s'.host.table, EntryFor(s.host.table, x);
    forall k | 0 <= k < IOCTL_BUFFER_SIZE && Live(t'[k])
      ensures t'[k].have0 == (t'[k].sector in s'.hostLog.registered)
              && t'[k].have1 == (t'[k].sector in s'.guestLog.registered)
              && (t'[k].sector in AnnouncedIn(s'.sent, |s'.sent|) ==> t'[k].haveSent)
    {
      if k != i || Has(s.host.table, x) { assert t'[k] == s.host.table[k]; }
    }
  }

  lemma IssueGuestTable(s: System, s': System, x: nat)
    requires Barrier(s) && Enabled(s, Issue(false, x)) && s' == Apply(s, Issue(false, x))
    ensures GuestTable(s')
  {
    hide Pending, Underway, HostTable, AnnouncedOnce, AnnouncedIn, Callbacks, Has, EntryFor, FindSector, FindUnused,
      Allocated;
    HostDistinct(s);
    RegistersAreIssued(s, x);
    AllocatedHas(s.guest.table, x);
    NotFiredYet(s, x);
  }

  // ----- announcing -----

  lemma {:induction false} CallbacksPrefix(sent: seq<CtrlPacket>, p: CtrlPacket, f: nat)
    requires f < |sent| || f == 0
    ensures Callbacks(sent + [p], f) == Callbacks(sent, f)
  {
    if f > 0 { CallbacksPrefix(sent, p, f - 1); }
  }

  lemma AnnouncedMore(sent: seq<CtrlPacket>, p: CtrlPacket, k: nat)
    ensures k <= |sent| ==> AnnouncedIn(sent + [p], k) == AnnouncedIn(sent, k)
    ensures AnnouncedIn(sent + [p], |sent| + 1)
         == AnnouncedIn(sent, |sent|) + if sent != [] && p.callbackSector != 0 then {p.callbackSector} else {}
  {
    var sent' := sent + [p];
    var more: set<nat> := if sent != [] && p.callbackSector != 0 then {p.callbackSector} else {};
    var all := AnnouncedIn(sent, |sent|) + more;
    forall x: nat ensures x in AnnouncedIn(sent', |sent| + 1) <==> x in all {
      if x in AnnouncedIn(sent, |sent|) {
        var n: nat :| 0 < n < |sent| && sent[n].callbackSector != 0 && x == sent[n].callbackSector;
        assert sent'[n] == sent[n];
      }
      if x in more { assert sent'[|sent|] == p; }
    }
    if k <= |sent| {
      forall x: nat ensures x in AnnouncedIn(sent', k) <==> x in AnnouncedIn(sent, k) {
        if x in AnnouncedIn(sent, k) {
          var n: nat :| 0 < n < k && n < |sent| && sent[n].callbackSector != 0 && x == sent[n].callbackSector;
          assert sent'[n] == sent[n];
        }
      }
    }
  }

  /** What the next frame announces is new, and both consoles have issued it. */
  lemma AnnouncesNew(s: System, step: Step)
    requires Barrier(s) && step.HostSend?
    ensures var t, x := s.host.table, ReadySector(s.host.table, IOCTL_BUFFER_SIZE);
            && (x != 0 ==>
                 x in s.hostLog.registered && x in s.guestLog.registered && x !in AnnouncedIn(s.sent, |s.sent|))
            && (forall k :: 0 <= k < IOCTL_BUFFER_SIZE && Live(t[k]) && x != 0 && t[k].sector == x ==> Ready(t[k]))
  {
    hide Pending, Underway, GuestTable, AnnouncedOnce, AnnouncedIn, Callbacks, Has;
    HostDistinct(s);
    NoSectorZero(s);
    var t, x := s.host.table, ReadySector(s.host.table, IOCTL_BUFFER_SIZE);
  }

  lemma NoSectorZero(s: System)
    requires Barrier(s)
    ensures forall k :: 0 <= k < IOCTL_BUFFER_SIZE && Live(s.host.table[k]) ==> s.host.table[k].sector != 0
  {
    forall k | 0 <= k < IOCTL_BUFFER_SIZE && Live(s.host.table[k]) ensures s.host.table[k].sector != 0 {
      assert Match(s.host.table[k], s.host.table[k].sector);
      assert Has(s.host.table, s.host.table[k].sector);
    }
  }

  lemma SendBarrier(s: System, game: int)
    requires Barrier(s) && Counts(s) && Enabled(s, HostSend(game))
    ensures Barrier(Apply(s, HostSend(game)))
  {
    hide Pending, HostTable, GuestTable, AnnouncedOnce, AnnouncedIn, Callbacks, Has, Announced, ReadySector, Slot, Put,
      Disconnected;
    var s', p := Apply(s, HostSend(game)), PacketToSend(s.host, game);
    AnnouncesNew(s, HostSend(game));
    SendTables(s, s', game);
    SendOnce(s, p, game);
    AnnouncedMore(s.sent, p, s.host.frameCount + 1);
    AnnouncedMore(s.sent, p, s.guest.frameCount + 1);
    CallbacksPrefix(s.sent, p, s.host.frameCount);
    CallbacksPrefix(s.sent, p, s.guest.frameCount);
    FrameZeroSilent(s, p);
  }

  /** Before the first frame is sent both consoles are at frame 0. */
  lemma FrameZeroSilent(s: System, p: CtrlPacket)
    requires Counts(s)
    ensures AnnouncedIn(s.sent + [p], s.host.frameCount + 1) == AnnouncedIn(s.sent, s.host.frameCount + 1)
    ensures AnnouncedIn(s.sent + [p], s.guest.frameCount + 1) == AnnouncedIn(s.sent, s.guest.frameCount + 1)
  {
    AnnouncedMore(s.sent, p, s.host.frameCount + 1);
    AnnouncedMore(s.sent, p, s.guest.frameCount + 1);
    if s.sent == [] {
      assert AnnouncedIn([p], 1) == {} && AnnouncedIn([], 1) == {};
      assert s.sent + [p] == [p];
    }
  }

  lemma SendOnce(s: System, p: CtrlPacket, game: int)
    requires AnnouncedOnce(s.sent)
    requires p.callbackSector != 0 ==> p.callbackSector !in AnnouncedIn(s.sent, |s.sent|)
    ensures AnnouncedOnce(s.sent + [p])
  {
    var sent' := s.sent + [p];
    forall m, n | 0 < m < n < |sent'| && sent'[m].callbackSector != 0
      ensures sent'[n].callbackSector != sent'[m].callbackSector
    {
      if n == |s.sent| { assert s.sent[m].callbackSector in AnnouncedIn(s.sent, |s.sent|); }
    }
  }

  lemma AnnouncedHas(t: DiscTable)
    requires Distinct(t)
    ensures Distinct(Announced(t)) && forall x: nat :: Has(Announced(t), x) <==> Has(t, x)
  {
    var t' := Announced(t);
    forall x: nat ensures Has(t', x) <==> Has(t, x) {
      if Has(t, x) { var k :| 0 <= k < IOCTL_BUFFER_SIZE && Match(t[k], x); assert Match(t'[k], x); }
      if Has(t', x) { var k :| 0 <= k < IOCTL_BUFFER_SIZE && Match(t'[k], x); assert Match(t[k], x); }
    }
  }

  lemma AnnouncedPending(t: DiscTable, l: Log)
    requires Pending(t, l)
    ensures Pending(Announced(t), l)
  {
    hide Has;
    AnnouncedHas(t);
  }

  lemma SendTables(s: System, s': System, game: int)
    requires Barrier(s) && Counts(s) && Enabled(s, HostSend(game)) && s' == Apply(s, HostSend(game))
    ensures Pending(s'.host.table, s'.hostLog) && HostTable(s') && GuestTable(s')
  {
    hide Pending, Underway, AnnouncedOnce, AnnouncedIn, Callbacks, ReadySector, Slot, Put, Disconnected, Has;
    var p := PacketToSend(s.host, game);
    HostDistinct(s);
    AnnouncedHas(s.host.table);
    AnnouncedPending(s.host.table, s.hostLog);
    AnnouncesNew(s, HostSend(game));
    AnnouncedMore(s.sent, p, |s.sent|);
    FrameZeroSilent(s, p);
  }

  // ----- calling back -----

  lemma NextAnnounced(sent: seq<CtrlPacket>, f: nat)
    requires f + 1 < |sent| && AnnouncedOnce(sent)
    ensures var x := sent[f + 1].callbackSector;
            && AnnouncedIn(sent, f + 2) == AnnouncedIn(sent, f + 1) + (if x != 0 then {x} else {})
            && (x != 0 ==> x in AnnouncedIn(sent, |sent|) && x !in AnnouncedIn(sent, f + 1))
  {
    var more: set<nat> := if sent[f + 1].callbackSector != 0 then {sent[f + 1].callbackSector} else {};
    var all := AnnouncedIn(sent, f + 1) + more;
    forall y: nat ensures y in AnnouncedIn(sent, f + 2) <==> y in all {
      if y in more { assert sent[f + 1].callbackSector == y; }
    }
  }

  lemma FiredPending(t: DiscTable, l: Log, x: nat)
    requires Pending(t, l) && (x != 0 ==> Has(t, x)) && !Blocked(t, x)
    ensures Pending(Fired(t, x), l)
    ensures forall y: nat :: Has(Fired(t, x), y) <==> Has(t, y) && (x == 0 || y != x)
    ensures forall k :: 0 <= k < IOCTL_BUFFER_SIZE && Live(Fired(t, x)[k]) ==> Fired(t, x)[k] == t[k]
    ensures x != 0 ==> x in l.completed && FindSector(t, x, 0) < IOCTL_BUFFER_SIZE
  {
    hide Has;
    FindHas(t, x);
    if x != 0 { ReadRemoved(t, FindSector(t, x, 0)); }
  }

  /** Moving to a frame: the callback it announces, if any, is there to be made. */
  lemma AdvanceBarrier(s: System, onHost: bool)
    requires Barrier(s) && Lockstep(s) && Enabled(s, Advance(onHost))
    ensures Barrier(Apply(s, Advance(onHost)))
    ensures Slot(Me(s, onHost).ring, Me(s, onHost).frameCount + 1).callbackSector != 0 ==>
              Has(Me(s, onHost).table, Slot(Me(s, onHost).ring, Me(s, onHost).frameCount + 1).callbackSector)
  {
    hide Barrier, Lockstep, Has, Slot, Apply;
    if onHost { HostAdvanceBarrier(s); } else { GuestAdvanceBarrier(s); }
  }

  /** The next frame says the same about reads on this console as it did when it was sent. */
  lemma NextSector(s: System, onHost: bool)
    requires Lockstep(s) && Enabled(s, Advance(onHost))
    ensures var f := Me(s, onHost).frameCount;
            f + 1 < |s.sent| && Slot(Me(s, onHost).ring, f + 1).callbackSector == s.sent[f + 1].callbackSector
  {
    var f := Me(s, onHost).frameCount;
    if onHost { assert HostFrame(s, f + 1); } else { assert GuestFrame(s, f + 1); }
  }

  lemma HostAdvanceBarrier(s: System)
    requires Barrier(s) && Lockstep(s) && Enabled(s, Advance(true))
    ensures Barrier(Apply(s, Advance(true)))
    ensures Slot(s.host.ring, s.host.frameCount + 1).callbackSector != 0 ==>
              Has(s.host.table, Slot(s.host.ring, s.host.frameCount + 1).callbackSector)
  {
    hide Pending, GuestTable, AnnouncedIn, AnnouncedOnce, Underway, Has, Blocked, Fired, FindSector, Slot, Put,
      Lockstep, Recycled;
    NextSector(s, true);
    var s', f := Apply(s, Advance(true)), s.host.frameCount;
    var x := s.sent[f + 1].callbackSector;
    NextAnnounced(s.sent, f);
    CanAdvanceUnblocked(s.host);
    FiredPending(s.host.table, s.hostLog, x);
    SamePending(s'.host.table, s.hostLog, s'.hostLog);
    SameGuestTable(s, s');
    SameUnderway(s, s');
  }

  lemma CanAdvanceUnblocked(c: Console)
    requires CanAdvance(c)
    ensures !Blocked(c.table, Slot(c.ring, c.frameCount + 1).callbackSector)
  {
  }

  lemma SameUnderway(s: System, s': System)
    requires Underway(s) && s'.toHost == s.toHost && s'.guest.sendBuffer == s.guest.sendBuffer
    requires s'.guest.waitingReads == s.guest.waitingReads && s'.host.waitingReads == s.host.waitingReads
    requires s'.guestLog.issued == s.guestLog.issued && s'.guestLog.registered == s.guestLog.registered
    requires s'.hostLog.issued == s.hostLog.issued && s'.hostLog.registered == s.hostLog.registered
    ensures Underway(s')
  {
  }

  lemma GuestAdvanceBarrier(s: System)
    requires Barrier(s) && Lockstep(s) && Enabled(s, Advance(false))
    ensures Barrier(Apply(s, Advance(false)))
    ensures Slot(s.guest.ring, s.guest.frameCount + 1).callbackSector != 0 ==>
              Has(s.guest.table, Slot(s.guest.ring, s.guest.frameCount + 1).callbackSector)
  {
    hide Pending, HostTable, AnnouncedIn, AnnouncedOnce, Underway, Has, Blocked, Fired, FindSector, Slot, Put,
      Lockstep, Recycled;
    NextSector(s, false);
    var s', f := Apply(s, Advance(false)), s.guest.frameCount;
    var x := s.sent[f + 1].callbackSector;
    NextAnnounced(s.sent, f);
    CanAdvanceUnblocked(s.guest);
    RegistersAreIssued(s, x);
    FiredPending(s.guest.table, s.guestLog, x);
    SamePending(s'.guest.table, s.guestLog, s'.guestLog);
    SameHostTable(s, s');
    SameUnderway(s, s');
  }

  lemma StepBarrier(s: System, step: Step)
    requires Barrier(s) && Lockstep(s) && Enabled(s, step)
    ensures Barrier(Apply(s, step))
  {
    match step {
      case HostRead(_) => QuietKeeps(s, step);
      case GuestRead(_) => QuietKeeps(s, step);
      case GuestQueueInput => QuietKeeps(s, step);
      case GuestQueueRead(sector) => QueueReadBarrier(s, sector);
      case Transmit => QuietKeeps(s, step);
      case HostTake => TakeBarrier(s);
      case HostSend(game) => SendBarrier(s, game);
      case GuestTake => QuietKeeps(s, step);
      case Advance(onHost) => AdvanceBarrier(s, onHost);
      case Issue(onHost, sector) => IssueBarrier(s, onHost, sector);
      case HostRegister(sector) => HostRegisterBarrier(s, sector);
      case Complete(onHost, sector) => CompleteBarrier(s, onHost, sector);
    }
  }

  lemma {:induction false} RunBarrier(states: seq<System>, steps: seq<Step>, i: nat)
    requires Timely(states, steps) && i <= |steps|
    ensures Barrier(states[i])
  {
    if i == 0 {
      StartBarrier();
    } else {
      RunBarrier(states, steps, i - 1);
      RunLockstep(states, steps, i - 1);
      StepBarrier(states[i - 1], steps[i - 1]);
    }
  }

  // ----- what it means -----

  /** A callback at a frame up to `f`, of the read that this frame announces. */
  predicate CallbackOf(sent: seq<CtrlPacket>, f: nat, x: nat, n: nat) {
    0 < n <= f && n < |sent| && x == sent[n].callbackSector && x != 0
  }

  lemma {:induction false} CallbacksInOrder(sent: seq<CtrlPacket>, f: nat, c: seq<(nat, nat)>)
    requires c == Callbacks(sent, f)
    ensures forall k :: 0 <= k < |c| ==> CallbackOf(sent, f, c[k].0, c[k].1)
    ensures forall j, k :: 0 <= j < k < |c| ==> c[j].1 < c[k].1
  {
    if f != 0 && f < |sent| {
      var before, x := Callbacks(sent, f - 1), sent[f].callbackSector;
      CallbacksInOrder(sent, f - 1, before);
      assert c == if x == 0 then before else before + [(x, f)];
      forall k | 0 <= k < |c| ensures CallbackOf(sent, f, c[k].0, c[k].1) {
        assert k < |before| ==> c[k] == before[k];
      }
    }
  }

  /** Every frame up to `f` that announces a read makes its callback. */
  lemma {:induction false} CallbacksHave(sent: seq<CtrlPacket>, f: nat, n: nat)
    requires 0 < n <= f < |sent| && sent[n].callbackSector != 0
    ensures (sent[n].callbackSector, n) in Callbacks(sent, f)
  {
    if n < f { CallbacksHave(sent, f - 1, n); }
  }

  lemma {:induction false} CallbacksExtend(sent: seq<CtrlPacket>, f: nat, g: nat)
    requires f <= g < |sent|
    ensures Callbacks(sent, f) <= Callbacks(sent, g)
    decreases g
  {
    if f < g { CallbacksExtend(sent, f, g - 1); }
  }

  /** On every run: a console makes the callback of a read at most once, only after both consoles
      issued the read and it completed here; and the callbacks that both have made are the same
      reads at the same frames. */
  lemma CallbackBarrier(states: seq<System>, steps: seq<Step>, i: nat, onHost: bool)
    requires Timely(states, steps) && i <= |steps|
    ensures var s := states[i];
            var mine := LogOf(s, onHost).fired;
            && (forall j, k :: 0 <= j < k < |mine| ==> mine[j].0 != mine[k].0)
            && (forall k :: 0 <= k < |mine| ==>
                  mine[k].0 in s.hostLog.issued && mine[k].0 in s.guestLog.issued
                      && mine[k].0 in LogOf(s, onHost).completed)
            && (s.hostLog.fired <= s.guestLog.fired || s.guestLog.fired <= s.hostLog.fired)
  {
    hide Pending, HostTable, GuestTable, AnnouncedIn, Has, Lockstep;
    RunBarrier(states, steps, i);
    var s := states[i];
    var f := Me(s, onHost).frameCount;
    CallbacksInOrder(s.sent, f, LogOf(s, onHost).fired);
    forall k | 0 <= k < |LogOf(s, onHost).fired|
      ensures LogOf(s, onHost).fired[k].0 in s.hostLog.issued && LogOf(s, onHost).fired[k].0 in s.guestLog.issued
              && LogOf(s, onHost).fired[k].0 in LogOf(s, onHost).completed
    {
      var c := LogOf(s, onHost).fired[k];
      AnnouncedAt(s.sent, c.1, f + 1);
      AnnouncedAt(s.sent, c.1, |s.sent|);
    }
    FramesReached(states, steps, i);
    if s.host.frameCount <= s.guest.frameCount {
      if s.host.frameCount > 0 { CallbacksExtend(s.sent, s.host.frameCount, s.guest.frameCount); }
    } else {
      if s.guest.frameCount > 0 { CallbacksExtend(s.sent, s.guest.frameCount, s.host.frameCount); }
    }
  }

  lemma AnnouncedAt(sent: seq<CtrlPacket>, n: nat, k: nat)
    requires 0 < n < k && n < |sent| && sent[n].callbackSector != 0
    ensures sent[n].callbackSector in AnnouncedIn(sent, k)
  {
  }

  lemma FramesReached(states: seq<System>, steps: seq<Step>, i: nat)
    requires Timely(states, steps) && i <= |steps|
    ensures var s := states[i];
            (s.host.frameCount > 0 ==> s.host.frameCount < |s.sent|)
               && (s.guest.frameCount > 0 ==> s.guest.frameCount < |s.sent|)
  {
    RunLockstep(states, steps, i);
  }

  /** A console never moves to a frame that names a read it does not know: the "unknown callback"
      branch of the retrace handler is never taken. */
  lemma CallbackKnown(states: seq<System>, steps: seq<Step>, i: nat)
    requires Timely(states, steps) && i < |steps| && steps[i].Advance?
    ensures var c := Me(states[i], steps[i].onHost);
            var x := Slot(c.ring, c.frameCount + 1).callbackSector;
            x != 0 ==>
                  FindSector(c.table, x, 0) < IOCTL_BUFFER_SIZE && c.table[FindSector(c.table, x, 0)].state == Returned
  {
    hide Barrier, Lockstep, Has, Slot, Apply, FindSector;
    RunBarrier(states, steps, i);
    RunLockstep(states, steps, i);
    var s, b := states[i], steps[i].onHost;
    AdvanceBarrier(s, b);
    FindHas(Me(s, b).table, Slot(Me(s, b).ring, Me(s, b).frameCount + 1).callbackSector);
    CanAdvanceUnblocked(Me(s, b));
  }
}

/** What more outstanding reads than the host's table has entries can do: a run after which the guest's
    packets never get past a disc read that the host has no entry for. */
module NetFullTable {
  import opened NetConsole
  import opened NetSystem
  import NetFrameFive

  /** The packet that the host has to take next reports read `x`, no entry is or will be free for it, and the guest's
      inputs for the frames after `f` have not got past it. */
  ghost predicate Jammed(s: System, x: nat, f: nat) {
    && s.toHost != [] && s.toHost[0].DiscRead? && s.toHost[0].sector == x
    && FullOfOthers(s.host.table, x) && NamesNone(s.host.ring, s.host.table)
    && s.host.frameCount <= f && BUFFER_SIZE <= f && HeardUpTo(s.host.ring, f)
  }

  /** The entries are all in use for other reads, which the guest has not reported. */
  predicate FullOfOthers(t: DiscTable, x: nat) {
    forall i :: 0 <= i < IOCTL_BUFFER_SIZE ==> Live(t[i]) && !t[i].have1 && t[i].sector != x && t[i].sector != 0
  }

  predicate NamesNone(ring: Ring, t: DiscTable) {
    forall i, k :: 0 <= i < BUFFER_SIZE && 0 <= k < IOCTL_BUFFER_SIZE && ring[i].haveSentOrRecv ==>
      ring[i].callbackSector != t[k].sector
  }

  predicate HeardUpTo(ring: Ring, f: nat) {
    forall i :: 0 <= i < BUFFER_SIZE && ring[i].frameNumber > f ==> !ring[i].haveInput[CLIENTS_WIIMOTE]
  }

  /** Entries for the same reads, none of which the guest has reported. */
  predicate SameReads(t: DiscTable, t': DiscTable) {
    forall i :: 0 <= i < IOCTL_BUFFER_SIZE ==>
          t'[i].sector == t[i].sector && (Live(t[i]) ==> Live(t'[i])) && t'[i].have1 == t[i].have1
  }

  lemma FullKeepsReads(t: DiscTable, x: nat, y: nat)
    requires FullOfOthers(t, x) && EntryFor(t, y) < IOCTL_BUFFER_SIZE
    ensures y != x && SameReads(t, Allocated(t, y)) && SameReads(t, Registered(t, y, 0))
  {
  }

  lemma FullAnnouncesNone(t: DiscTable, x: nat, n: nat)
    requires FullOfOthers(t, x) && n <= IOCTL_BUFFER_SIZE
    ensures ReadySector(t, n) == 0 && Announced(t) == t
  {
  }

  lemma JammedKept(s: System, s': System, x: nat, f: nat)
    requires Jammed(s, x, f) && s.toHost <= s'.toHost && SameReads(s.host.table, s'.host.table)
    requires s'.host.ring == s.host.ring && s'.host.frameCount == s.host.frameCount
    ensures Jammed(s', x, f)
  {
  }

  lemma JammedSend(s: System, game: int, x: nat, f: nat)
    requires Jammed(s, x, f) && Enabled(s, HostSend(game))
    ensures Jammed(Apply(s, HostSend(game)), x, f)
  {
    hide Announced, ReadySector;
    FullAnnouncesNone(s.host.table, x, IOCTL_BUFFER_SIZE);
  }

  lemma JammedAdvance(s: System, x: nat, f: nat)
    requires Jammed(s, x, f) && Enabled(s, Advance(true))
    ensures Jammed(Apply(s, Advance(true)), x, f)
  {
    hide Blocked;
    var next := Slot(s.host.ring, s.host.frameCount + 1);
    assert Fired(s.host.table, next.callbackSector) == s.host.table;
  }

  lemma JammedStays(s: System, step: Step, x: nat, f: nat)
    requires Jammed(s, x, f) && Enabled(s, step)
    ensures Jammed(Apply(s, step), x, f) && !step.HostTake?
  {
    hide EntryFor, Registered, Allocated, Blocked, Fired, Announced, ReadySector;
    var s' := Apply(s, step);
    match step {
      case HostRead(pad) =>
      case HostTake => FullKeepsReads(s.host.table, x, x);
      case HostSend(game) => JammedSend(s, game, x, f);
      case Advance(onHost) => if onHost { JammedAdvance(s, x, f); } else { JammedKept(s, s', x, f); }
      case Issue(onHost, y) =>
        if onHost { FullKeepsReads(s.host.table, x, y); }
        JammedKept(s, s', x, f);
      case HostRegister(y) =>
        FullKeepsReads(s.host.table, x, y);
        JammedKept(s, s', x, f);
      case _ => JammedKept(s, s', x, f);
    }
  }

  /** On every continuation: the host takes no packet of the guest's any more and never gets past frame `f`. */
  lemma {:induction false} JammedForever(states: seq<System>, steps: seq<Step>, i: nat, j: nat, x: nat, f: nat)
    requires Run(states, steps) && i <= j <= |steps| && Jammed(states[i], x, f)
    ensures Jammed(states[j], x, f) && states[j].host.frameCount <= f
    ensures forall k :: i <= k < j ==> !steps[k].HostTake?
    decreases j
  {
    hide Jammed, Apply, Enabled;
    if i < j {
      JammedForever(states, steps, i, j - 1, x, f);
      JammedStays(states[j - 1], steps[j - 1], x, f);
    }
    JammedBehind(states[j], x, f);
  }

  lemma JammedBehind(s: System, x: nat, f: nat)
    requires Jammed(s, x, f)
    ensures s.host.frameCount <= f
  {
  }

  // ----- a run that gets there -----

  /** The host has issued the reads 1 to `n`, and nothing else has happened. */
  ghost predicate Issuing(s: System, n: nat) {
    && NetFrameFive.Reachable(s) && n <= IOCTL_BUFFER_SIZE
    && FirstReads(s.host.table, n)
    && |s.hostLog.issued| == n && (forall x :: x in s.hostLog.issued ==> x <= n) && s.host.ring == StartRing()
       && s.host.frameCount == 0
    && s.guest == StartConsole() && s.guestLog == StartLog() && s.toHost == []
  }

  predicate FirstReads(t: DiscTable, n: nat) {
    forall i :: 0 <= i < IOCTL_BUFFER_SIZE ==>
      if i < n then t[i] == DiscEntry(Called, i + 1, false, false, false) else !Live(t[i])
  }

  lemma NextFree(t: DiscTable, n: nat)
    requires FirstReads(t, n) && n < IOCTL_BUFFER_SIZE
    ensures EntryFor(t, n + 1) == n && FirstReads(Allocated(t, n + 1), n + 1)
  {
    hide FindSector, FindUnused;
    assert !Live(t[n]);
    assert forall i :: 0 <= i < n ==> t[i] == DiscEntry(Called, i + 1, false, false, false);
    var j, k := FindSector(t, n + 1, 0), FindUnused(t, 0);
  }

  lemma IssueNext(s: System, n: nat) returns (s': System)
    requires Issuing(s, n) && n < IOCTL_BUFFER_SIZE
    ensures Issuing(s', n + 1)
  {
    hide NetFrameFive.Reachable, StartRing, StartConsole, FirstReads, EntryFor, Allocated;
    NextFree(s.host.table, n);
    NetFrameFive.StepReachable(s, Issue(true, n + 1));
    s' := Apply(s, Issue(true, n + 1));
  }

  /** With 21 reads outstanding the two consoles can stop for good: the host has issued 20 reads, and the guest
      another one first. The host gets to frame 5 at most. */
  lemma TwentyOneReadsJam() returns (s: System)
    ensures NetFrameFive.Reachable(s) && |s.hostLog.issued| == 20 && s.guestLog.issued == {21}
            && 21 !in s.hostLog.issued
    ensures Jammed(s, 21, BUFFER_SIZE)
  {
    hide NetFrameFive.Reachable, EntryFor, Allocated;
    s := Start();
    NetFrameFive.StartReachable();
    var n := 0;
    while n < IOCTL_BUFFER_SIZE
      invariant n <= IOCTL_BUFFER_SIZE && Issuing(s, n)
    {
      s := IssueNext(s, n);
      n := n + 1;
    }
    s := GuestReports(s, 21);
  }

  /** The guest issues a read first of all, and its packet gets under way. */
  lemma GuestReports(s0: System, x: nat) returns (s: System)
    requires NetFrameFive.Reachable(s0) && s0.guest == StartConsole() && s0.guestLog == StartLog() && s0.toHost == []
             && x != 0
    ensures NetFrameFive.Reachable(s) && s.toHost == [DiscRead(1, x)] && s.guestLog.issued == {x}
    ensures s.host == s0.host && s.hostLog == s0.hostLog
  {
    hide NetFrameFive.Reachable, EntryFor, Allocated, StartRing;
    FreeEntry(x);
    NetFrameFive.StepReachable(s0, Issue(false, x));
    var s1 := Apply(s0, Issue(false, x));
    NetFrameFive.StepReachable(s1, GuestQueueRead(x));
    var s2 := Apply(s1, GuestQueueRead(x));
    NetFrameFive.StepReachable(s2, Transmit);
    s := Apply(s2, Transmit);
  }

  lemma FreeEntry(x: nat)
    ensures EntryFor(StartConsole().table, x) < IOCTL_BUFFER_SIZE
  {
  }
}

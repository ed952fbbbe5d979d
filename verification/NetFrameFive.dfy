/** Frame 5 is not covered by the agreement: a run in which the consoles hold different data for it.
    The host sends frame 5 with all controllers disconnected, and only then its controller thread puts its first
    reading, which is for frame 5, into the same slot. */
module NetFrameFive {
  import opened NetConsole
  import opened NetSystem
  import opened NetFrames

  /** Some run in which frame 5 comes in time leads here. */
  ghost predicate Reachable(s: System) {
    exists states, steps :: Timely(states, steps) && states[|steps|] == s
  }

  lemma StartReachable()
    ensures Reachable(Start())
  {
    var steps: seq<Step> := [];
    assert Timely([Start()], steps) && [Start()][|steps|] == Start();
  }

  lemma StepReachable(s: System, step: Step)
    requires Reachable(s) && Enabled(s, step) && !Early(s, step)
    ensures Reachable(Apply(s, step))
  {
    hide Apply, Enabled, Early;
    var states, steps :| Timely(states, steps) && states[|steps|] == s;
    var states', steps' := states + [Apply(s, step)], steps + [step];
    forall i | 0 <= i < |steps'|
      ensures Enabled(states'[i], steps'[i]) && states'[i + 1] == Apply(states'[i], steps'[i])
              && !Early(states'[i], steps'[i])
    {
      if i < |steps| { assert states'[i] == states[i] && states'[i + 1] == states[i + 1] && steps'[i] == steps[i]; }
    }
    assert Timely(states', steps') && states'[|steps'|] == Apply(s, step);
  }

  lemma ReachableLockstep(s: System)
    requires Reachable(s)
    ensures Lockstep(s)
  {
    var states, steps :| Timely(states, steps) && states[|steps|] == s;
    RunLockstep(states, steps, |steps|);
  }

  /** Both consoles are within the first frames, no disc read has been issued, and the host has sent
      frames with the controllers disconnected. `read` says whether the host has taken its first reading. */
  ghost predicate Opening(s: System, hostFrame: nat, sent: nat, guestFrame: nat, taken: nat, read: bool, pad: Pad) {
    && Reachable(s) && Lockstep(s)
    && s.host.frameCount == hostFrame <= 5 && s.host.position == sent <= 6
    && s.guest.frameCount == guestFrame <= 5 && s.guest.position == taken
    && s.host.nextInput == (if read then 6 else 5)
    && (forall i :: 0 <= i < IOCTL_BUFFER_SIZE ==> !Live(s.host.table[i]))
    && (forall n :: 0 <= n < |s.sent| ==>
         s.sent[n].callbackSector == 0 && s.sent[n].pads[0].status == STATUS_DISCONNECTED)
    && (read ==> sent == 6 && hostFrame >= 2 && Slot(s.host.ring, 5).pads[0] == pad)
    && (taken == 6 ==> Slot(s.guest.ring, 5).pads[0].status == STATUS_DISCONNECTED)
  }

  lemma NoneReady(t: DiscTable, n: nat)
    requires n <= IOCTL_BUFFER_SIZE && forall i :: 0 <= i < IOCTL_BUFFER_SIZE ==> !Live(t[i])
    ensures ReadySector(t, n) == 0 && Announced(t) == t
  {
  }

  lemma Send(s: System, f: nat, n: nat, pad: Pad) returns (s': System)
    requires Opening(s, f, n, 0, 0, false, pad) && n < f + BUFFER_SIZE && n <= 5
    ensures Opening(s', f, n + 1, 0, 0, false, pad)
  {
    assert HostFrame(s, n);
    NoneReady(s.host.table, IOCTL_BUFFER_SIZE);
    StepReachable(s, HostSend(0));
    s' := Apply(s, HostSend(0));
    ReachableLockstep(s');
  }

  lemma HostFrameNow(s: System, n: nat)
    requires Lockstep(s) && s.host.frameCount <= n < s.host.frameCount + BUFFER_SIZE
    ensures HostFrame(s, n)
    ensures n < s.host.position ==> n < |s.sent| && Slot(s.host.ring, n).callbackSector == s.sent[n].callbackSector
    ensures n <= 5 && n < s.host.position ==> HasInputs(Slot(s.host.ring, n))
  {
  }

  lemma GuestFrameNow(s: System, n: nat)
    requires Lockstep(s) && s.guest.frameCount <= n < s.guest.frameCount + BUFFER_SIZE
    ensures GuestFrame(s, n) && s.guest.position <= s.guest.frameCount + BUFFER_SIZE
    ensures n < s.guest.position ==> n < |s.sent| && Slot(s.guest.ring, n).callbackSector == s.sent[n].callbackSector
    ensures n <= 5 && n < s.guest.position ==> HasInputs(Slot(s.guest.ring, n))
  {
  }

  lemma HostOn(s: System, f: nat, n: nat, g: nat, taken: nat, read: bool, pad: Pad) returns (s': System)
    requires Opening(s, f, n, g, taken, read, pad) && f + 1 < n && f < 5
    ensures Opening(s', f + 1, n, g, taken, read, pad) && s'.guestLog == s.guestLog && s'.guest == s.guest
    ensures s'.hostLog.held == s.hostLog.held + [Slot(s.host.ring, f + 1)]
  {
    hide Lockstep, Reachable, Reading;
    HostFrameNow(s, f + 1);
    StepReachable(s, Advance(true));
    s' := Apply(s, Advance(true));
    if f > 0 { PutSlot(s.host.ring, f, Recycled(Slot(s.host.ring, f)), 5); }
    ReachableLockstep(s');
  }

  lemma ReadsLate(s: System, f: nat, pad: Pad) returns (s': System)
    requires Opening(s, f, 6, 0, 0, false, pad) && f >= 2
    ensures Opening(s', f, 6, 0, 0, true, pad)
  {
    assert HostFrame(s, 5);
    StepReachable(s, HostRead(pad));
    s' := Apply(s, HostRead(pad));
    ReachableLockstep(s');
  }

  lemma Take(s: System, f: nat, g: nat, n: nat, pad: Pad) returns (s': System)
    requires Opening(s, f, 6, g, n, true, pad) && n < 6 && g <= n < g + BUFFER_SIZE
    ensures Opening(s', f, 6, g, n + 1, true, pad) && s'.host == s.host && s'.hostLog == s.hostLog
  {
    assert GuestFrame(s, n) && SentFrame(s, n) && s.toGuest[0] == s.sent[n];
    StepReachable(s, GuestTake);
    s' := Apply(s, GuestTake);
    ReachableLockstep(s');
  }

  lemma GuestOn(s: System, f: nat, g: nat, taken: nat, pad: Pad) returns (s': System)
    requires Opening(s, f, 6, g, taken, true, pad) && g + 1 < taken && g < 5
    ensures Opening(s', f, 6, g + 1, taken, true, pad) && s'.hostLog == s.hostLog && s'.host == s.host
    ensures s'.guestLog.held == s.guestLog.held + [Slot(s.guest.ring, g + 1)]
  {
    hide Lockstep, Reachable, Reading;
    GuestFrameNow(s, g + 1);
    StepReachable(s, Advance(false));
    s' := Apply(s, Advance(false));
    if g > 0 { PutSlot(s.guest.ring, g, Recycled(Slot(s.guest.ring, g)), 5); }
    ReachableLockstep(s');
  }

  /** The host sends frames 0 to 4, moves to frame 1, sends frame 5 and moves to frame 2. */
  lemma HostSendsSix(pad: Pad) returns (s: System)
    ensures Opening(s, 2, 6, 0, 0, false, pad) && |s.hostLog.held| == 3
  {
    s := Start();
    StartReachable();
    StartLockstep();
    var n := 0;
    while n < 5
      invariant n <= 5 && Opening(s, 0, n, 0, 0, false, pad)
    {
      s := Send(s, 0, n, pad);
      n := n + 1;
    }
    s := HostOn(s, 0, 5, 0, 0, false, pad);
    s := Send(s, 1, 5, pad);
    s := HostOn(s, 1, 6, 0, 0, false, pad);
    HeldSizes(s);
  }

  lemma HeldSizes(s: System)
    requires Lockstep(s)
    ensures |s.hostLog.held| == s.host.frameCount + 1 && |s.guestLog.held| == s.guest.frameCount + 1
  {
  }

  /** There is a run in which both consoles have reached frame 5 and hold different data for it. */
  lemma FrameFiveDiffers(pad: Pad) returns (s: System)
    requires pad.status != STATUS_DISCONNECTED
    ensures Reachable(s) && s.host.frameCount == 5 && s.guest.frameCount == 5
    ensures |s.hostLog.held| == 6 && |s.guestLog.held| == 6
    ensures ViewOf(s.hostLog.held[5]) != ViewOf(s.guestLog.held[5])
  {
    hide Lockstep, Reachable, Reading;
    s := HostSendsSix(pad);
    s := ReadsLate(s, 2, pad);
    s := GuestCatchesUp(s, pad);
    var f := 2;
    while f < 5
      invariant 2 <= f <= 5 && Opening(s, f, 6, 5, 6, true, pad)
      invariant |s.guestLog.held| == 6 && s.guestLog.held[5].pads[0].status == STATUS_DISCONNECTED
      invariant f == 5 ==> s.hostLog.held != [] && s.hostLog.held[|s.hostLog.held| - 1].pads[0] == pad
    {
      s := HostOn(s, f, 6, 5, 6, true, pad);
      f := f + 1;
    }
    HeldSizes(s);
  }

  /** The guest takes frames 0 to 4, moves to frame 1, takes frame 5 and moves to frame 5. */
  lemma GuestCatchesUp(s0: System, pad: Pad) returns (s: System)
    requires Opening(s0, 2, 6, 0, 0, true, pad)
    ensures Opening(s, 2, 6, 5, 6, true, pad)
    ensures |s.guestLog.held| == 6 && s.guestLog.held[5].pads[0].status == STATUS_DISCONNECTED
  {
    hide Lockstep, Reachable, Reading;
    s := s0;
    var n := 0;
    while n < 5
      invariant n <= 5 && Opening(s, 2, 6, 0, n, true, pad)
    {
      s := Take(s, 2, 0, n, pad);
      n := n + 1;
    }
    s := GuestOn(s, 2, 0, 5, pad);
    s := Take(s, 2, 1, 5, pad);
    var g := 1;
    while g < 5
      invariant 1 <= g <= 5 && Opening(s, 2, 6, g, 6, true, pad)
      invariant g == 5 ==>
                  s.guestLog.held != [] && s.guestLog.held[|s.guestLog.held| - 1].pads[0].status == STATUS_DISCONNECTED
    {
      s := GuestOn(s, 2, g, 6, pad);
      g := g + 1;
    }
    HeldSizes(s);
  }

  /** There is also a run after which frame 5 can come early, with the guest still at frame 0; from
      then on the guest is stuck. */
  lemma EarlyFrameHappens(pad: Pad) returns (s: System)
    ensures Reachable(s) && Enabled(s, GuestTake) && Early(s, GuestTake) && Stuck(Apply(s, GuestTake).guest)
  {
    hide Reachable, Reading;
    s := HostSendsSix(pad);
    s := ReadsLate(s, 2, pad);
    var n := 0;
    while n < 5
      invariant n <= 5 && Opening(s, 2, 6, 0, n, true, pad)
    {
      s := Take(s, 2, 0, n, pad);
      n := n + 1;
    }
    GuestFrameNow(s, 0);
    SlotsRepeat(s.guest.ring, 0);
    assert SentFrame(s, 5) && s.toGuest[0] == s.sent[5];
    EarlyFrameSticks(s);
  }
}

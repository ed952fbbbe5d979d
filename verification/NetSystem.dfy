/** Two consoles and the streams between them as a step system: every interleaving of their
    threads, interrupts and disc reads is a run. */
module NetSystem {
  import opened NetConsole

  /** What has happened on one console so far: the readings of its controller thread from frame 5
      on, the frames it moved to as they were then, the disc reads issued, those whose packet the
      host has processed, those completed, and the callbacks made with their frames. `flight`
      says which table entry the disc will complete. */
  datatype Log = Log(
    readings: seq<Pad>,
    held: seq<CtrlPacket>,
    issued: set<nat>,
    registered: set<nat>,
    completed: set<nat>,
    fired: seq<(nat, nat)>,
    flight: map<nat, nat>)

  /** `sent` are the frames the host has sent, `taken` the frame of the guest's next reading for
      the host. */
  datatype System = System(
    host: Console, guest: Console,
    toGuest: seq<CtrlPacket>, toHost: seq<SendPacket>,
    sent: seq<CtrlPacket>, taken: nat,
    hostLog: Log, guestLog: Log)

  datatype Step =
    | HostRead(pad: Pad)
    | GuestRead(pad: Pad)
    | GuestQueueInput
    | GuestQueueRead(sector: nat)
    | Transmit
    | HostTake
    | HostSend(game: int)
    | GuestTake
    | Advance(onHost: bool)
    | Issue(onHost: bool, sector: nat)
    | HostRegister(sector: nat)
    | Complete(onHost: bool, sector: nat)

  function StartLog(): Log { Log([], [StartRing()[0]], {}, {}, {}, [], map[]) }

  function Start(): System { System(StartConsole(), StartConsole(), [], [], [], BUFFER_SIZE, StartLog(), StartLog()) }

  function Me(s: System, onHost: bool): Console { if onHost then s.host else s.guest }

  function LogOf(s: System, onHost: bool): Log { if onHost then s.hostLog else s.guestLog }

  function Update(s: System, onHost: bool, c: Console, l: Log): System {
    if onHost then s.(host := c, hostLog := l) else s.(guest := c, guestLog := l)
  }

  /** When a step can happen, by the code's own guards. */
  predicate Enabled(s: System, step: Step) {
    match step
    case HostRead(_) => CanRead(s.host) && CanDeliver(s.host, s.host.nextInput)
    case GuestRead(_) => CanRead(s.guest) && CanDeliver(s.guest, s.guest.nextInput)
    case GuestQueueInput => s.guest.waitingInput != [] && |s.guest.sendBuffer| < BUFFER_SIZE
    case GuestQueueRead(sector) => sector in s.guest.waitingReads && |s.guest.sendBuffer| < BUFFER_SIZE
    case Transmit => s.guest.sendBuffer != []
    case HostTake =>
      && s.toHost != []
      && (match s.toHost[0]
          case Input(frame, wiimote, _) => CanDeliver(s.host, frame) && wiimote < 4
          case DiscRead(_, sector) => EntryFor(s.host.table, sector) < IOCTL_BUFFER_SIZE)
    case HostSend(_) => CanSend(s.host)
    case GuestTake => s.toGuest != [] && CanReceive(s.guest, s.toGuest[0])
    case Advance(onHost) => CanAdvance(Me(s, onHost))
    case Issue(onHost, sector) =>
      && sector != 0 && sector !in LogOf(s, onHost).issued
      && EntryFor(Me(s, onHost).table, sector) < IOCTL_BUFFER_SIZE
    case HostRegister(sector) => sector in s.host.waitingReads && EntryFor(s.host.table, sector) < IOCTL_BUFFER_SIZE
    case Complete(onHost, sector) =>
          sector in LogOf(s, onHost).flight && LogOf(s, onHost).flight[sector] < IOCTL_BUFFER_SIZE
  }

  function Apply(s: System, step: Step): System
    requires Enabled(s, step)
  {
    match step
    case HostRead(pad) =>
          s.(host := HostReads(s.host, pad), hostLog := s.hostLog.(readings := s.hostLog.readings + [pad]))
    case GuestRead(pad) =>
          s.(guest := GuestReads(s.guest, pad), guestLog := s.guestLog.(readings := s.guestLog.readings + [pad]))
    case GuestQueueInput =>
      s.(guest := s.guest.(sendBuffer := s.guest.sendBuffer
          + [s.guest.waitingInput[0]], waitingInput := s.guest.waitingInput[1..]))
    case GuestQueueRead(sector) =>
      s.(guest := s.guest.(sendBuffer := s.guest.sendBuffer
          + [DiscRead(1, sector)], waitingReads := s.guest.waitingReads - {sector}))
    case Transmit =>
          s.(toHost := s.toHost + [s.guest.sendBuffer[0]], guest := s.guest.(sendBuffer := s.guest.sendBuffer[1..]))
    case HostTake =>
      (match s.toHost[0]
       case Input(frame, wiimote, pad) =>
         s.(host := Delivered(s.host, frame, wiimote, pad), taken := s.taken + 1, toHost := s.toHost[1..])
       case DiscRead(client, sector) => TakeDiscRead(s, client, sector).(toHost := s.toHost[1..]))
    case HostSend(game) => ApplySend(s, PacketToSend(s.host, game), game)
    case GuestTake => s.(guest := GuestReceives(s.guest, s.toGuest[0]), toGuest := s.toGuest[1..])
    case Advance(onHost) => Update(s, onHost, Advanced(Me(s, onHost)), AdvancedLog(Me(s, onHost), LogOf(s, onHost)))
    case Issue(onHost, sector) =>
      Update(s, onHost, Issued(Me(s, onHost), sector), IssuedLog(Me(s, onHost).table, LogOf(s, onHost), sector))
    case HostRegister(sector) => RegisterRead(s, sector)
    case Complete(onHost, sector) =>
      var c, l := Me(s, onHost), LogOf(s, onHost);
      Update(s, onHost, c.(table := Completed(c.table, l.flight[sector])), CompletedLog(l, sector))
  }

  function ApplySend(s: System, p: CtrlPacket, game: int): System {
    s.(host := HostSends(s.host, game), toGuest := s.toGuest + [p], sent := s.sent + [p])
  }

  function TakeDiscRead(s: System, client: nat, sector: nat): System
    requires EntryFor(s.host.table, sector) < IOCTL_BUFFER_SIZE
  {
    s.(host := s.host.(table := Registered(s.host.table, sector, client)),
       guestLog := s.guestLog.(registered := s.guestLog.registered + {sector}))
  }

  function AdvancedLog(c: Console, l: Log): Log {
    var next := Slot(c.ring, c.frameCount + 1);
    var calls := next.callbackSector != 0 && FindSector(c.table, next.callbackSector, 0) < IOCTL_BUFFER_SIZE;
    l.(held := l.held + [next],
       fired := if calls then l.fired + [(next.callbackSector, c.frameCount + 1)] else l.fired)
  }

  function Issued(c: Console, sector: nat): Console
    requires EntryFor(c.table, sector) < IOCTL_BUFFER_SIZE
  {
    c.(table := Allocated(c.table, sector), waitingReads := c.waitingReads + {sector})
  }

  function IssuedLog(t: DiscTable, l: Log, sector: nat): Log {
    l.(issued := l.issued + {sector}, flight := l.flight[sector := EntryFor(t, sector)])
  }

  function CompletedLog(l: Log, sector: nat): Log {
    l.(completed := l.completed + {sector}, flight := l.flight - {sector})
  }

  function RegisterRead(s: System, sector: nat): System
    requires EntryFor(s.host.table, sector) < IOCTL_BUFFER_SIZE
  {
    s.(host := s.host.(table := Registered(s.host.table, sector, 0), waitingReads := s.host.waitingReads - {sector}),
       hostLog := s.hostLog.(registered := s.hostLog.registered + {sector}))
  }

  /** The guest has left frame 0 by the time it gets frame 5. */
  predicate Early(s: System, step: Step) {
    step.GuestTake? && s.toGuest != [] && s.toGuest[0].frameNumber == BUFFER_SIZE && s.guest.frameCount == 0
  }

  /** The states a run goes through. */
  ghost predicate Run(states: seq<System>, steps: seq<Step>) {
    && |states| == |steps| + 1 && states[0] == Start()
    && forall i :: 0 <= i < |steps| ==> Enabled(states[i], steps[i]) && states[i + 1] == Apply(states[i], steps[i])
  }

  /** Runs in which no frame 5 comes early. */
  ghost predicate Timely(states: seq<System>, steps: seq<Step>) {
    Run(states, steps) && forall i :: 0 <= i < |steps| ==> !Early(states[i], steps[i])
  }
}

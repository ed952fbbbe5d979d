/** One console of a netplay session (modules/netslug_main/main.c): the ring of frames, the table
    of intercepted disc reads, and what each thread and the retrace interrupt do to them. */
module NetConsole {

  const BUFFER_SIZE: nat := 5
  const IOCTL_BUFFER_SIZE: nat := 20
  const HOSTS_WIIMOTE: nat := 0
  const CLIENTS_WIIMOTE: nat := 1
  const INPUTS_TO_WAIT_FOR: nat := 2
  const STATUS_DISCONNECTED: int := -1

  /** What one controller reports for one frame. */
  datatype Pad = Pad(format: int, status: int, extension: int, inputs: int, gravity: (int, int))

  const NO_PAD: Pad := Pad(0, 0, 0, 0, (0, 0))

  type Pads = s: seq<Pad> | |s| == 4 witness [NO_PAD, NO_PAD, NO_PAD, NO_PAD]
  type Flags = s: seq<bool> | |s| == 4 witness [false, false, false, false]

  const NO_FLAGS: Flags := [false, false, false, false]

  /** A frame: what the host sends for it and what the ring holds for it (struct ctrlPacket). */
  datatype CtrlPacket = CtrlPacket(
    frameNumber: nat,
    frameSeed: int,
    haveSentOrRecv: bool,
    haveInput: Flags,
    pads: Pads,
    callbackSector: nat,
    game: int)

  const NO_PACKET: CtrlPacket := CtrlPacket(0, 0, false, NO_FLAGS, [NO_PAD, NO_PAD, NO_PAD, NO_PAD], 0, 0)

  type Ring = s: seq<CtrlPacket> | |s| == BUFFER_SIZE witness [NO_PACKET, NO_PACKET, NO_PACKET, NO_PACKET, NO_PACKET]

  /** What a guest sends to the host (struct sendPacket). */
  datatype SendPacket =
    | Input(frame: nat, wiimote: nat, pad: Pad)
    | DiscRead(client: nat, sector: nat)

  /** An intercepted disc read: free, called, or completed. */
  datatype ReadState = Unused | Called | Returned

  datatype DiscEntry = DiscEntry(state: ReadState, sector: nat, have0: bool, have1: bool, haveSent: bool)

  const NO_ENTRY: DiscEntry := DiscEntry(Unused, 0, false, false, false)

  type DiscTable = s: seq<DiscEntry> | |s| == IOCTL_BUFFER_SIZE witness seq(IOCTL_BUFFER_SIZE, _ => NO_ENTRY)

  // ----- the ring of frames -----

  function Slot(ring: Ring, n: nat): CtrlPacket { ring[n % BUFFER_SIZE] }

  function Put(ring: Ring, n: nat, p: CtrlPacket): Ring { ring[n % BUFFER_SIZE := p] }

  lemma PutSlot(ring: Ring, n: nat, p: CtrlPacket, m: nat)
    requires m < n + BUFFER_SIZE && n < m + BUFFER_SIZE
    ensures Slot(Put(ring, n, p), m) == if m == n then p else Slot(ring, m)
  {
  }

  lemma SlotsRepeat(ring: Ring, n: nat)
    ensures Slot(ring, n + BUFFER_SIZE) == Slot(ring, n)
  {
  }

  function WithInput(p: CtrlPacket, wiimote: nat, pad: Pad): CtrlPacket
    requires wiimote < 4
  {
    p.(pads := p.pads[wiimote := pad], haveInput := p.haveInput[wiimote := true])
  }

  /** All controllers from `from` on are disconnected, and count as heard from. */
  function Disconnected(p: CtrlPacket, from: nat): CtrlPacket {
    p.(pads := seq(4, i requires 0 <= i < 4 =>
          if i >= from then p.pads[i].(status := STATUS_DISCONNECTED) else p.pads[i]),
       haveInput := seq(4, i requires 0 <= i < 4 => i >= from || p.haveInput[i]))
  }

  /** The first controller that the host disconnects in frame `n`. */
  function FirstAbsent(n: nat): nat { if n > BUFFER_SIZE then INPUTS_TO_WAIT_FOR else 0 }

  function NextSeed(seed: int): int { (seed * 1103515245 + 12345) % 0x1_0000_0000_0000_0000 }

  /** The frame that the host sends. */
  function Outgoing(p: CtrlPacket, n: nat, seed: int, game: int, sector: nat): CtrlPacket {
    Disconnected(p, FirstAbsent(n)).(frameSeed := seed, game := game, callbackSector := sector)
  }

  /** A received frame, with the inputs that only the guest has heard of so far. */
  function Merged(packet: CtrlPacket, slot: CtrlPacket): CtrlPacket {
    packet.(pads := seq(4, i requires 0 <= i < 4 =>
          if !packet.haveInput[i] && slot.haveInput[i] then slot.pads[i] else packet.pads[i]),
            haveInput := seq(4, i requires 0 <= i < 4 => packet.haveInput[i] || slot.haveInput[i]),
            haveSentOrRecv := true)
  }

  /** A slot after its frame was left: it is for the frame five later. */
  function Recycled(p: CtrlPacket): CtrlPacket {
    p.(haveSentOrRecv := false, haveInput := NO_FLAGS, frameNumber := p.frameNumber + BUFFER_SIZE)
  }

  predicate HasInputs(p: CtrlPacket) { p.haveInput[0] && p.haveInput[1] }

  // ----- the table of disc reads -----

  predicate Live(e: DiscEntry) { e.state != Unused }

  predicate Match(e: DiscEntry, sector: nat) { Live(e) && e.sector == sector }

  predicate Ready(e: DiscEntry) { Live(e) && !e.haveSent && e.have0 && e.have1 }

  /** The first entry from `i` on that is for this sector, or the table's length. */
  function FindSector(t: DiscTable, sector: nat, i: nat): (r: nat)
    requires i <= IOCTL_BUFFER_SIZE
    ensures i <= r <= IOCTL_BUFFER_SIZE
    ensures r < IOCTL_BUFFER_SIZE ==> Match(t[r], sector)
    ensures forall k :: i <= k < r ==> !Match(t[k], sector)
    decreases IOCTL_BUFFER_SIZE - i
  {
    if i == IOCTL_BUFFER_SIZE || Match(t[i], sector) then i else FindSector(t, sector, i + 1)
  }

  function FindUnused(t: DiscTable, i: nat): (r: nat)
    requires i <= IOCTL_BUFFER_SIZE
    ensures i <= r <= IOCTL_BUFFER_SIZE
    ensures r < IOCTL_BUFFER_SIZE ==> !Live(t[r])
    ensures forall k :: i <= k < r ==> Live(t[k])
    decreases IOCTL_BUFFER_SIZE - i
  {
    if i == IOCTL_BUFFER_SIZE || !Live(t[i]) then i else FindUnused(t, i + 1)
  }

  /** The entry for a sector: its own, else a free one; the table's length if there is neither. */
  function EntryFor(t: DiscTable, sector: nat): (r: nat)
    ensures r <= IOCTL_BUFFER_SIZE
  {
    var i := FindSector(t, sector, 0);
    if i < IOCTL_BUFFER_SIZE then i else FindUnused(t, 0)
  }

  function Allocated(t: DiscTable, sector: nat): (t': DiscTable)
    requires EntryFor(t, sector) < IOCTL_BUFFER_SIZE
  {
    var i := EntryFor(t, sector);
    if Live(t[i]) then t else t[i := DiscEntry(Called, sector, false, false, false)]
  }

  /** The entry that the disc completes. */
  function Completed(t: DiscTable, i: nat): DiscTable {
    if i < IOCTL_BUFFER_SIZE then t[i := t[i].(state := Returned)] else t
  }

  /** The entry marked as issued by a console. */
  function Registered(t: DiscTable, sector: nat, client: nat): (t': DiscTable)
    requires EntryFor(t, sector) < IOCTL_BUFFER_SIZE
  {
    var i, t' := EntryFor(t, sector), Allocated(t, sector);
    t'[i := if client == 0 then t'[i].(have0 := true) else t'[i].(have1 := true)]
  }

  /** Every read that both consoles have issued is announced; the last one in the table is the one
      that the frame names. */
  function Announced(t: DiscTable): DiscTable {
    seq(IOCTL_BUFFER_SIZE, i requires 0 <= i < IOCTL_BUFFER_SIZE =>
          if Ready(t[i]) then t[i].(haveSent := true) else t[i])
  }

  function ReadySector(t: DiscTable, n: nat): (r: nat)
    requires n <= IOCTL_BUFFER_SIZE
    ensures (exists i :: 0 <= i < n && Ready(t[i]) && t[i].sector == r && forall k :: i < k < n ==> !Ready(t[k]))
            || (r == 0 && forall i :: 0 <= i < n ==> !Ready(t[i]))
  {
    if n == 0 then 0 else if Ready(t[n - 1]) then t[n - 1].sector else ReadySector(t, n - 1)
  }

  /** The read that a frame announces has not completed here. */
  predicate Blocked(t: DiscTable, sector: nat) {
    sector != 0 && FindSector(t, sector, 0) < IOCTL_BUFFER_SIZE && t[FindSector(t, sector, 0)].state == Called
  }

  /** The table after the callback for a sector, if there was one to call. */
  function Fired(t: DiscTable, sector: nat): DiscTable {
    var i := FindSector(t, sector, 0);
    if sector != 0 && i < IOCTL_BUFFER_SIZE then t[i := t[i].(state := Unused)] else t
  }

  // ----- a console -----

  /** `position` is the next frame of the send thread on the host and the number of frames received
      on the guest; `nextInput` is the controller thread's next frame. A guest's packets go from
      the threads that wait for room (`waitingInput`, `waitingReads`) to the send buffer. On the
      host `waitingReads` are reads whose packet has not been processed yet. */
  datatype Console = Console(
    frameCount: nat,
    ring: Ring,
    table: DiscTable,
    position: nat,
    seed: int,
    nextInput: nat,
    waitingInput: seq<SendPacket>,
    waitingReads: set<nat>,
    sendBuffer: seq<SendPacket>)

  /** The ring has the frames 0 to 4, and none of them has been sent or received. */
  function StartRing(): Ring {
    [Disconnected(NO_PACKET, 0).(haveInput := NO_FLAGS), NO_PACKET.(frameNumber := 1), NO_PACKET.(frameNumber := 2),
     NO_PACKET.(frameNumber := 3), NO_PACKET.(frameNumber := 4)]
  }

  function StartConsole(): Console {
    Console(0, StartRing(), seq(IOCTL_BUFFER_SIZE, _ => NO_ENTRY), 0, 0, BUFFER_SIZE, [], {}, [])
  }

  /** The controller thread: a reading for the next frame, once that frame is near enough. */
  predicate CanRead(c: Console) { c.frameCount + BUFFER_SIZE > c.nextInput + 1 && c.waitingInput == [] }

  /** The reading goes into the ring slot of its frame, if that slot is for the frame by now. */
  predicate CanDeliver(c: Console, frame: nat) { Slot(c.ring, frame).frameNumber == frame }

  function Delivered(c: Console, frame: nat, wiimote: nat, pad: Pad): Console
    requires wiimote < 4
  {
    c.(ring := Put(c.ring, frame, WithInput(Slot(c.ring, frame), wiimote, pad)))
  }

  function HostReads(c: Console, pad: Pad): Console {
    Delivered(c, c.nextInput, HOSTS_WIIMOTE, pad).(nextInput := c.nextInput + 1)
  }

  function GuestReads(c: Console, pad: Pad): Console {
    Delivered(c, c.nextInput, CLIENTS_WIIMOTE, pad)
      .(nextInput := c.nextInput + 1, waitingInput := [Input(c.nextInput, CLIENTS_WIIMOTE, pad)])
  }

  /** The host's send thread. */
  predicate CanSend(c: Console) {
    && Slot(c.ring, c.position).frameNumber == c.position
    && (c.position > BUFFER_SIZE ==> Slot(c.ring, c.position).haveInput[HOSTS_WIIMOTE])
  }

  function PacketToSend(c: Console, game: int): CtrlPacket {
    Outgoing(Slot(c.ring, c.position), c.position, NextSeed(c.seed), game, ReadySector(c.table, IOCTL_BUFFER_SIZE))
  }

  function HostSends(c: Console, game: int): Console {
    c.(ring := Put(c.ring, c.position, PacketToSend(c, game).(haveSentOrRecv := true)),
       table := Announced(c.table), seed := NextSeed(c.seed), position := c.position + 1)
  }

  /** The guest's receive thread: a slot that still has frame number 0 is not waited for. */
  predicate CanReceive(c: Console, packet: CtrlPacket) {
    Slot(c.ring, c.position).frameNumber == 0 || Slot(c.ring, c.position).frameNumber == packet.frameNumber
  }

  function GuestReceives(c: Console, packet: CtrlPacket): Console {
    c.(ring := Put(c.ring, c.position, Merged(packet, Slot(c.ring, c.position))), position := c.position + 1)
  }

  /** The retrace interrupt: on to the next frame, if everything for it is there. */
  predicate CanAdvance(c: Console) {
    var next := Slot(c.ring, c.frameCount + 1);
    && next.frameNumber == c.frameCount + 1 && next.haveSentOrRecv && HasInputs(next)
    && !Blocked(c.table, next.callbackSector)
  }

  function Advanced(c: Console): Console {
    var next := Slot(c.ring, c.frameCount + 1);
    c.(frameCount := c.frameCount + 1,
       ring := Put(c.ring, c.frameCount, Recycled(Slot(c.ring, c.frameCount))),
       table := Fired(c.table, next.callbackSector))
  }

  /** What the game can see of a frame. */
  datatype View = View(pads: Pads, seed: int, callbackSector: nat, game: int)

  function ViewOf(p: CtrlPacket): View { View(p.pads, p.frameSeed, p.callbackSector, p.game) }
}

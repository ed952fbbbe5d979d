/** The threads and handlers of a console as they run (modules/netslug_main/main.c): the ring and the
    table are arrays that are updated in place. Each method does what the function of the same
    step says. A method that would have to wait returns false and changes nothing. */
module NetMachine {
  import opened NetConsole

  /** Whether entry `e` has been reported by client `j`. */
  function HaveCallback(e: DiscEntry, j: nat): bool { if j == 0 then e.have0 else e.have1 }

  class Machine {
    const ctrlBuffer: array<CtrlPacket>
    const ioctlBuffer: array<DiscEntry>
    var frameCount: nat
    var position: nat
    var frameSeed: int
    var nextFrameToSend: nat
    var waitingInput: seq<SendPacket>
    var waitingReads: set<nat>
    var sendBuffer: seq<SendPacket>

    ghost predicate Valid()
      reads this
    {
      ctrlBuffer.Length == BUFFER_SIZE && ioctlBuffer.Length == IOCTL_BUFFER_SIZE
    }

    ghost function State(): Console
      requires Valid()
      reads this, ctrlBuffer, ioctlBuffer
    {
      Console(frameCount, ctrlBuffer[..], ioctlBuffer[..], position, frameSeed, nextFrameToSend,
              waitingInput, waitingReads, sendBuffer)
    }

    constructor ()
      ensures Valid() && State() == StartConsole()
    {
      ctrlBuffer := new CtrlPacket[BUFFER_SIZE](i requires 0 <= i < BUFFER_SIZE => StartRing()[i]);
      ioctlBuffer := new DiscEntry[IOCTL_BUFFER_SIZE](_ => NO_ENTRY);
      frameCount, position, frameSeed, nextFrameToSend := 0, 0, 0, BUFFER_SIZE;
      waitingInput, waitingReads, sendBuffer := [], {}, [];
      new;
      assert ctrlBuffer[..] == StartRing();
      assert ioctlBuffer[..] == StartConsole().table;
    }

    /** Puts a controller reading into the slot of its frame. */
    method ProcessInput(frame: nat, wiimote: nat, pad: Pad) returns (done: bool)
      requires Valid() && wiimote < 4
      modifies ctrlBuffer
      ensures done == CanDeliver(old(State()), frame)
      ensures State() == if done then Delivered(old(State()), frame, wiimote, pad) else old(State())
    {
      var index := frame % BUFFER_SIZE;
      if ctrlBuffer[index].frameNumber != frame {
        return false;
      }
      var p := ctrlBuffer[index];
      ctrlBuffer[index] := p.(pads := p.pads[wiimote := pad], haveInput := p.haveInput[wiimote := true]);
      done := true;
    }

    /** The controller thread, with the reading it takes. */
    method ReadController(isHost: bool, pad: Pad) returns (done: bool)
      requires Valid()
      modifies this`nextFrameToSend, this`waitingInput, ctrlBuffer
      ensures Valid()
      ensures done == (CanRead(old(State())) && CanDeliver(old(State()), old(nextFrameToSend)))
      ensures State() == if !done then old(State()) else if isHost then HostReads(old(State()), pad)
              else GuestReads(old(State()), pad)
      ensures done == (old(nextFrameToSend) <= frameCount + 3 && old(waitingInput) == []
                       && old(ctrlBuffer[nextFrameToSend % 5].frameNumber) == old(nextFrameToSend))
    {
      if frameCount + BUFFER_SIZE <= nextFrameToSend + 1 || waitingInput != [] {
        return false;
      }
      done := ProcessInput(nextFrameToSend, if isHost then HOSTS_WIIMOTE else CLIENTS_WIIMOTE, pad);
      if done {
        if !isHost {
          waitingInput := [Input(nextFrameToSend, CLIENTS_WIIMOTE, pad)];
        }
        nextFrameToSend := nextFrameToSend + 1;
      }
    }

    /** The table entry for a sector: its own, or else a free one, which it becomes. */
    method IoctlBufferAllocator(sector: nat) returns (i: nat)
      requires Valid()
      modifies ioctlBuffer
      ensures i == EntryFor(old(State()).table, sector)
      ensures State() == if i < IOCTL_BUFFER_SIZE then old(State()).(table := Allocated(old(State()).table, sector))
              else old(State())
    {
      ghost var t: DiscTable := ioctlBuffer[..];
      i := 0;
      while i < IOCTL_BUFFER_SIZE && !(ioctlBuffer[i].state != Unused && ioctlBuffer[i].sector == sector)
        invariant i <= IOCTL_BUFFER_SIZE && FindSector(t, sector, 0) == FindSector(t, sector, i)
      {
        i := i + 1;
      }
      if i == IOCTL_BUFFER_SIZE {
        i := 0;
        while i < IOCTL_BUFFER_SIZE && ioctlBuffer[i].state != Unused
          invariant i <= IOCTL_BUFFER_SIZE && FindUnused(t, 0) == FindUnused(t, i)
        {
          i := i + 1;
        }
      }
      if i < IOCTL_BUFFER_SIZE && ioctlBuffer[i].state == Unused {
        ioctlBuffer[i] := DiscEntry(Called, sector, false, false, false);
      }
      assert ioctlBuffer[..] == if i < IOCTL_BUFFER_SIZE then Allocated(t, sector) else t;
    }

    /** The host hears that a console has issued a read. */
    method ProcessDiscRead(client: nat, sector: nat) returns (done: bool)
      requires Valid()
      modifies ioctlBuffer
      ensures done == (EntryFor(old(State()).table, sector) < IOCTL_BUFFER_SIZE)
      ensures State() == if done then old(State()).(table := Registered(old(State()).table, sector, client))
              else old(State())
    {
      var i := IoctlBufferAllocator(sector);
      if i == IOCTL_BUFFER_SIZE {
        return false;
      }
      ioctlBuffer[i] := if client == 0 then ioctlBuffer[i].(have0 := true) else ioctlBuffer[i].(have1 := true);
      done := true;
    }

    /** The disc has completed the read of entry `i`. */
    method OurCallback(i: nat)
      requires Valid() && i < IOCTL_BUFFER_SIZE
      modifies ioctlBuffer
      ensures State() == old(State()).(table := Completed(old(State()).table, i))
    {
      ioctlBuffer[i] := ioctlBuffer[i].(state := Returned);
    }

    /** The host disconnects the controllers from `from` on in the slot of the frame to send. */
    method DisconnectFrom(index: nat, from: nat)
      requires Valid() && index < BUFFER_SIZE && from <= 4
      modifies ctrlBuffer
      ensures ctrlBuffer[..] == old(ctrlBuffer[..])[index := Disconnected(old(ctrlBuffer[index]), from)]
    {
      ghost var p := ctrlBuffer[index];
      for i := from to 4
        invariant forall k :: 0 <= k < BUFFER_SIZE && k != index ==> ctrlBuffer[k] == old(ctrlBuffer[k])
        invariant ctrlBuffer[index] == p.(pads := ctrlBuffer[index].pads, haveInput := ctrlBuffer[index].haveInput)
        invariant forall k :: 0 <= k < 4 ==>
                    && ctrlBuffer[index].pads[k]
                       == (if from <= k < i then p.pads[k].(status := STATUS_DISCONNECTED) else p.pads[k])
                    && ctrlBuffer[index].haveInput[k] == (from <= k < i || p.haveInput[k])
      {
        var q := ctrlBuffer[index];
        ctrlBuffer[index] := q.(pads := q.pads[i := q.pads[i].(status := STATUS_DISCONNECTED)],
            haveInput := q.haveInput[i := true]);
      }
      assert ctrlBuffer[index].pads == Disconnected(p, from).pads
          && ctrlBuffer[index].haveInput == Disconnected(p, from).haveInput;
      assert ctrlBuffer[..] == old(ctrlBuffer[..])[index := Disconnected(p, from)];
    }

    /** Marks every read that both consoles have issued as announced; returns the last one. */
    method AnnounceReads() returns (sector: nat)
      requires Valid()
      modifies ioctlBuffer
      ensures sector == ReadySector(old(State()).table, IOCTL_BUFFER_SIZE)
      ensures State() == old(State()).(table := Announced(old(State()).table))
    {
      ghost var t: DiscTable := ioctlBuffer[..];
      sector := 0;
      for i := 0 to IOCTL_BUFFER_SIZE
        invariant sector == ReadySector(t, i)
        invariant forall k :: 0 <= k < IOCTL_BUFFER_SIZE ==> ioctlBuffer[k] == if k < i then Announced(t)[k] else t[k]
      {
        if ioctlBuffer[i].state != Unused && !ioctlBuffer[i].haveSent {
          var j := 0;
          while j < 2 && HaveCallback(ioctlBuffer[i], j)
            invariant j <= 2 && forall k :: 0 <= k < j ==> HaveCallback(ioctlBuffer[i], k)
          {
            j := j + 1;
          }
          if j == 2 {
            assert HaveCallback(ioctlBuffer[i], 0) && HaveCallback(ioctlBuffer[i], 1);
            ioctlBuffer[i] := ioctlBuffer[i].(haveSent := true);
            sector := ioctlBuffer[i].sector;
          }
        }
      }
      assert ioctlBuffer[..] == Announced(t);
    }

    /** One round of the host's send thread; `packet` is what goes to the guest. */
    method SendFrame(game: int) returns (done: bool, packet: CtrlPacket)
      requires Valid()
      modifies this`position, this`frameSeed, ctrlBuffer, ioctlBuffer
      ensures Valid() && done == CanSend(old(State()))
      ensures State() == if done then HostSends(old(State()), game) else old(State())
      ensures done ==> packet == PacketToSend(old(State()), game)
      ensures done ==>
                && packet.frameNumber == old(position) && packet.game == game
                && packet.frameSeed == (old(frameSeed) * 1103515245 + 12345) % 0x1_0000_0000_0000_0000 == frameSeed
                && (forall i :: 0 <= i < 4 ==>
                      packet.pads[i].status == -1 || (i < 2 && old(position) > 5))
                && packet.haveInput[2] && packet.haveInput[3] && packet.haveInput[0]
    {
      var index := position % BUFFER_SIZE;
      packet := ctrlBuffer[index];
      if ctrlBuffer[index].frameNumber != position
          || (position > BUFFER_SIZE && !ctrlBuffer[index].haveInput[HOSTS_WIIMOTE]) {
        return false, packet;
      }
      ghost var c := State();
      DisconnectFrom(index, if position > BUFFER_SIZE then INPUTS_TO_WAIT_FOR else 0);
      frameSeed := (frameSeed * 1103515245 + 12345) % 0x1_0000_0000_0000_0000;
      var sector := AnnounceReads();
      ctrlBuffer[index] := ctrlBuffer[index].(frameSeed := frameSeed, game := game, callbackSector := sector);
      packet := ctrlBuffer[index];
      ctrlBuffer[index] := ctrlBuffer[index].(haveSentOrRecv := true);
      position := position + 1;
      done := true;
      assert ctrlBuffer[..] == HostSends(c, game).ring;
    }

    /** One round of the guest's receive thread. */
    method ReceiveFrame(packet: CtrlPacket) returns (done: bool)
      requires Valid()
      modifies this`position, ctrlBuffer
      ensures Valid() && done == CanReceive(old(State()), packet)
      ensures State() == if done then GuestReceives(old(State()), packet) else old(State())
    {
      var index := position % BUFFER_SIZE;
      if ctrlBuffer[index].frameNumber != 0 && ctrlBuffer[index].frameNumber != packet.frameNumber {
        return false;
      }
      ghost var c, slot := State(), ctrlBuffer[index];
      var p := packet;
      for i := 0 to 4
        invariant p == packet.(pads := p.pads, haveInput := p.haveInput)
        invariant forall k :: 0 <= k < 4 ==>
                    && p.pads[k] == (if k < i && !packet.haveInput[k] && slot.haveInput[k] then slot.pads[k]
                       else packet.pads[k])
                    && p.haveInput[k] == (packet.haveInput[k] || (k < i && slot.haveInput[k]))
      {
        if !p.haveInput[i] && ctrlBuffer[index].haveInput[i] {
          p := p.(haveInput := p.haveInput[i := true], pads := p.pads[i := ctrlBuffer[index].pads[i]]);
        }
      }
      assert p.pads == Merged(packet, slot).pads && p.haveInput == Merged(packet, slot).haveInput;
      ctrlBuffer[index] := p;
      ctrlBuffer[index] := ctrlBuffer[index].(haveSentOrRecv := true);
      position := position + 1;
      done := true;
      assert ctrlBuffer[..] == GuestReceives(c, packet).ring;
    }

    /** The callback that a frame asks for: whether it is still to come, and its entry. */
    method FindCallback(sector: nat) returns (stall: bool, index: int)
      requires Valid()
      ensures stall == Blocked(State().table, sector)
      ensures !stall ==> index == if sector != 0 && FindSector(State().table, sector, 0) < IOCTL_BUFFER_SIZE
                                  then FindSector(State().table, sector, 0) else -1
    {
      stall, index := false, -1;
      if sector != 0 {
        ghost var t: DiscTable := ioctlBuffer[..];
        var i := 0;
        while i < IOCTL_BUFFER_SIZE
          invariant i <= IOCTL_BUFFER_SIZE && FindSector(t, sector, 0) == FindSector(t, sector, i)
        {
          if ioctlBuffer[i].state == Called && sector == ioctlBuffer[i].sector {
            return true, -1;
          }
          if ioctlBuffer[i].state == Returned && sector == ioctlBuffer[i].sector {
            return false, i;
          }
          i := i + 1;
        }
      }
    }

    /** The retrace interrupt. `called` is the read whose callback was made, or 0. */
    method Retrace() returns (stall: bool, called: nat)
      requires Valid()
      modifies this`frameCount, ctrlBuffer, ioctlBuffer
      ensures Valid() && stall == !CanAdvance(old(State()))
      ensures State() == if stall then old(State()) else Advanced(old(State()))
      ensures var x := Slot(old(State()).ring, old(frameCount) + 1).callbackSector;
              called == if !stall && x != 0 && FindSector(old(State()).table, x, 0) < IOCTL_BUFFER_SIZE then x else 0
    {
      ghost var c := State();
      called := 0;
      var last, next := frameCount % BUFFER_SIZE, (frameCount + 1) % BUFFER_SIZE;
      stall := ctrlBuffer[next].frameNumber != frameCount + 1 || !ctrlBuffer[next].haveSentOrRecv;
      var i := 0;
      while !stall && i < INPUTS_TO_WAIT_FOR
        invariant i <= INPUTS_TO_WAIT_FOR
        invariant stall <==> ctrlBuffer[next].frameNumber != frameCount + 1 || !ctrlBuffer[next].haveSentOrRecv
                             || exists k :: 0 <= k < i && !ctrlBuffer[next].haveInput[k]
      {
        if !ctrlBuffer[next].haveInput[i] {
          stall := true;
        }
        i := i + 1;
      }
      var index := -1;
      if !stall {
        stall, index := FindCallback(ctrlBuffer[next].callbackSector);
      }
      if !stall {
        MoveOn(last, next, index);
        called := if index != -1 then ctrlBuffer[next].callbackSector else 0;
      }
    }

    /** The frame counter moves, the callback's entry is freed, and the old slot is recycled. */
    method MoveOn(last: nat, next: nat, index: int)
      requires Valid() && CanAdvance(State()) && last == frameCount % BUFFER_SIZE
               && next == (frameCount + 1) % BUFFER_SIZE
      requires var t, x := State().table, ctrlBuffer[next].callbackSector;
               index == if x != 0 && FindSector(t, x, 0) < IOCTL_BUFFER_SIZE then FindSector(t, x, 0) else -1
      modifies this`frameCount, ctrlBuffer, ioctlBuffer
      ensures Valid() && State() == Advanced(old(State())) && ctrlBuffer[next] == old(ctrlBuffer[next])
    {
      ghost var c := State();
      frameCount := frameCount + 1;
      if index != -1 {
        ioctlBuffer[index] := ioctlBuffer[index].(state := Unused);
      }
      Recycle(last);
      assert ioctlBuffer[..] == Advanced(c).table;
    }

    /** A slot that was left becomes that of the frame five later. */
    method Recycle(last: nat)
      requires Valid() && last < BUFFER_SIZE
      modifies ctrlBuffer
      ensures ctrlBuffer[..] == old(ctrlBuffer[..])[last := Recycled(old(ctrlBuffer[last]))]
    {
      ghost var p := ctrlBuffer[last];
      ctrlBuffer[last] := ctrlBuffer[last].(haveSentOrRecv := false);
      for i := 0 to 4
        invariant forall k :: 0 <= k < BUFFER_SIZE && k != last ==> ctrlBuffer[k] == old(ctrlBuffer[k])
        invariant ctrlBuffer[last] == p.(haveSentOrRecv := false, haveInput := ctrlBuffer[last].haveInput)
        invariant forall k :: 0 <= k < i ==> !ctrlBuffer[last].haveInput[k]
      {
        ctrlBuffer[last] := ctrlBuffer[last].(haveInput := ctrlBuffer[last].haveInput[i := false]);
      }
      assert ctrlBuffer[last].haveInput == NO_FLAGS;
      ctrlBuffer[last] := ctrlBuffer[last].(frameNumber := ctrlBuffer[last].frameNumber + BUFFER_SIZE);
      assert ctrlBuffer[..] == old(ctrlBuffer[..])[last := Recycled(p)];
    }
  }

  /** The guest's send buffer: five slots, filled and emptied in turn by threads that keep their own
      place in it. It is a queue of at most five packets. */
  class SendBuffer {
    const packets: array<SendPacket>
    const toBeSent: array<bool>
    var putPos: nat
    var takePos: nat
    ghost var queue: seq<SendPacket>

    ghost predicate Valid()
      reads this, packets, toBeSent
    {
      && packets.Length == BUFFER_SIZE && toBeSent.Length == BUFFER_SIZE
      && putPos < BUFFER_SIZE && takePos < BUFFER_SIZE && |queue| <= BUFFER_SIZE
      && putPos == Place(takePos, |queue|)
      && (forall k :: 0 <= k < |queue| ==> packets[Place(takePos, k)] == queue[k])
      && (forall k :: 0 <= k < BUFFER_SIZE ==> toBeSent[Place(takePos, k)] == (k < |queue|))
    }

    constructor ()
      ensures Valid() && queue == []
    {
      packets := new SendPacket[BUFFER_SIZE](_ => DiscRead(0, 0));
      toBeSent := new bool[BUFFER_SIZE](_ => false);
      putPos, takePos, queue := 0, 0, [];
    }

    /** A packet goes in behind the others, unless the buffer is full. */
    method Put(packet: SendPacket) returns (done: bool)
      requires Valid()
      modifies this`putPos, this`queue, packets, toBeSent
      ensures Valid() && done == (|old(queue)| < BUFFER_SIZE)
      ensures queue == if done then old(queue) + [packet] else old(queue)
    {
      hide Place;
      PlacesDiffer(takePos);
      if toBeSent[putPos] {
        return false;
      }
      packets[putPos] := packet;
      toBeSent[putPos] := true;
      queue := queue + [packet];
      PlaceAfter(takePos, |queue| - 1);
      putPos := putPos + 1;
      if putPos >= BUFFER_SIZE {
        putPos := 0;
      }
      done := true;
    }

    /** The oldest packet comes out, if there is one. */
    method Take() returns (done: bool, packet: SendPacket)
      requires Valid()
      modifies this`takePos, this`queue, toBeSent
      ensures Valid() && done == (old(queue) != [])
      ensures done ==> packet == old(queue)[0] && queue == old(queue)[1..]
      ensures !done ==> queue == []
    {
      PlacesDiffer(takePos);
      assert Place(takePos, 0) == takePos;
      packet := packets[takePos];
      if !toBeSent[takePos] {
        return false, packet;
      }
      ghost var was := takePos;
      toBeSent[takePos] := false;
      queue := queue[1..];
      takePos := takePos + 1;
      if takePos >= BUFFER_SIZE {
        takePos := 0;
      }
      NextPlace(was, takePos);
      done := true;
    }
  }

  /** The place `k` slots on from slot `p`. */
  function Place(p: nat, k: nat): nat { (p + k) % BUFFER_SIZE }

  lemma PlacesDiffer(p: nat)
    requires p < BUFFER_SIZE
    ensures forall j: nat, k: nat :: j < k < BUFFER_SIZE ==> Place(p, j) != Place(p, k)
    ensures forall k: nat :: k <= BUFFER_SIZE ==> Place(p, k) < BUFFER_SIZE
    ensures Place(p, 0) == p == Place(p, BUFFER_SIZE)
  {
  }

  lemma PlaceAfter(p: nat, k: nat)
    requires p < BUFFER_SIZE && k < BUFFER_SIZE
    ensures Place(p, k + 1) == if Place(p, k) + 1 >= BUFFER_SIZE then 0 else Place(p, k) + 1
  {
  }

  lemma NextPlace(p: nat, q: nat)
    requires p < BUFFER_SIZE && q == (if p + 1 >= BUFFER_SIZE then 0 else p + 1)
    ensures forall k: nat :: k <= BUFFER_SIZE ==> Place(q, k) == Place(p, k + 1)
    ensures Place(p, BUFFER_SIZE) == p == Place(p, 0)
  {
  }
}

/** The block device under the cache: an array of sectors and a success flag per transfer. */
module Disc {
  import opened Bytes

  class Disc {
    const bytesPerSector: nat
    /** A device that never reports an error. */
    const reliable: bool
    var bytes: seq<byte>
    /** How many transfers were asked for so far. */
    ghost var transfers: nat

    constructor (bytesPerSector: nat, reliable: bool, image: seq<byte>)
      ensures this.bytesPerSector == bytesPerSector && this.reliable == reliable && bytes == image
    {
      this.bytesPerSector := bytesPerSector;
      this.reliable := reliable;
      bytes := image;
      transfers := 0;
    }

    /** A read that fails hands over nothing: the caller's buffer stays as it was. */
    method ReadSectors(sector: nat, count: nat) returns (ok: bool, data: seq<byte>)
      requires sector * bytesPerSector <= (sector + count) * bytesPerSector <= |bytes|
      modifies this`transfers
      ensures transfers == old(transfers) + 1
      ensures reliable ==> ok
      ensures ok ==> data == bytes[sector * bytesPerSector..(sector + count) * bytesPerSector]
    {
      transfers := transfers + 1;
      ok, data := true, [];
      if !reliable {
        ok := *;
      }
      if ok {
        data := bytes[sector * bytesPerSector..(sector + count) * bytesPerSector];
      }
    }

    /** A write that fails may leave anything at all in the sectors it addressed. */
    method WriteSectors(sector: nat, count: nat, data: seq<byte>) returns (ok: bool)
      requires sector * bytesPerSector <= (sector + count) * bytesPerSector <= |bytes|
      requires |data| == (sector + count) * bytesPerSector - sector * bytesPerSector
      modifies this
      ensures transfers == old(transfers) + 1
      ensures reliable ==> ok
      ensures |bytes| == old(|bytes|)
      ensures ok ==> bytes == Splice(old(bytes), sector * bytesPerSector, data)
      ensures forall a :: 0 <= a < |bytes| && !(sector * bytesPerSector <= a < (sector + count) * bytesPerSector)
                ==> bytes[a] == old(bytes[a])
    {
      transfers := transfers + 1;
      ok := true;
      if !reliable {
        ok := *;
      }
      if ok {
        bytes := Splice(bytes, sector * bytesPerSector, data);
      } else {
        var junk := new byte[|data|];
        bytes := Splice(bytes, sector * bytesPerSector, junk[..]);
      }
    }
  }
}

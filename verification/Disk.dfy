/** A pool disk as a growable byte image. A write either lands completely or fails after changing
    nothing outside its own range; a read of a range that is not fully present fails. */
module Disk {
  import opened Proto
  import opened Bytes

  class Disk {
    /** The id under which a pool knows this disk. */
    const id: DiskId
    var image: seq<byte>

    constructor (id: DiskId, capacity: nat)
      ensures this.id == id && image == Zeros(capacity)
    {
      this.id := id;
      image := Zeros(capacity);
    }

    method ReadAt(off: nat, len: nat) returns (r: Option<seq<byte>>)
      ensures r.Some? <==> off + len <= |image|
      ensures r.Some? ==> |r.value| == len && Holds(image, off, r.value)
    {
      if off + len <= |image| {
        r := Some(image[off..off + len]);
      } else {
        r := None;
      }
    }

    method WriteAt(off: nat, buf: seq<byte>) returns (ok: bool)
      modifies this
      ensures ok ==> image == Patch(old(image), off, buf)
      ensures !ok ==> SameOutside(old(image), image, off, |buf|)
    {
      if * {
        image := Patch(image, off, buf);
        ok := true;
      } else {
        var junk: seq<byte> := *;
        if |junk| <= |buf| {
          image := Patch(image, off, junk);
        }
        ok := false;
      }
    }

    method Sync() returns (ok: bool)
    {
      ok := *;
    }
  }
}

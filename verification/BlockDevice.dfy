/** The device under the file system: an image of bytes in 512-byte sectors, whose reads may fail. */
module BlockDevice {
  import opened Machine

  const SECTOR := 512

  class BlockDevice {
    const image: seq<u8>
    /** How many reads have failed so far, and how many have not. */
    ghost var faults: nat
    ghost var served: nat

    constructor (image: seq<u8>)
      ensures this.image == image && faults == 0 && served == 0
    {
      this.image := image;
      faults, served := 0, 0;
    }

    /**
     * The read callback: zero, with the sectors in memory from index `at` on, or an error code
     * with anything in their place. It may fail at any time; beyond the image it always does.
     */
    method ReadSectors(lba: u64, count: nat, mem: array<u8>, at: nat) returns (r: int)
      requires at + count * SECTOR <= mem.Length
      modifies this, mem
      ensures r == 0 <==> faults == old(faults)
      ensures faults >= old(faults) && served == old(served) + if r == 0 then 1 else 0
      ensures Same(old(mem[..]), mem[..], 0, at) && Same(old(mem[..]), mem[..], at + count * SECTOR, mem.Length)
      ensures r == 0 ==> lba * SECTOR + count * SECTOR <= |image|
      ensures r == 0 ==> mem[at..at + count * SECTOR] == image[lba * SECTOR..lba * SECTOR + count * SECTOR]
    {
      var n, from := count * SECTOR, lba * SECTOR;
      var ready: bool := *;
      if !ready || from + n > |image| {
        for i := 0 to n
          invariant faults == old(faults) && served == old(served)
          invariant Same(old(mem[..]), mem[..], 0, at) && Same(old(mem[..]), mem[..], at + n, mem.Length)
        {
          mem[at + i] := *;
        }
        faults := faults + 1;
        return -1;
      }
      for i := 0 to n
        invariant faults == old(faults) && served == old(served)
        invariant Same(old(mem[..]), mem[..], 0, at) && Same(old(mem[..]), mem[..], at + n, mem.Length)
        invariant mem[at..at + i] == image[from..from + i]
      {
        mem[at + i] := image[from + i];
        assert mem[at..at + (i + 1)] == mem[at..at + i] + [image[from + i]];
        assert image[from..from + (i + 1)] == image[from..from + i] + [image[from + i]];
      }
      served := served + 1;
      r := 0;
    }
  }
}

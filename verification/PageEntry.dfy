/**
 Page-table and page-directory entries of include/depthos/paging.h: 32-bit paging,
 section 4.3 of the Intel SDM volume 3A.  The bit fields of an entry do not overlap, so
 the model adds them up; `EntryBits` and its lemmas are the same words as bit vectors.
 */
module PageEntry {
  import opened Words

  const PRESENT := 0x1
  const RW := 0x2
  const USER := 0x4
  const PWT := 0x8

  /** `make_pte` and `make_pde`, which set the same bits. */
  function MakeEntry(frame: u32, write: bool, user: bool): (e: u32) {
    PRESENT + PWT + (if write then RW else 0) + (if user then USER else 0) + frame / 4096 * 4096
  }

  /** `PTE_EXTRACT_ADDR` and `PDE_EXTRACT_ADDR`. */
  function Address(e: u32): u32 {
    e / 4096 * 4096
  }

  predicate Present(e: u32) {
    e % 2 == 1
  }

  predicate Writable(e: u32) {
    e / 2 % 2 == 1
  }

  predicate ForUser(e: u32) {
    e / 4 % 2 == 1
  }

  /** An entry gives back the page-aligned part of its frame and the flags it was made with. */
  lemma EntryRoundTrip(frame: u32, write: bool, user: bool)
    ensures var e := MakeEntry(frame, write, user);
            && Address(e) == frame - frame % 4096
            && Present(e) && (Writable(e) <==> write) && (ForUser(e) <==> user) && e != 0
  {
  }

  // ----- The same words as bit vectors -----

  function EntryBits(frame: bv32, write: bool, user: bool): bv32 {
    0x1 | 0x8 | (if write then 0x2 else 0) | (if user then 0x4 else 0) | (frame & (0xFFFFF << 12))
  }

  function AddressBits(e: bv32): bv32 {
    ((e >> 12) & 0xFFFFF) * 4096
  }

  lemma EntryBitsRoundTrip(frame: bv32, write: bool, user: bool)
    ensures var e := EntryBits(frame, write, user);
            && AddressBits(e) == frame & 0xFFFF_F000
            && e & 1 == 1 && ((e >> 1) & 1 == 1 <==> write) && ((e >> 2) & 1 == 1 <==> user) && (e >> 3) & 1 == 1
  {
  }

  /** Or-ing the fields is adding them. */
  lemma EntryBitsAdd(frame: bv32, write: bool, user: bool)
    ensures EntryBits(frame, write, user) ==
            0x1 + 0x8 + (if write then 0x2 else 0) + (if user then 0x4 else 0) + (frame >> 12) * 4096
  {
  }
}

/**
 Page-table words as the hardware holds them, and the decoding the other modules use.
 */
module EntryBits {
  import opened PageModel

  const VALIDATE_BITS: bv64 := 0xFFFF_FFFF_FFFF_F000
  const COW_MASK: bv64 := 0xFFFF_FFFF_FFFF_FFFD

  function FrameNumber(bits: bv64): nat {
    bits as nat
  }

  function Decode(w: bv64): Entry {
    Entry(FrameNumber(FrameBits(w)), w & 1 != 0, w & 2 != 0, w & 4 != 0, w & 512 != 0)
  }

  /** `(physical & validatebits) | 7` of initTaskPagetables and copytables. */
  function UserWord(physical: bv64): bv64 {
    (physical & VALIDATE_BITS) | 7
  }

  /** `(pte[l] & 0xFFFFFFFFFFFFFFFD) | 0x200` of copytables. */
  function CowWord(w: bv64): bv64 {
    (w & COW_MASK) | 0x200
  }

  lemma UserWordBits(p: bv64)
    ensures UserWord(p) >> 12 == p >> 12
    ensures UserWord(p) & 1 != 0 && UserWord(p) & 2 != 0 && UserWord(p) & 4 != 0 && UserWord(p) & 512 == 0
  {
  }

  lemma CowWordBits(w: bv64)
    ensures CowWord(w) >> 12 == w >> 12 && CowWord(w) & 1 == w & 1 && CowWord(w) & 4 == w & 4
    ensures CowWord(w) & 2 == 0 && CowWord(w) & 512 != 0
  {
  }

  /** Storing a frame's address with `| 7` stores a user entry for that frame. */
  lemma UserWordDecodes(physical: bv64)
    ensures Decode(UserWord(physical)) == UserEntry(FrameNumber(FrameBits(physical)))
  {
    hide FrameNumber, UserWord;
    UserWordBits(physical);
  }

  /** Tagging a word is tagging its entry: frame and other flags stay. */
  lemma CowWordDecodes(w: bv64)
    ensures Decode(CowWord(w)) == CowTag(Decode(w))
  {
    hide FrameNumber, CowWord;
    CowWordBits(w);
  }

  /** A zeroed page decodes to absent entries. */
  lemma ZeroDecodes()
    ensures Decode(0) == ZERO_ENTRY
  {
    assert (0 as bv64) >> 12 == 0;
  }

  /** The pointer the walk follows. */
  function Masked(w: bv64): bv64 {
    w & VALIDATE_BITS
  }

  function FrameBits(w: bv64): bv64 {
    w >> 12
  }

  /** Masking a stored word gives back the aligned address that was stored. */
  lemma StoredAddress(physical: bv64)
    ensures physical & 0xFFF == 0 ==> Masked(UserWord(physical)) == physical
  {
  }

  /** Words with different frame bits lead to different tables. */
  lemma SameTableSameFrame(v: bv64, w: bv64)
    requires Masked(w) == Masked(v)
    ensures FrameBits(w) == FrameBits(v)
  {
  }

  /** The tags the fault handler and the copy loop test are the decoded flags. */
  lemma TestedBits(w: bv64)
    ensures (w & 512 != 0) == Decode(w).cow && (w & 1 != 0) == Decode(w).present
    ensures Decode(CowWord(CowWord(w))) == Decode(CowWord(w))
  {
    hide FrameNumber;
    assert CowWord(CowWord(w)) == CowWord(w);
  }
}

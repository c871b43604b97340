/**
 The packed endpoint control word of usb/usb30_utils.h: bits 0-10 the length of the last
 packet, 16-20 the number of packets offered, 21-25 the packet sequence number, 26-27 the
 status, 28 the end-of-burst flag.
 */
module Usb3Word {
  import opened Arithmetic

  const NRDY := 0
  const ACK := 1

  /** The fields of a control word. */
  datatype Fields = Fields(len: nat, nump: nat, seqNum: nat, status: nat, endOfBurst: bool)

  /** Only the packet sequence number is left. */
  predicate Cleared(f: Fields) { f.len == 0 && f.nump == 0 && f.status == 0 && !f.endOfBurst }

  function Decode(reg: bv32): (f: Fields)
    ensures f.nump < 32
  {
    Fields((reg & 0x7ff) as nat, ((reg >> 16) & 0x1f) as nat, ((reg >> 21) & 0x1f) as nat,
           ((reg >> 26) & 3) as nat, (reg >> 28) & 1 == 1)
  }

  /** The 32-bit word that holds a small number. */
  function Word(n: nat): (w: bv32)
    requires n < 0x800
    ensures w < 0x800 && w as nat == n
  {
    if n == 0 then 0 else Word(n - 1) + 1
  }

  /** usb30_in_set ORs the fields into whatever the word holds. */
  function InSet(reg: bv32, lpf: bool, status: nat, nump: nat, txLen: nat): bv32
    requires status < 4 && nump < 0x800 && txLen < 0x800
  {
    reg | (Word(nump) << 16) | (Word(status) << 26) | (Word(txLen) & 0x7ff) | ((if lpf then 1 else 0) << 28)
  }

  /** usb30_in_clear_interrupt */
  function Clear(reg: bv32): bv32 { reg & 0x03e0_0000 }

  lemma PackedFields(reg: bv32, lpf: bv32, status: bv32, nump: bv32, len: bv32)
    requires lpf < 2 && status < 4 && nump < 32 && len < 0x800
    requires reg & 0x7ff == 0 && (reg >> 16) & 0x1f == 0 && (reg >> 26) & 3 == 0 && (reg >> 28) & 1 == 0
    ensures
      var w := reg | (nump << 16) | (status << 26) | (len & 0x7ff) | (lpf << 28);
      && w & 0x7ff == len && (w >> 16) & 0x1f == nump && (w >> 21) & 0x1f == (reg >> 21) & 0x1f
      && (w >> 26) & 3 == status && (w >> 28) & 1 == lpf
  {
  }

  lemma WordBelow(n: nat)
    requires n < 32
    ensures Word(n) < 32 && (n < 4 ==> Word(n) < 4)
  {
  }

  lemma EmptyFields(reg: bv32)
    requires Cleared(Decode(reg))
    ensures reg & 0x7ff == 0 && (reg >> 16) & 0x1f == 0 && (reg >> 26) & 3 == 0 && (reg >> 28) & 1 == 0
  {
    ZeroWord(reg & 0x7ff);
    ZeroWord((reg >> 16) & 0x1f);
    ZeroWord((reg >> 26) & 3);
  }

  lemma ZeroWord(w: bv32)
    requires w as nat == 0
    ensures w == 0
  {
  }

  lemma DecodeOf(w: bv32, reg: bv32, lpf: bv32, status: bv32, nump: bv32, len: bv32)
    requires w & 0x7ff == len && (w >> 16) & 0x1f == nump && (w >> 21) & 0x1f == (reg >> 21) & 0x1f
    requires (w >> 26) & 3 == status && (w >> 28) & 1 == lpf
    ensures Decode(w) == Fields(len as nat, nump as nat, Decode(reg).seqNum, status as nat, lpf == 1)
  {
  }

  lemma InSetPacks(reg: bv32, lpf: bool, status: nat, nump: nat, txLen: nat, w: bv32, flag: bv32)
    requires Cleared(Decode(reg)) && status < 4 && nump < 32 && txLen < 0x800 && flag == (if lpf then 1 else 0)
    requires w == InSet(reg, lpf, status, nump, txLen)
    ensures w & 0x7ff == Word(txLen) && (w >> 16) & 0x1f == Word(nump) && (w >> 21) & 0x1f == (reg >> 21) & 0x1f
    ensures (w >> 26) & 3 == Word(status) && (w >> 28) & 1 == flag
  {
    EmptyFields(reg);
    WordBelow(status);
    WordBelow(nump);
    PackedFields(reg, flag, Word(status), Word(nump), Word(txLen));
  }

  /** On a cleared word usb30_in_set writes every field as given and keeps the sequence number. */
  lemma InSetOnCleared(reg: bv32, lpf: bool, status: nat, nump: nat, txLen: nat)
    requires Cleared(Decode(reg)) && status < 4 && nump < 32 && txLen < 0x800
    ensures Decode(InSet(reg, lpf, status, nump, txLen)) == Fields(txLen, nump, Decode(reg).seqNum, status, lpf)
  {
    var w, flag := InSet(reg, lpf, status, nump, txLen), if lpf then 1 else 0;
    InSetPacks(reg, lpf, status, nump, txLen, w, flag);
    DecodeOf(w, reg, flag, Word(status), Word(nump), Word(txLen));
  }

  /** Clearing keeps the packet sequence number alone. */
  lemma ClearKeepsSequence(reg: bv32)
    ensures Decode(Clear(reg)) == Fields(0, 0, Decode(reg).seqNum, 0, false)
  {
  }

  // ------------------------------------------------------------ endpoint 0

  /** The word that arms the first packet of a data stage: one packet, end of burst, status ACK. */
  function FirstWord(len: nat): bv32
    requires len <= 0x200
  {
    Word(len) | 0x1401_0000
  }

  /** The word that arms a further packet: the counter is put where the sequence number is, in 32-bit
      arithmetic and without being cut to the five bits of the field. */
  function FurtherWord(reg: bv32, count: nat, len: nat): bv32
    requires len <= 0x200
  {
    (reg & 0xec1f_fc00) | (Word(count % 0x800) << 21) | Word(len) | 0x1401_0000
  }

  predicate BitSix(n: nat) { n % 128 >= 64 }

  /** The fields of FirstWord. */
  function FirstFields(len: nat): Fields { Fields(len, 1, 0, ACK, true) }

  /** The fields of FurtherWord: bit 6 of the counter runs into the status, whose two bits are kept
      from packet to packet. */
  function FurtherFields(f: Fields, count: nat, len: nat): Fields
  {
    Fields(if f.len >= 0x400 then 0x400 + len else len,
           if f.nump % 2 == 0 then f.nump + 1 else f.nump,
           count % 32,
           if f.status >= 2 || BitSix(count) then 3 else ACK,
           true)
  }

  lemma FirstBits(len: bv32)
    requires len <= 0x200
    ensures
      var w := len | 0x1401_0000;
      && w & 0x7ff == len && (w >> 16) & 0x1f == 1 && (w >> 21) & 0x1f == 0
      && (w >> 26) & 3 == 1 && (w >> 28) & 1 == 1
  {
  }

  lemma FirstDecodes(len: nat)
    requires len <= 0x200
    ensures Decode(FirstWord(len)) == FirstFields(len)
  {
    WordAtMost(Word(len));
    FirstBits(Word(len));
    DecodeOf(FirstWord(len), 0, 1, 1, 1, Word(len));
  }

  lemma FurtherBits(reg: bv32, count: bv32, len: bv32)
    requires len <= 0x200
    ensures FurtherPacked((reg & 0xec1f_fc00) | (count << 21) | len | 0x1401_0000, reg, count, len)
  {
  }

  /** The five fields of `w`, a word made from `reg`, a counter and a length. */
  predicate FurtherPacked(w: bv32, reg: bv32, count: bv32, len: bv32)
  {
    && w & 0x7ff == (if reg & 0x7ff >= 0x400 then 0x400 + len else len)
    && (w >> 16) & 0x1f == ((reg >> 16) & 0x1f) | 1
    && (w >> 21) & 0x1f == count & 0x1f
    && (w >> 26) & 3 == (if (reg >> 27) & 1 == 1 || (count >> 6) & 1 == 1 then 3 else 1)
    && (w >> 28) & 1 == 1
  }

  function FurtherFromBits(reg: bv32, count: bv32, len: bv32): Fields
  {
    Fields(if reg & 0x7ff >= 0x400 then 0x400 + len as nat else len as nat,
           (((reg >> 16) & 0x1f) | 1) as nat,
           (count & 0x1f) as nat,
           if (reg >> 27) & 1 == 1 || (count >> 6) & 1 == 1 then 3 else 1, true)
  }

  lemma PackedDecodes(w: bv32, reg: bv32, count: bv32, len: bv32)
    requires len <= 0x200 && FurtherPacked(w, reg, count, len)
    ensures Decode(w) == FurtherFromBits(reg, count, len)
  {
    AddToTop(len);
  }

  lemma FurtherWordBits(reg: bv32, count: nat, len: nat)
    requires len <= 0x200
    ensures Decode(FurtherWord(reg, count, len)) == FurtherFromBits(reg, Word(count % 0x800), Word(len))
  {
    WordAtMost(Word(len));
    FurtherWordOf(reg, Word(count % 0x800), Word(len), FurtherWord(reg, count, len));
  }

  lemma WordAtMost(w: bv32)
    ensures w <= 0x200 <==> w as nat <= 0x200
  {
  }

  lemma FurtherWordOf(reg: bv32, count: bv32, len: bv32, w: bv32)
    requires len <= 0x200 && w == (reg & 0xec1f_fc00) | (count << 21) | len | 0x1401_0000
    ensures Decode(w) == FurtherFromBits(reg, count, len)
  {
    FurtherBits(reg, count, len);
    PackedDecodes(w, reg, count, len);
  }

  lemma BitsAreNumbers(reg: bv32, count: bv32, len: bv32)
    requires count < 0x800 && len <= 0x200
    ensures FurtherFromBits(reg, count, len) == FurtherFields(Decode(reg), count as nat, len as nat)
  {
    NewLength(reg, count, len, count as nat);
    NewPackets(reg, count, len, count as nat);
    NewSequence(reg, count, len);
    NewStatus(reg, count, len);
  }

  lemma NewLength(reg: bv32, count: bv32, len: bv32, n: nat)
    requires len <= 0x200
    ensures FurtherFromBits(reg, count, len).len == FurtherFields(Decode(reg), n, len as nat).len
  {
    AtLeastTop(reg & 0x7ff);
  }

  lemma NewPackets(reg: bv32, count: bv32, len: bv32, n: nat)
    ensures FurtherFromBits(reg, count, len).nump == FurtherFields(Decode(reg), n, len as nat).nump
  {
    OddPackets((reg >> 16) & 0x1f);
  }

  lemma NewSequence(reg: bv32, count: bv32, len: bv32)
    requires count < 0x800
    ensures FurtherFromBits(reg, count, len).seqNum == FurtherFields(Decode(reg), count as nat, len as nat).seqNum
  {
    LowBits(count);
  }

  lemma NewStatus(reg: bv32, count: bv32, len: bv32)
    requires count < 0x800
    ensures FurtherFromBits(reg, count, len).status == FurtherFields(Decode(reg), count as nat, len as nat).status
  {
    SixthBit(count);
    KeptStatus(reg);
  }

  lemma FurtherDecodes(reg: bv32, count: nat, len: nat)
    requires len <= 0x200
    ensures Decode(FurtherWord(reg, count, len)) == FurtherFields(Decode(reg), count, len)
  {
    FurtherWordBits(reg, count, len);
    BitsAreNumbers(reg, Word(count % 0x800), Word(len));
    OnlyElevenBits(Decode(reg), count, len);
  }

  lemma OnlyElevenBits(f: Fields, count: nat, len: nat)
    ensures FurtherFields(f, count % 0x800, len) == FurtherFields(f, count, len)
  {
    ModOfMod(count, 32, 64);
    ModOfMod(count, 128, 16);
  }

  lemma LowBits(w: bv32)
    requires w < 0x800
    ensures (w & 0x1f) as nat == (w as nat) % 32
  {
    SplitAtFive(w, w >> 5, w & 0x1f);
    Remainder(w as nat, (w >> 5) as nat, (w & 0x1f) as nat);
  }

  lemma SplitAtFive(w: bv32, high: bv32, low: bv32)
    requires w < 0x800 && high == w >> 5 && low == w & 0x1f
    ensures w as nat == 32 * (high as nat) + low as nat && low as nat < 32
  {
    assert w == 32 * high + low;
  }

  lemma Remainder(x: nat, q: nat, r: nat)
    requires x == 32 * q + r && r < 32
    ensures x % 32 == r
  {
  }

  lemma SixthBit(w: bv32)
    requires w < 0x800
    ensures (w >> 6) & 1 == 1 <==> BitSix(w as nat)
  {
  }

  lemma AtLeastTop(w: bv32)
    ensures w >= 0x400 <==> w as nat >= 0x400
  {
  }

  lemma AddToTop(len: bv32)
    requires len <= 0x200
    ensures (0x400 + len) as nat == 0x400 + len as nat
  {
  }

  lemma KeptStatus(reg: bv32)
    ensures (reg >> 27) & 1 == 1 <==> ((reg >> 26) & 3) as nat >= 2
  {
  }

  lemma OddPackets(n: bv32)
    requires n < 32
    ensures (n | 1) as nat == if n as nat % 2 == 0 then n as nat + 1 else n as nat
  {
  }
}

/** The code masks, shifts and ORs machine words; the model divides, takes remainders and adds.
    Here the model's functions are shown to be the code's expressions. */
module Bits {
  import opened Words
  import opened Bitwise
  import opened MemoryMap
  import opened PageWalk
  import opened PageMapping
  import opened MapConditions
  import opened Utf8
  import opened Console
  import opened Keyboard

  lemma {:induction false} AlignIsMask(a: Word)
    ensures AlignDown(a) == And(a, TWO64 - 0x1000)
  {
    BytePowers();
    Powers();
    HighMask(a, 12, 64);
  }

  /** The distance by which the code shifts for a level: 12, 21, 30 or 39. */
  lemma {:induction false} IndexIsMask(virt: Word, level: nat, shift: nat)
    requires level <= 3 && shift == 12 + 9 * level
    ensures Index(virt, level) == And(ShiftRight(virt, shift), 0x1FF)
  {
    ShiftIs(level, shift);
    ShiftDivides(virt, shift);
    Powers();
    LowMask(ShiftRight(virt, shift), 9);
  }

  lemma {:induction false} ShiftIs(level: nat, shift: nat)
    requires level <= 3 && shift == 12 + 9 * level
    ensures Pow2(shift) == PAGE_SIZE * Span(level)
  {
    Powers();
    PowersAdd(21, 9);
    PowersAdd(30, 9);
  }

  lemma {:induction false} HugeBitSet(addr: Word, flags: Word)
    requires Large(flags)
    ensures Or(MakeHugeEntry(addr, flags), 0x80) == MakeHugeEntry(addr, flags)
  {
    LeafEntryBits(addr, flags);
    BytePowers();
    OrSet(MakeHugeEntry(addr, flags), 7);
  }

  /** Address bits from k on and the low twelve flag bits. */
  lemma {:induction false} MaskedEntry(addr: Word, flags: Word, k: nat, aligned: nat)
    requires 12 <= k <= 64 && aligned == addr - addr % Pow2(k) && aligned % PAGE_SIZE == 0
    ensures Pow2(k) <= TWO64 && Or(And(addr, TWO64 - Pow2(k)), And(flags, 0xFFF)) == aligned + flags % PAGE_SIZE
  {
    Powers();
    HighMask(addr, k, 64);
    LowMask(flags, 12);
    OrAdds(aligned, flags % PAGE_SIZE, 12);
  }

  lemma {:induction false} EntryIsMask(addr: Word, flags: Word)
    ensures MakeEntry(addr, flags) == Or(And(addr, TWO64 - 0x1000), And(flags, 0xFFF))
  {
    Powers();
    MaskedEntry(addr, flags, 12, addr - addr % PAGE_SIZE);
  }

  lemma {:induction false} HugePart(addr: Word, flags: Word)
    ensures MakeHugeEntry(addr, flags) == Or(And(addr, TWO64 - 0x20_0000), And(flags, 0xFFF))
  {
    Powers();
    BlockPages(addr);
    PagePart(512 * (addr / 0x20_0000), 0);
    MaskedEntry(addr, flags, 21, addr - addr % 0x20_0000);
  }

  lemma {:induction false} HugeEntryIsMask(addr: Word, flags: Word)
    requires Large(flags)
    ensures MakeHugeEntry(addr, flags) == Or(Or(And(addr, TWO64 - 0x20_0000), And(flags, 0xFFF)), 0x80)
  {
    HugePart(addr, flags);
    HugeBitSet(addr, flags);
  }

  /** The flags that the code tests. */
  lemma {:induction false} FlagIsMask(e: Word)
    ensures (And(e, 1) != 0 <==> Present(e)) && (And(e, 0x80) != 0 <==> Large(e))
  {
    BytePowers();
    Powers();
    LowMask(e, 1);
    OneBit(e, 7);
  }

  lemma {:induction false} TopBits(b: Byte, k: nat)
    requires k <= 8
    ensures Pow2(k) <= 256 && And(b, 256 - Pow2(k)) == b - b % Pow2(k)
  {
    BytePowers();
    HighMask(b, k, 8);
  }

  lemma {:induction false} TopMasks(b: Byte)
    ensures And(b, 0x80) == b - b % 128 && And(b, 0xC0) == b - b % 64 && And(b, 0xE0) == b - b % 32
    ensures And(b, 0xF0) == b - b % 16 && And(b, 0xF8) == b - b % 8
  {
    BytePowers();
    TopBits(b, 7);
    TopBits(b, 6);
    TopBits(b, 5);
    TopBits(b, 4);
    TopBits(b, 3);
  }

  /** The tests of the decoder on lead and continuation bytes. */
  lemma {:induction false} ByteTests(b: Byte)
    ensures Continuation(b) <==> And(b, 0xC0) == 0x80
    ensures LeadLength(b) == if And(b, 0x80) == 0 then 1 else if And(b, 0xE0) == 0xC0 then 2
                             else if And(b, 0xF0) == 0xE0 then 3 else if And(b, 0xF8) == 0xF0 then 4 else 0
  {
    TopMasks(b);
    Classes(b, And(b, 0x80), And(b, 0xC0), And(b, 0xE0), And(b, 0xF0), And(b, 0xF8));
  }

  lemma {:induction false} Classes(b: Byte, m7: nat, m6: nat, m5: nat, m4: nat, m3: nat)
    requires m7 == b - b % 128 && m6 == b - b % 64 && m5 == b - b % 32 && m4 == b - b % 16 && m3 == b - b % 8
    ensures Continuation(b) <==> m6 == 0x80
    ensures LeadLength(b) == if m7 == 0 then 1 else if m5 == 0xC0 then 2
                             else if m4 == 0xE0 then 3 else if m3 == 0xF0 then 4 else 0
  {
  }

  /** The payload bits, and how the decoder appends them. */
  lemma {:induction false} PayloadBits(b: Byte, cp: nat)
    ensures LeadLength(b) == 1 ==> LeadBits(b) == b
    ensures LeadLength(b) == 2 ==> LeadBits(b) == And(b, 0x1F)
    ensures LeadLength(b) == 3 ==> LeadBits(b) == And(b, 0x0F)
    ensures LeadLength(b) == 4 ==> LeadBits(b) == And(b, 0x07)
    ensures cp * 64 + b % 64 == Or(cp * Pow2(6), And(b, 0x3F))
  {
    BytePowers();
    LowMask(b, 5);
    LowMask(b, 4);
    LowMask(b, 3);
    LowMask(b, 6);
    assert cp * 64 % 64 == 0;
    OrAdds(cp * 64, b % 64, 6);
  }

  /** One step of the decoder in the code's masks and shifts: a code point and its length, or the
      replacement character for a byte that leads nothing or lacks a continuation. */
  lemma {:induction false} DecodeIsMasks(s: seq<Byte>, b0: Byte, b1: Byte, b2: Byte, b3: Byte)
    requires s != [] && b0 == ByteAt(s, 0) && b1 == ByteAt(s, 1) && b2 == ByteAt(s, 2) && b3 == ByteAt(s, 3)
    ensures var c1, c2, c3 := And(b1, 0xC0) == 0x80, And(b2, 0xC0) == 0x80, And(b3, 0xC0) == 0x80;
            DecodeOne(s)
              == if And(b0, 0x80) == 0 then (b0, 1)
                 else if And(b0, 0xE0) == 0xC0 && c1 then (And(b0, 0x1F) * 0x40 + And(b1, 0x3F), 2)
                 else if And(b0, 0xF0) == 0xE0 && c1 && c2 then
                   ((And(b0, 0x0F) * 0x40 + And(b1, 0x3F)) * 0x40 + And(b2, 0x3F), 3)
                 else if And(b0, 0xF8) == 0xF0 && c1 && c2 && c3 then
                   (((And(b0, 0x07) * 0x40 + And(b1, 0x3F)) * 0x40 + And(b2, 0x3F)) * 0x40 + And(b3, 0x3F), 4)
                 else (0xFFFD, 1)
  {
    ByteTests(b0);
    ByteTests(b1);
    ByteTests(b2);
    ByteTests(b3);
    PayloadBits(b0, 0);
    Continued(b1);
    Continued(b2);
    Continued(b3);
    DecodeShape(s, LeadLength(b0), LeadBits(b0));
  }

  /** The step by the length that the first byte announces. */
  lemma {:induction false} DecodeShape(s: seq<Byte>, n: nat, lead: nat)
    requires s != [] && n == LeadLength(ByteAt(s, 0)) && lead == LeadBits(ByteAt(s, 0))
    ensures var b1, b2, b3 := ByteAt(s, 1), ByteAt(s, 2), ByteAt(s, 3);
            DecodeOne(s)
              == if n == 1 then (lead, 1)
                 else if n == 2 && Continuation(b1) then (lead * 64 + b1 % 64, 2)
                 else if n == 3 && Continuation(b1) && Continuation(b2) then
                   ((lead * 64 + b1 % 64) * 64 + b2 % 64, 3)
                 else if n == 4 && Continuation(b1) && Continuation(b2) && Continuation(b3) then
                   (((lead * 64 + b1 % 64) * 64 + b2 % 64) * 64 + b3 % 64, 4)
                 else (0xFFFD, 1)
  {
    Gathered(s);
    CompleteTo(s);
  }

  lemma {:induction false} Continued(b: Byte)
    ensures And(b, 0x3F) == b % 64
  {
    BytePowers();
    LowMask(b, 6);
  }

  lemma {:induction false} Gathered(s: seq<Byte>)
    ensures Gather(s, 1) == LeadBits(ByteAt(s, 0))
    ensures Gather(s, 2) == Gather(s, 1) * 64 + ByteAt(s, 1) % 64
    ensures Gather(s, 3) == Gather(s, 2) * 64 + ByteAt(s, 2) % 64
    ensures Gather(s, 4) == Gather(s, 3) * 64 + ByteAt(s, 3) % 64
  {
  }

  lemma {:induction false} CompleteTo(s: seq<Byte>)
    ensures Complete(s, 1)
    ensures Complete(s, 2) <==> Continuation(ByteAt(s, 1))
    ensures Complete(s, 3) <==> Complete(s, 2) && Continuation(ByteAt(s, 2))
    ensures Complete(s, 4) <==> Complete(s, 3) && Continuation(ByteAt(s, 3))
  {
  }

  /** The test of one pixel of a glyph row. */
  lemma {:induction false} GlyphBitIsMask(row: Byte, k: nat)
    ensures Bit(row, k) <==> And(row, Pow2(k)) != 0
  {
    OneBit(row, k);
  }

  /** The release bit and the key of a scancode. */
  lemma {:induction false} ScancodeBits(code: Byte)
    ensures (code >= 0x80 <==> And(code, 0x80) != 0) && code % 0x80 == And(code, 0x7F)
  {
    BytePowers();
    OneBit(code, 7);
    LowMask(code, 7);
  }
}

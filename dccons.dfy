/**
 * The Dreamcast console's G1 bus interface to the GD-ROM drive: the G1
 * control registers, the GD-ROM interrupt bits of the system controller
 * and the three counters of a GD-ROM DMA transfer (length still to go,
 * destination address, bytes done). A transfer moves one 2048-byte
 * sector per timer tick until the length reaches zero, then raises the
 * GD-ROM DMA-end interrupt.
 *
 * Register offsets and interrupt bits are those of the Dreamcast state
 * header (dc.h), which is not part of this model.
 */
module DcCons {
  import opened Pixels

  /** The G1 control block (0x5f7400..0x5f74ff) as 32-bit registers, and the system controller block. */
  const G1Regs: nat := 0x100 / 4
  const SysCtrlRegs: nat := 0x200 / 4

  /** G1 control register offsets. */
  const GdStar: nat := 0x01        // SB_GDSTAR: DMA start address
  const GdLen: nat := 0x02         // SB_GDLEN: DMA length
  const GdDir: nat := 0x03         // SB_GDDIR: DMA direction (nonzero: drive to memory)
  const GdEn: nat := 0x05          // SB_GDEN: DMA enable
  const GdSt: nat := 0x06          // SB_GDST: DMA start / busy
  const SecurEadr: nat := 0x39     // SB_SECUR_EADR: end address of the BIOS checksum area
  const SecurState: nat := 0x3b    // SB_SECUR_STATE: BIOS checksum state
  const GdStard: nat := 0x3d       // SB_GDSTARD: current DMA address
  const GdLend: nat := 0x3e        // SB_GDLEND: bytes transferred

  /** System controller offsets: normal and external interrupt status. */
  const IstNrm: nat := 0x40        // SB_ISTNRM
  const IstExt: nat := 0x41        // SB_ISTEXT

  /** Interrupt bits: the GD-ROM drive's interrupt line and the end of a GD-ROM DMA. */
  const IstExtGdrom: nat := 0x0000_0001
  const IstDmaGdrom: nat := 0x0000_4000

  /** x | mask, for the one-bit masks above. */
  function SetBit(x: u32, mask: nat): (r: u32)
    requires mask == IstExtGdrom || mask == IstDmaGdrom
  {
    if (x / mask) % 2 == 1 then x
    else
      DivModUnique(x, mask, x / mask, x % mask);
      x + mask
  }

  /** x & ~mask, for a mask of one bit. */
  function ClearBit(x: u32, mask: nat): (r: u32)
    requires 0 < mask
  {
    if (x / mask) % 2 == 1 then x - mask else x
  }

  /** The bytes of one CD sector, moved per step of a transfer. */
  const SectorSize: nat := 2048

  /** The read values fixed by the hardware: the security area end address and "checksum passed". */
  const SecurEadrValue: u32 := 0x0000_00ff
  const SecurStateOk: u32 := 3

  /** A transfer length the step-by-step transfer can finish: a non-negative multiple of a sector. */
  predicate Aligned(len: int)
  {
    len >= 0 && len % SectorSize == 0
  }

  /** One sector less of an aligned, unfinished length is still aligned. */
  lemma AlignedStep(len: int)
    requires Aligned(len) && len != 0
    ensures Aligned(len - SectorSize)
  {
    var q := len / SectorSize;
    DivModUnique(len, SectorSize, q, 0);
    DivModUnique(len - SectorSize, SectorSize, q - 1, 0);
  }

  /**
   * The number of timer steps an aligned transfer length takes to reach
   * zero, every intermediate length being aligned (so never negative):
   * exactly its number of sectors.
   */
  function Steps(len: int): (n: nat)
    requires Aligned(len)
    ensures n * SectorSize == len
    decreases len
  {
    if len == 0 then 0
    else
      AlignedStep(len);
      1 + Steps(len - SectorSize)
  }

  /** Two values that differ by a multiple of 2^32 have the same 32-bit residue. */
  lemma SameResidue(x: int, y: int)
    requires (x - y) % 0x1_0000_0000 == 0
    ensures x % 0x1_0000_0000 == y % 0x1_0000_0000
  {
    var k := (x - y) / 0x1_0000_0000;
    DivModUnique(x - y, 0x1_0000_0000, k, 0);
    DivModUnique(x, 0x1_0000_0000, y / 0x1_0000_0000 + k, y % 0x1_0000_0000);
  }

  /** dc_cons_state as far as the G1 interface and GD-ROM DMA go. */
  class DcCons {
    const g1bus: array<u32>
    const sysctrl: array<u32>
    var xferlen: int
    var xferbase: u32
    var xfercomplete: u32

    ghost predicate Valid()
      reads this
    {
      g1bus.Length == G1Regs && sysctrl.Length == SysCtrlRegs && g1bus != sysctrl
    }

    constructor ()
      ensures Valid() && xferlen == 0 && xferbase == 0 && xfercomplete == 0
      ensures forall r :: 0 <= r < G1Regs ==> g1bus[r] == 0
      ensures forall r :: 0 <= r < SysCtrlRegs ==> sysctrl[r] == 0
    {
      g1bus := new u32[G1Regs](_ => 0);
      sysctrl := new u32[SysCtrlRegs](_ => 0);
      xferlen, xferbase, xfercomplete := 0, 0, 0;
    }

    /**
     * ata_interrupt: the drive's interrupt line is mirrored in the
     * GD-ROM bit of the external interrupt status; every other bit and
     * register is left alone.
     */
    method AtaInterrupt(state: bool)
      requires Valid()
      modifies sysctrl
      ensures sysctrl[IstExt] % 2 == (if state then 1 else 0)
      ensures sysctrl[IstExt] / 2 == old(sysctrl[IstExt]) / 2
      ensures forall r :: 0 <= r < sysctrl.Length && r != IstExt ==> sysctrl[r] == old(sysctrl[r])
    {
      if state {
        sysctrl[IstExt] := SetBit(sysctrl[IstExt], IstExtGdrom);
      } else {
        sysctrl[IstExt] := ClearBit(sysctrl[IstExt], IstExtGdrom);
      }
    }

    /**
     * dc_mess_g1_ctrl_r: the DMA address and byte count read back from
     * the counters, the security registers read fixed values, and every
     * other offset reads what was last written there.
     */
    function G1Read(offset: nat): (r: u32)
      requires Valid() && offset < G1Regs
      reads this, g1bus
      ensures offset == GdStard ==> r == xferbase
      ensures offset == GdLend ==> r == xfercomplete
      ensures offset == SecurEadr ==> r == SecurEadrValue
      ensures offset == SecurState ==> r == SecurStateOk
      ensures offset !in {GdStard, GdLend, SecurEadr, SecurState} ==> r == g1bus[offset]
    {
      if offset == GdStard then xferbase
      else if offset == GdLend then xfercomplete
      else if offset == SecurEadr then SecurEadrValue
      else if offset == SecurState then SecurStateOk
      else g1bus[offset]
    }

    /** A write of data to SB_GDST that starts a drive-to-memory transfer. */
    predicate StartsTransfer(offset: nat, data: u32)
      requires Valid()
      reads this, g1bus
    {
      offset == GdSt && data % 2 == 1 && g1bus[GdEn] == 1 && g1bus[GdDir] != 0
    }

    /**
     * dc_mess_g1_ctrl_w: data is stored in the register first. Writing
     * SB_GDLEN sets the transfer length; writing SB_GDST with bit 0 set
     * while DMA is enabled starts a transfer from SB_GDSTAR with nothing
     * done yet, unless the direction is memory to drive, which is
     * refused. Nothing else changes.
     */
    method G1Write(offset: nat, data: u32, memMask: u32)
      requires Valid() && offset < G1Regs
      modifies g1bus, this`xferlen, this`xferbase, this`xfercomplete
      ensures g1bus[..] == old(g1bus[..])[offset := data]
      ensures StartsTransfer(offset, data) ==>
        xferbase == g1bus[GdStar] && xfercomplete == 0 && xferlen == old(xferlen)
      ensures offset == GdLen ==> xferlen == data && xferbase == old(xferbase) && xfercomplete == old(xfercomplete)
      ensures offset != GdLen && !StartsTransfer(offset, data) ==>
        xferlen == old(xferlen) && xferbase == old(xferbase) && xfercomplete == old(xfercomplete)
      ensures offset !in {GdStard, GdLend, SecurEadr, SecurState} ==> G1Read(offset) == data
    {
      g1bus[offset] := data;
      if offset == GdSt {
        if data % 2 == 1 && g1bus[GdEn] == 1 {
          if g1bus[GdDir] == 0 {
            return;
          }
          xferbase := g1bus[GdStar];
          xfercomplete := 0;
        }
      } else if offset == GdLen {
        xferlen := data;
      }
    }

    /**
     * atapi_xfer_end: the timer step of a transfer. With nothing left,
     * SB_GDST is cleared and the DMA-end interrupt raised. Otherwise one
     * sector of DMA words from the drive is packed into the sector buffer
     * low byte first and moved to the destination: the destination and
     * the bytes done advance by a sector and the length drops by one. The
     * bytes done plus the length to go is unchanged (modulo 2^32), and an
     * aligned length stays aligned, so the transfer ends.
     */
    method XferEnd(words: seq<u16>) returns (sector: array<u8>)
      requires Valid() && xferlen >= 0 && |words| == SectorSize / 2
      modifies g1bus, sysctrl, this`xferlen, this`xferbase, this`xfercomplete
      ensures old(xferlen) == 0 ==>
        g1bus[..] == old(g1bus[..])[GdSt := 0] &&
        sysctrl[..] == old(sysctrl[..])[IstNrm := SetBit(old(sysctrl[IstNrm]), IstDmaGdrom)] &&
        xferlen == 0 && xferbase == old(xferbase) && xfercomplete == old(xfercomplete)
      ensures old(xferlen) != 0 ==>
        g1bus[..] == old(g1bus[..]) && sysctrl[..] == old(sysctrl[..]) &&
        xferlen == old(xferlen) - SectorSize &&
        xferbase == Wrap32(old(xferbase) + SectorSize) &&
        xfercomplete == Wrap32(old(xfercomplete) + SectorSize) &&
        sector.Length == 2 * SectorSize &&
        forall i :: 0 <= i < |words| ==> sector[2 * i] as int + 0x100 * sector[2 * i + 1] as int == words[i]
      ensures (xfercomplete + xferlen) % 0x1_0000_0000 == (old(xfercomplete) + old(xferlen)) % 0x1_0000_0000
      ensures Aligned(old(xferlen)) ==> Aligned(xferlen)
    {
      if xferlen == 0 {
        g1bus[GdSt] := 0;
        sysctrl[IstNrm] := SetBit(sysctrl[IstNrm], IstDmaGdrom);
        sector := new u8[2 * SectorSize];
        return;
      }
      sector := PackSector(words);
      ghost var before := xfercomplete + xferlen;
      xfercomplete := Wrap32(xfercomplete + SectorSize);
      xferlen := xferlen - SectorSize;
      xferbase := Wrap32(xferbase + SectorSize);
      SameResidue(xfercomplete + xferlen, before);
      if Aligned(old(xferlen)) {
        AlignedStep(old(xferlen));
      }
    }

    /** The sector read loop of atapi_xfer_end: each 16-bit DMA word stored low byte first. */
    static method PackSector(words: seq<u16>) returns (sector: array<u8>)
      requires |words| == SectorSize / 2
      ensures fresh(sector) && sector.Length == 2 * SectorSize
      ensures forall i :: 0 <= i < |words| ==> sector[2 * i] as int + 0x100 * sector[2 * i + 1] as int == words[i]
    {
      sector := new u8[2 * SectorSize];
      for i := 0 to |words|
        invariant forall j :: 0 <= j < i ==> sector[2 * j] as int + 0x100 * sector[2 * j + 1] as int == words[j]
      {
        var d := words[i];
        sector[2 * i] := d % 0x100;
        sector[2 * i + 1] := d / 0x100;
      }
    }
  }
}

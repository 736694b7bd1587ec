/**
 The registers of a stopped target, as rwMem/bp.c reads and sets them behind its checks, and as librwmem lays
 them out: struct user_pt_regs and struct user_fpsimd_state, 272 and 528 bytes.
 */
module Registers {
  import opened Bytes
  import P = BpProtocol

  const REGS: nat := 34       // x0 to x30, sp, pc and pstate, of 8 bytes each
  const VREGS: nat := 32      // of 16 bytes each
  const GENERAL: nat := 272   // sizeof(struct user_pt_regs)
  const ALL: nat := 800       // with struct user_fpsimd_state behind it

  datatype Regs = Regs(general: seq<nat>, vregs: seq<nat>, fpsr: nat, fpcr: nat, reserved: seq<byte>)

  ghost predicate Valid(r: Regs) {
    && |r.general| == REGS && |r.vregs| == VREGS && |r.reserved| == 8 && r.fpsr < U32 && r.fpcr < U32
    && (forall i :: 0 <= i < REGS ==> r.general[i] < U64) && (forall i :: 0 <= i < VREGS ==> r.vregs[i] < U128)
  }

  function Words8(ws: seq<nat>): (bs: seq<byte>)
    ensures |bs| == 8 * |ws|
  {
    seq(8 * |ws|, j requires 0 <= j < 8 * |ws| => ByteOf(ws[j / 8], j % 8))
  }

  function Words16(ws: seq<nat>): (bs: seq<byte>)
    ensures |bs| == 16 * |ws|
  {
    seq(16 * |ws|, j requires 0 <= j < 16 * |ws| => ByteOf(ws[j / 16], j % 16))
  }

  function GeneralImage(r: Regs): seq<byte> {
    Words8(r.general)
  }

  function SimdImage(r: Regs): seq<byte> {
    Words16(r.vregs) + Encode(r.fpsr, 4) + Encode(r.fpcr, 4) + r.reserved
  }

  lemma Word8At(ws: seq<nat>, i: nat)
    requires i < |ws| && ws[i] < U64
    ensures Decode(Words8(ws)[8 * i..8 * i + 8]) == ws[i]
  {
    assert Words8(ws)[8 * i..8 * i + 8] == Encode(ws[i], 8);
    Word64(ws[i]);
  }

  lemma Word16At(ws: seq<nat>, i: nat)
    requires i < |ws| && ws[i] < U128
    ensures Decode(Words16(ws)[16 * i..16 * i + 16]) == ws[i]
  {
    assert Words16(ws)[16 * i..16 * i + 16] == Encode(ws[i], 16);
    Word128(ws[i]);
  }

  // The client's side: the buffer is taken for the two structs as they are.

  function GetReg(buf: seq<byte>, i: nat): nat
    requires i < REGS && GENERAL <= |buf|
  {
    Decode(buf[8 * i..8 * i + 8])
  }

  /** Registers 0 to 31, fpsr and fpcr, by the numbers of set_simd_reg. */
  function GetSimdReg(buf: seq<byte>, i: nat): nat
    requires i < REGS && ALL <= |buf|
  {
    if i < VREGS then Decode(buf[GENERAL + 16 * i..GENERAL + 16 * i + 16])
    else if i == VREGS then Decode(buf[784..788])
    else Decode(buf[788..792])
  }

  function SimdReg(r: Regs, i: nat): nat
    requires Valid(r) && i < REGS
  {
    if i < VREGS then r.vregs[i] else if i == VREGS then r.fpsr else r.fpcr
  }

  /** A buffer with the general registers in front shows each of them. */
  lemma GeneralShows(r: Regs, buf: seq<byte>, i: nat)
    requires Valid(r) && GENERAL <= |buf| && buf[..GENERAL] == GeneralImage(r) && i < REGS
    ensures GetReg(buf, i) == r.general[i]
  {
    assert buf[8 * i..8 * i + 8] == buf[..GENERAL][8 * i..8 * i + 8];
    Word8At(r.general, i);
  }

  lemma SimdShows(r: Regs, buf: seq<byte>, i: nat)
    requires Valid(r) && ALL <= |buf| && buf[GENERAL..ALL] == SimdImage(r) && i < REGS
    ensures GetSimdReg(buf, i) == SimdReg(r, i)
  {
    var image := SimdImage(r);
    SimdParts(Words16(r.vregs), Encode(r.fpsr, 4), Encode(r.fpcr, 4), r.reserved);
    if i < VREGS {
      Slice(buf, GENERAL, ALL, 16 * i, 16 * i + 16);
      Slice(image, 0, 512, 16 * i, 16 * i + 16);
      Word16At(r.vregs, i);
    } else {
      Slice(buf, GENERAL, ALL, 512, 516);
      Slice(buf, GENERAL, ALL, 516, 520);
      Word32(r.fpsr);
      Word32(r.fpcr);
    }
  }

  lemma Slice(bs: seq<byte>, lo: nat, hi: nat, a: nat, b: nat)
    requires a <= b && lo + b <= hi <= |bs|
    ensures bs[lo..hi][a..b] == bs[lo + a..lo + b]
  {
    forall k: nat | k < b - a
      ensures bs[lo..hi][a..b][k] == bs[lo + a..lo + b][k]
    {
      assert bs[lo..hi][a + k] == bs[lo + a + k];
    }
  }

  lemma SimdParts(v: seq<byte>, s: seq<byte>, c: seq<byte>, rest: seq<byte>)
    requires |v| == 512 && |s| == |c| == 4
    ensures var b := v + s + c + rest; b[0..512] == v && b[512..516] == s && b[516..520] == c
  {
  }

  /** The stopped task whose registers the calls work on. */
  class Target {
    var regs: Regs

    constructor (regs: Regs)
      ensures this.regs == regs
    {
      this.regs := regs;
    }

    /** rwmem_bp_read: both structs, or the first one, or EINVAL for a buffer that is too small. */
    method Read(user: array<byte>, size: nat) returns (code: int)
      requires Valid(regs) && size <= user.Length
      modifies user
      ensures code == if size < 272 then -P.EINVAL else 0
      ensures code == 0 <==> P.ValidOp(P.ReadRegs(size))
      ensures size < 272 ==> user[..] == old(user[..])
      ensures size >= 272 ==> forall i :: 0 <= i < REGS ==> GetReg(user[..], i) == regs.general[i]
      ensures size >= 800 ==> forall i :: 0 <= i < REGS ==> GetSimdReg(user[..], i) == SimdReg(regs, i)
      ensures forall j :: (if size >= 800 then 800 else 272) <= j < user.Length ==> user[j] == old(user[j])
    {
      if GENERAL + 528 <= size {
        CopyInto(user, 0, GeneralImage(regs));
        CopyInto(user, GENERAL, SimdImage(regs));
        code := 0;
        assert user[..][..GENERAL] == GeneralImage(regs) && user[..][GENERAL..ALL] == SimdImage(regs);
        forall i | 0 <= i < REGS
          ensures GetReg(user[..], i) == regs.general[i] && GetSimdReg(user[..], i) == SimdReg(regs, i)
        {
          GeneralShows(regs, user[..], i);
          SimdShows(regs, user[..], i);
        }
      } else if GENERAL <= size {
        CopyInto(user, 0, GeneralImage(regs));
        code := 0;
        assert user[..][..GENERAL] == GeneralImage(regs);
        forall i | 0 <= i < REGS
          ensures GetReg(user[..], i) == regs.general[i]
        {
          GeneralShows(regs, user[..], i);
        }
      } else {
        code := -P.EINVAL;
      }
    }

    /** IOCTL_BP_SET_REG: register id of 34, whatever it is called, takes the value, and no other changes. */
    method SetReg(id: nat, value: nat) returns (code: int)
      requires Valid(regs) && value < U64
      modifies this
      ensures Valid(regs) && (code == 0 <==> P.ValidOp(P.SetReg(id)))
      ensures code == if id < 34 then 0 else -P.EINVAL
      ensures forall i :: 0 <= i < REGS ==> regs.general[i] == if i == id then value else old(regs).general[i]
      ensures regs == old(regs).(general := regs.general)
    {
      if id >= 34 {
        return -P.EINVAL;
      }
      regs := regs.(general := regs.general[id := value]);
      code := 0;
    }

    /** IOCTL_BP_SET_SIMD_REG: the vector registers take 128 bits, fpsr and fpcr the low 32 bits of the value. */
    method SetSimdReg(id: nat, value: nat) returns (code: int)
      requires Valid(regs) && value < U128
      modifies this
      ensures Valid(regs) && (code == 0 <==> P.ValidOp(P.SetSimdReg(id)))
      ensures code == if id < 34 then 0 else -P.EINVAL
      ensures forall i :: 0 <= i < REGS ==>
        SimdReg(regs, i) == if i != id then SimdReg(old(regs), i) else if i < VREGS then value else value % U32
      ensures regs.general == old(regs).general && regs.reserved == old(regs).reserved
    {
      if id < 32 {
        regs := regs.(vregs := regs.vregs[id := value]);
      } else if id == 32 {
        regs := regs.(fpsr := value % U32);
      } else if id == 33 {
        regs := regs.(fpcr := value % U32);
      } else {
        return -P.EINVAL;
      }
      code := 0;
    }
  }

  /**
   set_reg and then get_regs of the library: the register that was set shows its new value and every other one
   what it held before. The library refuses the same numbers as the driver.
   */
  method SetAndGet(target: Target, id: nat, value: nat, buf: array<byte>) returns (code: int)
    requires Valid(target.regs) && value < U64 && buf.Length == GENERAL
    modifies target, buf
    ensures code == 0 <==> id < 34
    ensures code == 0 ==> forall i :: 0 <= i < REGS ==>
      GetReg(buf[..], i) == if i == id then value else old(target.regs).general[i]
  {
    code := target.SetReg(id, value);
    if code == 0 {
      code := target.Read(buf, buf.Length);
    }
  }
}

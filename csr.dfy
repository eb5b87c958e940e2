/**
  The bodies of the `csrrs` and `csrrci` instructions: read a CSR once,
  write back `old | x[rs1]` (csrrs) or `old & ~zimm` (csrrci) when the rs1
  field is nonzero, and return the old value in rd. The CSR index check
  (`validate_csr`) and `sext_xlen` are given to the instructions as
  functions; `trace` records the order of the CSR accesses.
*/
module CsrInstructions {
  import opened Types

  /** The instruction fields the two bodies read. */
  datatype Insn = Insn(rd: nat, rs1: nat, csr: nat)

  predicate WellFormed(insn: Insn) {
    insn.rd < 32 && insn.rs1 < 32 && insn.csr < 4096
  }

  /** A CSR access made by an instruction. */
  datatype CsrAccess =
    | Validate(csr: nat, write: bool)
    | Get(csr: nat, write: bool)
    | Put(csr: nat, value: bv64)

  datatype Outcome = Retired | IllegalInstruction

  /** `prev | mask`: the bits of `mask` become set, the others keep their value. */
  function SetBits(prev: bv64, mask: bv64): (r: bv64)
    ensures r & mask == mask
    ensures r & !mask == prev & !mask
  {
    prev | mask
  }

  /** csrrs only sets bits: no bit set before is clear afterwards. */
  lemma SetBitsOnlySets(prev: bv64, mask: bv64)
    ensures prev & !SetBits(prev, mask) == 0
  {
  }

  /** With x[rs1] == 0 csrrs still writes, and what it writes is the old value. */
  lemma SetBitsZeroMask(prev: bv64)
    ensures SetBits(prev, 0) == prev
  {
  }

  /** `prev & ~mask`: the bits of `mask` become clear, the others keep their value. */
  function ClearBits(prev: bv64, mask: bv64): (r: bv64)
    ensures r & mask == 0
    ensures r & !mask == prev & !mask
  {
    prev & !mask
  }

  /** csrrci only clears bits: no bit clear before is set afterwards. */
  lemma ClearBitsOnlyClears(prev: bv64, mask: bv64)
    ensures ClearBits(prev, mask) & !prev == 0
  {
  }

  /** An integer register file after writing `v` to register `rd`; x0 stays zero. */
  function WriteReg(regs: seq<bv64>, rd: nat, v: bv64): (r: seq<bv64>)
    requires |regs| == 32 && regs[0] == 0 && rd < 32
    ensures |r| == 32 && r[0] == 0
    ensures forall i :: 0 < i < 32 ==> r[i] == if i == rd then v else regs[i]
  {
    if rd == 0 then regs else regs[rd := v]
  }

  /** The state of one hart that the two instructions touch. */
  class Hart {
    var csrs: map<nat, bv64>
    var xpr: seq<bv64>
    ghost var trace: seq<CsrAccess>

    ghost predicate Valid()
      reads this
    {
      |xpr| == 32 && xpr[0] == 0
    }

    /** `validate_csr(which, write)`: the index to access, or an illegal-instruction trap. */
    method ValidateCsr(which: nat, write: bool, validate: (nat, bool) -> Option<nat>) returns (csr: Option<nat>)
      modifies this`trace
      ensures csr == validate(which, write) && trace == old(trace) + [Validate(which, write)]
    {
      csr := validate(which, write);
      trace := trace + [Validate(which, write)];
    }

    /** `p->get_csr(csr, insn, write)`: the CSR's value, or a trap for a CSR the hart lacks. */
    method GetCsr(csr: nat, write: bool) returns (v: Option<bv64>)
      modifies this`trace
      ensures v == (if csr in csrs then Some(csrs[csr]) else None)
      ensures trace == old(trace) + [Get(csr, write)]
    {
      v := if csr in csrs then Some(csrs[csr]) else None;
      trace := trace + [Get(csr, write)];
    }

    /** `p->put_csr(csr, value)` on a CSR that `get_csr` has just read. */
    method PutCsr(csr: nat, value: bv64)
      requires csr in csrs
      modifies this`csrs, this`trace
      ensures csrs == old(csrs)[csr := value] && trace == old(trace) + [Put(csr, value)]
    {
      csrs := csrs[csr := value];
      trace := trace + [Put(csr, value)];
    }

    /** `WRITE_RD(value)`. */
    method WriteRd(rd: nat, value: bv64)
      requires Valid() && rd < 32
      modifies this`xpr
      ensures Valid() && xpr == WriteReg(old(xpr), rd, value)
    {
      xpr := WriteReg(xpr, rd, value);
    }

    /**
      `csrrs rd, csr, rs1`. It counts as a write exactly when the rs1 field
      is nonzero, even if x[rs1] is zero. The CSR is validated, then read
      once; when writing the new value is `old | x[rs1]`; rd gets
      `sext_xlen(old)`. A trap leaves the CSRs and registers as they were.
    */
    method Csrrs(insn: Insn, validate: (nat, bool) -> Option<nat>, sextXlen: bv64 -> bv64)
      returns (r: Outcome)
      requires Valid() && WellFormed(insn)
      modifies this
      ensures Valid()
      ensures var write := insn.rs1 != 0;
              var csr := validate(insn.csr, write);
              if csr.None? then
                r == IllegalInstruction && csrs == old(csrs) && xpr == old(xpr) &&
                trace == old(trace) + [Validate(insn.csr, write)]
              else if csr.value !in old(csrs) then
                r == IllegalInstruction && csrs == old(csrs) && xpr == old(xpr) &&
                trace == old(trace) + [Validate(insn.csr, write), Get(csr.value, write)]
              else
                var prev := old(csrs)[csr.value];
                var next := SetBits(prev, old(xpr)[insn.rs1]);
                && r == Retired
                && csrs == (if write then old(csrs)[csr.value := next] else old(csrs))
                && xpr == WriteReg(old(xpr), insn.rd, sextXlen(prev))
                && trace == old(trace) + [Validate(insn.csr, write), Get(csr.value, write)] +
                            (if write then [Put(csr.value, next)] else [])
    {
      var write := insn.rs1 != 0;
      var csr := ValidateCsr(insn.csr, write, validate);
      if csr.None? {
        return IllegalInstruction;
      }
      var prev := GetCsr(csr.value, write);
      if prev.None? {
        return IllegalInstruction;
      }
      if write {
        PutCsr(csr.value, SetBits(prev.value, xpr[insn.rs1]));
      }
      WriteRd(insn.rd, sextXlen(prev.value));
      return Retired;
    }

    /**
      `csrrci rd, csr, zimm`: as `Csrrs`, with the 5-bit immediate in the
      rs1 field as the mask and the new value `old & ~zimm`.
    */
    method Csrrci(insn: Insn, validate: (nat, bool) -> Option<nat>, sextXlen: bv64 -> bv64)
      returns (r: Outcome)
      requires Valid() && WellFormed(insn)
      modifies this
      ensures Valid()
      ensures var write := insn.rs1 != 0;
              var csr := validate(insn.csr, write);
              if csr.None? then
                r == IllegalInstruction && csrs == old(csrs) && xpr == old(xpr) &&
                trace == old(trace) + [Validate(insn.csr, write)]
              else if csr.value !in old(csrs) then
                r == IllegalInstruction && csrs == old(csrs) && xpr == old(xpr) &&
                trace == old(trace) + [Validate(insn.csr, write), Get(csr.value, write)]
              else
                var prev := old(csrs)[csr.value];
                var next := ClearBits(prev, insn.rs1 as bv64);
                && r == Retired
                && csrs == (if write then old(csrs)[csr.value := next] else old(csrs))
                && xpr == WriteReg(old(xpr), insn.rd, sextXlen(prev))
                && trace == old(trace) + [Validate(insn.csr, write), Get(csr.value, write)] +
                            (if write then [Put(csr.value, next)] else [])
    {
      var write := insn.rs1 != 0;
      var csr := ValidateCsr(insn.csr, write, validate);
      if csr.None? {
        return IllegalInstruction;
      }
      var prev := GetCsr(csr.value, write);
      if prev.None? {
        return IllegalInstruction;
      }
      if write {
        PutCsr(csr.value, ClearBits(prev.value, insn.rs1 as bv64));
      }
      WriteRd(insn.rd, sextXlen(prev.value));
      return Retired;
    }
  }
}

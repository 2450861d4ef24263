/** The burst manager of a stream: two registers that the two ends of a ring share. */
module Pbm {

  /** A register that one side writes. What the other side writes is volatile and enters the
      methods as a list of readings. */
  class Register {
    var value: nat

    constructor (v: nat)
      ensures value == v
    {
      value := v;
    }
  }

  datatype Mode = NormalMode | ReverseMode

  datatype Registers = Registers(record: nat, limit: nat)

  /** `pbm->record_ptr`: the register that a side in the given mode reads. */
  function RecordPtr(regs: Registers, mode: Mode): nat {
    if mode == ReverseMode then regs.limit else regs.record
  }

  /** `pbm->limit_ptr` of a side in the given mode receives a value. */
  function SetLimitPtr(regs: Registers, mode: Mode, v: nat): Registers {
    if mode == ReverseMode then regs.(record := v) else regs.(limit := v)
  }

  function Other(mode: Mode): Mode {
    if mode == ReverseMode then NormalMode else ReverseMode
  }
}

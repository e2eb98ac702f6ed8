/** The I2C bus and the scheduler's delay, as a trace of what the drivers ask of them. */
module Bus {
  import opened Basics

  datatype Event = I2cWrite(reg: Byte, payload: seq<Byte>) | Delay(ms: nat)

  class I2cBus {
    ghost var trace: seq<Event>

    constructor ()
      ensures trace == []
    {
      trace := [];
    }

    method Put(reg: Byte, payload: seq<Byte>)
      modifies this
      ensures trace == old(trace) + [I2cWrite(reg, payload)]
    {
      trace := trace + [I2cWrite(reg, payload)];
    }

    method Wait(ms: nat)
      modifies this
      ensures trace == old(trace) + [Delay(ms)]
    {
      trace := trace + [Delay(ms)];
    }
  }
}

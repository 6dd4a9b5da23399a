/** The bus a processor model reads and writes through its `struct bus` callbacks. */
module Bus {
  import opened Words

  class Bus {
    var mem: Memory

    constructor (mem: Memory)
      ensures this.mem == mem
    {
      this.mem := mem;
    }

    /** `rd_b`, `rd_s` and `rd_l`.  Peripherals refuse a word access that is not word-aligned. */
    method Read(a: nat, width: Width) returns (w: Word)
      requires Aligned(a, width) && a + width.Bytes() <= SIZE
      ensures w == Load(mem, a, width)
    {
      w := Load(mem, a, width);
    }

    /** `wr_b`, `wr_s` and `wr_l`. */
    method Write(a: nat, d: Word, width: Width)
      requires Aligned(a, width) && a + width.Bytes() <= SIZE
      modifies this
      ensures mem == Store(old(mem), a, d, width)
    {
      mem := Store(mem, a, d, width);
    }

    method WriteByte(a: nat, b: bv8)
      requires a < SIZE
      modifies this
      ensures mem == Overwrite(old(mem), a, [b])
    {
      mem := Overwrite(mem, a, [b]);
    }
  }
}

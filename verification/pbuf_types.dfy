/** struct pbuf of src/lwip/include/lwip/pbuf.h. */
module PbufTypes {
  import opened Words
  import Memp

  datatype Kind = Ram | Rom | Ref | Pool

  /** Where a pbuf is stored: in an element of a pool, or in the heap block at an offset. */
  datatype Home = InPool(pool: nat, elem: Memp.Elem) | InHeap(at: int)

  class Pbuf {
    const kind: Kind
    const home: Home
    /** The distance from the record to its payload. */
    const off: nat
    /** The bytes payload points to; the first len of them belong to the packet. */
    const data: array<byte>
    var next: Pbuf?
    var totLen: nat
    var len: nat
    var ref: nat

    constructor (kind: Kind, home: Home, off: nat, data: array<byte>, totLen: nat, len: nat)
      ensures this.kind == kind && this.home == home && this.off == off && this.data == data
      ensures this.totLen == totLen && this.len == len && next == null && ref == 1
    {
      this.kind, this.home, this.off, this.data := kind, home, off, data;
      this.totLen, this.len, next, ref := totLen, len, null, 1;
    }
  }
}

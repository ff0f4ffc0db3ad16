/** Machine integers, the reserved 32-bit values of the LSH index and the
    error outcomes shared by every part of the model. */
module Common {

  /** An unsigned 32-bit integer (the source's Uns32T). */
  type Uns32 = x: int | 0 <= x < 0x1_0000_0000

  const TWO32: int := 0x1_0000_0000

  /** The "unset" sentinel of bucket keys, point IDs and FORMAT1 slots. */
  const IFLAG: Uns32 := 0xFFFF_FFFF

  /** The prime of the universal hash fold, 2^32 - 5. */
  const PRIME: Uns32 := 0xFFFF_FFFB

  /** The three reserved words of the FORMAT2 token stream. */
  const TOKEN_T1: Uns32 := 0xFFFF_FFFC
  const TOKEN_T2: Uns32 := 0xFFFF_FFFD
  const TOKEN_ENDTABLE: Uns32 := 0xFFFF_FFFE

  predicate IsToken(v: Uns32) {
    v == TOKEN_T1 || v == TOKEN_T2 || v == TOKEN_ENDTABLE
  }

  /** Addition modulo 2^32, as the source's unsigned counters wrap. */
  function Add32(x: Uns32, y: Uns32): (r: Uns32)
    ensures x + y < TWO32 ==> r == x + y
    ensures x + y >= TWO32 ==> r == x + y - TWO32
  {
    (x + y) % TWO32
  }

  datatype Option<T> = None | Some(value: T)

  /** Every condition on which the source prints a diagnostic and exits. */
  datatype Error =
    | OrderViolation        // insert_point: "points must be indexed in strict ascending order"
    | HashAssert            // CR_ASSERT(h < UH_PRIME_DEFAULT) in the hash fold
    | Incompatible          // serial_can_merge refused the merge
    | EmptyRow              // FORMAT2 writer: "b->next->t2==IFLAG"
    | EmptyCollisionChain   // FORMAT2 writer: bucket without point chain
    | ReadError             // FORMAT2 reader: the stream ended early
    | StateT1               // FORMAT2 reader: row does not start with T1
    | RowOutOfRange         // FORMAT2 reader: row index >= N
    | ExpectedEOrT2         // FORMAT2 reader: row index not followed by T2 or E
    | StateT2               // FORMAT2 reader: group does not start with T2
    | NoPoint               // FORMAT2 reader: T2 group without points
    | StateEndOfRow         // FORMAT2 reader: row not closed by T1 or E
    | NotFormat1            // serial_retrieve_point on a FORMAT2 file

  datatype Result<T> = Ok(value: T) | Err(error: Error)
}

/** The records of uthash.h: the element with its hash handle, and the bucket. */
module UthashTypes {

  type Key = seq<bv8>
  type Word = x: nat | x < 0x1_0000_0000

  const INITIAL_NUM_BUCKETS_LOG2: nat := 5
  const BKT_CAPACITY_THRESH: nat := 10

  /**
   An element of the application with the hash handle embedded in it. The
   element and its handle are one object, so `tail`, `hh_prev` and `hh_next`,
   which point at handles, and `prev` and `next`, which point at elements, are
   all references to a Node. `key` is the bytes that key and keylen delimit.
   */
  class Node {
    var key: Key
    var hashv: Word
    var prev: Node?
    var next: Node?
    var hhPrev: Node?
    var hhNext: Node?
  }

  datatype Bucket = Bucket(hhHead: Node?, count: nat, expandMult: nat)

  /** HASH_BLOOM undefined, or defined as the log2 of the filter's bit length. */
  datatype BloomMode = NoBloom | BloomOf(nbits: nat)
}

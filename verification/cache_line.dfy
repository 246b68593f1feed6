/** One trace record of the simulator. The same record type is used for the
    lines resident in the cache: a miss stores a copy of the record. */
module CacheLine {

  /** The operation named by a trace line: "R", "W", or anything else. */
  datatype Op = ReadOp | WriteOp | NoOp

  /** A trace record and, by value copy, a cache slot. The reference size is
      kept by the source only for display, so it is not a field here. */
  datatype Access = Access(
    op: Op,
    address: string,
    offset: nat,
    index: nat,
    tag: nat,
    age: nat,
    valid: bool,
    dirty: bool)

  /** A default-constructed slot: invalid, clean, age 0. */
  const EmptySlot: Access := Access(NoOp, "", 0, 0, 0, 0, false, false)

  /** A record as the trace builds it: valid, clean and of age 0. Nothing in
      a run ages or dirties a trace record; only the cache's copies change. */
  predicate Fresh(x: Access) {
    x.valid && !x.dirty && x.age == 0
  }
}

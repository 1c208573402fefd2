/** Result types and machine constants used across the model. */
module Common {

  datatype Option<+T> = None | Some(value: T)

  /** Number of values of an unsigned 64-bit word. */
  const U64: nat := 0x1_0000_0000_0000_0000

  /** Number of values of an unsigned 32-bit word. */
  const U32: nat := 0x1_0000_0000

  const U16: nat := 0x1_0000

  /** Node slots, SMAP_MAX_LOCAL_NUMNODES + SMAP_MAX_REMOTE_NUMNODES. */
  const MAX_LOCAL_NODES: nat := 8
  const MAX_NODES: nat := 26
}

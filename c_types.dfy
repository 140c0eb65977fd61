/** The C integer types whose ranges the programs depend on (LP64: 32-bit unsigned, 64-bit size_t). */
module CTypes {
  const UINT_MAX: nat := 0xFFFF_FFFF
  const SIZE_MAX: nat := 0xFFFF_FFFF_FFFF_FFFF

  /** Values of unsigned int. */
  type Uint = x: nat | x <= UINT_MAX

  /** Values of size_t. */
  type SizeT = x: nat | x <= SIZE_MAX
}

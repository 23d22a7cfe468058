/** Addresses, words and slots, shared by the journal, the storages and the frames. */
module EvmTypes {
  import opened Wrappers

  type Addr = nat

  /** A stack word as 32 bytes, and a number in its shortest form. */
  type Word = b: Bytes | |b| == 32 witness seq(32, _ => 0)

  type ShortWord = b: Bytes | |b| <= 32

  const RIPEMD160: Addr := 3
}

/** The compile-time limits of the engine (udpdk_constants.h). */
module Constants {
  const NUM_SOCKETS_MAX: nat := 1024
  const UDP_MAX_PORT: nat := 65536
  const BURST_SIZE: nat := 128
  const PREFETCH_OFFSET: nat := 4
  const EXCH_RING_SIZE: nat := 2048
  const EXCH_BUF_SIZE: nat := BURST_SIZE
  const ITERATORS_MAX: nat := 10
  const IPV4_MTU_DEFAULT: nat := 1500

  // A DPDK ring created without RING_F_EXACT_SZ holds one element less than its size.
  const RING_CAPACITY: nat := EXCH_RING_SIZE - 1

  // INADDR_ANY, the wildcard IPv4 address
  const INADDR_ANY: nat := 0
}

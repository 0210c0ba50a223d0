/** Constants, wire structures and helpers shared by the kernel module and the control daemon. */
module Ambix {

  const MAX_PIDS: nat := 500
  const MAX_PID_N: int := 2147483647

  const MAX_PAYLOAD: nat := 4096
  const SIZEOF_ADDR_INFO: nat := 16
  const MAX_PACKETS: nat := 512
  const MAX_N_PER_PACKET: nat := MAX_PAYLOAD / SIZEOF_ADDR_INFO
  const MAX_N_FIND: nat := MAX_N_PER_PACKET * MAX_PACKETS - 1
  const MAX_N_SWITCH: nat := (MAX_N_FIND - 1) / 2

  // What `sizeof(addr_info_t) * MAX_N_FIND` allocates: the macro is not parenthesised, so that one byte, not one
  // entry, is taken away.
  const BUFFER_BYTES: nat := SIZEOF_ADDR_INFO * MAX_N_PER_PACKET * MAX_PACKETS - 1

  const MAX_ADDRESS: nat := 0xFFFF880000000000

  // Operation codes and modes stay integers: the source has a default branch for unknown ones.
  const FIND_OP: int := 0
  const BIND_OP: int := 1
  const UNBIND_OP: int := 2

  const DRAM_MODE: int := 0
  const NVRAM_MODE: int := 1
  const NVRAM_INTENSIVE_MODE: int := 2
  const SWITCH_MODE: int := 3
  const NVRAM_CLEAR: int := 4
  const NVRAM_WRITE_MODE: int := 5

  const DRAM_NODES: seq<int> := [0]
  const NVRAM_NODES: seq<int> := [2]

  /** `addr_info_t`: a page address with a pid, or a separator, or a return code. */
  datatype AddrInfo = AddrInfo(addr: nat, pidRetval: int)

  /** `req_t`: `pidN` is a pid for BIND and UNBIND and a number of pages for FIND. */
  datatype Request = Request(opCode: int, pidN: int, mode: int)

  function IntMin(a: int, b: int): (m: int)
    ensures m <= a && m <= b && (m == a || m == b)
  {
    if a > b then b else a
  }

  /** The node list that `contains` searches for a mode. */
  function Nodes(mode: int): seq<int> {
    if mode == NVRAM_MODE then NVRAM_NODES else DRAM_NODES
  }

  method Contains(value: int, mode: int) returns (found: bool)
    ensures found <==> value in Nodes(mode)
  {
    var nodes := Nodes(mode);
    for i := 0 to |nodes|
      invariant value !in nodes[..i]
    {
      if nodes[i] == value {
        return true;
      }
    }
    return false;
  }

  /** The first `n` elements of `s`, or all of them when there are fewer. */
  function Take<T>(n: nat, s: seq<T>): seq<T> {
    if n <= |s| then s[..n] else s
  }

  lemma Assoc<T>(a: seq<T>, b: seq<T>, c: seq<T>)
    ensures a + b + c == a + (b + c)
  {
  }

  lemma TailOfConcat<T>(a: seq<T>, b: seq<T>)
    requires |a| > 0
    ensures (a + b)[0] == a[0] && (a + b)[1..] == a[1..] + b
  {
  }
}

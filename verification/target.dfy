/** The inspected target as the script sees it through the debugger host: a
    frozen, read-only snapshot. Memory is a partial map from addresses to bytes
    (an unmapped byte makes any read that touches it throw), and the host's
    `!process <address> 0` command is an oracle from an address to its output
    lines (a missing entry is a command that throws). */
module Target {
  import opened Options
  import opened Hex

  const ADDRESS_SPACE: int := 0x1_0000_0000_0000_0000

  /** A 64-bit address, compared exactly (the script keeps addresses as host Int64 values) */
  type Addr = a: int | 0 <= a < 0x1_0000_0000_0000_0000

  type Byte = b: int | 0 <= b < 256

  /** One line of `!process` output as the script's two line patterns see it:
      `cid` is what `PROCESS\s+[0-9a-fA-F]+.*Cid:\s+([0-9a-fA-F]+)` captures,
      `image` what `Image:\s+(.+)` captures, `None` where a pattern does not match */
  datatype Line = Line(cid: Option<HexToken>, image: Option<string>)

  datatype Snapshot = Snapshot(memory: map<Addr, Byte>, processListing: map<Addr, seq<Line>>)

  /** Offsets of the structure fields the script reads through typed objects;
      the host takes them from the kernel's symbols */
  datatype Layout = Layout(
    numConsumersOffset: nat,   // _WMI_LOGGER_CONTEXT.NumConsumers (ULONG)
    consumersOffset: nat,      // _WMI_LOGGER_CONTEXT.Consumers.Flink
    linksOffset: nat,          // _ETW_REALTIME_CONSUMER.Links.Flink
    processObjectOffset: nat   // _ETW_REALTIME_CONSUMER.ProcessObject
  )

  function Pow256(n: nat): (p: nat)
    ensures p > 0
  {
    if n == 0 then 1 else 256 * Pow256(n - 1)
  }

  /** `base.add(offset)`; an address past the top of the 64-bit space is a failure */
  function Offset(base: Addr, offset: nat): Option<Addr> {
    if base + offset < ADDRESS_SPACE then Some(base + offset) else None
  }

  /** `readMemoryValues(a, n, 1)`: all `n` bytes or a failure */
  function ReadBytes(mem: map<Addr, Byte>, a: Addr, n: nat): (r: Option<seq<Byte>>)
    ensures r.Some? ==> |r.value| == n
    ensures r.Some? && n > 0 ==> a in mem && r.value[0] == mem[a]
    decreases n
  {
    if n == 0 then Some([])
    else if a !in mem then None
    else if n == 1 then Some([mem[a]])
    else if a + 1 >= ADDRESS_SPACE then None
    else match ReadBytes(mem, a + 1, n - 1)
      case None => None
      case Some(rest) => Some([mem[a]] + rest)
  }

  /** A read of `n` bytes succeeds exactly when every byte from `a` up is mapped,
      below 2^64, and then returns those bytes in address order */
  lemma {:induction false} ReadBytesAt(mem: map<Addr, Byte>, a: Addr, n: nat)
    ensures ReadBytes(mem, a, n).Some? <==> a + n <= ADDRESS_SPACE && forall b: Addr | a <= b < a + n :: b in mem
    ensures match ReadBytes(mem, a, n)
      case None => true
      case Some(bytes) => forall i | 0 <= i < n :: bytes[i] == mem[a + i]
    decreases n
  {
    if n > 1 && a in mem {
      if a + 1 < ADDRESS_SPACE {
        ReadBytesAt(mem, a + 1, n - 1);
        if ReadBytes(mem, a + 1, n - 1).Some? {
          var rest := ReadBytes(mem, a + 1, n - 1).value;
          var bytes := ReadBytes(mem, a, n).value;
          assert bytes == [mem[a]] + rest;
          forall i | 0 <= i < n
            ensures bytes[i] == mem[a + i]
          {
            if i > 0 {
              assert bytes[i] == rest[i - 1];
            }
          }
        }
      }
    }
  }

  /** Unsigned little-endian value of a byte string */
  function LittleEndian(bytes: seq<Byte>): (v: nat)
    ensures v < Pow256(|bytes|)
  {
    if |bytes| == 0 then 0 else bytes[0] + 256 * LittleEndian(bytes[1..])
  }

  /** An unsigned `width`-byte field at `base + offset` */
  function ReadUnsigned(mem: map<Addr, Byte>, base: Addr, offset: nat, width: nat): (r: Option<nat>)
    ensures r.Some? ==> r.value < Pow256(width)
  {
    match Offset(base, offset)
    case None => None
    case Some(a) =>
      match ReadBytes(mem, a, width)
      case None => None
      case Some(bytes) => Some(LittleEndian(bytes))
  }

  /** An 8-byte field at `base + offset`: a pointer or a quadword */
  function ReadQuad(mem: map<Addr, Byte>, base: Addr, offset: nat): (r: Option<Addr>)
    ensures r.Some? <==> ReadUnsigned(mem, base, offset, 8).Some?
  {
    match ReadUnsigned(mem, base, offset, 8)
    case None => None
    case Some(v) =>
      assert Pow256(8) == ADDRESS_SPACE;
      Some(v)
  }
}

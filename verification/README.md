# ETW real-time consumer enumeration, modelled in Dafny

`etw-enum-windbg.js` is a WinDbg script that lists, for every active ETW
(Event Tracing for Windows) session, the processes registered as real-time
consumers. It finds them by reading kernel structures directly: for each
`_WMI_LOGGER_CONTEXT` it reads `NumConsumers` and walks the `Consumers` list of
`_ETW_REALTIME_CONSUMER` nodes. For each node it turns the `ProcessObject`
(an `EPROCESS` address) into a process id and image name.

This project models the part of the script that does the work, as pure
functions over a frozen, read-only snapshot of the target:

- `Target`: the snapshot. Memory is a partial map from 64-bit addresses to
  bytes. A read throws when it touches an unmapped byte or runs past 2^64.
  Quadword and ULONG fields are little-endian. The output of `!process <addr> 0`
  is a map from an address to already-tokenised lines; a missing entry means
  the command threw. Structure field offsets that the host takes from symbols
  are a `Layout` parameter.
- `Hex`, `Text`: `parseInt(token, 16)` and its inverse `toString(16)`,
  `String.prototype.trim`, and decoding of the 15-byte `ImageFileName` buffer.
- `Resolver`: `getProcessInfo`. It parses the `!process` listing, where the
  last matching line wins. If that gives no PID > 0, it probes the PID offsets
  `0x2E8, 0x440, 0x448, 0x2E0` for a value `0 < v < 100000`, and probes the
  image-name offsets `0x5A8, 0x450, 0x468` for a non-empty name.
- `Walk`: `walkConsumerList`. This is the loop bounded by `maxConsumers`. It
  stops on address 0, on the list head, on a Flink back to the head or to the
  first node, or on the first read that throws. The loop is written over a
  per-node `View`, so its bounds and stop rules hold whatever the nodes hold.
- `Sessions`: `processLoggerContext`, the loop over the logger directory, and
  the counters `printResults` reports.

The model keeps these behaviours of the script as written:

- A consumer whose identity does not resolve is dropped, not kept.
- A logger whose header read throws is left out of the output. It is not
  reported as an empty session.
- `getProcessInfo` returns only `{pid, imageName}`. It records no
  resolution source.
- A `!process` command that throws makes `getProcessInfo` return `null` at
  once. No offset is probed in that case.
- A name found by the image-name probe replaces any name the listing gave.

## Model

| member | source | states |
|---|---|---|
| Hex.Value | etw-enum-windbg.js:200 | `parseInt(token, 16)` of an n-digit token is below 16^n |
| Target.ReadBytesAt | etw-enum-windbg.js:119 | a byte read succeeds exactly when the whole range is mapped and below 2^64, and then returns the mapped bytes in address order |
| Hex.ToHex | etw-enum-windbg.js:187 | `toString(16)` yields a non-empty run of lower-case hex digits with no leading zero unless the number is 0 |
| Hex.ValueOfToHex | etw-enum-windbg.js:187-200 | parsing the hex rendering of any number gives that number back |
| Hex.ValueZeroIff | etw-enum-windbg.js:200-210 | a `Cid:` token parses to 0, and so fails the `pid > 0` test, exactly when every digit is `0` |
| Hex.ValueIgnoresCase | etw-enum-windbg.js:198-200 | tokens that are equal once their letters are lower-cased parse to the same PID |
| Hex.DigitValueLower | etw-enum-windbg.js:198-200 | an upper-case hex digit and its lower-case form are both digits of the same value |
| Hex.CidExample | etw-enum-windbg.js:198-200 | the token `004d` parses to 77: leading zeros are allowed and add nothing |
| Text.Trim | etw-enum-windbg.js:206 | the trimmed name is the capture with only white space removed from its two ends, and it neither starts nor ends with white space |
| Text.TrimUnspaced | etw-enum-windbg.js:206 | a capture with no white space at either end is taken unchanged as the image name |
| Text.TrimIdempotent | etw-enum-windbg.js:206 | trimming an already trimmed name changes nothing |
| Text.DecodeName | etw-enum-windbg.js:264-268 | the decoded name is the bytes before the first 0 byte, one character per byte: never longer than the buffer, never containing NUL, and stopped only by a 0 byte or the buffer's end |
| Text.NameRoundTrip | etw-enum-windbg.js:258-268 | a name of at most 15 single-byte, non-NUL characters stored zero-padded in the buffer decodes back to itself |
| Text.DecodeStopsAtFirstNul | etw-enum-windbg.js:264-268 | a 0 byte at position k bounds the decoded length by k |
| Resolver.ParseListing | etw-enum-windbg.js:190-208 | with no `Cid:` match the parsed PID is 0; with no `Image:` match the name stays `"Unknown"` |
| Resolver.LastCidWins | etw-enum-windbg.js:194-201 | the parsed PID is the value of the last line whose `Cid:` pattern matched, whatever earlier lines held |
| Resolver.LastImageWins | etw-enum-windbg.js:203-207 | the parsed image name is the trimmed capture of the last `Image:` line |
| Resolver.FirstSome | etw-enum-windbg.js:230-246 | an ordered probe yields nothing exactly when every candidate fails, and otherwise yields one of the candidates |
| Resolver.FirstSomeFromAt | etw-enum-windbg.js:230-246 | an ordered probe resumed at any position up to the first succeeding candidate still yields that candidate |
| Resolver.FirstSomeAt | etw-enum-windbg.js:238-242 | an ordered probe yields the first candidate that succeeds; candidates after it play no part |
| Resolver.PidCandidate | etw-enum-windbg.js:232-238 | an offset supplies a PID exactly when the 8-byte little-endian read at EPROCESS+offset succeeds with a value strictly between 0 and 100000, and that value is the PID |
| Resolver.ProbePid | etw-enum-windbg.js:228-246 | the probed PID lies strictly between 0 and 100000, and there is none exactly when every offset is unreadable or implausible |
| Resolver.ProbePidFirst | etw-enum-windbg.js:228-246 | the probe returns the value read at the first offset, in the order 0x2E8, 0x440, 0x448, 0x2E0, whose read succeeds with a plausible value; failures before it are skipped |
| Resolver.NameCandidate | etw-enum-windbg.js:258-270 | an offset supplies a name exactly when the 15 bytes at EPROCESS+offset can be read and decode to a non-empty name, and the name is those bytes up to the first NUL |
| Resolver.ProbeName | etw-enum-windbg.js:252-281 | the probed name is non-empty, at most 15 NUL-free characters, and there is none exactly when every name offset fails |
| Resolver.ProbeNameFirst | etw-enum-windbg.js:252-281 | the probe returns the name decoded at the first offset, in the order 0x5A8, 0x450, 0x468, whose 15 bytes are readable and do not start with NUL |
| Resolver.Resolve | etw-enum-windbg.js:190-287 | the fallback chain returns an identity only with PID > 0 and only when the command gave output; when the listing gives PID 0 and every probed PID is plausible, it returns `null` exactly when no PID offset yields a value |
| Resolver.ResolveByCommand | etw-enum-windbg.js:210-212 | a listing that yields PID > 0 decides the identity as the listing's `{pid, imageName}`, whatever the probes would give |
| Resolver.ResolveByProbe | etw-enum-windbg.js:214-285 | without a PID from the listing, the identity is the first probed PID, named by the first probed name or else by the listing's name |
| Resolver.ProbedNameWins | etw-enum-windbg.js:270-273 | a name found by the probe replaces the name the listing gave |
| Resolver.ProbeStopsAtFirst | etw-enum-windbg.js:238-242 | once a candidate offset succeeds, what the later offsets hold cannot change the probe's result |
| Resolver.ResolveProcess | etw-enum-windbg.js:184-293 | a returned identity has PID > 0 and exists only if the command succeeded; a listing PID > 0 returns the listing's `{pid, imageName}`; otherwise the PID is the probed value and the name the probed name if any, else the listing's; `null` comes back exactly when the command throws, or when the listing gives PID 0 and no offset holds a plausible PID |
| Resolver.ResolveFromMemoryExample | etw-enum-windbg.js:214-285 | an EPROCESS with an empty listing, 77 at +0x2E8 and `svchost.exe` zero-padded at +0x5A8 resolves to `{pid: 77, imageName: "svchost.exe"}` |
| Resolver.ResolveFromListingExample | etw-enum-windbg.js:190-212 | a listing with `Cid: 004d` and `Image: svchost.exe` resolves to `{pid: 77, imageName: "svchost.exe"}` whatever memory holds |
| Walk.ViewNode | etw-enum-windbg.js:119-156 | a node is unreadable exactly when its 64-byte read or its `ProcessObject` read fails; otherwise an entry is appended exactly when `ProcessObject` is non-zero and `getProcessInfo` resolves it, carrying that identity's PID and name with the node and process addresses, and the link is the `Links.Flink` read |
| Walk.ViewerIsSound | etw-enum-windbg.js:134-144 | every node's appended entry satisfies those three facts |
| Walk.ViewerLinks | etw-enum-windbg.js:119-156 | the link the walk follows from a node of the snapshot is that node's `Links.Flink`, and there is none when the node cannot be read |
| Walk.Entries | etw-enum-windbg.js:134-149 | a sequence of examined nodes appends at most one entry per node, and each entry is for one of those nodes with a resolved process |
| Walk.WalkFrom | etw-enum-windbg.js:105-179 | the loop examines at most `maxConsumers - count` nodes whatever the link graph is, and the entries it appends are those of the examined nodes, in examination order |
| Walk.WalkFollowsLinks | etw-enum-windbg.js:105-172 | the examined nodes start at the current node and each is the Flink of the one before; none is 0 or the list head, and none after the start is the first node |
| Walk.WalkConsumerList | etw-enum-windbg.js:99-182 | at most `maxConsumers` nodes are examined, starting at the first node and in link order, never 0, the head, or the first node twice; consumers number no more than examined nodes and are their entries in traversal order, each with a resolved process |
| Walk.WalkStopReason | etw-enum-windbg.js:105-178 | the walk ends because the count ran out, or the current address was 0 or the head, or the last node's Flink was the head, the first node, or 0, or unreadable |
| Walk.WalkAtEndReadsNothing | etw-enum-windbg.js:107-111 | a walk at address 0 or at the list head examines nothing and gives the same result whatever memory holds |
| Walk.WalkRingFrom | etw-enum-windbg.js:105-172 | from the i-th node of a readable ring the walk examines the ring's nodes from i up to the bound, in order |
| Walk.RingStep | etw-enum-windbg.js:119-172 | inside a readable ring, the walk examines the current node and carries on at its Flink, the next ring node, with the same final stop |
| Walk.RingLast | etw-enum-windbg.js:156-168 | at the last node of a readable ring within the bound, the walk examines it and stops back at the head or the first node |
| Walk.WalkRingStopFrom | etw-enum-windbg.js:105-172 | from the i-th node of a readable ring the walk stops back at the head or the first node when the ring fits the bound, and on the count otherwise |
| Walk.WalkRing | etw-enum-windbg.js:99-172 | a circular list of K nodes is walked in link order: all K nodes if K <= `maxConsumers`, stopping at the head or the first node, and else exactly the first `maxConsumers` |
| Sessions.ScanSession | etw-enum-windbg.js:65-91 | a session record is pushed exactly when the header reads succeed (`NumConsumers`, and for a non-zero count the head address and `Consumers.Flink`); it carries the logger's address, id and name; its consumers are the walk's result from `Consumers.Flink` bounded by `NumConsumers`, entries appended before a failed read included, and none when the count is 0 or Flink is the head |
| Sessions.ProcessLoggerContext | etw-enum-windbg.js:46-97 | a session record is produced exactly when the header reads succeed; it belongs to the given logger; when the list is non-empty its consumers are those of the walk over the snapshot from `Consumers.Flink` to the head `base + 0x158`, bounded by `NumConsumers`, each with PID > 0 and a non-zero EPROCESS address |
| Sessions.EmptySessionSkipsWalk | etw-enum-windbg.js:65-91 | with `NumConsumers` 0, or a head Flink equal to the head address `base + 0x158`, the session is reported with no consumers; the result is the same whatever the list nodes hold, so no node is read |
| Sessions.SessionOverRing | etw-enum-windbg.js:69-91 | a consumer list that is a ring of at most `NumConsumers` nodes yields exactly those nodes' resolved entries in link order |
| Sessions.ScannerIsProcessLoggerContext | etw-enum-windbg.js:21-35 | the per-logger step of the driver is `processLoggerContext` on the snapshot, and every session it makes carries its own logger's address, id and name |
| Sessions.ScanWith | etw-enum-windbg.js:21-35 | the loop over the directory yields at most one session per logger, and one per logger when every logger yields one |
| Sessions.ScanWithSound | etw-enum-windbg.js:21-35 | for a step that keeps loggers, every session the loop yields is the step's session for a logger of the directory |
| Sessions.ScanWithComplete | etw-enum-windbg.js:21-35 | every session the step yields for a logger of the directory appears in the loop's output |
| Sessions.ScanWithAppend | etw-enum-windbg.js:21-35 | the loop over a concatenated directory is the concatenation of the two loops' outputs |
| Sessions.ScanAll | etw-enum-windbg.js:21-35 | the driver over the snapshot yields at most one session per logger, and one for every logger when `processLoggerContext` succeeds for all of them |
| Sessions.ScanAllSessions | etw-enum-windbg.js:21-35 | each session the driver yields comes from a logger of the directory and is exactly what `processLoggerContext` gives for that logger; every logger for which `processLoggerContext` gives a session has that session in the output |
| Sessions.ScanAllOne | etw-enum-windbg.js:21-35 | a single logger contributes its `processLoggerContext` session if there is one, and nothing otherwise |
| Sessions.ScanAllAppend | etw-enum-windbg.js:21-35 | scanning two directories in turn over the snapshot gives the two outputs in order: sessions keep directory order |
| Sessions.CountWithConsumers | etw-enum-windbg.js:301-303 | the sessions with consumers are never more than all sessions |
| Sessions.TotalConsumers | etw-enum-windbg.js:301-305 | the consumer total is at least the number of sessions with consumers, and is 0 exactly when no session has any |
| Sessions.Summarise | etw-enum-windbg.js:298-322 | the counting loop reports the number of sessions, the number with a non-empty consumer list, and the sum of all list lengths, with sessions-with-consumers bounded by both other counters |
| Sessions.CountersAdd | etw-enum-windbg.js:301-305 | both counters add up over a split of the session list |

## Left out

- The WinDbg host API is not modelled: `ExecuteCommand`, `createTypedObject`,
  `host.memory.readMemoryValues` and `host.parseInt64`. The snapshot's byte map
  and command map stand in for them, and the reads are the map lookups.
- `createTypedObject` is taken never to fail. Its field offsets come from
  kernel symbols, which are not part of this model, so they are the `Layout`
  parameter.
- The `.address` of a pointer field (`ProcessObject`, `Flink`) is taken to be
  the pointer's value. This is how the script uses it.
- `addr.add(offset)` past 2^64 is treated as a read that throws. Every such
  call sits inside a `try` that treats it as a failure either way.
- The regular expressions at lines 25, 198 and 204 are not modelled. A
  `!process` line arrives already split into its `Cid:` capture and its
  `Image:` capture. This includes which `Cid:` the greedy `.*` selects when a
  line holds more than one.
- `parseInt` is exact in the model. The JavaScript number loses precision
  above 2^53, and that rounding is not modelled.
- Hex.Value: states the value of a hex token exactly. It does not model the
  floating-point rounding of `parseInt` above 2^53.
- Logger discovery through `!wmitrace.strdump` (lines 18-35, apart from the
  loop itself) is not modelled. The directory is a given sequence of
  `(address, id, name)` triples.
- Addresses are kept as numbers (`Addr`). The script stores them as
  `toString(16)` strings in each consumer record (lines 142-143) and as the
  raw `0x…` capture in each session record (line 58), and it keys the
  `!process` command by `toString(16)` (line 187). Hex.ValueOfToHex shows
  that `toString(16)` is one-to-one, so a number and its rendering carry the
  same information, and keying by the number loses nothing.
- All `host.diagnostics.debugLog` output is left out, because it is logging
  only and does not steer control flow. So is the text layout of
  `printResults`.
- `initializeScript` alias registration is host plumbing.
- The outer `try` of `enumerateETWConsumers` is left out. It only matters when
  the directory command itself throws.
- Scanning the same snapshot twice gives the same report. That
  holds because every member is a pure function of the snapshot, so there is
  no lemma for it.

/** `getProcessInfo` (etw-enum-windbg.js:184-293): recovering a process id and
    image name from an EPROCESS address through a fixed chain of uncertain
    sources -- the `!process` listing, then PID offset probes, with image-name
    offset probes alongside. */
module Resolver {
  import opened Options
  import opened Hex
  import opened Text
  import opened Target

  /** Candidate offsets of EPROCESS.UniqueProcessId, in the order they are tried */
  const PID_OFFSETS: seq<nat> := [0x2E8, 0x440, 0x448, 0x2E0]
  /** A probed value is taken for a process id only below this bound */
  const PID_CEILING: nat := 100000
  /** Candidate offsets of EPROCESS.ImageFileName, in the order they are tried */
  const NAME_OFFSETS: seq<nat> := [0x5A8, 0x450, 0x468]
  /** Width of the ImageFileName buffer */
  const IMAGE_NAME_BYTES: nat := 15
  const UNKNOWN_IMAGE: string := "Unknown"

  /** The `{pid, imageName}` record `getProcessInfo` returns when it does not return null */
  datatype Identity = Identity(pid: nat, imageName: string)

  /** The scan of the `!process` output (lines 190-208): every line that matches
      a pattern overwrites what earlier lines set */
  function ParseListing(lines: seq<Line>): (r: Identity)
    ensures (forall j | 0 <= j < |lines| :: lines[j].cid.None?) ==> r.pid == 0
    ensures (forall j | 0 <= j < |lines| :: lines[j].image.None?) ==> r.imageName == UNKNOWN_IMAGE
  {
    if |lines| == 0 then Identity(0, UNKNOWN_IMAGE)
    else
      var before := ParseListing(lines[..|lines| - 1]);
      var line := lines[|lines| - 1];
      Identity(
        if line.cid.Some? then Value(line.cid.value) else before.pid,
        if line.image.Some? then Trim(line.image.value) else before.imageName)
  }

  /** Line `k` is the last one on which the `Cid:` pattern matched */
  predicate IsLastCid(lines: seq<Line>, k: int) {
    0 <= k < |lines| && lines[k].cid.Some? && forall j | k < j < |lines| :: lines[j].cid.None?
  }

  /** Line `k` is the last one on which the `Image:` pattern matched */
  predicate IsLastImage(lines: seq<Line>, k: int) {
    0 <= k < |lines| && lines[k].image.Some? && forall j | k < j < |lines| :: lines[j].image.None?
  }

  /** The last `Cid:` match decides the parsed process id */
  lemma {:induction false} LastCidWins(lines: seq<Line>, k: int)
    requires IsLastCid(lines, k)
    ensures ParseListing(lines).pid == Value(lines[k].cid.value)
  {
    if k < |lines| - 1 {
      LastCidWins(lines[..|lines| - 1], k);
    }
  }

  /** The last `Image:` match, trimmed, decides the parsed image name */
  lemma {:induction false} LastImageWins(lines: seq<Line>, k: int)
    requires IsLastImage(lines, k)
    ensures ParseListing(lines).imageName == Trim(lines[k].image.value)
  {
    if k < |lines| - 1 {
      LastImageWins(lines[..|lines| - 1], k);
    }
  }

  /** Entry `k` is the first present one */
  predicate IsFirstSome<T>(candidates: seq<Option<T>>, k: int) {
    0 <= k < |candidates| && candidates[k].Some? && forall j | 0 <= j < k :: candidates[j].None?
  }

  /** The first present entry of `candidates` at or after position `from` */
  function FirstSomeFrom<T>(candidates: seq<Option<T>>, from: nat): (r: Option<T>)
    requires from <= |candidates|
    ensures r.None? <==> forall i | from <= i < |candidates| :: candidates[i].None?
    ensures r.Some? ==> r in candidates[from..]
    decreases |candidates| - from
  {
    if from == |candidates| then None
    else if candidates[from].Some? then candidates[from]
    else FirstSomeFrom(candidates, from + 1)
  }

  /** The first present entry of an ordered list of candidates */
  function FirstSome<T>(candidates: seq<Option<T>>): (r: Option<T>)
    ensures r.None? <==> forall i | 0 <= i < |candidates| :: candidates[i].None?
    ensures r.Some? ==> r in candidates
  {
    FirstSomeFrom(candidates, 0)
  }

  lemma {:induction false} FirstSomeFromAt<T>(candidates: seq<Option<T>>, from: nat, k: int)
    requires IsFirstSome(candidates, k) && from <= k
    ensures FirstSomeFrom(candidates, from) == candidates[k]
    decreases k - from
  {
    if from < k {
      FirstSomeFromAt(candidates, from + 1, k);
    }
  }

  /** Candidates after the first present one are never looked at */
  lemma FirstSomeAt<T>(candidates: seq<Option<T>>, k: int)
    requires IsFirstSome(candidates, k)
    ensures FirstSome(candidates) == candidates[k]
  {
    FirstSomeFromAt(candidates, 0, k);
  }

  /** The 8-byte value at one PID offset, if it can be read and is plausible (line 238) */
  function PidCandidate(mem: map<Addr, Byte>, base: Addr, offset: nat): (r: Option<nat>)
    ensures r.Some? ==> 0 < r.value < PID_CEILING
    ensures r.Some? <==> ReadQuad(mem, base, offset).Some? && 0 < ReadQuad(mem, base, offset).value < PID_CEILING
    ensures r.Some? ==> r.value == ReadQuad(mem, base, offset).value
  {
    match ReadQuad(mem, base, offset)
    case None => None
    case Some(v) => if 0 < v < PID_CEILING then Some(v) else None
  }

  function PidCandidates(mem: map<Addr, Byte>, base: Addr): (cs: seq<Option<nat>>)
    ensures |cs| == |PID_OFFSETS|
    ensures forall i | 0 <= i < |cs| :: cs[i] == PidCandidate(mem, base, PID_OFFSETS[i])
  {
    seq(|PID_OFFSETS|, i requires 0 <= i < |PID_OFFSETS| => PidCandidate(mem, base, PID_OFFSETS[i]))
  }

  /** The PID probe (lines 228-246): the first plausible value in offset order */
  function ProbePid(mem: map<Addr, Byte>, base: Addr): (r: Option<nat>)
    ensures r.Some? ==> 0 < r.value < PID_CEILING
    ensures r.None? <==> forall i | 0 <= i < |PID_OFFSETS| :: PidCandidate(mem, base, PID_OFFSETS[i]).None?
  {
    var cs := PidCandidates(mem, base);
    var r := FirstSome(cs);
    assert r.Some? ==> exists i | 0 <= i < |cs| :: cs[i] == r;
    r
  }

  /** The 15 ImageFileName bytes at `base + offset`, if they can all be read */
  function NameBytes(mem: map<Addr, Byte>, base: Addr, offset: nat): Option<seq<Byte>> {
    match Offset(base, offset)
    case None => None
    case Some(a) => ReadBytes(mem, a, IMAGE_NAME_BYTES)
  }

  /** The name decoded from the 15 bytes at one name offset, if readable and non-empty (lines 258-270) */
  function NameCandidate(mem: map<Addr, Byte>, base: Addr, offset: nat): (r: Option<string>)
    ensures r.Some? ==> |r.value| > 0 && IsBufferName(r.value, IMAGE_NAME_BYTES)
    ensures r.Some? <==> NameBytes(mem, base, offset).Some? && |DecodeName(NameBytes(mem, base, offset).value)| > 0
    ensures r.Some? ==> r.value == DecodeName(NameBytes(mem, base, offset).value)
  {
    match NameBytes(mem, base, offset)
    case None => None
    case Some(bytes) =>
      var name := DecodeName(bytes);
      if |name| > 0 then Some(name) else None
  }

  function NameCandidates(mem: map<Addr, Byte>, base: Addr): (cs: seq<Option<string>>)
    ensures |cs| == |NAME_OFFSETS|
    ensures forall i | 0 <= i < |cs| :: cs[i] == NameCandidate(mem, base, NAME_OFFSETS[i])
  {
    seq(|NAME_OFFSETS|, i requires 0 <= i < |NAME_OFFSETS| => NameCandidate(mem, base, NAME_OFFSETS[i]))
  }

  /** The image-name probe (lines 252-281): the first non-empty decoded name in offset order */
  function ProbeName(mem: map<Addr, Byte>, base: Addr): (r: Option<string>)
    ensures r.Some? ==> |r.value| > 0 && IsBufferName(r.value, IMAGE_NAME_BYTES)
    ensures r.None? <==> forall i | 0 <= i < |NAME_OFFSETS| :: NameCandidate(mem, base, NAME_OFFSETS[i]).None?
  {
    var cs := NameCandidates(mem, base);
    var r := FirstSome(cs);
    assert r.Some? ==> exists i | 0 <= i < |cs| :: cs[i] == r;
    r
  }

  /** The PID probe takes the first offset, in `PID_OFFSETS` order, whose
      quadword can be read and lies strictly between 0 and 100000 */
  lemma ProbePidFirst(mem: map<Addr, Byte>, base: Addr, k: int)
    requires 0 <= k < |PID_OFFSETS|
    requires forall j | 0 <= j < k ::
      ReadQuad(mem, base, PID_OFFSETS[j]).None? || !(0 < ReadQuad(mem, base, PID_OFFSETS[j]).value < PID_CEILING)
    requires ReadQuad(mem, base, PID_OFFSETS[k]).Some? && 0 < ReadQuad(mem, base, PID_OFFSETS[k]).value < PID_CEILING
    ensures ProbePid(mem, base) == Some(ReadQuad(mem, base, PID_OFFSETS[k]).value)
  {
    FirstSomeAt(PidCandidates(mem, base), k);
  }

  /** The image-name probe takes the name decoded from the first offset, in
      `NAME_OFFSETS` order, whose 15 bytes can be read and do not start with NUL */
  lemma ProbeNameFirst(mem: map<Addr, Byte>, base: Addr, k: int)
    requires 0 <= k < |NAME_OFFSETS|
    requires forall j | 0 <= j < k ::
      NameBytes(mem, base, NAME_OFFSETS[j]).None? || |DecodeName(NameBytes(mem, base, NAME_OFFSETS[j]).value)| == 0
    requires NameBytes(mem, base, NAME_OFFSETS[k]).Some? && |DecodeName(NameBytes(mem, base, NAME_OFFSETS[k]).value)| > 0
    ensures ProbeName(mem, base) == Some(DecodeName(NameBytes(mem, base, NAME_OFFSETS[k]).value))
  {
    FirstSomeAt(NameCandidates(mem, base), k);
  }

  /** Every PID a probe supplies passed the plausibility test */
  predicate PlausiblePids(pids: seq<Option<nat>>) {
    forall i | 0 <= i < |pids| :: pids[i].Some? ==> 0 < pids[i].value < PID_CEILING
  }

  /** The fallback chain of `getProcessInfo`, given the listing (`None` when the
      command threw) and the ordered PID and image-name probe results. A command
      that throws ends the whole resolution (the outer `catch`, line 289) before
      any probe. */
  function Resolve(listing: Option<seq<Line>>, pids: seq<Option<nat>>, names: seq<Option<string>>): (r: Option<Identity>)
    ensures r.Some? ==> r.value.pid > 0
    ensures r.Some? ==> listing.Some?
    ensures listing.Some? && ParseListing(listing.value).pid == 0 && PlausiblePids(pids) ==>
      (r.None? <==> forall i | 0 <= i < |pids| :: pids[i].None?)
  {
    match listing
    case None => None
    case Some(lines) =>
      var parsed := ParseListing(lines);
      if parsed.pid > 0 then Some(parsed)
      else
        var pid := FirstSome(pids).GetOr(parsed.pid);
        var imageName := FirstSome(names).GetOr(parsed.imageName);
        if pid > 0 then Some(Identity(pid, imageName)) else None
  }

  /** A listing that yields a process id settles the identity whatever the probes would give */
  lemma ResolveByCommand(lines: seq<Line>, pids1: seq<Option<nat>>, names1: seq<Option<string>>,
                         pids2: seq<Option<nat>>, names2: seq<Option<string>>)
    requires ParseListing(lines).pid > 0
    ensures Resolve(Some(lines), pids1, names1) == Resolve(Some(lines), pids2, names2) == Some(ParseListing(lines))
  {
  }

  /** Without a process id from the listing, the id is the first probe result and
      the name the first probed name, else the name the listing gave */
  lemma ResolveByProbe(lines: seq<Line>, pids: seq<Option<nat>>, names: seq<Option<string>>, k: int)
    requires ParseListing(lines).pid == 0
    requires IsFirstSome(pids, k) && pids[k].value > 0
    ensures Resolve(Some(lines), pids, names) ==
      Some(Identity(pids[k].value, FirstSome(names).GetOr(ParseListing(lines).imageName)))
  {
    FirstSomeAt(pids, k);
  }

  /** A name found by the probe replaces whatever name the listing gave */
  lemma ProbedNameWins(lines: seq<Line>, pids: seq<Option<nat>>, names: seq<Option<string>>, k: int)
    requires ParseListing(lines).pid == 0
    requires Resolve(Some(lines), pids, names).Some?
    requires IsFirstSome(names, k)
    ensures Resolve(Some(lines), pids, names).value.imageName == names[k].value
  {
    FirstSomeAt(names, k);
  }

  /** Candidates after the first present one are not consulted: they may be anything */
  lemma ProbeStopsAtFirst<T>(c1: seq<Option<T>>, c2: seq<Option<T>>, k: int)
    requires IsFirstSome(c1, k) && k < |c2|
    requires c1[..k + 1] == c2[..k + 1]
    ensures FirstSome(c1) == FirstSome(c2) == c1[k]
  {
    FirstSomeAt(c1, k);
    assert c2[k] == c2[..k + 1][k];
    assert forall j | 0 <= j < k :: c2[j] == c2[..k + 1][j] == c1[..k + 1][j];
    FirstSomeAt(c2, k);
  }

  /** `getProcessInfo(eprocess)`: `None` is the `null` it returns */
  function ResolveProcess(t: Snapshot, eprocess: Addr): (r: Option<Identity>)
    ensures r.Some? ==> r.value.pid > 0
    ensures r.Some? ==> eprocess in t.processListing
    ensures r.Some? ==> r.value.pid < PID_CEILING || r.value == ParseListing(t.processListing[eprocess])
    ensures r.None? <==>
      || eprocess !in t.processListing
      || (ParseListing(t.processListing[eprocess]).pid == 0 && ProbePid(t.memory, eprocess).None?)
    ensures eprocess in t.processListing && ParseListing(t.processListing[eprocess]).pid > 0 ==>
      r == Some(ParseListing(t.processListing[eprocess]))
    ensures r.Some? && ParseListing(t.processListing[eprocess]).pid == 0 ==>
      r.value.pid == ProbePid(t.memory, eprocess).value
    ensures r.Some? && ParseListing(t.processListing[eprocess]).pid == 0 ==>
      r.value.imageName == ProbeName(t.memory, eprocess).GetOr(ParseListing(t.processListing[eprocess]).imageName)
  {
    var listing := if eprocess in t.processListing then Some(t.processListing[eprocess]) else None;
    assert PlausiblePids(PidCandidates(t.memory, eprocess));
    Resolve(listing, PidCandidates(t.memory, eprocess), NameCandidates(t.memory, eprocess))
  }

  /** An EPROCESS whose listing names no process, holding 77 at the first PID
      offset and "svchost.exe" zero-padded at the first name offset */
  lemma ResolveFromMemoryExample(t: Snapshot, eprocess: Addr)
    requires eprocess in t.processListing && t.processListing[eprocess] == []
    requires ReadQuad(t.memory, eprocess, 0x2E8) == Some(77)
    requires NameBytes(t.memory, eprocess, 0x5A8).Some?
    requires NameBytes(t.memory, eprocess, 0x5A8).value == EncodeName("svchost.exe", IMAGE_NAME_BYTES)
    ensures ResolveProcess(t, eprocess) == Some(Identity(77, "svchost.exe"))
  {
    NameRoundTrip("svchost.exe", IMAGE_NAME_BYTES);
    ProbePidFirst(t.memory, eprocess, 0);
    ProbeNameFirst(t.memory, eprocess, 0);
  }

  /** An EPROCESS whose listing shows `Cid: 004d` and then `Image: svchost.exe`
      resolves to process 77 from the listing alone, whatever memory holds */
  lemma ResolveFromListingExample(t: Snapshot, eprocess: Addr)
    requires eprocess in t.processListing
    requires t.processListing[eprocess] == [Line(Some("004d"), None), Line(None, Some("svchost.exe"))]
    ensures ResolveProcess(t, eprocess) == Some(Identity(77, "svchost.exe"))
  {
    var lines := t.processListing[eprocess];
    CidExample();
    TrimUnspaced("svchost.exe");
    assert lines[..1][..0] == [];
    assert ParseListing(lines[..1]) == Identity(77, UNKNOWN_IMAGE);
    assert lines[..|lines| - 1] == lines[..1];
    assert ParseListing(lines) == Identity(77, "svchost.exe");
  }
}

/** The port detector: it listens on each serial port at the common baud rates, recognises the
    instrument from signature byte strings in what it hears, and keeps the ports it has recognised in a
    cache dictionary that later becomes the serial collector's port list. */
module PortDetector {
  import opened Wrappers
  import opened Bytes
  import SerialCollector

  // ---------------------------------------------------------------- signatures

  /** One entry of the signature table: a key, the byte strings that betray the vendor, and the labels. */
  datatype Group = Group(key: string, patterns: seq<seq<byte>>, equipmentType: string, equipmentName: string)

  /** The signature table, in declaration order. */
  const Groups: seq<Group> := [
    Group("sysmex", [Ascii("Sysmex"), Ascii("XN-"), Ascii("XT-"), Ascii("XS-")],
          "hematologia", "Sysmex Hematology Analyzer"),
    Group("roche", [Ascii("Roche"), Ascii("Cobas"), Ascii("c311"), Ascii("c501")],
          "quimica", "Roche Chemistry Analyzer"),
    Group("abbott", [Ascii("Abbott"), Ascii("Architect"), Ascii("CELL-DYN")],
          "quimica", "Abbott Analyzer"),
    Group("beckman", [Ascii("Beckman"), Ascii("Coulter"), Ascii("DxH")],
          "hematologia", "Beckman Coulter Analyzer"),
    Group("mindray", [Ascii("Mindray"), Ascii("BC-")],
          "hematologia", "Mindray Hematology Analyzer"),
    Group("generic_hl7", [Ascii("MSH|"), Ascii("\U{0B}MSH|")],
          "unknown", "Generic HL7 Device")]

  /** The baud rates probed, in order. */
  const CommonBauds: seq<int> := [9600, 19200, 38400, 57600, 115200]

  /** What `_identify_equipment` returns; `patternMatched` is the signature group's key, or `None` for
      an unrecognised talker. */
  datatype Equipment = Equipment(equipmentType: string, equipmentName: string, patternMatched: Option<string>)

  /** Some pattern of the group occurs in the data. */
  predicate Hit(data: seq<byte>, g: Group) {
    exists i :: 0 <= i < |g.patterns| && Contains(data, g.patterns[i])
  }

  /** The first group, from index `i` on, with a pattern in the data. */
  function FirstHit(data: seq<byte>, i: nat): (r: Option<nat>)
    ensures r.Some? ==> i <= r.value < |Groups| && Hit(data, Groups[r.value])
    decreases |Groups| - i
  {
    if i >= |Groups| then None
    else if Hit(data, Groups[i]) then Some(i)
    else FirstHit(data, i + 1)
  }

  /** `FirstHit` is the first group with a hit, and `None` means no group has one. */
  lemma {:induction false} FirstHitFirst(data: seq<byte>, i: nat)
    ensures FirstHit(data, i).Some? ==> forall j :: i <= j < FirstHit(data, i).value ==> !Hit(data, Groups[j])
    ensures FirstHit(data, i).None? ==> forall j :: i <= j < |Groups| ==> !Hit(data, Groups[j])
    decreases |Groups| - i
  {
    if i < |Groups| && !Hit(data, Groups[i]) {
      FirstHitFirst(data, i + 1);
    }
  }

  /** `_identify_equipment`: groups are tried in declaration order and the first one with a pattern in
      the data wins; otherwise data longer than 10 bytes is an unknown device, and shorter data nothing. */
  function Identify(data: seq<byte>): (r: Option<Equipment>)
    ensures r.Some? && r.value.patternMatched.None? ==> |data| > 10
  {
    match FirstHit(data, 0)
    case Some(k) => Some(Equipment(Groups[k].equipmentType, Groups[k].equipmentName, Some(Groups[k].key)))
    case None => if |data| > 10 then Some(Equipment("unknown", "Unknown Medical Device", None)) else None
  }

  /** The group reported is the k-th exactly when the data has a pattern of group k and none of an
      earlier group. */
  lemma IdentifyFirstMatch(data: seq<byte>, k: nat)
    requires k < |Groups|
    ensures (Identify(data).Some? && Identify(data).value.patternMatched == Some(Groups[k].key))
      <==> Hit(data, Groups[k]) && forall j :: 0 <= j < k ==> !Hit(data, Groups[j])
  {
    FirstHitFirst(data, 0);
    assert forall a, b :: 0 <= a < b < |Groups| ==> Groups[a].key != Groups[b].key;
  }

  /** With no pattern anywhere, data longer than 10 bytes is an unknown device and shorter data is not
      recognised at all. */
  lemma IdentifyUnmatched(data: seq<byte>)
    requires forall j :: 0 <= j < |Groups| ==> !Hit(data, Groups[j])
    ensures |data| > 10 ==> Identify(data) == Some(Equipment("unknown", "Unknown Medical Device", None))
    ensures |data| <= 10 ==> Identify(data) == None
  {
    FirstHitFirst(data, 0);
  }

  /** The framed form of the HL7 signature adds nothing: data containing it contains the bare form. */
  lemma FramedHl7SignatureRedundant(data: seq<byte>)
    requires Contains(data, Ascii("\U{0B}MSH|"))
    ensures Contains(data, Ascii("MSH|"))
  {
    var framed, bare := Ascii("\U{0B}MSH|"), Ascii("MSH|");
    ContainsIff(data, framed);
    var i :| OccursAt(data, framed, i);
    assert data[i + 1..i + 5] == data[i..i + 5][1..];
    assert framed[1..] == bare;
    assert OccursAt(data, bare, i + 1);
    ContainsIff(data, bare);
  }

  // ---------------------------------------------------------------- probing one port

  /** What happens at one baud rate: opening or reading raises, or the reads of the listening window
      return these chunks (an empty chunk where nothing was waiting). */
  datatype Attempt = Raises | Reads(chunks: seq<seq<byte>>)

  /** The bytes of the chunks, in order. */
  function Received(chunks: seq<seq<byte>>): (r: seq<byte>) {
    if chunks == [] then [] else Received(chunks[..|chunks| - 1]) + chunks[|chunks| - 1]
  }

  /** The equipment recognised at one baud rate. */
  function Recognised(a: Attempt): Option<Equipment> {
    match a
    case Raises => None
    case Reads(chunks) => if Received(chunks) != [] then Identify(Received(chunks)) else None
  }

  /** The first rate, from index `i` on, at which equipment is recognised. */
  function FirstSuccess(attempts: seq<Attempt>, i: nat): (r: Option<nat>)
    ensures r.Some? ==> i <= r.value < |attempts| && Recognised(attempts[r.value]).Some?
    decreases |attempts| - i
  {
    if i >= |attempts| then None
    else if Recognised(attempts[i]).Some? then Some(i)
    else FirstSuccess(attempts, i + 1)
  }

  lemma {:induction false} FirstSuccessFirst(attempts: seq<Attempt>, i: nat)
    ensures FirstSuccess(attempts, i).Some? ==>
      forall j :: i <= j < FirstSuccess(attempts, i).value ==> Recognised(attempts[j]).None?
    ensures FirstSuccess(attempts, i).None? ==> forall j :: i <= j < |attempts| ==> Recognised(attempts[j]).None?
    decreases |attempts| - i
  {
    if i < |attempts| && Recognised(attempts[i]).None? {
      FirstSuccessFirst(attempts, i + 1);
    }
  }

  /** A recognised instrument with the line settings it was heard at. */
  datatype Profile = Profile(equipment: Equipment, port: string, baudRate: int, dataBits: int,
                             stopBits: int, parity: string)

  /** What `probe_port` returns for the per-rate outcomes `attempts`. */
  function Probe(port: string, attempts: seq<Attempt>): Option<Profile>
    requires |attempts| == |CommonBauds|
  {
    match FirstSuccess(attempts, 0)
    case None => None
    case Some(k) => Some(Profile(Recognised(attempts[k]).value, port, CommonBauds[k], 8, 1, "N"))
  }

  /** The probe succeeds at the k-th rate exactly when that rate recognises equipment and no earlier
      rate does; the profile then carries that rate and 8 data bits, 1 stop bit, no parity. */
  lemma ProbeFirstRate(port: string, attempts: seq<Attempt>, k: nat)
    requires |attempts| == |CommonBauds| && k < |CommonBauds|
    ensures (Probe(port, attempts).Some? && Probe(port, attempts).value.baudRate == CommonBauds[k])
      <==> Recognised(attempts[k]).Some? && forall j :: 0 <= j < k ==> Recognised(attempts[j]).None?
    ensures Probe(port, attempts).Some? ==> var p := Probe(port, attempts).value;
      p.port == port && p.dataBits == 8 && p.stopBits == 1 && p.parity == "N"
  {
    FirstSuccessFirst(attempts, 0);
  }

  /** Rates that raise, or at which nothing is recognised, are skipped: when none succeeds there is no
      profile. */
  lemma ProbeFails(port: string, attempts: seq<Attempt>)
    requires |attempts| == |CommonBauds|
    requires forall j :: 0 <= j < |attempts| ==> attempts[j].Raises? || Recognised(attempts[j]).None?
    ensures Probe(port, attempts) == None
  {
    if FirstSuccess(attempts, 0).Some? {
      var k := FirstSuccess(attempts, 0).value;
      assert Recognised(attempts[k]).Some?;
    }
  }

  /** The `buffer += data` loop over the reads of one listening window. */
  method Listen(chunks: seq<seq<byte>>) returns (buffer: seq<byte>)
    ensures buffer == Received(chunks)
  {
    buffer := [];
    var i := 0;
    while i < |chunks|
      invariant 0 <= i <= |chunks|
      invariant buffer == Received(chunks[..i])
    {
      assert chunks[..i + 1][..i] == chunks[..i];
      buffer := buffer + chunks[i];
      i := i + 1;
    }
    assert chunks[..i] == chunks;
  }

  /** One rate of `probe_port`: listen when the port opens, and identify what was heard when anything
      was. */
  method TryRate(a: Attempt) returns (equipment: Option<Equipment>)
    ensures equipment == Recognised(a)
  {
    equipment := None;
    if a.Reads? {
      var buffer := Listen(a.chunks);
      if buffer != [] {
        equipment := Identify(buffer);
      }
    }
  }

  /** `probe_port`: the rates are tried in order and the first that recognises equipment ends the
      search. `tried` counts the rates at which the port was opened or attempted. */
  method ProbePort(port: string, attempts: seq<Attempt>) returns (profile: Option<Profile>, tried: nat)
    requires |attempts| == |CommonBauds|
    ensures profile == Probe(port, attempts)
    ensures tried == match FirstSuccess(attempts, 0) case Some(k) => k + 1 case None => |CommonBauds|
  {
    FirstSuccessFirst(attempts, 0);
    var i := 0;
    while i < |CommonBauds|
      invariant 0 <= i <= |CommonBauds|
      invariant forall j :: 0 <= j < i ==> Recognised(attempts[j]).None?
    {
      var equipment := TryRate(attempts[i]);
      if equipment.Some? {
        FirstSuccessAt(attempts, 0, i);
        profile, tried := Some(Profile(equipment.value, port, CommonBauds[i], 8, 1, "N")), i + 1;
        return;
      }
      i := i + 1;
    }
    FirstSuccessNone(attempts);
    profile, tried := None, |CommonBauds|;
  }

  lemma {:induction false} FirstSuccessAt(attempts: seq<Attempt>, i: nat, k: nat)
    requires i <= k < |attempts| && Recognised(attempts[k]).Some?
    requires forall j :: i <= j < k ==> Recognised(attempts[j]).None?
    ensures FirstSuccess(attempts, i) == Some(k)
    decreases k - i
  {
    if i < k {
      FirstSuccessAt(attempts, i + 1, k);
    }
  }

  lemma FirstSuccessNone(attempts: seq<Attempt>)
    requires forall j :: 0 <= j < |attempts| ==> Recognised(attempts[j]).None?
    ensures FirstSuccess(attempts, 0) == None
  {
    FirstSuccessFirst(attempts, 0);
  }

  // ---------------------------------------------------------------- the cache

  /** One port as the OS lists it. */
  datatype PortInfo = PortInfo(port: string, description: string, hwid: string)

  /** One cached port: the profile's keys plus the OS description, each `None` where the key is missing. */
  datatype Entry = Entry(
    equipmentType: Option<string>, equipmentName: Option<string>, patternMatched: Option<string>,
    port: Option<string>, baudRate: Option<int>, dataBits: Option<int>, stopBits: Option<int>,
    parity: Option<string>, description: Option<string>, hwid: Option<string>)

  /** `{**equipment, 'description': ..., 'hwid': ...}`. */
  function EntryOf(p: Profile, info: PortInfo): Entry {
    Entry(Some(p.equipment.equipmentType), Some(p.equipment.equipmentName), p.equipment.patternMatched,
          Some(p.port), Some(p.baudRate), Some(p.dataBits), Some(p.stopBits), Some(p.parity),
          Some(info.description), Some(info.hwid))
  }

  /** A Python dictionary keyed by port name: the keys in insertion order, and the entries. */
  datatype Ports = Ports(order: seq<string>, entries: map<string, Entry>)

  predicate NoDuplicates(s: seq<string>) {
    forall i, j :: 0 <= i < j < |s| ==> s[i] != s[j]
  }

  /** The keys listed once each, and exactly the keys of the entries. */
  ghost predicate Wf(d: Ports) {
    NoDuplicates(d.order) && forall k :: k in d.entries <==> k in d.order
  }

  /** `d[k] = v`: a new key goes last, an existing key keeps its place. */
  function Put(d: Ports, k: string, v: Entry): (r: Ports)
    ensures r.entries == d.entries[k := v]
  {
    if k in d.entries then Ports(d.order, d.entries[k := v]) else Ports(d.order + [k], d.entries[k := v])
  }

  lemma PutWf(d: Ports, k: string, v: Entry)
    requires Wf(d)
    ensures Wf(Put(d, k, v))
  {
    if k !in d.entries {
      var o := d.order + [k];
      forall i, j | 0 <= i < j < |o| ensures o[i] != o[j] {
        if j == |o| - 1 {
          assert o[i] == d.order[i];
        }
      }
    }
  }

  /** The order with key `k` taken out. */
  function RemoveKey(order: seq<string>, k: string): (r: seq<string>)
    ensures k !in r
  {
    if order == [] then [] else (if order[0] == k then [] else [order[0]]) + RemoveKey(order[1..], k)
  }

  /** The first `n` keys, in order, that are in `available`. */
  function Kept(order: seq<string>, n: nat, available: seq<string>): seq<string>
    requires n <= |order|
  {
    if n == 0 then [] else Kept(order, n - 1, available) + (if order[n - 1] in available then [order[n - 1]] else [])
  }

  /** The first `n` keys, in order, that are not in `available`. */
  function Missing(order: seq<string>, n: nat, available: seq<string>): seq<string>
    requires n <= |order|
  {
    if n == 0 then [] else Missing(order, n - 1, available) + (if order[n - 1] in available then [] else [order[n - 1]])
  }

  lemma {:induction false} KeptMissingMembers(order: seq<string>, n: nat, available: seq<string>)
    requires n <= |order|
    ensures forall k :: k in Kept(order, n, available) <==> k in order[..n] && k in available
    ensures forall k :: k in Missing(order, n, available) <==> k in order[..n] && k !in available
  {
    if n > 0 {
      KeptMissingMembers(order, n - 1, available);
      assert order[..n] == order[..n - 1] + [order[n - 1]];
    }
  }

  /** What `verify_cached_ports` leaves: the entries of the ports still available, in their order. */
  function Retain(d: Ports, available: seq<string>): Ports {
    Ports(Kept(d.order, |d.order|, available), map k | k in d.entries && k in available :: d.entries[k])
  }

  /** The cache after `verify_cached_ports` has looked at the first `i` keys. */
  ghost function Partial(d: Ports, available: seq<string>, i: nat): Ports
    requires i <= |d.order|
  {
    Ports(Kept(d.order, i, available) + d.order[i..],
          map k | k in d.entries && (k in available || k !in d.order[..i]) :: d.entries[k])
  }

  lemma PartialStart(d: Ports, available: seq<string>)
    ensures Partial(d, available, 0) == d
  {
    assert d.order[0..] == d.order;
  }

  lemma PartialEnd(d: Ports, available: seq<string>)
    requires Wf(d)
    ensures Partial(d, available, |d.order|) == Retain(d, available)
  {
    assert d.order[..|d.order|] == d.order;
    assert d.order[|d.order|..] == [];
    assert Kept(d.order, |d.order|, available) + [] == Kept(d.order, |d.order|, available);
  }

  /** A key of a list without duplicates occurs neither before nor after its own place. */
  lemma Unique(keys: seq<string>, i: nat)
    requires NoDuplicates(keys) && i < |keys|
    ensures keys[i] !in keys[..i] && keys[i] !in keys[i + 1..]
  {
    assert forall j :: 0 <= j < i ==> keys[..i][j] == keys[j];
    var rest := keys[i + 1..];
    assert forall j :: 0 <= j < |rest| ==> rest[j] == keys[i + 1 + j];
  }

  /** Looking at the i-th key: an available key stays, a missing one is deleted. */
  lemma PartialStep(d: Ports, available: seq<string>, i: nat)
    requires i < |d.order| && d.order[i] !in d.order[..i] && d.order[i] !in d.order[i + 1..]
    ensures var k, p := d.order[i], Partial(d, available, i);
      Partial(d, available, i + 1)
        == if k in available then p else Ports(RemoveKey(p.order, k), p.entries - {k})
  {
    var k, p, q := d.order[i], Partial(d, available, i), Partial(d, available, i + 1);
    assert d.order[..i + 1] == d.order[..i] + [k];
    assert d.order[i..] == [k] + d.order[i + 1..];
    if k in available {
      assert q.order == p.order;
    } else {
      RemoveOne(d.order, i, available);
    }
  }

  /** What one scanned port does to the cache. */
  function ScanStep(d: Ports, info: PortInfo, attempts: seq<Attempt>): Ports
    requires |attempts| == |CommonBauds|
  {
    match Probe(info.port, attempts)
    case None => d
    case Some(p) => Put(d, info.port, EntryOf(p, info))
  }

  /** The cache after scanning the first `n` listed ports. */
  function Scan(d: Ports, available: seq<PortInfo>, attempts: seq<seq<Attempt>>, n: nat): Ports
    requires n <= |available| == |attempts|
    requires forall i :: 0 <= i < |attempts| ==> |attempts[i]| == |CommonBauds|
  {
    if n == 0 then d else ScanStep(Scan(d, available, attempts, n - 1), available[n - 1], attempts[n - 1])
  }

  /** A scan never drops a port and adds exactly the listed ports whose probe succeeds. */
  lemma {:induction false} ScanKeys(d: Ports, available: seq<PortInfo>, attempts: seq<seq<Attempt>>, n: nat)
    requires n <= |available| == |attempts|
    requires forall i :: 0 <= i < |attempts| ==> |attempts[i]| == |CommonBauds|
    ensures forall k :: k in Scan(d, available, attempts, n).entries <==>
      k in d.entries || exists i :: 0 <= i < n && available[i].port == k && Probe(k, attempts[i]).Some?
  {
    if n > 0 {
      ScanKeys(d, available, attempts, n - 1);
    }
  }

  /** A port no successful probe names keeps its cached entry. */
  lemma {:induction false} ScanKeepsOthers(d: Ports, available: seq<PortInfo>, attempts: seq<seq<Attempt>>, n: nat, k: string)
    requires n <= |available| == |attempts|
    requires forall i :: 0 <= i < |attempts| ==> |attempts[i]| == |CommonBauds|
    requires k in d.entries
    requires forall i :: 0 <= i < n && available[i].port == k ==> Probe(k, attempts[i]).None?
    ensures k in Scan(d, available, attempts, n).entries
    ensures Scan(d, available, attempts, n).entries[k] == d.entries[k]
  {
    if n > 0 {
      ScanKeepsOthers(d, available, attempts, n - 1, k);
    }
  }

  /** A port holds the profile of its last successful probe in the scan, with that listing's description
      and hardware id. */
  lemma {:induction false} ScanEntryFromLastSuccess(d: Ports, available: seq<PortInfo>, attempts: seq<seq<Attempt>>,
                                                     n: nat, i: nat)
    requires n <= |available| == |attempts|
    requires forall j :: 0 <= j < |attempts| ==> |attempts[j]| == |CommonBauds|
    requires i < n && Probe(available[i].port, attempts[i]).Some?
    requires forall j :: i < j < n && available[j].port == available[i].port ==> Probe(available[j].port, attempts[j]).None?
    ensures available[i].port in Scan(d, available, attempts, n).entries
    ensures Scan(d, available, attempts, n).entries[available[i].port]
      == EntryOf(Probe(available[i].port, attempts[i]).value, available[i])
  {
    if i < n - 1 {
      ScanEntryFromLastSuccess(d, available, attempts, n - 1, i);
    }
  }

  lemma {:induction false} ScanWf(d: Ports, available: seq<PortInfo>, attempts: seq<seq<Attempt>>, n: nat)
    requires n <= |available| == |attempts|
    requires forall i :: 0 <= i < |attempts| ==> |attempts[i]| == |CommonBauds|
    requires Wf(d)
    ensures Wf(Scan(d, available, attempts, n))
  {
    if n > 0 {
      var prev := Scan(d, available, attempts, n - 1);
      ScanWf(d, available, attempts, n - 1);
      match Probe(available[n - 1].port, attempts[n - 1])
      case None =>
      case Some(p) => PutWf(prev, available[n - 1].port, EntryOf(p, available[n - 1]));
    }
  }

  /** `verify_cached_ports` removes exactly the cached ports the OS no longer lists, returns them in
      cache order, and keeps the rest as they were, in their order. */
  lemma RetainRemovesMissing(d: Ports, available: seq<string>)
    requires Wf(d)
    ensures Wf(Retain(d, available))
    ensures forall k :: k in Missing(d.order, |d.order|, available) <==> k in d.entries && k !in Retain(d, available).entries
    ensures forall k :: k in Retain(d, available).entries ==> Retain(d, available).entries[k] == d.entries[k]
  {
    KeptMissingMembers(d.order, |d.order|, available);
    KeptNoDuplicates(d.order, |d.order|, available);
    assert d.order[..|d.order|] == d.order;
  }

  lemma {:induction false} KeptNoDuplicates(order: seq<string>, n: nat, available: seq<string>)
    requires NoDuplicates(order) && n <= |order|
    ensures NoDuplicates(Kept(order, n, available))
  {
    if n > 0 {
      var last := order[n - 1];
      KeptNoDuplicates(order, n - 1, available);
      KeptMissingMembers(order, n - 1, available);
      assert last !in order[..n - 1] by {
        assert forall j :: 0 <= j < n - 1 ==> order[j] != order[n - 1];
      }
      var r := Kept(order, n, available);
      if last in available {
        forall i, j | 0 <= i < j < |r| ensures r[i] != r[j] {
          if j == |r| - 1 {
            assert r[i] in Kept(order, n - 1, available);
          }
        }
      }
    }
  }

  /** `get_ports_config`'s entry for one cached port: the `.get` defaults 9600, 8, 1, 'N', 'unknown' and
      'Unknown Equipment' for missing keys. */
  function ConfigOf(port: string, e: Entry): (r: SerialCollector.PortConfig)
    ensures r.port == port
    ensures r.baudRate == Some(e.baudRate.GetOr(9600)) && r.dataBits == Some(e.dataBits.GetOr(8))
    ensures r.stopBits == Some(e.stopBits.GetOr(1)) && r.parity == Some(e.parity.GetOr("N"))
    ensures r.equipmentType == Some(e.equipmentType.GetOr("unknown"))
    ensures r.equipmentName == Some(e.equipmentName.GetOr("Unknown Equipment"))
  {
    SerialCollector.PortConfig(port, Some(e.baudRate.GetOr(9600)), Some(e.dataBits.GetOr(8)),
      Some(e.stopBits.GetOr(1)), Some(e.parity.GetOr("N")), Some(e.equipmentType.GetOr("unknown")),
      Some(e.equipmentName.GetOr("Unknown Equipment")))
  }

  /** A port the detector recognised is read by the serial collector at the rate and settings the probe
      found, with the recognised instrument's labels. */
  lemma ScannedPortSettings(p: Profile, info: PortInfo)
    ensures SerialCollector.Settings(ConfigOf(p.port, EntryOf(p, info)))
      == SerialCollector.PortSettings(p.port, p.baudRate, p.dataBits, p.stopBits, p.parity,
                                      p.equipment.equipmentType, p.equipment.equipmentName)
  {
  }

  /** The detector: the `detected_ports` dictionary and the number of times it was saved. */
  class Detector {
    var detectedPorts: Ports
    var saves: nat

    ghost predicate Valid()
      reads this
    {
      Wf(detectedPorts)
    }

    constructor ()
      ensures Valid() && detectedPorts == Ports([], map[]) && saves == 0
    {
      detectedPorts := Ports([], map[]);
      saves := 0;
    }

    /** `save_cache`: the file write itself is not modelled, only that it happens. */
    method SaveCache()
      modifies this
      ensures detectedPorts == old(detectedPorts) && saves == old(saves) + 1
    {
      saves := saves + 1;
    }

    /** `scan_all_ports`: each listed port is probed, with `attempts[i]` the outcomes at the rates for
        the i-th, and a recognised port is stored with its description and hardware id. */
    method ScanAllPorts(available: seq<PortInfo>, attempts: seq<seq<Attempt>>) returns (result: Ports)
      requires Valid()
      requires |available| == |attempts|
      requires forall i :: 0 <= i < |attempts| ==> |attempts[i]| == |CommonBauds|
      modifies this
      ensures Valid()
      ensures detectedPorts == Scan(old(detectedPorts), available, attempts, |available|)
      ensures result == detectedPorts && saves == old(saves)
    {
      var i := 0;
      while i < |available|
        invariant 0 <= i <= |available|
        invariant detectedPorts == Scan(old(detectedPorts), available, attempts, i)
        invariant saves == old(saves)
      {
        var equipment, _ := ProbePort(available[i].port, attempts[i]);
        if equipment.Some? {
          detectedPorts := Put(detectedPorts, available[i].port, EntryOf(equipment.value, available[i]));
        }
        i := i + 1;
      }
      ScanWf(old(detectedPorts), available, attempts, |available|);
      result := detectedPorts;
    }

    /** `verify_cached_ports`: every cached port the OS no longer lists is deleted and reported, and the
        cache is saved when something was deleted. */
    method VerifyCachedPorts(available: seq<string>) returns (invalid: seq<string>)
      requires Valid()
      modifies this
      ensures Valid()
      ensures detectedPorts == Retain(old(detectedPorts), available)
      ensures invalid == Missing(old(detectedPorts).order, |old(detectedPorts).order|, available)
      ensures saves == old(saves) + (if invalid == [] then 0 else 1)
    {
      ghost var d := detectedPorts;
      invalid := DeleteMissing(available);
      SweepIsPartial(d, available, |d.order|);
      PartialEnd(d, available);
      RetainRemovesMissing(d, available);
      if invalid != [] {
        SaveCache();
      }
    }

    /** The loop of `verify_cached_ports` over a copy of the cached keys. */
    method DeleteMissing(available: seq<string>) returns (invalid: seq<string>)
      modifies this
      ensures detectedPorts == Sweep(old(detectedPorts), available, |old(detectedPorts).order|)
      ensures invalid == Missing(old(detectedPorts).order, |old(detectedPorts).order|, available)
      ensures saves == old(saves)
    {
      var keys := detectedPorts.order;
      ghost var d := detectedPorts;
      invalid := [];
      var i := 0;
      while i < |keys|
        invariant 0 <= i <= |keys|
        invariant detectedPorts == Sweep(d, available, i)
        invariant invalid == Missing(keys, i, available)
        invariant saves == old(saves)
      {
        var port := keys[i];
        if port !in available {
          invalid := invalid + [port];
          detectedPorts := Ports(RemoveKey(detectedPorts.order, port), detectedPorts.entries - {port});
        }
        MissingStep(keys, i, available);
        i := i + 1;
      }
    }

    /** `get_ports_config`: one serial-collector port entry per cached port, in cache order. */
    method GetPortsConfig() returns (config: seq<SerialCollector.PortConfig>)
      requires Valid()
      ensures |config| == |detectedPorts.order|
      ensures forall i :: 0 <= i < |config| ==>
        config[i] == ConfigOf(detectedPorts.order[i], detectedPorts.entries[detectedPorts.order[i]])
    {
      config := [];
      var i := 0;
      while i < |detectedPorts.order|
        invariant 0 <= i <= |detectedPorts.order|
        invariant |config| == i
        invariant forall j :: 0 <= j < i ==>
          config[j] == ConfigOf(detectedPorts.order[j], detectedPorts.entries[detectedPorts.order[j]])
      {
        var port := detectedPorts.order[i];
        config := config + [ConfigOf(port, detectedPorts.entries[port])];
        i := i + 1;
      }
    }
  }

  /** Deleting the i-th key from `Kept(keys, i) + keys[i..]` when it is no longer available. */
  lemma RemoveOne(keys: seq<string>, i: nat, available: seq<string>)
    requires i < |keys| && keys[i] !in available && keys[i] !in keys[..i] && keys[i] !in keys[i + 1..]
    ensures RemoveKey(Kept(keys, i, available) + keys[i..], keys[i]) == Kept(keys, i + 1, available) + keys[i + 1..]
  {
    var k, a, rest := keys[i], Kept(keys, i, available), keys[i + 1..];
    KeptMissingMembers(keys, i, available);
    assert keys[i..] == [k] + rest;
    RemoveKeyAppend(a, [k] + rest, k);
    RemoveKeyAbsent(a, k);
    RemoveHead(k, rest);
    KeptSkips(keys, i, available);
  }

  lemma RemoveHead(k: string, rest: seq<string>)
    requires k !in rest
    ensures RemoveKey([k] + rest, k) == rest
  {
    assert ([k] + rest)[1..] == rest;
    RemoveKeyAbsent(rest, k);
  }

  /** The cache after `verify_cached_ports` has looked at the first `i` keys, one deletion at a time. */
  function Sweep(d: Ports, available: seq<string>, i: nat): Ports
    requires i <= |d.order|
  {
    if i == 0 then d
    else
      var p, k := Sweep(d, available, i - 1), d.order[i - 1];
      if k in available then p else Ports(RemoveKey(p.order, k), p.entries - {k})
  }

  lemma {:induction false} SweepIsPartial(d: Ports, available: seq<string>, i: nat)
    requires NoDuplicates(d.order) && i <= |d.order|
    ensures Sweep(d, available, i) == Partial(d, available, i)
  {
    if i == 0 {
      PartialStart(d, available);
    } else {
      SweepIsPartial(d, available, i - 1);
      Unique(d.order, i - 1);
      PartialStep(d, available, i - 1);
    }
  }

  lemma MissingStep(keys: seq<string>, i: nat, available: seq<string>)
    requires i < |keys|
    ensures keys[i] in available ==> Missing(keys, i + 1, available) == Missing(keys, i, available)
    ensures keys[i] !in available ==> Missing(keys, i + 1, available) == Missing(keys, i, available) + [keys[i]]
  {
    assert Missing(keys, i, available) + [] == Missing(keys, i, available);
  }

  lemma KeptSkips(keys: seq<string>, i: nat, available: seq<string>)
    requires i < |keys| && keys[i] !in available
    ensures Kept(keys, i + 1, available) == Kept(keys, i, available)
  {
    assert Kept(keys, i, available) + [] == Kept(keys, i, available);
  }

  lemma {:induction false} RemoveKeyAbsent(s: seq<string>, k: string)
    requires k !in s
    ensures RemoveKey(s, k) == s
  {
    if s != [] {
      RemoveKeyAbsent(s[1..], k);
    }
  }

  lemma {:induction false} RemoveKeyAppend(a: seq<string>, b: seq<string>, k: string)
    ensures RemoveKey(a + b, k) == RemoveKey(a, k) + RemoveKey(b, k)
  {
    if a != [] {
      assert (a + b)[1..] == a[1..] + b;
      RemoveKeyAppend(a[1..], b, k);
    } else {
      assert a + b == b;
    }
  }
}

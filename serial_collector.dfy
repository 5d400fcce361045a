/** The serial collector: one reader per configured port accumulates the bytes an instrument sends,
    cuts the MLLP blocks out of them and puts one record per block on the delivery queue. */
module SerialCollector {
  import opened Wrappers
  import opened Bytes
  import opened Framer
  import opened Records
  import opened Clock

  /** One entry of the collector's port list; `None` where the key is missing. */
  datatype PortConfig = PortConfig(
    port: string,
    baudRate: Option<int>,
    dataBits: Option<int>,
    stopBits: Option<int>,
    parity: Option<string>,
    equipmentType: Option<string>,
    equipmentName: Option<string>)

  /** The line parameters and labels a reader works with once the defaults are filled in. */
  datatype PortSettings = PortSettings(
    port: string,
    baudRate: int,
    dataBits: int,
    stopBits: int,
    parity: string,
    equipmentType: string,
    equipmentName: string)

  /** The `port_config.get(key, default)` calls at the top of `_read_port`. */
  function Settings(c: PortConfig): (r: PortSettings)
    ensures r.port == c.port
    ensures r.baudRate == c.baudRate.GetOr(9600) && r.dataBits == c.dataBits.GetOr(8)
    ensures r.stopBits == c.stopBits.GetOr(1) && r.parity == c.parity.GetOr("N")
    ensures r.equipmentType == c.equipmentType.GetOr("unknown")
    ensures r.equipmentName == c.equipmentName.GetOr("Unknown Equipment")
  {
    PortSettings(c.port, c.baudRate.GetOr(9600), c.dataBits.GetOr(8), c.stopBits.GetOr(1),
                 c.parity.GetOr("N"), c.equipmentType.GetOr("unknown"),
                 c.equipmentName.GetOr("Unknown Equipment"))
  }

  /** A port entry that names only the port gets 9600 baud, 8 data bits, 1 stop bit, no parity and the
      unknown-equipment labels. */
  lemma SettingsDefaults(port: string)
    ensures Settings(PortConfig(port, None, None, None, None, None, None))
         == PortSettings(port, 9600, 8, 1, "N", "unknown", "Unknown Equipment")
  {
  }

  /** The record `_process_message` puts on the queue for one message: the decoded text, stamped with the
      clock reading `now`, labelled with the port's equipment and marked as serial HL7. */
  function SerialRecord(message: seq<byte>, s: PortSettings, now: DateTime): (r: RawRecord)
    requires Valid(now)
    ensures r.source == "serial" && r.dataType == Some("hl7")
    ensures r.equipmentType == Some(s.equipmentType) && r.equipmentName == Some(s.equipmentName)
    ensures r.port == Some(s.port)
    ensures r.rawData == Some(Text(Decode(message))) && r.timestamp == Some(IsoFormat(now))
    ensures r.fileName == None && r.filePath == None && r.fileSize == None
    ensures r.patientId == None && r.patientName == None && r.studyDate == None
    ensures r.modality == None && r.seriesDescription == None
  {
    RawRecord("serial", Some(s.equipmentType), Some(s.equipmentName), Some("hl7"), Some(s.port),
              None, None, None, Some(Text(Decode(message))), Some(IsoFormat(now)),
              None, None, None, None, None)
  }

  /** One record per message, in message order. */
  function SerialRecords(messages: seq<seq<byte>>, s: PortSettings, now: DateTime): (r: seq<RawRecord>)
    requires Valid(now)
    ensures |r| == |messages|
    ensures forall i :: 0 <= i < |messages| ==> r[i] == SerialRecord(messages[i], s, now)
  {
    seq(|messages|, i requires 0 <= i < |messages| => SerialRecord(messages[i], s, now))
  }

  /** What one poll of an open port gives: a `SerialException`, or the `in_waiting` bytes (empty when
      nothing is waiting). */
  datatype Read = Fails | Received(data: seq<byte>)

  /** The state `_read_port` keeps for one port between iterations of its loop. */
  class PortReader {
    const settings: PortSettings
    /** `ser is not None and ser.is_open`. */
    var open: bool
    /** The bytes received and not yet cut out as messages. */
    var buffer: seq<byte>
    /** How many connections were opened and added to `self.connections`. */
    var connections: nat
    /** The `time.sleep` calls made so far, in milliseconds. */
    var delays: seq<nat>
    const queue: RecordQueue

    constructor (config: PortConfig, queue: RecordQueue)
      ensures settings == Settings(config) && this.queue == queue
      ensures !open && buffer == [] && connections == 0 && delays == []
    {
      settings := Settings(config);
      this.queue := queue;
      open := false;
      buffer := [];
      connections := 0;
      delays := [];
    }

    /** One iteration of the `while self.running` loop. A closed port is opened first; if opening fails,
        the iteration only waits 5 s. A failing read closes the port and waits 5 s. Received bytes are
        appended to the buffer, every complete block found in it is removed by content and queued as
        a record, and the iteration waits 100 ms. The buffer survives failures and reconnections. */
    method Cycle(opens: bool, read: Read, now: DateTime)
      requires Valid(now)
      modifies this, queue
      ensures !old(open) && !opens ==>
        && !open && buffer == old(buffer) && connections == old(connections)
        && delays == old(delays) + [5000] && queue.items == old(queue.items)
      ensures (old(open) || opens) && read.Fails? ==>
        && !open && buffer == old(buffer)
        && connections == old(connections) + (if old(open) then 0 else 1)
        && delays == old(delays) + [5000] && queue.items == old(queue.items)
      ensures (old(open) || opens) && read.Received? ==>
        var all := old(buffer) + read.data;
        var messages := if read.data == [] then [] else Messages(all);
        && open
        && connections == old(connections) + (if old(open) then 0 else 1)
        && buffer == (if read.data == [] then old(buffer) else RemoveEach(all, messages))
        && queue.items == old(queue.items) + SerialRecords(messages, settings, now)
        && delays == old(delays) + [100]
    {
      if !open {
        if !opens {
          delays := delays + [5000];
          return;
        }
        open := true;
        connections := connections + 1;
      }
      match read {
        case Fails =>
          open := false;
          delays := delays + [5000];
        case Received(data) =>
          if data != [] {
            buffer := buffer + data;
            var messages := ExtractMessages(buffer);
            buffer := RemoveAndQueue(buffer, messages, now);
          }
          delays := delays + [100];
      }
    }

    /** The loop over the extracted messages: each one is cut out of the buffer by content and queued. */
    method RemoveAndQueue(buf: seq<byte>, messages: seq<seq<byte>>, now: DateTime) returns (rest: seq<byte>)
      requires Valid(now)
      modifies queue
      ensures rest == RemoveEach(buf, messages)
      ensures queue.items == old(queue.items) + SerialRecords(messages, settings, now)
    {
      rest := buf;
      var i := 0;
      while i < |messages|
        invariant 0 <= i <= |messages|
        invariant RemoveEach(rest, messages[i..]) == RemoveEach(buf, messages)
        invariant queue.items == old(queue.items) + SerialRecords(messages[..i], settings, now)
      {
        RemoveEachNext(rest, messages, i);
        rest := RemoveFirst(rest, messages[i]);
        queue.Put(SerialRecord(messages[i], settings, now));
        SerialRecordsNext(messages, i, settings, now);
        i := i + 1;
      }
      RemoveEachDone(rest, messages, i);
      SerialRecordsDone(messages, settings, now);
    }
  }

  lemma RemoveEachNext(buf: seq<byte>, messages: seq<seq<byte>>, i: nat)
    requires i < |messages|
    ensures RemoveEach(buf, messages[i..]) == RemoveEach(RemoveFirst(buf, messages[i]), messages[i + 1..])
  {
    assert messages[i..][1..] == messages[i + 1..];
  }

  lemma RemoveEachDone(buf: seq<byte>, messages: seq<seq<byte>>, i: nat)
    requires i == |messages|
    ensures RemoveEach(buf, messages[i..]) == buf
  {
  }

  lemma SerialRecordsNext(messages: seq<seq<byte>>, i: nat, s: PortSettings, now: DateTime)
    requires Valid(now) && i < |messages|
    ensures SerialRecords(messages[..i + 1], s, now) == SerialRecords(messages[..i], s, now) + [SerialRecord(messages[i], s, now)]
  {
  }

  lemma SerialRecordsDone(messages: seq<seq<byte>>, s: PortSettings, now: DateTime)
    requires Valid(now)
    ensures SerialRecords(messages[..|messages|], s, now) == SerialRecords(messages, s, now)
  {
    assert messages[..|messages|] == messages;
  }

  /** One removal of `RemoveEach`. */
  lemma RemoveEachStep(buf: seq<byte>, messages: seq<seq<byte>>)
    requires messages != []
    ensures RemoveEach(buf, messages) == RemoveEach(RemoveFirst(buf, messages[0]), messages[1..])
  {
  }

  /** A cycle that receives bytes queues exactly one record per message found in the grown buffer, and
      the buffer shrinks by exactly the messages' total length. */
  lemma CycleAccounting(buffer: seq<byte>, data: seq<byte>)
    ensures var all := buffer + data;
      |RemoveEach(all, Messages(all))| + TotalLength(Messages(all)) == |buffer| + |data|
  {
    RemoveEachExtracted(buffer + data);
  }

  /** The bytes left after a cycle can hold a complete block. Here the scan passes over the 0x0B 0x1C at
      the front (0x0B, not 0x0D, follows it), extracts the two blocks 0x0B 0x1C 0x0D at 2 and at 6, and
      the content removal cuts the first occurrence of that block each time: the one at 2, then the one
      made of the two passed-over bytes and the 0x0D at 5. The block at 6 stays behind, and the next
      cycle extracts it again. */
  lemma ContentRemovalLeavesBlock()
    ensures var buf := [VT, FS, VT, FS, CR, CR, VT, FS, CR];
      && Messages(buf) == [[VT, FS, CR], [VT, FS, CR]]
      && RemoveEach(buf, Messages(buf)) == [VT, FS, CR]
      && Messages([VT, FS, CR]) == [[VT, FS, CR]]
  {
    var buf: seq<byte> := [VT, FS, VT, FS, CR, CR, VT, FS, CR];
    var m: seq<byte> := [VT, FS, CR];
    ExampleScan(buf, m);
    ExampleRemoval(buf, m);
    ExampleResidue(m);
  }

  lemma ExampleScan(buf: seq<byte>, m: seq<byte>)
    requires buf == [VT, FS, VT, FS, CR, CR, VT, FS, CR] && m == [VT, FS, CR]
    ensures Messages(buf) == [m, m]
  {
    ExampleSkip(buf);
    ExampleFirst(buf, m);
    ExampleSecond(buf, m);
  }

  lemma ExampleSkip(buf: seq<byte>)
    requires buf == [VT, FS, VT, FS, CR, CR, VT, FS, CR]
    ensures MessagesFrom(buf, 0) == MessagesFrom(buf, 2)
  {
    FindByteAt(buf, VT, 0, 0);
    FindByteAt(buf, FS, 0, 1);
    MessagesFromSkip(buf, 0, 0, 1);
  }

  lemma ExampleFirst(buf: seq<byte>, m: seq<byte>)
    requires buf == [VT, FS, VT, FS, CR, CR, VT, FS, CR] && m == [VT, FS, CR]
    ensures MessagesFrom(buf, 2) == [m] + MessagesFrom(buf, 5)
  {
    FindByteAt(buf, VT, 2, 2);
    FindByteAt(buf, FS, 2, 3);
    MessagesFromBlock(buf, 2, 2, 3);
    assert buf[2..5] == m;
  }

  lemma ExampleSecond(buf: seq<byte>, m: seq<byte>)
    requires buf == [VT, FS, VT, FS, CR, CR, VT, FS, CR] && m == [VT, FS, CR]
    ensures MessagesFrom(buf, 5) == [m]
  {
    FindByteAt(buf, VT, 5, 6);
    FindByteAt(buf, FS, 6, 7);
    MessagesFromBlock(buf, 5, 6, 7);
    MessagesFromNone(buf, 9);
    assert buf[6..9] == m;
  }

  lemma ExampleRemoval(buf: seq<byte>, m: seq<byte>)
    requires buf == [VT, FS, VT, FS, CR, CR, VT, FS, CR] && m == [VT, FS, CR]
    ensures RemoveEach(buf, [m, m]) == m
  {
    var rest: seq<byte> := [VT, FS, CR, VT, FS, CR];
    NotOccursAt(buf, m, 0, 2);
    NotOccursAt(buf, m, 1, 0);
    assert buf[2..5] == m;
    RemoveFirstAt(buf, m, 2);
    assert RemoveFirst(buf, m) == rest;
    assert rest[0..3] == m;
    RemoveFirstAt(rest, m, 0);
    assert RemoveFirst(rest, m) == m;
    RemoveEachStep(buf, [m, m]);
    RemoveEachStep(rest, [m]);
    assert [m, m][1..] == [m];
    assert [m][1..] == [];
  }

  lemma ExampleResidue(m: seq<byte>)
    requires m == [VT, FS, CR]
    ensures Messages(m) == [m]
  {
    FindByteAt(m, VT, 0, 0);
    FindByteAt(m, FS, 0, 1);
    MessagesFromBlock(m, 0, 0, 1);
    MessagesFromNone(m, 3);
    assert m[0..3] == m;
  }
}

/** The raw records the acquisition sources put on the delivery queue, and the queue itself. */
module Records {
  import opened Wrappers
  import opened Bytes

  /** A record's `raw_data`: decoded text, or the bytes of a binary file. */
  datatype RawData = Text(text: string) | Binary(bytes: seq<byte>)

  /** One dictionary on the queue. A field is `None` where the producing source does not set that key
      (Python's `data.get(key)` then gives `None`). */
  datatype RawRecord = RawRecord(
    source: string,
    equipmentType: Option<string>,
    equipmentName: Option<string>,
    dataType: Option<string>,
    port: Option<string>,
    fileName: Option<string>,
    filePath: Option<string>,
    fileSize: Option<nat>,
    rawData: Option<RawData>,
    timestamp: Option<string>,
    patientId: Option<string>,
    patientName: Option<string>,
    studyDate: Option<string>,
    modality: Option<string>,
    seriesDescription: Option<string>)

  /** The single FIFO `queue.Queue` shared by every source and the uploader, run sequentially. */
  class RecordQueue {
    var items: seq<RawRecord>

    constructor ()
      ensures items == []
    {
      items := [];
    }

    /** `queue.put(record)`. */
    method Put(record: RawRecord)
      modifies this
      ensures items == old(items) + [record]
    {
      items := items + [record];
    }

    /** `queue.get()`, called only after `queue.empty()` was found false. */
    method Get() returns (record: RawRecord)
      requires items != []
      modifies this
      ensures record == old(items)[0] && items == old(items)[1..]
    {
      record := items[0];
      items := items[1..];
    }
  }
}

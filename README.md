# Desktop agent ingestion path, modelled in Dafny

The desktop agent of the diagnostic centre collects results from laboratory and imaging equipment and
posts them to the central server. This project models how that data flows through the agent:

- **Serial collection.** Bytes from an analyser's serial port build up in a per-port buffer. The
  MLLP-style framer picks out every `0x0B … 0x1C 0x0D` block, removes each block's first occurrence
  from the buffer, and queues one record per block (`framer.dfy`, `serial_collector.dfy`).
- **Port detection.** Each serial port is probed at the common baud rates. The first recognised
  signature names the equipment. Detected ports are kept in an insertion-ordered table: a scan
  refreshes it, a verification drops ports that are gone, and it is turned into collector settings
  (`port_detector.dfy`).
- **File watching.** Each new file in a watched folder becomes a record, as text for `hl7`/`txt`/`csv`
  and as bytes otherwise. The file is then moved into the folder's `procesados` sub-folder and
  renamed with a time stamp when the name is taken (`file_watcher.dfy`).
- **Parsing.**
  - The HL7 v2 parser strips the framing characters and splits the message into segments. It then
    folds MSH, PID, OBR and OBX segments into one result (`hl7_parser.dfy`).
  - The DICOM reader copies the dataset's attributes and reformats the DA and TM values
    (`dicom_parser.dfy`).
- **Upload.**
  - The uploader takes records off the shared queue. It parses each one by its data type, builds the
    JSON payload and posts it.
  - A failed post is retried with a linear back-off. The counters of sent and failed records are
    kept up to date (`uploader.dfy`).

Shared pieces:

- `wrappers.dfy`: `Option`.
- `bytes.dfy`: byte search and the first-occurrence removal of `bytes.replace(…, 1)`.
- `text.dfy`: Python's `strip`, `split`, `rstrip`, `ljust`, `upper`, `lower` and `int`.
- `clock.dfy`: calendar validity, `isoformat` and the `%Y%m%d_%H%M%S` stamp.
- `records.dfy`: the queued record and the FIFO queue.

Serial reads, probes, the network and the disk are parameters: a read is a value, a probe's outcomes
are a sequence, and the server's answers are a function from attempt number to response. The disk is
a map from paths to nodes.

## Model

| member | source | states |
|---|---|---|
| Bytes.IndexOfFirst | desktop-agent/collectors/serial_collector.py:94 | `find` returns the first occurrence at or after `start`, or -1 when there is none |
| Bytes.FindByteFirst | desktop-agent/collectors/serial_collector.py:140-147 | a single-byte `find` returns the first position holding that byte, or -1 when no later position holds it |
| Bytes.ContainsIff | desktop-agent/port_detector.py:159 | `pattern in data` holds exactly when the pattern occurs at some position |
| Bytes.RemoveFirst | desktop-agent/collectors/serial_collector.py:94 | `replace(message, b'', 1)` leaves the buffer unchanged when the message is absent, and otherwise shortens it by the message's length |
| Bytes.RemoveFirstAt | desktop-agent/collectors/serial_collector.py:94 | the replacement cuts exactly the first occurrence out of the buffer |
| Bytes.Decode | desktop-agent/collectors/serial_collector.py:173 | decoding keeps one character per byte; an ASCII byte keeps its value and any other byte becomes U+FFFD |
| Bytes.Ascii | desktop-agent/port_detector.py:17-48 | an ASCII signature literal is a byte string that decodes back to itself |
| Text.TrimStart | desktop-agent/parsers/hl7_parser.py:28 | `lstrip` removes exactly the leading whitespace |
| Text.TrimEnd | desktop-agent/parsers/hl7_parser.py:28 | `rstrip` removes exactly the trailing whitespace |
| Text.StripEmptyIffBlank | desktop-agent/parsers/hl7_parser.py:28 | `line.strip()` is empty, so the line is dropped, exactly when every character of the line is whitespace |
| Text.Split | desktop-agent/parsers/hl7_parser.py:28 | `split` yields at least one piece, no piece holds the separator, and joining the pieces gives the string back |
| Text.SplitJoin | desktop-agent/parsers/hl7_parser.py:45 | splitting a join of separator-free pieces gives the pieces back |
| Text.SplitNoSeparator | desktop-agent/parsers/hl7_parser.py:76-80 | a string without the separator splits into itself alone |
| Text.Without | desktop-agent/parsers/hl7_parser.py:25 | `replace(c, '')` removes every `c` and keeps every other character with its multiplicity |
| Text.WithoutAbsent | desktop-agent/parsers/hl7_parser.py:25 | removing an absent character changes nothing |
| Text.WithoutOne | desktop-agent/parsers/hl7_parser.py:25 | on a single character, `replace(c, '')` drops it when it is `c` and keeps it otherwise |
| Text.WithoutAppend | desktop-agent/parsers/hl7_parser.py:25 | `replace(c, '')` works piece by piece: on `a + b` it gives the result on `a` followed by the result on `b`, so the kept characters keep their order |
| Text.JoinFree | desktop-agent/parsers/hl7_parser.py:28 | a character other than the separator that no piece holds is not in the joined string |
| Text.RStripChar | desktop-agent/uploader.py:31 | `rstrip('/')` removes exactly the trailing slashes |
| Text.LJust | desktop-agent/parsers/hl7_parser.py:187 | `ljust` pads a shorter string to the width with the fill character and leaves a longer one alone |
| Text.PyIntDigits | desktop-agent/parsers/hl7_parser.py:189-194 | `int` of a digit string is the number it spells |
| Text.PyIntZeroPad | desktop-agent/parsers/hl7_parser.py:189-194 | `int` reads back a zero-padded number as that number |
| Clock.ZeroPadWidth | desktop-agent/parsers/hl7_parser.py:189-197 | a number below 10^width is padded to exactly `width` digits |
| Clock.IsoFormat | desktop-agent/collectors/serial_collector.py:185 | `isoformat` is 19 characters, or 26 with microseconds, with its separators in place |
| Clock.Stamp | desktop-agent/collectors/file_watcher.py:153 | the `%Y%m%d_%H%M%S` stamp is 15 characters with `_` at position 8 |
| Clock.StampReadsBack | desktop-agent/collectors/file_watcher.py:153 | each field of the stamp (year, month, day, then hour, minute, second after the `_`) reads back through `int()` as that field of the time |
| Records.RecordQueue.Put | desktop-agent/collectors/serial_collector.py:190 | `put` appends the record at the back of the queue |
| Records.RecordQueue.Get | desktop-agent/uploader.py:56-57 | `get` on a non-empty queue returns the front record and removes it |
| Framer.ScanSound | desktop-agent/collectors/serial_collector.py:122-159 | the blocks found are in order, do not overlap, start with 0x0B, end with 0x1C 0x0D and hold no earlier 0x1C |
| Framer.ScanSkip | desktop-agent/collectors/serial_collector.py:151-157 | a 0x1C not followed by 0x0D is passed over and the search resumes right after it |
| Framer.MessagesAreSlices | desktop-agent/collectors/serial_collector.py:122-159 | each extracted message is the buffer slice of its block |
| Framer.ExtractMessages | desktop-agent/collectors/serial_collector.py:122-159 | the extraction loop returns exactly the messages the block scan specifies |
| Framer.MessagesAreBlocks | desktop-agent/collectors/serial_collector.py:122-159 | every extracted message is a well-formed block |
| Framer.NoStartByteNoMessages | desktop-agent/collectors/serial_collector.py:141-143 | a buffer without 0x0B yields no message |
| Framer.FrameAfterNoise | desktop-agent/collectors/serial_collector.py:122-159 | noise without 0x0B followed by a block yields that block first, and the scan continues after it |
| Framer.ExtractsEveryFrame | desktop-agent/collectors/serial_collector.py:122-159 | blocks separated by noise are all extracted, in order |
| Framer.RemoveEachExtracted | desktop-agent/collectors/serial_collector.py:92-94 | removing the extracted messages shrinks the buffer by exactly their total length |
| Framer.RemoveFramesLeavesNoise | desktop-agent/collectors/serial_collector.py:92-94 | removing blocks interleaved with noise leaves exactly the noise and the tail |
| Framer.ReadCycleKeepsNoise | desktop-agent/collectors/serial_collector.py:85-97 | when the tail holds no complete block, a cycle extracts every block and keeps only the noise and the tail |
| SerialCollector.Settings | desktop-agent/collectors/serial_collector.py:57-63 | a port's settings default to 9600 baud, 8 data bits, 1 stop bit, parity N and the unknown-equipment labels |
| SerialCollector.SettingsDefaults | desktop-agent/collectors/serial_collector.py:57-63 | a port entry naming only the port gets every default |
| SerialCollector.SerialRecord | desktop-agent/collectors/serial_collector.py:161-194 | a message becomes a serial `hl7` record with the decoded text, the port's labels and the clock reading, and no file or study fields |
| SerialCollector.SerialRecords | desktop-agent/collectors/serial_collector.py:90-97 | one record per message, in message order |
| SerialCollector.PortReader.constructor | desktop-agent/collectors/serial_collector.py:57-66 | a reader starts closed, with an empty buffer and the port's settings |
| SerialCollector.PortReader.Cycle | desktop-agent/collectors/serial_collector.py:50-120 | one read cycle:<br>- a port that does not open waits 5 s;<br>- a read error closes the port and waits 5 s;<br>- otherwise the data is appended, each message is removed and queued, and the reader waits 0.1 s |
| SerialCollector.PortReader.RemoveAndQueue | desktop-agent/collectors/serial_collector.py:92-97 | the loop over messages removes each one from the buffer and queues its record |
| SerialCollector.CycleAccounting | desktop-agent/collectors/serial_collector.py:85-97 | the buffer after a cycle plus the total length of the messages queued equals the buffer before plus the data read |
| SerialCollector.ContentRemovalLeavesBlock | desktop-agent/collectors/serial_collector.py:90-94 | removal by content can leave a complete block in the buffer, which the next cycle extracts again |
| Hl7Parser.InterpretFlag | desktop-agent/parsers/hl7_parser.py:147-169 | the trimmed, upper-cased flag maps H/HH/> to alto, L/LL/< to bajo and AA to critico; every other flag is normal |
| Hl7Parser.CriticallyHighIsHigh | desktop-agent/parsers/hl7_parser.py:162-167 | the critically-high flag `hh` is reported as alto, not critico |
| Hl7Parser.CriticallyLowIsLow | desktop-agent/parsers/hl7_parser.py:164-167 | the critically-low flag `ll` is reported as bajo, not critico |
| Hl7Parser.PanicIsCritical | desktop-agent/parsers/hl7_parser.py:166-167 | `aa` is reported as critico |
| Hl7Parser.PatientId | desktop-agent/parsers/hl7_parser.py:73-81 | PID-3 up to its first `^`, and nothing when the segment is too short |
| Hl7Parser.PatientName | desktop-agent/parsers/hl7_parser.py:84-94 | PID-5 exists exactly when the segment has more than five fields |
| Hl7Parser.PatientNameWhole | desktop-agent/parsers/hl7_parser.py:87-93 | a name without `^` is taken whole |
| Hl7Parser.PatientNameSwapped | desktop-agent/parsers/hl7_parser.py:87-91 | `family^given…` becomes `given family` |
| Hl7Parser.ObxOf | desktop-agent/parsers/hl7_parser.py:97-144 | the OBX result: code and name from OBX-3, value OBX-5, units OBX-6, range OBX-7 and the status from the OBX-8 flag |
| Hl7Parser.ParseObx | desktop-agent/parsers/hl7_parser.py:112-113 | an OBX segment with fewer than six fields gives no result |
| Hl7Parser.TestNameFallsBackToCode | desktop-agent/parsers/hl7_parser.py:117-119 | an identifier without a `^` gives the code as the name too |
| Hl7Parser.ParseTimestamp | desktop-agent/parsers/hl7_parser.py:172-200 | a timestamp shorter than 8 characters falls back to the clock reading |
| Hl7Parser.ParseCompact | desktop-agent/parsers/hl7_parser.py:172-200 | a `YYYYMMDDHHMMSS` value reads back as that date and time when it is valid, and as the clock reading otherwise |
| Hl7Parser.ParseDateOnly | desktop-agent/parsers/hl7_parser.py:186-197 | a `YYYYMMDD` value is padded to midnight of that day |
| Hl7Parser.ParseToHour | desktop-agent/parsers/hl7_parser.py:186-197 | a `YYYYMMDDHH` value is padded to the start of that hour |
| Hl7Parser.ParseToMinute | desktop-agent/parsers/hl7_parser.py:186-197 | a `YYYYMMDDHHMM` value is padded to the start of that minute |
| Hl7Parser.Padded | desktop-agent/parsers/hl7_parser.py:186 | `timestamp_str[:14].ljust(14, '0')` is 14 characters: the first 14 of a longer value, or a shorter one followed by `0`s |
| Hl7Parser.ParseTimestampTruncates | desktop-agent/parsers/hl7_parser.py:183-186 | characters after the fourteenth do not change the timestamp |
| Hl7Parser.ParseTimestampPads | desktop-agent/parsers/hl7_parser.py:183-186 | a value of 8 to 13 characters reads as that value followed by `0`s up to 14 characters |
| Hl7Parser.ParseCompactWithSuffix | desktop-agent/parsers/hl7_parser.py:183-197 | a `YYYYMMDDHHMMSS` value followed by a zone offset such as `+0500` reads as the date and time it writes |
| Hl7Parser.Clean | desktop-agent/parsers/hl7_parser.py:25 | the cleaned message holds no 0x0B, 0x1C or 0x0D |
| Hl7Parser.CleanPlain | desktop-agent/parsers/hl7_parser.py:25 | a text without 0x0B, 0x1C or 0x0D is left as it is |
| Hl7Parser.CleanFramed | desktop-agent/parsers/hl7_parser.py:25 | cleaning an MLLP frame `0x0B text 0x1C 0x0D` gives back exactly the text |
| Hl7Parser.Segments | desktop-agent/parsers/hl7_parser.py:25-28 | the segments are non-blank and hold no line break |
| Hl7Parser.NonBlankFrom | desktop-agent/parsers/hl7_parser.py:28 | a line is among the kept lines exactly when it is one of the lines and not all whitespace |
| Hl7Parser.NonBlankAppend | desktop-agent/parsers/hl7_parser.py:28 | the filter works line by line: the lines of `a + b` kept are those of `a` then those of `b`, in order |
| Hl7Parser.NonBlankAll | desktop-agent/parsers/hl7_parser.py:28 | lines none of which is blank are all kept, in order |
| Hl7Parser.SegmentsOfLines | desktop-agent/parsers/hl7_parser.py:25-28 | lines without line breaks or framing characters, joined with `\n`, come back as the segments with the blank lines dropped |
| Hl7Parser.SegmentsOfFrame | desktop-agent/parsers/hl7_parser.py:25-28 | non-blank lines joined with `\n` inside an MLLP frame are exactly the segments, in order |
| Hl7Parser.CarriageReturnsOnlyMakeOneSegment | desktop-agent/parsers/hl7_parser.py:25-28 | a message whose segments are separated by 0x0D only is read as one segment, because the 0x0D are removed before the split on newline |
| Hl7Parser.Parse | desktop-agent/parsers/hl7_parser.py:13-70 | the segment loop computes the left fold of the segment step over the segments |
| Hl7Parser.TestResultsFromObx | desktop-agent/parsers/hl7_parser.py:62-65 | the test results are exactly the OBX results of the OBX segments with at least six fields, in order |
| Hl7Parser.PatientFromLastPid | desktop-agent/parsers/hl7_parser.py:53-55 | the patient comes from the last PID segment, and is missing when there is none |
| Hl7Parser.OrderFromLastObr | desktop-agent/parsers/hl7_parser.py:58-59 | the order number is OBR-2 of the last OBR segment |
| Hl7Parser.TimestampFromLastMsh | desktop-agent/parsers/hl7_parser.py:49-50 | the timestamp is read from MSH-7 of the last MSH segment, which is field 6 of the split because MSH-1 is the separator itself |
| Hl7Parser.OtherSegmentsIgnored | desktop-agent/parsers/hl7_parser.py:40-65 | segments of any other type leave the result unchanged |
| DicomParser.GetTag | desktop-agent/parsers/dicom_parser.py:59-76 | an attribute's string exactly when it is present and not None |
| DicomParser.ParseDate | desktop-agent/parsers/dicom_parser.py:79-98 | a DA value of at least 8 characters becomes `YYYY-MM-DD`; a missing or shorter one gives nothing |
| DicomParser.ParseTime | desktop-agent/parsers/dicom_parser.py:101-120 | a TM value of at least 6 characters becomes `HH:MM:SS`; a missing or shorter one gives nothing |
| DicomParser.ParseDateFirstEight | desktop-agent/parsers/dicom_parser.py:89-96 | removing the dashes gives back the first eight characters, so two dates agree exactly when those agree |
| DicomParser.ParseTimeFirstSix | desktop-agent/parsers/dicom_parser.py:111-118 | removing the colons gives back the first six characters, so fractions of a second never matter |
| DicomParser.DateAsIsoDate | desktop-agent/parsers/dicom_parser.py:89-96 | the DA form of a date reads as the date part of its ISO form |
| DicomParser.TimeAsIsoTime | desktop-agent/parsers/dicom_parser.py:111-118 | the TM form of a time, with or without a fraction, reads as the time part of its ISO form |
| DicomParser.Parse | desktop-agent/parsers/dicom_parser.py:12-56 | the extracted metadata: the dates and study time reformatted, every other field the attribute's string, and the clock reading |
| PortDetector.FirstHitFirst | desktop-agent/port_detector.py:157-164 | the signature search stops at the first equipment whose signature occurs |
| PortDetector.IdentifyFirstMatch | desktop-agent/port_detector.py:147-174 | equipment k is reported exactly when one of its signatures occurs and no earlier equipment's does |
| PortDetector.IdentifyUnmatched | desktop-agent/port_detector.py:166-174 | data matching no signature is an unknown medical device when longer than 10 bytes, and nothing otherwise |
| PortDetector.FramedHl7SignatureRedundant | desktop-agent/port_detector.py:17-48 | data containing the framed `0x0B MSH\|` signature contains `MSH\|` too |
| PortDetector.Listen | desktop-agent/port_detector.py:115-121 | the read loop returns the concatenation of the chunks received |
| PortDetector.TryRate | desktop-agent/port_detector.py:105-135 | one baud rate recognises equipment exactly when the port opens, something is heard, and the signatures identify it |
| PortDetector.ProbeFirstRate | desktop-agent/port_detector.py:104-145 | the profile uses baud rate k exactly when k is the first rate at which equipment is recognised; it names the port with 8N1 settings |
| PortDetector.ProbeFails | desktop-agent/port_detector.py:137-145 | when every rate raises or recognises nothing, no equipment is detected |
| PortDetector.ProbePort | desktop-agent/port_detector.py:92-145 | the probe loop returns the profile of the first successful rate and tries no rate after it |
| PortDetector.PutWf | desktop-agent/port_detector.py:194-199 | storing an entry keeps the table's keys and order consistent |
| PortDetector.KeptMissingMembers | desktop-agent/port_detector.py:244-248 | a cached port is kept exactly when it is still available, and reported invalid exactly when it is not |
| PortDetector.SweepIsPartial | desktop-agent/port_detector.py:244-248 | deleting the missing ports one at a time, in key order, gives the same table as the specification of that pass |
| PortDetector.ScanKeys | desktop-agent/port_detector.py:176-205 | after a scan the table holds the earlier ports and exactly the ports whose probe succeeded |
| PortDetector.ScanEntryFromLastSuccess | desktop-agent/port_detector.py:189-198 | a port holds the profile of its last successful probe in the scan, with that listing's description and hardware id |
| PortDetector.ScanKeepsOthers | desktop-agent/port_detector.py:190-199 | a port that no successful probe names keeps its earlier entry |
| PortDetector.ScanWf | desktop-agent/port_detector.py:190-199 | a scan keeps the table consistent |
| PortDetector.RetainRemovesMissing | desktop-agent/port_detector.py:235-254 | verification removes exactly the ports reported invalid and leaves the others' entries unchanged |
| PortDetector.ConfigOf | desktop-agent/port_detector.py:264-272 | a table entry becomes collector settings with 9600/8/1/N and the unknown labels as defaults |
| PortDetector.ScannedPortSettings | desktop-agent/port_detector.py:256-276 | the serial collector gets exactly the baud rate, framing and equipment labels the probe found |
| PortDetector.Detector.constructor | desktop-agent/port_detector.py:53-63 | the detector starts with an empty table |
| PortDetector.Detector.SaveCache | desktop-agent/port_detector.py:207-214 | saving leaves the table as it is and counts one save |
| PortDetector.Detector.ScanAllPorts | desktop-agent/port_detector.py:176-205 | the scan loop probes every available port in turn, stores each detection and saves nothing |
| PortDetector.Detector.VerifyCachedPorts | desktop-agent/port_detector.py:235-254 | the ports no longer available are reported in key order and deleted, and the cache is saved once when any was deleted |
| PortDetector.Detector.DeleteMissing | desktop-agent/port_detector.py:244-248 | the deletion loop over a snapshot of the keys computes the one-at-a-time sweep |
| PortDetector.Detector.GetPortsConfig | desktop-agent/port_detector.py:256-276 | one collector configuration per detected port, in table order |
| FileWatcher.LastIndexOfChar | desktop-agent/collectors/file_watcher.py:107 | `rfind` returns -1 exactly when the character is absent, and otherwise its last position |
| FileWatcher.Basename | desktop-agent/collectors/file_watcher.py:107 | `basename` is the suffix after the last `/`, and the whole path when it holds none |
| FileWatcher.PathJoin | desktop-agent/collectors/file_watcher.py:148-150 | `join` ends with its second argument |
| FileWatcher.PathJoinParts | desktop-agent/collectors/file_watcher.py:148-150 | an absolute second argument is the join itself; otherwise the first argument comes first, followed by a `/` exactly when it is non-empty and does not already end with one, then the second argument |
| FileWatcher.JoinBasename | desktop-agent/collectors/file_watcher.py:148-150 | the base name of a join is the name joined |
| FileWatcher.Splitext | desktop-agent/collectors/file_watcher.py:154 | `splitext` splits the path into stem and extension; the extension is empty or a single dot-led suffix |
| FileWatcher.SplitextOf | desktop-agent/collectors/file_watcher.py:154 | a dot followed by a suffix without dot or `/` is split off as the extension when the stem's last component holds a character other than a dot; stem and extension come back unchanged |
| FileWatcher.SplitextNoDot | desktop-agent/collectors/file_watcher.py:154 | a path whose last component has no dot has no extension |
| FileWatcher.Renamed | desktop-agent/collectors/file_watcher.py:151-155 | the collision name adds `_` and the 15-character stamp |
| FileWatcher.RenamedNoExtension | desktop-agent/collectors/file_watcher.py:152-155 | a name without extension gets the stamp appended |
| FileWatcher.RenamedKeepsExtension | desktop-agent/collectors/file_watcher.py:152-155 | the stamp goes between the stem and the extension, and the extension is kept |
| FileWatcher.FileSystem.constructor | desktop-agent/collectors/file_watcher.py:148-157 | the disk model starts from the given tree |
| FileWatcher.FileSystem.Move | desktop-agent/collectors/file_watcher.py:157 | `shutil.move` succeeds exactly when the move is possible, and then the tree changes as the move specifies; otherwise it is unchanged |
| FileWatcher.FileWatcherCollector.constructor | desktop-agent/collectors/file_watcher.py:43-56 | the collector is bound to the shared queue |
| FileWatcher.FileWatcherCollector.ProcessFile | desktop-agent/collectors/file_watcher.py:89-161 | the queue grows by the record that processing yields, and the disk becomes the tree that processing yields |
| FileWatcher.FileHandler.constructor | desktop-agent/collectors/file_watcher.py:17-26 | the handler keeps its collector and folder configuration |
| FileWatcher.FileHandler.OnCreated | desktop-agent/collectors/file_watcher.py:28-37 | a directory event changes nothing; a file event processes the file with the folder's configuration |
| FileWatcher.NothingQueuedIff | desktop-agent/collectors/file_watcher.py:99-105 | nothing is queued exactly when the path is missing, is a directory or is empty, and then the disk is unchanged |
| FileWatcher.QueuedRecord | desktop-agent/collectors/file_watcher.py:107-144 | the queued record is a file-watcher record with the folder's labels and defaults, the path, base name, size and the clock reading |
| FileWatcher.RawDataTextIff | desktop-agent/collectors/file_watcher.py:115-128 | the content is queued as text exactly for `hl7`, `txt` and `csv` files, and as the bytes otherwise |
| FileWatcher.TargetKeepsExtension | desktop-agent/collectors/file_watcher.py:148-155 | the file keeps its name unless that name is taken in `procesados`; then it gets the stamped name; either way the extension is kept |
| FileWatcher.MovedToProcessed | desktop-agent/collectors/file_watcher.py:146-157 | the file moves into `procesados` under the target name and is gone from its old path |
| FileWatcher.CollisionCheckedOnce | desktop-agent/collectors/file_watcher.py:151-157 | when the stamped name is taken as well, the file there is overwritten, because only one existence check is made |
| Uploader.EndpointIgnoresTrailingSlashes | desktop-agent/uploader.py:31 | trailing slashes on the server URL do not change the endpoint |
| Uploader.EndpointPath | desktop-agent/uploader.py:203 | the endpoint is the stripped server URL followed by `/equipos/recibir-json` |
| Uploader.AuthorizationIff | desktop-agent/uploader.py:205-211 | the bearer header is sent exactly when there is a non-empty API key, and the JSON content type is always sent |
| Uploader.SendShape | desktop-agent/uploader.py:213-269 | the attempt count stays within `max_retries + 1`; each attempt before the last failed in a retryable way, after waits of 5, 10, … s; success means the last reply was a 200 with JSON |
| Uploader.AlwaysFailing | desktop-agent/uploader.py:213-269 | a server that always fails gets `max_retries + 1` posts, with waits of 5·1 … 5·max_retries s |
| Uploader.NoRetry | desktop-agent/uploader.py:237-263 | with retries off, a failure is final after one post |
| Uploader.NonJsonReplyNotRetried | desktop-agent/uploader.py:227-267 | a 200 reply whose body is not JSON fails the delivery with no further attempt |
| Uploader.SendReaches | desktop-agent/uploader.py:213-235 | when attempt j is the first to get a 200 JSON reply, the delivery succeeds after j + 1 posts |
| Uploader.ParseDataIff | desktop-agent/uploader.py:102-143 | hl7 records are parsed as laboratory results; dicom records from a readable file as imaging, those without a file as listener data; anything else is dropped |
| Uploader.Hl7BytesDecoded | desktop-agent/uploader.py:115-120 | an hl7 record holding bytes is parsed as the text they decode to |
| Uploader.ValoresKeys | desktop-agent/uploader.py:173-181 | the payload's values are keyed by exactly the test names of the results |
| Uploader.ValoresLastWins | desktop-agent/uploader.py:173-181 | when a test name repeats, the last result with that name wins |
| Uploader.LabPayload | desktop-agent/uploader.py:157-181 | a laboratory payload carries the patient as both id and cédula, the order, the equipment type and every test, with the record's timestamp or the clock reading |
| Uploader.ImagingPayload | desktop-agent/uploader.py:183-189 | an imaging payload exists exactly when the study has a modality, which is lower-cased |
| Uploader.UploadCounted | desktop-agent/uploader.py:67-100 | each record is exactly one of sent, failed or dropped, and it is dropped exactly when its parse gives nothing |
| Uploader.MovedDicomFileDropped | desktop-agent/uploader.py:122-126 | a DICOM record from the file watcher names the path the file was moved away from, so the uploader drops it |
| Uploader.Uploads | desktop-agent/uploader.py:53-61 | one upload outcome per queued record, in queue order |
| Uploader.CountsPartition | desktop-agent/uploader.py:80-100 | the sent, failed and dropped counts add up to the number of records |
| Uploader.ResultUploader.constructor | desktop-agent/uploader.py:16-46 | the server URL loses its trailing slashes and the counters start at zero with no last send |
| Uploader.ResultUploader.SendToServer | desktop-agent/uploader.py:193-269 | the retry loop delivers exactly as the delivery specification says |
| Uploader.ResultUploader.ProcessAndUpload | desktop-agent/uploader.py:67-100 | a sent record adds one to the sent count and stamps the last send; a failed one adds one to the failed count; a dropped one changes nothing |
| Uploader.ResultUploader.Drain | desktop-agent/uploader.py:48-65 | taking every queued record empties the queue and adds the sent and failed counts of their outcomes |

## Left out

- Threads, the `start`/`stop` loops and their `running` flags are not modelled. The serial reader,
  file watcher and uploader are each modelled as one step, or as a drain of the queue.
- Sleeps are recorded as values rather than waited on: the serial reader's 5 s and 0.1 s, and the
  uploader's back-off waits. The uploader's 1 s idle and 5 s error pauses, its `upload_interval`
  and the file handler's 0.5 s settle pause are left out.
- Serial ports, HTTP and the filesystem are replaced by values: reads, probe outcomes, server
  responses and a path-to-node map. `list_available_ports` becomes a parameter, and so does
  `pydicom.dcmread`, as a map from path to dataset.
- Logging is left out everywhere.
- Bytes.Decode: UTF-8 decoding with replacement is simplified to one character per byte. An ASCII
  byte keeps its value and any other byte becomes U+FFFD; a multi-byte sequence does not become one
  character.
- Text.Upper and Text.Lower state only that the length is kept. The model folds ASCII letters only;
  Python's Unicode case mapping is not modelled.
- Text.PyInt reads only ASCII digits, with signs, surrounding whitespace and underscores between
  digits. Python's `int` also accepts other Unicode digits.
- Hl7Parser.ParseTimestamp states only the short-input fallback itself. The rest is stated by
  lemmas: Hl7Parser.ParseTimestampTruncates (characters after the fourteenth are ignored, so a zone
  offset is dropped), Hl7Parser.ParseTimestampPads (8 to 13 characters are padded with `0`), and
  Hl7Parser.ParseDateOnly, Hl7Parser.ParseToHour, Hl7Parser.ParseToMinute, Hl7Parser.ParseCompact
  and Hl7Parser.ParseCompactWithSuffix for 8-, 10-, 12- and 14-digit values. A value falls back to
  the clock reading only where `int()` rejects one of the six fields or `datetime()` rejects the
  date and time.
- Hl7Parser.PatientName states only when a name exists. Its value is given by
  Hl7Parser.PatientNameWhole and Hl7Parser.PatientNameSwapped.
- The catch-all `except Exception` around the HL7 parse cannot fire in the model; every input has a
  result.
- The `except Exception` branch of the serial read loop is not modelled separately from the serial
  error branch.
- The `latin-1` fallback after a failed UTF-8 decode is left out: decoding with replacement never
  fails.
- The port cache's JSON file is left out. `save_cache` is counted, and `load_cache` is not
  modelled.
- A probe's timing (`timeout / read_attempts`, `in_waiting`) is abstracted into the chunks each
  attempt receives.
- Path normalisation, symbolic links, permissions and read errors in `process_file` are left out.
  So are the creation of the `procesados` folder and the observers' start and stop.
- SerialCollector.PortReader.Cycle stamps every record of one read cycle with the same clock reading
  `now`. The source calls `datetime.now()` once per message, so records of one cycle may differ by
  a few microseconds.
- The file watcher takes two clock readings: one for the record, one for the collision stamp. The
  uploader takes one reading per record, used both as the fallback timestamp and as the last-send
  time.
- A server reply is modelled as its status code and whether its body is JSON the success branch can
  use. A 200 reply whose body fails there ends the delivery as failed, the same as a body that is not
  JSON.

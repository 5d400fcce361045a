/** The file-drop collector: a file created in a watched folder is queued as one record and then moved to
    the folder's `procesados` sub-folder, under a time-stamped name when its own name is taken. */
module FileWatcher {
  import opened Wrappers
  import opened Bytes
  import opened Text
  import opened Clock
  import opened Records

  // ---------------------------------------------------------------- POSIX paths

  /** Python `s.rfind(c)`: the last index holding `c`, or -1. */
  function LastIndexOfChar(s: string, c: char): (r: int)
    ensures r == -1 <==> c !in s
    ensures r != -1 ==> 0 <= r < |s| && s[r] == c && c !in s[r + 1..]
  {
    if s == [] then -1
    else if s[|s| - 1] == c then |s| - 1
    else
      var r := LastIndexOfChar(s[..|s| - 1], c);
      assert s == s[..|s| - 1] + [s[|s| - 1]];
      assert r != -1 ==> s[r + 1..] == s[..|s| - 1][r + 1..] + [s[|s| - 1]];
      r
  }

  /** Text after the last occurrence leaves that occurrence the last. */
  lemma {:induction false} LastIndexPastTail(p: string, b: string, c: char)
    requires c !in b
    ensures LastIndexOfChar(p + b, c) == LastIndexOfChar(p, c)
    decreases |b|
  {
    if b == [] {
      assert p + b == p;
    } else {
      assert (p + b)[..|p + b| - 1] == p + b[..|b| - 1];
      LastIndexPastTail(p, b[..|b| - 1], c);
    }
  }

  /** `os.path.basename`: what follows the last '/'. */
  function Basename(p: string): (r: string)
    ensures '/' !in r && |r| <= |p| && r == p[|p| - |r|..]
    ensures '/' !in p ==> r == p
  {
    p[LastIndexOfChar(p, '/') + 1..]
  }

  /** `os.path.join(a, b)` with two components: an absolute `b` replaces `a`, and a '/' is put between
      them unless `a` is empty or already ends with one. */
  function PathJoin(a: string, b: string): (r: string)
    ensures |r| >= |b| && r[|r| - |b|..] == b
  {
    if |b| > 0 && b[0] == '/' then b
    else if a == [] || a[|a| - 1] == '/' then a + b
    else a + "/" + b
  }

  /** An absolute name is the join itself; a relative one follows the folder, with a '/' between them
      exactly when the folder is non-empty and does not already end with one. */
  lemma PathJoinParts(a: string, b: string)
    ensures |b| > 0 && b[0] == '/' ==> PathJoin(a, b) == b
    ensures !(|b| > 0 && b[0] == '/') ==>
      && |PathJoin(a, b)| >= |a| && PathJoin(a, b)[..|a|] == a
      && (PathJoin(a, b)[|a|..] == b || PathJoin(a, b)[|a|..] == "/" + b)
      && (PathJoin(a, b)[|a|..] == b <==> a == [] || a[|a| - 1] == '/')
  {
    if !(|b| > 0 && b[0] == '/') && !(a == [] || a[|a| - 1] == '/') {
      assert PathJoin(a, b) == a + ("/" + b);
    }
  }

  /** A name joined onto a folder is the basename of the result. */
  lemma JoinBasename(a: string, b: string)
    requires '/' !in b
    ensures Basename(PathJoin(a, b)) == b
  {
    var r := PathJoin(a, b);
    var prefix := r[..|r| - |b|];
    assert r == prefix + b;
    assert prefix == [] || prefix[|prefix| - 1] == '/';
    LastIndexPastTail(prefix, b, '/');
  }

  /** Some character of `p[lo..hi]` is not a dot. */
  predicate HasNonDot(p: string, lo: int, hi: int) {
    exists i :: lo <= i < hi && 0 <= i < |p| && p[i] != '.'
  }

  /** `os.path.splitext`: the extension runs from the last dot of the last path component, provided some
      character before that dot in the component is not a dot; otherwise there is none. */
  function Splitext(p: string): (r: (string, string))
    ensures r.0 + r.1 == p
    ensures r.1 == [] || (r.1[0] == '.' && '.' !in r.1[1..] && '/' !in r.1)
  {
    var sep, dot := LastIndexOfChar(p, '/'), LastIndexOfChar(p, '.');
    if dot > sep && HasNonDot(p, sep + 1, dot) then
      assert p[dot..][1..] == p[dot + 1..];
      assert sep == -1 ==> p[sep + 1..] == p;
      LaterFree(p, sep + 1, dot, '/');
      (p[..dot], p[dot..])
    else (p, [])
  }

  /** An extension, a dot with no dot or '/' after it, is split off a stem whose last component holds a
      character other than a dot (at `i`). */
  lemma SplitextOf(stem: string, ext: string, i: nat)
    requires '.' !in ext && '/' !in ext
    requires LastIndexOfChar(stem, '/') < i < |stem| && stem[i] != '.'
    ensures Splitext(stem + "." + ext) == (stem, "." + ext)
  {
    LastDotBeforeExt(stem, ext);
    LastSepInStem(stem, ext);
    StemAndExt(stem, ext);
    SplitextAt(stem + "." + ext, LastIndexOfChar(stem, '/'), |stem|, i);
  }

  lemma LastDotBeforeExt(stem: string, ext: string)
    requires '.' !in ext
    ensures LastIndexOfChar(stem + "." + ext, '.') == |stem|
  {
    LastIndexPastTail(stem + ".", ext, '.');
  }

  lemma LastSepInStem(stem: string, ext: string)
    requires '/' !in ext
    ensures LastIndexOfChar(stem + "." + ext, '/') == LastIndexOfChar(stem, '/')
  {
    assert stem + "." + ext == stem + ("." + ext);
    LastIndexPastTail(stem, "." + ext, '/');
  }

  lemma StemAndExt(stem: string, ext: string)
    ensures (stem + "." + ext)[..|stem|] == stem && (stem + "." + ext)[|stem|..] == "." + ext
    ensures forall i :: 0 <= i < |stem| ==> (stem + "." + ext)[i] == stem[i]
  {
  }

  /** `splitext` at a last dot that follows the last '/' and a non-dot character `p[i]` of its component. */
  lemma SplitextAt(p: string, sep: int, dot: int, i: nat)
    requires sep == LastIndexOfChar(p, '/') && dot == LastIndexOfChar(p, '.')
    requires sep < i < dot && p[i] != '.'
    ensures Splitext(p) == (p[..dot], p[dot..])
  {
    assert HasNonDot(p, sep + 1, dot);
  }

  /** A path whose last component has no dot has no extension. */
  lemma SplitextNoDot(p: string)
    requires '.' !in Basename(p)
    ensures Splitext(p) == (p, [])
  {
    LastIndexBefore(p, '.', LastIndexOfChar(p, '/') + 1);
  }

  /** A character absent from `p[k..]` last occurs before `k`, if at all. */
  lemma {:induction false} LastIndexBefore(p: string, c: char, k: nat)
    requires k <= |p| && c !in p[k..]
    ensures LastIndexOfChar(p, c) < k
  {
    if k < |p| {
      assert p[|p| - 1] == p[k..][|p| - 1 - k];
      assert p[..|p| - 1][k..] == p[k..|p| - 1];
      NotInPrefix(p[k..], c, |p| - 1 - k);
      assert p[k..][..|p| - 1 - k] == p[k..|p| - 1];
      LastIndexBefore(p[..|p| - 1], c, k);
    }
  }

  lemma NotInPrefix(s: string, c: char, n: nat)
    requires n <= |s| && c !in s
    ensures c !in s[..n]
  {
    forall j | 0 <= j < n ensures s[..n][j] != c {
      assert s[..n][j] == s[j];
    }
  }

  /** A character absent from a suffix is absent from every shorter suffix. */
  lemma LaterFree(p: string, a: nat, b: nat, c: char)
    requires a <= b <= |p| && c !in p[a..]
    ensures c !in p[b..]
  {
    assert p[b..] == p[a..][b - a..];
  }

  /** `strftime('%Y%m%d_%H%M%S')` writes digits and one underscore. */
  lemma StampChars(t: DateTime)
    requires Valid(t)
    ensures '.' !in Stamp(t) && '/' !in Stamp(t)
  {
    var pieces := [ZeroPad(t.year, 4), ZeroPad(t.month, 2), ZeroPad(t.day, 2),
      ZeroPad(t.hour, 2), ZeroPad(t.minute, 2), ZeroPad(t.second, 2)];
    assert forall k :: 0 <= k < |pieces| ==> AllDigits(pieces[k]);
    assert '.' !in pieces[0] && '.' !in pieces[1] && '.' !in pieces[2];
    assert '.' !in pieces[3] && '.' !in pieces[4] && '.' !in pieces[5];
    assert '/' !in pieces[0] && '/' !in pieces[1] && '/' !in pieces[2];
    assert '/' !in pieces[3] && '/' !in pieces[4] && '/' !in pieces[5];
  }

  /** The collision name `<stem>_<YYYYmmdd_HHMMSS><ext>`. */
  function Renamed(name: string, later: DateTime): (r: string)
    requires Valid(later)
    ensures |r| == |name| + 16
  {
    var (stem, ext) := Splitext(name);
    stem + "_" + Stamp(later) + ext
  }

  /** A name without an extension gets none from the time stamp: the stamp has no dot. */
  lemma RenamedNoExtension(name: string, later: DateTime)
    requires '/' !in name && Valid(later) && Splitext(name).1 == []
    ensures Renamed(name, later) == name + "_" + Stamp(later)
    ensures Splitext(Renamed(name, later)) == (Renamed(name, later), [])
  {
    StampChars(later);
    var tail := "_" + Stamp(later);
    var m := name + tail;
    assert Renamed(name, later) == m;
    assert '/' !in m;
    LastIndexPastTail(name, tail, '.');
    var dot := LastIndexOfChar(name, '.');
    forall i | 0 <= i < |name|
      ensures m[i] == name[i]
    {
    }
    assert HasNonDot(m, 0, dot) == HasNonDot(name, 0, dot);
  }

  /** A name with an extension keeps it: the time stamp goes at the end of the stem. */
  lemma RenamedKeepsExtension(name: string, later: DateTime)
    requires '/' !in name && Valid(later) && Splitext(name).1 != []
    ensures Splitext(Renamed(name, later)) == (Splitext(name).0 + "_" + Stamp(later), Splitext(name).1)
  {
    var stem, ext := Splitext(name).0, Splitext(name).1;
    StampChars(later);
    var head := stem + "_" + Stamp(later);
    var m := head + ext;
    assert Renamed(name, later) == m;
    assert '/' !in m;
    assert ext == ['.'] + ext[1..];
    assert m == (head + ['.']) + ext[1..];
    LastIndexPastTail(head + ['.'], ext[1..], '.');
    assert m[|stem|] == '_';
    assert HasNonDot(m, 0, |head|);
    assert m[..|head|] == head && m[|head|..] == ext;
  }

  // ---------------------------------------------------------------- the file tree

  /** What a path names. */
  datatype Node = File(content: seq<byte>) | Directory

  /** `shutil.move(src, join(dir, name))`, or `None` where it raises. An existing folder at the
      destination receives the file under its own basename (an error if that is taken); otherwise the
      file replaces whatever file is there, provided `dir` is a folder. */
  function Moved(nodes: map<string, Node>, src: string, dir: string, name: string): (r: Option<map<string, Node>>)
    requires src in nodes && nodes[src].File?
  {
    var dst := PathJoin(dir, name);
    if dst in nodes && nodes[dst].Directory? then
      var inside := PathJoin(dst, Basename(src));
      if inside in nodes then None else Some((nodes - {src})[inside := nodes[src]])
    else if dir !in nodes || nodes[dir].File? then None
    else Some((nodes - {src})[dst := nodes[src]])
  }

  /** The file tree of the machine, as the agent sees it through `os.path` and `shutil`. */
  class FileSystem {
    var nodes: map<string, Node>

    constructor (nodes: map<string, Node>)
      ensures this.nodes == nodes
    {
      this.nodes := nodes;
    }

    /** `os.path.exists`. */
    predicate Exists(path: string)
      reads this
    {
      path in nodes
    }

    /** `shutil.move(src, join(dir, name))`; `moved` is false where it raises and nothing changes. */
    method Move(src: string, dir: string, name: string) returns (moved: bool)
      requires src in nodes && nodes[src].File?
      modifies this
      ensures moved <==> Moved(old(nodes), src, dir, name).Some?
      ensures nodes == Moved(old(nodes), src, dir, name).GetOr(old(nodes))
    {
      var r := Moved(nodes, src, dir, name);
      if r.Some? {
        nodes := r.value;
      }
      moved := r.Some?;
    }
  }

  // ---------------------------------------------------------------- process_file

  /** A watched folder's entry in the configuration; `None` where a key is absent. */
  datatype DirConfig = DirConfig(
    path: Option<string>, fileType: Option<string>, equipmentType: Option<string>, equipmentName: Option<string>)

  /** The file types whose contents are queued as text. */
  predicate IsTextType(fileType: string) {
    fileType == "hl7" || fileType == "txt" || fileType == "csv"
  }

  /** The record queued for a file of `path` holding `content`, read at time `now`. */
  function FileRecord(path: string, config: DirConfig, content: seq<byte>, now: DateTime): RawRecord
    requires Valid(now)
  {
    var fileType := config.fileType.GetOr("unknown");
    RawRecord(
      "file_watcher", Some(config.equipmentType.GetOr("unknown")),
      Some(config.equipmentName.GetOr("Unknown Equipment")), Some(fileType), None, Some(Basename(path)),
      Some(path), Some(|content|),
      Some(if IsTextType(fileType) then Text(Decode(content)) else Binary(content)),
      Some(IsoFormat(now)), None, None, None, None, None)
  }

  /** The name a file of name `name` gets in the folder `processed`: its own name, or the collision
      name when a file or folder of its own name is already there. */
  function TargetName(nodes: map<string, Node>, processed: string, name: string, later: DateTime): string
    requires Valid(later)
  {
    if PathJoin(processed, name) in nodes then Renamed(name, later) else name
  }

  /** What `process_file` does: the records it queues and the file tree it leaves. */
  datatype Outcome = Outcome(queued: seq<RawRecord>, nodes: map<string, Node>)

  /** `process_file(path, config)` with the clock reading `now` for the record and `later` for the
      collision name. A missing path, a folder (whose `open` raises) and an empty file queue nothing.
      Without a configured `path` the lookup raises after the record is queued, and the file stays. */
  function Process(nodes: map<string, Node>, path: string, config: DirConfig, now: DateTime, later: DateTime): Outcome
    requires Valid(now) && Valid(later)
  {
    if path !in nodes || nodes[path].Directory? || |nodes[path].content| == 0 then Outcome([], nodes)
    else
      var record := FileRecord(path, config, nodes[path].content, now);
      if config.path.None? then Outcome([record], nodes)
      else
        var processed := PathJoin(config.path.value, "procesados");
        var name := TargetName(nodes, processed, Basename(path), later);
        Outcome([record], Moved(nodes, path, processed, name).GetOr(nodes))
  }

  /** The collector of one agent; it shares the delivery queue with the other sources. */
  class FileWatcherCollector {
    const queue: RecordQueue

    constructor (queue: RecordQueue)
      ensures this.queue == queue
    {
      this.queue := queue;
    }

    /** `process_file`: check the file, read it, queue its record, then move it away. */
    method ProcessFile(disk: FileSystem, path: string, config: DirConfig, now: DateTime, later: DateTime)
      requires Valid(now) && Valid(later)
      modifies queue, disk
      ensures queue.items == old(queue.items) + Process(old(disk.nodes), path, config, now, later).queued
      ensures disk.nodes == Process(old(disk.nodes), path, config, now, later).nodes
    {
      if !disk.Exists(path) {
        return;
      }
      var node := disk.nodes[path];
      if node.Directory? || |node.content| == 0 {
        return;
      }
      var name := Basename(path);
      var record := FileRecord(path, config, node.content, now);
      queue.Put(record);
      if config.path.None? {
        return;
      }
      var processed := PathJoin(config.path.value, "procesados");
      if disk.Exists(PathJoin(processed, name)) {
        name := Renamed(name, later);
      }
      var _ := disk.Move(path, processed, name);
    }
  }

  /** A file-system event as the folder observer delivers it. */
  datatype Event = Event(isDirectory: bool, srcPath: string)

  /** The event handler of one watched folder. */
  class FileHandler {
    const collector: FileWatcherCollector
    const dirConfig: DirConfig

    constructor (collector: FileWatcherCollector, dirConfig: DirConfig)
      ensures this.collector == collector && this.dirConfig == dirConfig
    {
      this.collector := collector;
      this.dirConfig := dirConfig;
    }

    /** `on_created`: a new folder is ignored, a new file is processed. */
    method OnCreated(disk: FileSystem, event: Event, now: DateTime, later: DateTime)
      requires Valid(now) && Valid(later)
      modifies collector.queue, disk
      ensures event.isDirectory ==> collector.queue.items == old(collector.queue.items) && disk.nodes == old(disk.nodes)
      ensures !event.isDirectory ==>
        var outcome := Process(old(disk.nodes), event.srcPath, dirConfig, now, later);
        collector.queue.items == old(collector.queue.items) + outcome.queued && disk.nodes == outcome.nodes
    {
      if event.isDirectory {
        return;
      }
      collector.ProcessFile(disk, event.srcPath, dirConfig, now, later);
    }
  }

  // ---------------------------------------------------------------- what process_file promises

  /** Nothing is queued exactly for a missing path, a folder or an empty file, and then nothing moves. */
  lemma NothingQueuedIff(nodes: map<string, Node>, path: string, config: DirConfig, now: DateTime, later: DateTime)
    requires Valid(now) && Valid(later)
    ensures var o := Process(nodes, path, config, now, later);
      && (o.queued == [] <==> path !in nodes || nodes[path].Directory? || |nodes[path].content| == 0)
      && (o.queued == [] ==> o.nodes == nodes)
      && |o.queued| <= 1
  {
  }

  /** The one record of a non-empty file: its defaults, its name and size, and the path it was read
      from, which is where it was before the move. */
  lemma QueuedRecord(nodes: map<string, Node>, path: string, config: DirConfig, now: DateTime, later: DateTime)
    requires Valid(now) && Valid(later)
    requires path in nodes && nodes[path].File? && |nodes[path].content| > 0
    ensures var o := Process(nodes, path, config, now, later); var r := o.queued[0];
      && |o.queued| == 1
      && r.source == "file_watcher"
      && r.dataType == Some(config.fileType.GetOr("unknown"))
      && r.equipmentType == Some(config.equipmentType.GetOr("unknown"))
      && r.equipmentName == Some(config.equipmentName.GetOr("Unknown Equipment"))
      && r.filePath == Some(path) && r.fileName == Some(Basename(path))
      && r.fileSize == Some(|nodes[path].content|) && r.timestamp == Some(IsoFormat(now))
      && r.port.None? && r.patientId.None?
  {
  }

  /** The contents are queued as text exactly for the `hl7`, `txt` and `csv` types, and otherwise as the
      bytes of the file. */
  lemma RawDataTextIff(nodes: map<string, Node>, path: string, config: DirConfig, now: DateTime, later: DateTime)
    requires Valid(now) && Valid(later)
    requires path in nodes && nodes[path].File? && |nodes[path].content| > 0
    ensures var raw := Process(nodes, path, config, now, later).queued[0].rawData.value;
      var fileType := config.fileType.GetOr("unknown");
      && (raw.Text? <==> fileType in {"hl7", "txt", "csv"})
      && (raw.Text? ==> raw.text == Decode(nodes[path].content))
      && (raw.Binary? ==> raw.bytes == nodes[path].content)
  {
    var fileType := config.fileType.GetOr("unknown");
    var r := FileRecord(path, config, nodes[path].content, now);
    assert Process(nodes, path, config, now, later).queued[0] == r;
    assert (fileType in {"hl7", "txt", "csv"}) == IsTextType(fileType);
  }

  /** The name in `processed`: the file's own name when that is free, else the collision name; either
      way it keeps the file's extension and is the basename of the destination. */
  lemma TargetKeepsExtension(nodes: map<string, Node>, processed: string, name: string, later: DateTime)
    requires '/' !in name && Valid(later)
    ensures var target := TargetName(nodes, processed, name, later);
      && (PathJoin(processed, name) !in nodes ==> target == name)
      && (PathJoin(processed, name) in nodes ==> target == Renamed(name, later))
      && Splitext(target).1 == Splitext(name).1
      && Basename(PathJoin(processed, target)) == target
  {
    var target := TargetName(nodes, processed, name, later);
    if PathJoin(processed, name) in nodes {
      if Splitext(name).1 == [] {
        RenamedNoExtension(name, later);
      } else {
        RenamedKeepsExtension(name, later);
      }
      StampChars(later);
      assert '/' !in Renamed(name, later);
    }
    JoinBasename(processed, target);
  }

  /** The file goes into `<dir>/procesados` under the target name with its contents, and no other path
      changes. The record queued before (`QueuedRecord`) still names the old path, which no longer exists. */
  lemma MovedToProcessed(nodes: map<string, Node>, path: string, config: DirConfig, now: DateTime, later: DateTime)
    requires Valid(now) && Valid(later)
    requires path in nodes && nodes[path].File? && |nodes[path].content| > 0 && config.path.Some?
    requires var processed := PathJoin(config.path.value, "procesados");
      && processed in nodes && nodes[processed].Directory?
      && var dst := PathJoin(processed, TargetName(nodes, processed, Basename(path), later));
         dst != path && (dst !in nodes || nodes[dst].File?)
    ensures var processed := PathJoin(config.path.value, "procesados");
      var dst := PathJoin(processed, TargetName(nodes, processed, Basename(path), later));
      var o := Process(nodes, path, config, now, later);
      && o.nodes == (nodes - {path})[dst := nodes[path]]
      && path !in o.nodes
  {
    var processed := PathJoin(config.path.value, "procesados");
    var target := TargetName(nodes, processed, Basename(path), later);
    var dst := PathJoin(processed, target);
    assert Moved(nodes, path, processed, target) == Some((nodes - {path})[dst := nodes[path]]);
  }

  /** When the collision name is taken too, the file it names is replaced: the existence check is made
      once only. */
  lemma CollisionCheckedOnce(nodes: map<string, Node>, path: string, config: DirConfig, now: DateTime, later: DateTime)
    requires Valid(now) && Valid(later)
    requires path in nodes && nodes[path].File? && |nodes[path].content| > 0 && config.path.Some?
    requires var processed := PathJoin(config.path.value, "procesados");
      var name := Basename(path);
      var second := PathJoin(processed, Renamed(name, later));
      && processed in nodes && nodes[processed].Directory?
      && PathJoin(processed, name) in nodes
      && second in nodes && nodes[second].File? && second != path
    ensures var second := PathJoin(PathJoin(config.path.value, "procesados"), Renamed(Basename(path), later));
      Process(nodes, path, config, now, later).nodes[second] == nodes[path]
  {
  }
}

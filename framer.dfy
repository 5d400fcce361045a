/** The MLLP block framing of the serial collector (HL7 v2.5, Appendix C, Lower Layer Protocols):
    a message is sent as 0x0B, the message bytes, then 0x1C 0x0D. `_extract_messages` scans an
    accumulating buffer for such blocks, and the read loop removes each one it found. */
module Framer {
  import opened Bytes

  const VT: byte := 0x0B  // start block
  const FS: byte := 0x1C  // end block
  const CR: byte := 0x0D  // carriage return that must follow the end block

  /** The bytes `[start, end)` of a buffer. */
  datatype Span = Span(start: nat, end: nat)

  /** `sp` is a complete block of `buf`: 0x0B at its start, 0x1C 0x0D as its last two bytes, and the
      0x1C is the first one at or after the start byte. */
  predicate IsFrame(buf: seq<byte>, sp: Span) {
    && sp.start + 2 <= sp.end <= |buf|
    && buf[sp.start] == VT && buf[sp.end - 2] == FS && buf[sp.end - 1] == CR
    && forall i :: sp.start <= i < sp.end - 2 ==> buf[i] != FS
  }

  /** Spans in increasing buffer position, pairwise non-overlapping, all at or after `from` and inside
      a buffer of length `bound`. */
  predicate Ordered(spans: seq<Span>, from: nat, bound: nat) {
    && (forall i :: 0 <= i < |spans| ==> from <= spans[i].start <= spans[i].end <= bound)
    && (forall i, j :: 0 <= i < j < |spans| ==> spans[i].end <= spans[j].start)
  }

  /** The blocks the scan of `_extract_messages` finds from position `start` on. */
  function Scan(buf: seq<byte>, start: nat): seq<Span>
    decreases |buf| - start
  {
    var vt := FindByte(buf, VT, start);
    if vt == -1 then []
    else
      var fs := FindByte(buf, FS, vt);
      if fs == -1 then []
      else if fs + 1 < |buf| && buf[fs + 1] == CR then [Span(vt, fs + 2)] + Scan(buf, fs + 2)
      else Scan(buf, fs + 1)
  }

  /** One step of the block scan: the block `[vt, fs + 2)`, then the blocks after it. */
  lemma ScanBlock(buf: seq<byte>, start: nat, vt: nat, fs: nat)
    requires FindByte(buf, VT, start) == vt && FindByte(buf, FS, vt) == fs
    requires fs + 1 < |buf| && buf[fs + 1] == CR
    ensures Scan(buf, start) == [Span(vt, fs + 2)] + Scan(buf, fs + 2)
  {
  }

  /** One step of the block scan: the 0x1C at `fs`, which 0x0D does not follow, is skipped. */
  lemma ScanSkip(buf: seq<byte>, start: nat, vt: nat, fs: nat)
    requires FindByte(buf, VT, start) == vt && FindByte(buf, FS, vt) == fs
    requires !(fs + 1 < |buf| && buf[fs + 1] == CR)
    ensures Scan(buf, start) == Scan(buf, fs + 1)
  {
  }

  lemma OrderedCons(sp: Span, rest: seq<Span>, from: nat, bound: nat)
    requires from <= sp.start <= sp.end && Ordered(rest, sp.end, bound) && sp.end <= bound
    ensures Ordered([sp] + rest, from, bound)
  {
    var all := [sp] + rest;
    forall i, j | 0 <= i < j < |all| ensures all[i].end <= all[j].start {
      if i > 0 {
        assert all[i] == rest[i - 1] && all[j] == rest[j - 1];
      } else {
        assert all[j] == rest[j - 1];
      }
    }
    forall i | 0 <= i < |all| ensures from <= all[i].start <= all[i].end <= bound {
      if i > 0 {
        assert all[i] == rest[i - 1];
      }
    }
  }

  lemma FramesCons(buf: seq<byte>, sp: Span, rest: seq<Span>)
    requires IsFrame(buf, sp) && forall i :: 0 <= i < |rest| ==> IsFrame(buf, rest[i])
    ensures forall i :: 0 <= i < |[sp] + rest| ==> IsFrame(buf, ([sp] + rest)[i])
  {
    forall i | 0 <= i < |[sp] + rest| ensures IsFrame(buf, ([sp] + rest)[i]) {
      if i > 0 {
        assert ([sp] + rest)[i] == rest[i - 1];
      }
    }
  }

  /** The scan finds only complete blocks, in increasing buffer position, pairwise non-overlapping,
      and none before the position it starts from. */
  lemma {:induction false} ScanSound(buf: seq<byte>, start: nat)
    ensures Ordered(Scan(buf, start), start, |buf|)
    ensures forall i :: 0 <= i < |Scan(buf, start)| ==> IsFrame(buf, Scan(buf, start)[i])
    decreases |buf| - start, 1
  {
    var vt := FindByte(buf, VT, start);
    if vt != -1 {
      var fs := FindByte(buf, FS, vt);
      if fs != -1 {
        if fs + 1 < |buf| && buf[fs + 1] == CR {
          ScanBlockSound(buf, start, vt, fs);
        } else {
          ScanSkip(buf, start, vt, fs);
          ScanSound(buf, fs + 1);
        }
      }
    }
  }

  /** `ScanSound` when the scan from `start` finds the block `[vt, fs + 2)`. */
  lemma {:induction false} ScanBlockSound(buf: seq<byte>, start: nat, vt: nat, fs: nat)
    requires FindByte(buf, VT, start) == vt && FindByte(buf, FS, vt) == fs
    requires fs + 1 < |buf| && buf[fs + 1] == CR
    ensures Ordered(Scan(buf, start), start, |buf|)
    ensures forall i :: 0 <= i < |Scan(buf, start)| ==> IsFrame(buf, Scan(buf, start)[i])
    decreases |buf| - start, 0
  {
    ScanBlock(buf, start, vt, fs);
    ScanSound(buf, fs + 2);
    FindByteFirst(buf, FS, vt);
    var sp := Span(vt, fs + 2);
    assert IsFrame(buf, sp);
    OrderedCons(sp, Scan(buf, fs + 2), start, |buf|);
    FramesCons(buf, sp, Scan(buf, fs + 2));
  }

  predicate InBounds(spans: seq<Span>, bound: nat) {
    forall i :: 0 <= i < |spans| ==> spans[i].start <= spans[i].end <= bound
  }

  /** The bytes of each span. */
  function Slices(buf: seq<byte>, spans: seq<Span>): (r: seq<seq<byte>>)
    requires InBounds(spans, |buf|)
    ensures |r| == |spans|
    ensures forall i :: 0 <= i < |spans| ==> r[i] == buf[spans[i].start..spans[i].end]
  {
    if spans == [] then [] else [buf[spans[0].start..spans[0].end]] + Slices(buf, spans[1..])
  }

  /** What the scan of `_extract_messages` returns from position `start` on: the first complete block,
      then the messages after it; a 0x1C that 0x0D does not follow is skipped. */
  function MessagesFrom(buf: seq<byte>, start: nat): seq<seq<byte>>
    decreases |buf| - start
  {
    var vt := FindByte(buf, VT, start);
    if vt == -1 then []
    else
      var fs := FindByte(buf, FS, vt);
      if fs == -1 then []
      else if fs + 1 < |buf| && buf[fs + 1] == CR then [buf[vt..fs + 2]] + MessagesFrom(buf, fs + 2)
      else MessagesFrom(buf, fs + 1)
  }

  /** What `_extract_messages(buffer)` returns. */
  function Messages(buf: seq<byte>): seq<seq<byte>> {
    MessagesFrom(buf, 0)
  }

  /** One step of the scan: no start byte, or no end byte after it, ends the scan. */
  lemma MessagesFromNone(buf: seq<byte>, start: nat)
    requires FindByte(buf, VT, start) == -1 || FindByte(buf, FS, FindByte(buf, VT, start)) == -1
    ensures MessagesFrom(buf, start) == []
  {
  }

  /** One step of the scan: the block `[vt, fs + 2)`, then the scan after it. */
  lemma MessagesFromBlock(buf: seq<byte>, start: nat, vt: nat, fs: nat)
    requires FindByte(buf, VT, start) == vt && FindByte(buf, FS, vt) == fs
    requires fs + 1 < |buf| && buf[fs + 1] == CR
    ensures MessagesFrom(buf, start) == [buf[vt..fs + 2]] + MessagesFrom(buf, fs + 2)
  {
  }

  /** One step of the scan: the 0x1C at `fs`, which 0x0D does not follow, is skipped. */
  lemma MessagesFromSkip(buf: seq<byte>, start: nat, vt: nat, fs: nat)
    requires FindByte(buf, VT, start) == vt && FindByte(buf, FS, vt) == fs
    requires !(fs + 1 < |buf| && buf[fs + 1] == CR)
    ensures MessagesFrom(buf, start) == MessagesFrom(buf, fs + 1)
  {
  }

  lemma SlicesCons(buf: seq<byte>, sp: Span, rest: seq<Span>)
    requires sp.start <= sp.end <= |buf| && InBounds(rest, |buf|)
    ensures InBounds([sp] + rest, |buf|)
    ensures Slices(buf, [sp] + rest) == [buf[sp.start..sp.end]] + Slices(buf, rest)
  {
    assert ([sp] + rest)[1..] == rest;
  }

  /** The messages are the bytes of the blocks the scan finds. */
  lemma {:induction false} MessagesAreSlices(buf: seq<byte>, start: nat)
    ensures InBounds(Scan(buf, start), |buf|)
    ensures MessagesFrom(buf, start) == Slices(buf, Scan(buf, start))
    decreases |buf| - start, 1
  {
    assert InBounds(Scan(buf, start), |buf|) by {
      ScanSound(buf, start);
    }
    var vt := FindByte(buf, VT, start);
    if vt == -1 {
      MessagesFromNone(buf, start);
    } else {
      var fs := FindByte(buf, FS, vt);
      if fs == -1 {
        MessagesFromNone(buf, start);
      } else if fs + 1 < |buf| && buf[fs + 1] == CR {
        BlockAreSlices(buf, start, vt, fs);
      } else {
        MessagesFromSkip(buf, start, vt, fs);
        ScanSkip(buf, start, vt, fs);
        MessagesAreSlices(buf, fs + 1);
      }
    }
  }

  /** `MessagesAreSlices` when the scan from `start` finds the block `[vt, fs + 2)`. */
  lemma {:induction false} BlockAreSlices(buf: seq<byte>, start: nat, vt: nat, fs: nat)
    requires FindByte(buf, VT, start) == vt && FindByte(buf, FS, vt) == fs
    requires fs + 1 < |buf| && buf[fs + 1] == CR
    ensures InBounds(Scan(buf, start), |buf|)
    ensures MessagesFrom(buf, start) == Slices(buf, Scan(buf, start))
    decreases |buf| - start, 0
  {
    MessagesFromBlock(buf, start, vt, fs);
    MessagesAreSlices(buf, fs + 2);
    ScanBlock(buf, start, vt, fs);
    SlicesCons(buf, Span(vt, fs + 2), Scan(buf, fs + 2));
  }

  /** `_extract_messages`: the scanning loop, moving `start` past every block found or past every
      0x1C that is not followed by 0x0D. */
  method ExtractMessages(buffer: seq<byte>) returns (messages: seq<seq<byte>>)
    ensures messages == Messages(buffer)
  {
    messages := [];
    var start := 0;
    NoPrefixMessages(Messages(buffer));
    while true
      invariant 0 <= start <= |buffer|
      invariant messages + MessagesFrom(buffer, start) == Messages(buffer)
      decreases |buffer| - start
    {
      var vtPos := FindByte(buffer, VT, start);
      if vtPos == -1 {
        MessagesFromNone(buffer, start);
        NoMore(messages);
        break;
      }
      var fsPos := FindByte(buffer, FS, vtPos);
      if fsPos == -1 {
        MessagesFromNone(buffer, start);
        NoMore(messages);
        break;
      }
      if fsPos + 1 < |buffer| && buffer[fsPos + 1] == CR {
        var message := buffer[vtPos..fsPos + 2];
        MessagesFromBlock(buffer, start, vtPos, fsPos);
        Append(messages, message, MessagesFrom(buffer, fsPos + 2));
        messages := messages + [message];
        start := fsPos + 2;
      } else {
        MessagesFromSkip(buffer, start, vtPos, fsPos);
        start := fsPos + 1;
      }
    }
  }

  // ---------------------------------------------------------------- what a message looks like

  /** A complete block as a byte string: 0x0B first, 0x1C 0x0D last, and no other 0x1C. */
  predicate WellFormed(m: seq<byte>) {
    && |m| >= 3 && m[0] == VT && m[|m| - 2] == FS && m[|m| - 1] == CR
    && forall i :: 0 <= i < |m| - 2 ==> m[i] != FS
  }

  /** The bytes of a complete block form a well-formed message. */
  lemma FrameIsWellFormed(buf: seq<byte>, sp: Span)
    requires IsFrame(buf, sp)
    ensures WellFormed(buf[sp.start..sp.end])
  {
    var m := buf[sp.start..sp.end];
    assert m[0] == buf[sp.start] && m[|m| - 2] == buf[sp.end - 2] && m[|m| - 1] == buf[sp.end - 1];
    forall j | 0 <= j < |m| - 2 ensures m[j] != FS {
      assert m[j] == buf[sp.start + j];
    }
  }

  /** Every returned message is a contiguous slice of the buffer, the slices lie in increasing buffer
      position without overlapping, and each is a complete block: a message is never emitted before
      its 0x1C 0x0D has arrived. */
  lemma MessagesAreBlocks(buf: seq<byte>)
    ensures Ordered(Scan(buf, 0), 0, |buf|) && Messages(buf) == Slices(buf, Scan(buf, 0))
    ensures forall i :: 0 <= i < |Messages(buf)| ==> WellFormed(Messages(buf)[i])
  {
    var spans := Scan(buf, 0);
    ScanSound(buf, 0);
    MessagesAreSlices(buf, 0);
    var ms := Messages(buf);
    assert ms == Slices(buf, spans);
    forall i | 0 <= i < |ms| ensures WellFormed(ms[i]) {
      FrameIsWellFormed(buf, spans[i]);
    }
  }

  /** A buffer without a start byte yields no message at all. */
  lemma NoStartByteNoMessages(buf: seq<byte>)
    requires VT !in buf
    ensures Messages(buf) == []
  {
    FindByteNone(buf, VT, 0);
  }

  // ---------------------------------------------------------------- frames among noise

  /** Bytes with no start byte: whatever a device sends between messages. */
  predicate Noise(n: seq<byte>) {
    VT !in n
  }

  lemma {:induction false} FindByteShift(p: seq<byte>, s: seq<byte>, b: byte, k: nat)
    requires k <= |s|
    ensures FindByte(p + s, b, |p| + k) == if FindByte(s, b, k) == -1 then -1 else |p| + FindByte(s, b, k)
    decreases |s| - k
  {
    if k < |s| {
      ConcatIndex(p, s, k);
      if s[k] != b {
        FindByteShift(p, s, b, k + 1);
      }
    }
  }

  /** Two scans that skip an end byte not followed by 0x0D, and agree after it, agree. */
  lemma SameSkip(a: seq<byte>, ka: nat, va: nat, fa: nat, ea: nat, b: seq<byte>, kb: nat, vb: nat, fb: nat, eb: nat)
    requires ea == fa + 1 && FindByte(a, VT, ka) == va && FindByte(a, FS, va) == fa && !(fa + 1 < |a| && a[fa + 1] == CR)
    requires eb == fb + 1 && FindByte(b, VT, kb) == vb && FindByte(b, FS, vb) == fb && !(fb + 1 < |b| && b[fb + 1] == CR)
    requires MessagesFrom(a, ea) == MessagesFrom(b, eb)
    ensures MessagesFrom(a, ka) == MessagesFrom(b, kb)
  {
    MessagesFromSkip(a, ka, va, fa);
    MessagesFromSkip(b, kb, vb, fb);
  }

  /** Two scans that find the same block, ending at `ea` and `eb`, and agree after it, agree. */
  lemma SameBlock(a: seq<byte>, ka: nat, va: nat, fa: nat, ea: nat, b: seq<byte>, kb: nat, vb: nat, fb: nat, eb: nat)
    requires ea == fa + 2 && FindByte(a, VT, ka) == va && FindByte(a, FS, va) == fa && fa + 1 < |a| && a[fa + 1] == CR
    requires eb == fb + 2 && FindByte(b, VT, kb) == vb && FindByte(b, FS, vb) == fb && fb + 1 < |b| && b[fb + 1] == CR
    requires a[va..ea] == b[vb..eb]
    requires MessagesFrom(a, ea) == MessagesFrom(b, eb)
    ensures MessagesFrom(a, ka) == MessagesFrom(b, kb)
  {
    MessagesFromBlock(a, ka, va, fa);
    MessagesFromBlock(b, kb, vb, fb);
  }

  lemma SliceShift(p: seq<byte>, s: seq<byte>, i: nat, j: nat)
    requires i <= j <= |s|
    ensures (p + s)[|p| + i..|p| + j] == s[i..j]
  {
  }

  /** Bytes in front of the scanning position change nothing about what the scan finds after it. */
  lemma {:induction false} MessagesFromShift(p: seq<byte>, s: seq<byte>, k: nat)
    requires k <= |s|
    ensures MessagesFrom(p + s, |p| + k) == MessagesFrom(s, k)
    decreases |s| - k, 2
  {
    FindByteShift(p, s, VT, k);
    var vt := FindByte(s, VT, k);
    if vt == -1 {
      MessagesFromNone(p + s, |p| + k);
      MessagesFromNone(s, k);
    } else {
      FindByteShift(p, s, FS, vt);
      var fs := FindByte(s, FS, vt);
      if fs == -1 {
        MessagesFromNone(p + s, |p| + k);
        MessagesFromNone(s, k);
      } else {
        ShiftStep(p, s, k, vt, fs);
      }
    }
  }

  lemma ConcatIndex(p: seq<byte>, s: seq<byte>, i: nat)
    requires i < |s|
    ensures (p + s)[|p| + i] == s[i]
  {
  }

  /** Whether 0x0D follows the end byte does not depend on the bytes in front. */
  lemma FollowedShift(p: seq<byte>, s: seq<byte>, fs: nat)
    requires fs < |s|
    ensures (|p| + fs + 1 < |p + s| && (p + s)[|p| + fs + 1] == CR) == (fs + 1 < |s| && s[fs + 1] == CR)
  {
    if fs + 1 < |s| {
      ConcatIndex(p, s, fs + 1);
    }
  }

  /** The step of `MessagesFromShift` once the start byte at `vt` and the end byte at `fs` are found. */
  lemma {:induction false} ShiftStep(p: seq<byte>, s: seq<byte>, k: nat, vt: nat, fs: nat)
    requires k <= vt <= fs < |s|
    requires FindByte(s, VT, k) == vt && FindByte(s, FS, vt) == fs
    requires FindByte(p + s, VT, |p| + k) == |p| + vt && FindByte(p + s, FS, |p| + vt) == |p| + fs
    ensures MessagesFrom(p + s, |p| + k) == MessagesFrom(s, k)
    decreases |s| - k, 1
  {
    FollowedShift(p, s, fs);
    if fs + 1 < |s| && s[fs + 1] == CR {
      ShiftBlock(p, s, k, vt, fs);
    } else {
      var e := fs + 1;
      MessagesFromShift(p, s, e);
      SameSkip(p + s, |p| + k, |p| + vt, |p| + fs, |p| + e, s, k, vt, fs, e);
    }
  }

  /** `ShiftStep` when 0x0D follows the end byte. */
  lemma {:induction false} ShiftBlock(p: seq<byte>, s: seq<byte>, k: nat, vt: nat, fs: nat)
    requires k <= vt <= fs && fs + 1 < |s| && s[fs + 1] == CR
    requires FindByte(s, VT, k) == vt && FindByte(s, FS, vt) == fs
    requires FindByte(p + s, VT, |p| + k) == |p| + vt && FindByte(p + s, FS, |p| + vt) == |p| + fs
    requires |p| + fs + 1 < |p + s| && (p + s)[|p| + fs + 1] == CR
    ensures MessagesFrom(p + s, |p| + k) == MessagesFrom(s, k)
    decreases |s| - k, 0
  {
    var e := fs + 2;
    MessagesFromShift(p, s, e);
    SliceShift(p, s, vt, e);
    SameBlock(p + s, |p| + k, |p| + vt, |p| + fs, |p| + e, s, k, vt, fs, e);
  }

  /** In noise, then a complete block, then anything, the scan finds the block right after the noise. */
  lemma FindsFrameAfterNoise(n: seq<byte>, f: seq<byte>, rest: seq<byte>, e: nat)
    requires Noise(n) && WellFormed(f) && e == |n| + |f|
    ensures FindByte(n + f + rest, VT, 0) == |n|
    ensures FindByte(n + f + rest, FS, |n|) == e - 2
    ensures e < |n + f + rest| + 1 && (n + f + rest)[e - 1] == CR
    ensures (n + f + rest)[|n|..e] == f
  {
    var buf := n + f + rest;
    forall i | 0 <= i < |n| ensures buf[i] != VT {
      assert buf[i] == n[i];
    }
    assert buf[|n|] == f[0];
    FindByteAt(buf, VT, 0, |n|);
    var fs := e - 2;
    forall i | |n| <= i < fs ensures buf[i] != FS {
      assert buf[i] == f[i - |n|];
    }
    assert buf[fs] == f[|f| - 2];
    FindByteAt(buf, FS, |n|, fs);
    assert buf[fs + 1] == f[|f| - 1];
  }

  /** `MessagesFromBlock` for the block that ends at `e`. */
  lemma BlockEndingAt(buf: seq<byte>, vt: nat, e: nat)
    requires 2 <= e <= |buf| && FindByte(buf, VT, 0) == vt && FindByte(buf, FS, vt) == e - 2 && buf[e - 1] == CR
    ensures MessagesFrom(buf, 0) == [buf[vt..e]] + MessagesFrom(buf, e)
  {
    MessagesFromBlock(buf, 0, vt, e - 2);
  }

  /** `MessagesFromShift` from the first byte after the prefix. */
  lemma AfterPrefix(p: seq<byte>, s: seq<byte>, e: nat)
    requires e == |p|
    ensures MessagesFrom(p + s, e) == Messages(s)
  {
    MessagesFromShift(p, s, 0);
  }

  /** Noise, then one complete block, then anything: the block is the first message, and the scan goes
      on with what follows as if the noise and the block had never been there. */
  lemma FrameAfterNoise(n: seq<byte>, f: seq<byte>, rest: seq<byte>)
    requires Noise(n) && WellFormed(f)
    ensures Messages(n + f + rest) == [f] + Messages(rest)
  {
    var e := |n| + |f|;
    FindsFrameAfterNoise(n, f, rest, e);
    BlockEndingAt(n + f + rest, |n|, e);
    AfterPrefix(n + f, rest, e);
  }

  /** The stream `noise[0] + frames[0] + noise[1] + frames[1] + ...`. */
  function Interleave(noise: seq<seq<byte>>, frames: seq<seq<byte>>): seq<byte>
    requires |noise| == |frames|
  {
    if frames == [] then [] else noise[0] + frames[0] + Interleave(noise[1..], frames[1..])
  }

  /** N complete blocks interleaved with noise are returned as exactly those N messages, in arrival
      order, whatever follows them. */
  lemma {:induction false} ExtractsEveryFrame(noise: seq<seq<byte>>, frames: seq<seq<byte>>, tail: seq<byte>)
    requires |noise| == |frames|
    requires forall i :: 0 <= i < |noise| ==> Noise(noise[i])
    requires forall i :: 0 <= i < |frames| ==> WellFormed(frames[i])
    ensures Messages(Interleave(noise, frames) + tail) == frames + Messages(tail)
  {
    if frames != [] {
      var rest := Interleave(noise[1..], frames[1..]) + tail;
      assert Interleave(noise, frames) + tail == noise[0] + frames[0] + rest;
      FrameAfterNoise(noise[0], frames[0], rest);
      ExtractsEveryFrame(noise[1..], frames[1..], tail);
      var whole := Interleave(noise, frames) + tail;
      assert whole == noise[0] + frames[0] + rest;
      assert Messages(whole) == [frames[0]] + Messages(rest);
      assert Messages(rest) == frames[1..] + Messages(tail);
      assert [frames[0]] + (frames[1..] + Messages(tail)) == ([frames[0]] + frames[1..]) + Messages(tail);
      assert [frames[0]] + frames[1..] == frames;
    } else {
      assert Interleave(noise, frames) + tail == tail;
    }
  }

  // ---------------------------------------------------------------- removing the messages

  /** The read loop's `for message in messages: buffer = buffer.replace(message, b'', 1)`: each
      message is removed by deleting the first occurrence of its bytes. */
  function RemoveEach(buf: seq<byte>, messages: seq<seq<byte>>): seq<byte>
    decreases |messages|
  {
    if messages == [] then buf else RemoveEach(RemoveFirst(buf, messages[0]), messages[1..])
  }

  function TotalLength(messages: seq<seq<byte>>): nat {
    if messages == [] then 0 else |messages[0]| + TotalLength(messages[1..])
  }

  function ShiftDown(spans: seq<Span>, d: nat): (r: seq<Span>)
    requires forall i :: 0 <= i < |spans| ==> d <= spans[i].start <= spans[i].end
    ensures |r| == |spans|
    ensures forall i :: 0 <= i < |spans| ==> r[i] == Span(spans[i].start - d, spans[i].end - d)
  {
    if spans == [] then [] else [Span(spans[0].start - d, spans[0].end - d)] + ShiftDown(spans[1..], d)
  }

  /** Cutting the first span's bytes out by content shortens the buffer by their length, and the other
      spans, moved down by that length, stay ordered inside it. */
  lemma FirstCutOrdered(buf: seq<byte>, spans: seq<Span>)
    requires Ordered(spans, 0, |buf|) && spans != []
    ensures
      var m := buf[spans[0].start..spans[0].end];
      var rest := spans[1..];
      && |RemoveFirst(buf, m)| == |buf| - |m|
      && (forall i :: 0 <= i < |rest| ==> |m| <= rest[i].start <= rest[i].end)
      && Ordered(ShiftDown(rest, |m|), 0, |RemoveFirst(buf, m)|)
  {
    var sp := spans[0];
    var m := buf[sp.start..sp.end];
    assert OccursAt(buf, m, sp.start);
    RemoveFirstShifts(buf, m, sp.start);
    var buf' := RemoveFirst(buf, m);
    var rest := spans[1..];
    forall i | 0 <= i < |rest| ensures |m| <= sp.end <= rest[i].start <= rest[i].end {
      assert rest[i] == spans[i + 1];
    }
    var rest' := ShiftDown(rest, |m|);
    forall i | 0 <= i < |rest'| ensures rest'[i].start <= rest'[i].end <= |buf'| {
      assert rest[i] == spans[i + 1];
    }
    forall i, j | 0 <= i < j < |rest'| ensures rest'[i].end <= rest'[j].start {
      assert rest[i] == spans[i + 1] && rest[j] == spans[j + 1];
    }
  }

  /** The bytes of a range after an occurrence of `pattern` survive its removal, moved down by its length. */
  lemma CutSlice(s: seq<byte>, pattern: seq<byte>, p: nat, a: nat, e: nat)
    requires OccursAt(s, pattern, p) && p + |pattern| <= a <= e <= |s|
    ensures |RemoveFirst(s, pattern)| == |s| - |pattern|
    ensures RemoveFirst(s, pattern)[a - |pattern|..e - |pattern|] == s[a..e]
  {
    RemoveFirstShifts(s, pattern, p);
    var r := RemoveFirst(s, pattern);
    forall j | 0 <= j < e - a ensures r[a - |pattern|..e - |pattern|][j] == s[a..e][j] {
      assert r[a + j - |pattern|] == s[a + j];
    }
  }

  /** Span `x` of `a` and span `y` of `b` hold the same bytes. */
  predicate SameBytes(a: seq<byte>, x: Span, b: seq<byte>, y: Span) {
    x.start <= x.end <= |a| && y.start <= y.end <= |b| && a[x.start..x.end] == b[y.start..y.end]
  }

  /** `CutSlice` for one span and its image. */
  lemma CutSpan(buf: seq<byte>, m: seq<byte>, p: nat, sp: Span, sp': Span)
    requires OccursAt(buf, m, p) && p + |m| <= sp.start <= sp.end <= |buf|
    requires sp' == Span(sp.start - |m|, sp.end - |m|)
    ensures SameBytes(RemoveFirst(buf, m), sp', buf, sp)
  {
    CutSlice(buf, m, p, sp.start, sp.end);
  }

  /** Two span lists with the same bytes, span by span, have the same slices. */
  lemma SameSlices(a: seq<byte>, sa: seq<Span>, b: seq<byte>, sb: seq<Span>)
    requires |sa| == |sb| && forall i :: 0 <= i < |sa| ==> SameBytes(a, sa[i], b, sb[i])
    ensures InBounds(sa, |a|) && InBounds(sb, |b|)
    ensures Slices(a, sa) == Slices(b, sb)
  {
  }

  /** Cutting out an occurrence of `m` at `p` leaves the bytes of every span after it unchanged, at
      positions moved down by `|m|`. */
  lemma CutLaterSpans(buf: seq<byte>, m: seq<byte>, p: nat, rest: seq<Span>)
    requires OccursAt(buf, m, p)
    requires forall i :: 0 <= i < |rest| ==> p + |m| <= rest[i].start <= rest[i].end <= |buf|
    ensures InBounds(ShiftDown(rest, |m|), |RemoveFirst(buf, m)|)
    ensures Slices(RemoveFirst(buf, m), ShiftDown(rest, |m|)) == Slices(buf, rest)
  {
    var rest' := ShiftDown(rest, |m|);
    forall i | 0 <= i < |rest| ensures SameBytes(RemoveFirst(buf, m), rest'[i], buf, rest[i]) {
      CutSpan(buf, m, p, rest[i], rest'[i]);
    }
    SameSlices(RemoveFirst(buf, m), rest', buf, rest);
  }

  /** Cutting the first span's bytes out by content leaves the bytes of every later span unchanged, at
      positions moved down by the length of the cut. */
  lemma FirstCutSlices(buf: seq<byte>, spans: seq<Span>)
    requires Ordered(spans, 0, |buf|) && spans != []
    ensures
      var m := buf[spans[0].start..spans[0].end];
      var rest := spans[1..];
      && (forall i :: 0 <= i < |rest| ==> |m| <= rest[i].start <= rest[i].end)
      && InBounds(ShiftDown(rest, |m|), |RemoveFirst(buf, m)|)
      && Slices(RemoveFirst(buf, m), ShiftDown(rest, |m|)) == Slices(buf, rest)
  {
    FirstCutOrdered(buf, spans);
    var sp := spans[0];
    var m := buf[sp.start..sp.end];
    var rest := spans[1..];
    forall i | 0 <= i < |rest| ensures sp.start + |m| <= rest[i].start <= rest[i].end <= |buf| {
      assert rest[i] == spans[i + 1];
    }
    CutLaterSpans(buf, m, sp.start, rest);
  }

  /** Removing, by content and one after another, the bytes of non-overlapping spans in increasing
      order always finds an occurrence, so the buffer shrinks by exactly the length of each. */
  lemma {:induction false} RemoveEachSpans(buf: seq<byte>, spans: seq<Span>)
    requires Ordered(spans, 0, |buf|)
    ensures |RemoveEach(buf, Slices(buf, spans))| == |buf| - TotalLength(Slices(buf, spans))
    decreases |spans|
  {
    if spans != [] {
      var sp := spans[0];
      var m := buf[sp.start..sp.end];
      var ms := Slices(buf, spans);
      assert ms[0] == m && ms[1..] == Slices(buf, spans[1..]);
      FirstCutOrdered(buf, spans);
      FirstCutSlices(buf, spans);
      var buf' := RemoveFirst(buf, m);
      var rest' := ShiftDown(spans[1..], |m|);
      RemoveEachSpans(buf', rest');
      assert RemoveEach(buf, ms) == RemoveEach(buf', ms[1..]);
      assert TotalLength(ms) == |m| + TotalLength(ms[1..]);
    }
  }

  /** Every message `_extract_messages` returns is found again by the content removal, so each one
      shrinks the buffer by exactly its own length. */
  lemma RemoveEachExtracted(buf: seq<byte>)
    ensures |RemoveEach(buf, Messages(buf))| == |buf| - TotalLength(Messages(buf))
  {
    ScanSound(buf, 0);
    MessagesAreSlices(buf, 0);
    RemoveEachSpans(buf, Scan(buf, 0));
  }

  /** The bytes of the noise pieces, in order. */
  function Flatten(noise: seq<seq<byte>>): seq<byte> {
    if noise == [] then [] else noise[0] + Flatten(noise[1..])
  }

  /** After noise `q`, the first occurrence of a complete block is the one right there. */
  lemma CutFrameAfterNoise(q: seq<byte>, f: seq<byte>, r: seq<byte>)
    requires Noise(q) && WellFormed(f)
    ensures RemoveFirst(q + f + r, f) == q + r
  {
    var buf := q + f + r;
    assert buf[|q|..|q| + |f|] == f;
    assert OccursAt(buf, f, |q|);
    forall i | 0 <= i < |q| ensures !OccursAt(buf, f, i) {
      assert buf[i] == q[i];
    }
    IndexOfFirst(buf, f, 0);
    var i := IndexOf(buf, f, 0);
    assert i == |q|;
    assert buf[..i] == q;
    assert buf[i + |f|..] == r;
  }

  lemma InterleaveCons(noise: seq<seq<byte>>, frames: seq<seq<byte>>)
    requires |noise| == |frames| && frames != []
    ensures Interleave(noise, frames) == noise[0] + frames[0] + Interleave(noise[1..], frames[1..])
  {
  }

  lemma FlattenCons(noise: seq<seq<byte>>)
    requires noise != []
    ensures Flatten(noise) == noise[0] + Flatten(noise[1..])
  {
  }

  /** The first removal of `RemoveEach` takes out the block right after the noise. */
  lemma RemoveFrameAfterNoise(q: seq<byte>, f: seq<byte>, r: seq<byte>, more: seq<seq<byte>>)
    requires Noise(q) && WellFormed(f)
    ensures RemoveEach(q + f + r, [f] + more) == RemoveEach(q + r, more)
  {
    CutFrameAfterNoise(q, f, r);
    assert ([f] + more)[1..] == more;
  }

  lemma Assoc(q: seq<byte>, n: seq<byte>, f: seq<byte>, t: seq<byte>)
    ensures q + (n + f) + t == (q + n) + f + t
  {
  }

  lemma Regroup(a: seq<byte>, b: seq<byte>, c: seq<byte>, d: seq<byte>, e: seq<byte>)
    ensures a + (b + c + d) + e == (a + b) + c + (d + e)
    ensures (a + b) + (d + e) == (a + b) + d + e
  {
  }

  /** One step of `RemoveEach` on such a stream: the first block goes, and its noise joins `q`. */
  lemma RemoveStep(q: seq<byte>, noise: seq<seq<byte>>, frames: seq<seq<byte>>, tail: seq<byte>)
    requires |noise| == |frames| && frames != []
    requires Noise(q) && Noise(noise[0]) && WellFormed(frames[0])
    ensures RemoveEach(q + Interleave(noise, frames) + tail, frames)
         == RemoveEach(q + noise[0] + Interleave(noise[1..], frames[1..]) + tail, frames[1..])
  {
    var inner := Interleave(noise[1..], frames[1..]);
    InterleaveCons(noise, frames);
    Regroup(q, noise[0], frames[0], inner, tail);
    assert frames == [frames[0]] + frames[1..];
    RemoveFrameAfterNoise(q + noise[0], frames[0], inner + tail, frames[1..]);
  }

  /** Removing the blocks by content, from a stream of noise and blocks: exactly the blocks go, and the
      noise and the tail stay in order. */
  lemma {:induction false} RemoveFramesLeavesNoise(q: seq<byte>, noise: seq<seq<byte>>, frames: seq<seq<byte>>, tail: seq<byte>)
    requires |noise| == |frames| && Noise(q)
    requires forall i :: 0 <= i < |noise| ==> Noise(noise[i])
    requires forall i :: 0 <= i < |frames| ==> WellFormed(frames[i])
    ensures RemoveEach(q + Interleave(noise, frames) + tail, frames) == q + Flatten(noise) + tail
    decreases |frames|, 1
  {
    if frames != [] {
      RemoveFramesCons(q, noise, frames, tail);
    } else {
      NoMiddle(q, Interleave(noise, frames), tail);
    }
  }

  /** `RemoveFramesLeavesNoise` for a stream that holds at least one block. */
  lemma {:induction false} RemoveFramesCons(q: seq<byte>, noise: seq<seq<byte>>, frames: seq<seq<byte>>, tail: seq<byte>)
    requires |noise| == |frames| && Noise(q) && frames != []
    requires forall i :: 0 <= i < |noise| ==> Noise(noise[i])
    requires forall i :: 0 <= i < |frames| ==> WellFormed(frames[i])
    ensures RemoveEach(q + Interleave(noise, frames) + tail, frames) == q + Flatten(noise) + tail
    decreases |frames|, 0
  {
    RemoveStep(q, noise, frames, tail);
    RemoveFramesLeavesNoise(q + noise[0], noise[1..], frames[1..], tail);
    FlattenCons(noise);
    Assoc(q, noise[0], Flatten(noise[1..]), tail);
  }

  lemma NoMiddle(q: seq<byte>, empty: seq<byte>, tail: seq<byte>)
    requires empty == []
    ensures q + empty + tail == q + tail
  {
  }

  lemma NoPrefix(s: seq<byte>)
    ensures [] + s == s
  {
  }

  lemma Append(messages: seq<seq<byte>>, m: seq<byte>, later: seq<seq<byte>>)
    ensures messages + ([m] + later) == (messages + [m]) + later
  {
  }

  lemma NoPrefixMessages(messages: seq<seq<byte>>)
    ensures [] + messages == messages
  {
  }

  lemma NoMore(messages: seq<seq<byte>>)
    ensures messages + [] == messages
  {
  }

  /** One read cycle of the collector on such a stream: it extracts the blocks, and what it keeps in the
      buffer is the noise followed by the tail. */
  lemma ReadCycleKeepsNoise(noise: seq<seq<byte>>, frames: seq<seq<byte>>, tail: seq<byte>)
    requires |noise| == |frames|
    requires forall i :: 0 <= i < |noise| ==> Noise(noise[i])
    requires forall i :: 0 <= i < |frames| ==> WellFormed(frames[i])
    requires Messages(tail) == []
    ensures Messages(Interleave(noise, frames) + tail) == frames
    ensures RemoveEach(Interleave(noise, frames) + tail, frames) == Flatten(noise) + tail
  {
    ExtractsEveryFrame(noise, frames, tail);
    NoMore(frames);
    RemoveFramesLeavesNoise([], noise, frames, tail);
    NoPrefix(Interleave(noise, frames));
    NoPrefix(Flatten(noise));
  }
}

/**
  Moving the bytes of a remote file: into a local file with a progress counter (Get),
  and out to an HTTP connection for a byte range (GetRange inside write_content).
  The remote file does not change; a read returns between one byte and what was asked
  for, nothing at the end, or an error, and a write takes at least one byte or fails.
 */
module Transfer {
  import opened Text
  import opened Streams
  import RangeHeader

  /**
    A handle on the remote file of a seek-based client (SMB, NFS, SFTP); failures counts what
    went wrong on it, and largest is the most that was asked for in one read.
   */
  class RemoteFile {
    const content: string
    var pos: nat
    ghost var failures: nat
    ghost var largest: nat

    constructor (content: string)
      ensures this.content == content && pos == 0
    {
      this.content := content;
      pos := 0;
    }

    method Seek(offset: nat)
      modifies this
      ensures pos == offset && failures == old(failures) && largest == old(largest)
    {
      pos := offset;
    }

    /** A seek whose failure the caller looks for. */
    method TrySeek(offset: nat) returns (ok: bool)
      modifies this
      ensures (ok ==> pos == offset) && largest == old(largest)
      ensures failures == old(failures) + if ok then 0 else 1
    {
      ok := *;
      if ok { pos := offset; } else { failures := failures + 1; }
    }

    /** Any outcome that the contract of the foreign read allows. */
    method Read(max: nat) returns (count: int, data: string)
      requires max > 0
      modifies this
      ensures count < 0 ==> pos == old(pos)
      ensures failures == old(failures) + if count < 0 then 1 else 0
      ensures largest == Max(old(largest), max)
      ensures count >= 0 ==> count == |data| <= max && pos == old(pos) + count
      ensures count > 0 ==> pos <= |content| && data == content[old(pos)..pos]
      ensures count == 0 ==> pos >= |content|
    {
      largest := Max(largest, max);
      var fails: bool := *;
      if fails {
        failures := failures + 1;
        return -1, "";
      }
      if pos >= |content| {
        return 0, "";
      }
      var n :| 1 <= n <= max && pos + n <= |content|;
      count, data := n, content[pos..pos + n];
      pos := pos + n;
    }
  }

  class LocalFile {
    var data: string
  }

  class Counter {
    var value: nat
  }

  /** What a transfer from offset has moved once the counter shows v. */
  ghost function Moved(content: string, offset: nat, v: nat): string
    requires offset <= v
  {
    content[Min(offset, |content|)..Min(v, |content|)]
  }

  lemma MovedMore(start: string, content: string, offset: nat, v: nat, n: nat)
    requires offset <= v && v + n <= |content|
    ensures (start + Moved(content, offset, v)) + content[v..v + n] == start + Moved(content, offset, v + n)
  {
    assert content[offset..v] + content[v..v + n] == content[offset..v + n];
  }

  /**
    The download loop shared by the three clients.  opens and creates are the outcomes
    of opening the remote and the local file.  It succeeds exactly if both were opened and
    no read failed, and then everything from the offset on has been moved.
   */
  method Get(file: RemoteFile, out: LocalFile, progress: Counter, offset: nat, chunk: nat, opens: bool, creates: bool)
    returns (ok: bool)
    requires chunk > 0
    modifies file, out, progress
    ensures !opens || !creates ==> !ok && unchanged(out) && unchanged(progress)
    ensures opens && creates ==>
              progress.value >= offset &&
              out.data == (if offset > 0 then old(out.data) else "") + Moved(file.content, offset, progress.value)
    ensures ok <==> opens && creates && file.failures == old(file.failures)
    ensures ok ==> progress.value >= |file.content|
    ensures offset <= |file.content| && opens && creates ==> progress.value <= |file.content|
  {
    if !opens { return false; }
    if !creates { return false; }
    if offset == 0 { out.data := ""; }
    progress.value := offset;
    file.Seek(if offset > 0 then offset else 0);
    ghost var start := out.data;
    var count, data := file.Read(chunk);
    while count != 0
      invariant progress.value >= offset
      invariant out.data == start + Moved(file.content, offset, progress.value)
      invariant count >= 0 ==> count == |data| && file.pos == progress.value + count
      invariant count > 0 ==> file.pos <= |file.content| && data == file.content[progress.value..file.pos]
      invariant count == 0 ==> progress.value >= |file.content|
      invariant file.failures == old(file.failures) + if count < 0 then 1 else 0
      invariant offset <= |file.content| ==> progress.value <= |file.content|
      decreases count != 0, |file.content| - progress.value
    {
      if count < 0 { return false; }
      MovedMore(start, file.content, offset, progress.value, count);
      out.data := out.data + data;
      progress.value := progress.value + count;
      count, data := file.Read(chunk);
    }
    return true;
  }

  /**
    A completed resume gives the remote file exactly when it continued a beginning of
    it; a fresh download always does.
   */
  lemma ResumeExactIffPrefix(content: string, start: string, v: nat)
    requires |start| <= v && |content| <= v
    ensures start + Moved(content, |start|, v) == content <==> start <= content
  {
    if start <= content {
      assert start + content[|start|..] == content;
    }
  }

  // ----- serving a range -----

  /** now extends before by a beginning of d. */
  ghost predicate Extends(before: string, now: string, d: string) {
    |before| <= |now| <= |before| + |d| && now == before + d[..|now| - |before|]
  }

  method WriteData(wire: Wire, d: string) returns (ok: bool)
    modifies wire
    ensures Extends(old(wire.sent), wire.sent, d)
    ensures ok <==> wire.failures == old(wire.failures)
    ensures ok <==> wire.sent == old(wire.sent) + d
    ensures wire.spoilt == old(wire.spoilt)
  {
    var offset := 0;
    while offset < |d|
      invariant 0 <= offset <= |d| && wire.sent == old(wire.sent) + d[..offset]
      invariant wire.failures == old(wire.failures) && wire.spoilt == old(wire.spoilt)
    {
      var n := wire.Write(d[offset..]);
      if n < 0 { return false; }
      assert d[..offset] + d[offset..][..n] == d[..offset + n];
      offset := offset + n;
    }
    return true;
  }

  class DataSink {
    const wire: Wire
    var ok: bool
    var offset: nat

    constructor (wire: Wire, offset: nat)
      ensures this.wire == wire && ok && this.offset == offset
    {
      this.wire := wire;
      ok := true;
      this.offset := offset;
    }

    method Write(d: string) returns (r: bool)
      modifies this, wire
      ensures r == ok && (ok <==> old(ok) && wire.failures == old(wire.failures))
      ensures wire.spoilt == old(wire.spoilt)
      ensures !old(ok) ==> wire.sent == old(wire.sent) && wire.failures == old(wire.failures)
      ensures Extends(old(wire.sent), wire.sent, d)
      ensures ok ==> wire.sent == old(wire.sent) + d && offset == old(offset) + |d|
      ensures !ok ==> offset == old(offset)
    {
      if ok {
        var writable := wire.IsWritable();
        if writable {
          var written := WriteData(wire, d);
          if written { offset := offset + |d|; } else { ok := false; }
        } else {
          ok := false;
        }
      }
      return ok;
    }
  }

  /** Never more than the server negotiated. */
  function ChunkSize(maxRead: nat, negotiated: nat): nat {
    if 0 < negotiated < maxRead then negotiated else maxRead
  }

  ghost function Slice(content: string, offset: nat, size: nat): string {
    content[Min(offset, |content|)..Min(offset + size, |content|)]
  }

  lemma SliceAt(content: string, offset: nat, size: nat, done: nat, n: nat)
    requires offset + done + n <= |content| && done + n <= size
    ensures var whole := Slice(content, offset, size);
            done + n <= |whole| && whole[done..done + n] == content[offset + done..offset + done + n] &&
            whole[..done] + whole[done..done + n] == whole[..done + n]
  {
    var b := Min(offset + size, |content|);
    SubSlice(content, offset, b, done, done + n);
    JoinSlices(content[offset..b], done, done + n);
  }

  lemma ExtendsMore(before: string, mid: string, now: string, whole: string, k: nat, d: string)
    requires k + |d| <= |whole| && mid == before + whole[..k] && whole[k..k + |d|] == d && Extends(mid, now, d)
    ensures Extends(before, now, whole)
  {
    var m := |now| - |mid|;
    assert whole[..k] + d[..m] == whole[..k + m];
  }

  /** There is something at every position asked for. */
  predicate InFile(content: string, offset: nat, size: nat) { size == 0 || offset + size <= |content| }

  /**
    Read the range piece by piece into the sink; an early end of file is an error.  It
    succeeds exactly if nothing failed on either side and the file has the whole range.
   */
  method GetRange(file: RemoteFile, sink: DataSink, size: nat, offset: nat, maxRead: nat, negotiated: nat)
    returns (ok: bool)
    requires maxRead > 0 && sink.ok
    modifies file, sink, sink.wire
    ensures ok <==> file.failures == old(file.failures) && sink.wire.failures == old(sink.wire.failures) &&
                    InFile(file.content, offset, size)
    ensures Extends(old(sink.wire.sent), sink.wire.sent, Slice(file.content, offset, size))
    ensures ok ==> sink.ok && sink.offset == old(sink.offset) + size
    ensures ok ==> sink.wire.sent == old(sink.wire.sent) + Slice(file.content, offset, size)
    ensures sink.wire.spoilt == old(sink.wire.spoilt)
    ensures file.largest <= Max(old(file.largest), maxRead)
    ensures negotiated > 0 ==> file.largest <= Max(old(file.largest), negotiated)
  {
    if size == 0 { return true; }
    var chunk := ChunkSize(maxRead, negotiated);
    var found := file.TrySeek(offset);
    if !found { return false; }
    ghost var whole, before := Slice(file.content, offset, size), sink.wire.sent;
    var remaining := size;
    while remaining > 0
      invariant remaining <= size && sink.ok && sink.offset == old(sink.offset) + (size - remaining)
      invariant file.pos == offset + (size - remaining) && (remaining < size ==> file.pos <= |file.content|)
      invariant PassedOn(before, sink.wire.sent, whole, size - remaining)
      invariant file.failures == old(file.failures) && sink.wire.failures == old(sink.wire.failures)
      invariant sink.wire.spoilt == old(sink.wire.spoilt) && file.largest <= Max(old(file.largest), chunk)
    {
      var count;
      ok, count := PassOn(file, sink, size, offset, size - remaining, Min(chunk, remaining), before);
      if !ok { return false; }
      remaining := remaining - count;
    }
    assert whole[..size] == whole;
    return true;
  }

  /** The first done bytes of whole went out. */
  ghost predicate PassedOn(before: string, now: string, whole: string, done: nat) {
    done <= |whole| && now == before + whole[..done]
  }

  /** One read and one write on the way through a range; done bytes have been passed on before. */
  method PassOn(file: RemoteFile, sink: DataSink, ghost size: nat, ghost offset: nat, ghost done: nat, most: nat,
                ghost before: string)
    returns (ok: bool, count: nat)
    requires 0 < most <= size - done && sink.ok && file.pos == offset + done
    requires PassedOn(before, sink.wire.sent, Slice(file.content, offset, size), done)
    modifies file, sink, sink.wire
    ensures ok ==> sink.ok && 1 <= count <= most && file.pos == offset + done + count <= |file.content|
    ensures ok ==> sink.offset == old(sink.offset) + count
    ensures ok ==> PassedOn(before, sink.wire.sent, Slice(file.content, offset, size), done + count)
    ensures ok ==> file.failures == old(file.failures) && sink.wire.failures == old(sink.wire.failures)
    ensures !ok ==> file.failures != old(file.failures) || sink.wire.failures != old(sink.wire.failures) ||
                    offset + size > |file.content|
    ensures Extends(before, sink.wire.sent, Slice(file.content, offset, size))
    ensures sink.wire.spoilt == old(sink.wire.spoilt) && file.largest == Max(old(file.largest), most)
  {
    ghost var whole, mid := Slice(file.content, offset, size), sink.wire.sent;
    var n, data := file.Read(most);
    if n <= 0 { return false, 0; }
    count := n;
    SliceAt(file.content, offset, size, done, count);
    ok := sink.Write(data);
    ExtendsMore(before, mid, sink.wire.sent, whole, done, data);
  }

  datatype Error = NoError | WriteError | Canceled

  /** The bytes that the loop up to the end sends: none when the end, a 64-bit sum, wraps around. */
  function Served(offset: nat, length: nat): nat { if offset + length < RangeHeader.SIZE then length else 0 }

  /**
    The response loop for a range, with GetRange as the content provider; calls counts
    the calls of the provider.  It succeeds exactly if the server was seen going down
    before anything was sent, or nothing failed and the file has what is to be sent.
   */
  method WriteContent(wire: Wire, file: RemoteFile, offset: nat, length: nat, maxRead: nat, negotiated: nat,
                      svr: Shutdown)
    returns (ok: bool, error: Error, calls: nat)
    requires maxRead > 0 && offset < RangeHeader.SIZE && length < RangeHeader.SIZE
    modifies wire, file, svr
    ensures old(svr.seen) <= svr.seen <= old(svr.seen) + 1
    ensures ok <==> svr.seen > old(svr.seen) ||
                    (file.failures == old(file.failures) && wire.failures == old(wire.failures) &&
                     InFile(file.content, offset, Served(offset, length)))
    ensures Extends(old(wire.sent), wire.sent, Slice(file.content, offset, Served(offset, length)))
    ensures ok && svr.seen == old(svr.seen) ==>
              wire.sent == old(wire.sent) + Slice(file.content, offset, Served(offset, length))
    ensures svr.seen > old(svr.seen) ==> calls == 0 && wire.sent == old(wire.sent)
    ensures calls <= 1 && (ok <==> error.NoError?) && (!ok ==> (error.WriteError? <==> calls == 0))
    ensures wire.spoilt == old(wire.spoilt)
    ensures ok ==> file.failures == old(file.failures) && wire.failures == old(wire.failures)
  {
    var sink := new DataSink(wire, offset);
    var end := (offset + length) % RangeHeader.SIZE;
    EndOf(offset, length);
    calls := 0;
    while sink.offset < end
      invariant fresh(sink) && sink.wire == wire && sink.ok
      invariant file.failures == old(file.failures) && wire.failures == old(wire.failures)
      invariant wire.spoilt == old(wire.spoilt) && svr.seen == old(svr.seen)
      invariant if calls == 0 then sink.offset == offset && wire.sent == old(wire.sent)
                else calls == 1 && sink.offset == end && end <= |file.content| && end == offset + length &&
                     wire.sent == old(wire.sent) + Slice(file.content, offset, length)
      decreases 1 - calls
    {
      var down := svr.Asked();
      if down { return true, NoError, calls; }
      var writable := wire.IsWritable();
      if !writable { return false, WriteError, calls; }
      var provided := GetRange(file, sink, end - sink.offset, sink.offset, maxRead, negotiated);
      calls := calls + 1;
      if !provided { return false, Canceled, calls; }
      if !sink.ok { return false, WriteError, calls; }
    }
    return true, NoError, calls;
  }

  lemma EndOf(offset: nat, length: nat)
    requires offset < RangeHeader.SIZE && length < RangeHeader.SIZE
    ensures var end := (offset + length) % RangeHeader.SIZE;
            if offset + length < RangeHeader.SIZE then end == offset + length else end < offset
  {
    if offset + length < RangeHeader.SIZE {
      RangeHeader.SmallMod(offset + length);
    } else {
      RangeHeader.SmallMod(offset + length - RangeHeader.SIZE);
    }
  }
}

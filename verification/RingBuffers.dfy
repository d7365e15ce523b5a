/** The ring buffer of a session and the writer that drains it into a file descriptor. */
module RingBuffers {
  import opened ByteStrings

  datatype Rc = Success | InvalidArgument | IoErrWrite

  function Min(a: int, b: int): int {
    if a < b then a else b
  }

  // ---- the bytes a ring holds ----

  ghost predicate Fits(b: seq<int>, size: int, pos: int) {
    0 <= size <= |b| && 0 <= pos && (pos < |b| || pos == |b| == 0)
  }

  /** The last `size` bytes before position `pos`, oldest first. */
  function Held(b: seq<int>, size: int, pos: int): (r: seq<int>)
    requires Fits(b, size, pos)
    ensures |r| == size
  {
    if size <= pos then b[pos - size..pos] else b[pos - size + |b|..] + b[..pos]
  }

  /** Where the oldest byte is. */
  function OldestAt(b: seq<int>, size: int, pos: int): int
    requires Fits(b, size, pos)
  {
    if size <= pos then pos - size else pos - size + |b|
  }

  lemma ReadPosIs(cap: nat, size: int, pos: int)
    requires 0 <= size <= cap && 0 <= pos < cap
    ensures (pos - size + cap) % cap == if size <= pos then pos - size else pos - size + cap
  {
    if size <= pos {
      Around(pos - size, cap);
    }
  }

  lemma Around(x: int, cap: nat)
    requires 0 <= x < cap
    ensures (x + cap) % cap == x
  {
  }

  function Splice(b: seq<int>, pos: int, c: seq<int>): seq<int>
    requires 0 <= pos && pos + |c| <= |b|
  {
    b[..pos] + c + b[pos + |c|..]
  }

  lemma SpliceStep(b: seq<int>, pos: int, c: seq<int>, i: nat)
    requires 0 <= pos && pos + |c| <= |b| && i < |c|
    ensures Splice(b, pos, c[..i])[pos + i := c[i]] == Splice(b, pos, c[..i + 1])
  {
  }

  /** The free bytes from the write position to the oldest byte or the end. */
  function Gap(b: seq<int>, size: int, pos: int): int
    requires Fits(b, size, pos)
  {
    if OldestAt(b, size, pos) <= pos then |b| - pos else OldestAt(b, size, pos) - pos
  }

  /** Bytes written into free space that does not wrap are appended. */
  lemma PutOk(b: seq<int>, size: int, pos: int, c: seq<int>)
    requires Fits(b, size, pos) && size < |b| && |c| <= Gap(b, size, pos)
    ensures pos + |c| <= |b| && size + |c| <= |b| && Fits(Splice(b, pos, c), size + |c|, Wrapped(pos + |c|, |b|))
    ensures Held(Splice(b, pos, c), size + |c|, Wrapped(pos + |c|, |b|)) == Held(b, size, pos) + c
  {
    if pos + |c| == |b| {
      PutToEnd(b, size, pos, c);
    } else if size <= pos {
      PutAfter(b, size, pos, c);
    } else {
      PutBetween(b, size, pos, c);
    }
  }

  /** A position one past the end is the start. */
  function Wrapped(x: int, cap: int): int {
    if x == cap then 0 else x
  }

  /** The write position after `n` more bytes. */
  function Advanced(pos: int, n: int, cap: int): (r: int)
    requires 0 <= pos && 0 <= n && pos + n <= cap && cap > 0
    ensures r == Wrapped(pos + n, cap)
  {
    (pos + n) % cap
  }

  lemma PutToEnd(b: seq<int>, size: int, pos: int, c: seq<int>)
    requires Fits(b, size, pos) && size <= pos && pos + |c| == |b| > 0
    ensures Held(Splice(b, pos, c), size + |c|, 0) == Held(b, size, pos) + c
  {
  }

  lemma PutAfter(b: seq<int>, size: int, pos: int, c: seq<int>)
    requires Fits(b, size, pos) && size <= pos && pos + |c| < |b|
    ensures Held(Splice(b, pos, c), size + |c|, pos + |c|) == Held(b, size, pos) + c
  {
  }

  lemma PutBetween(b: seq<int>, size: int, pos: int, c: seq<int>)
    requires Fits(b, size, pos) && pos < size && size + |c| <= |b|
    ensures Held(Splice(b, pos, c), size + |c|, pos + |c|) == Held(b, size, pos) + c
  {
    assert Splice(b, pos, c)[pos - size + |b|..] == b[pos - size + |b|..];
    assert Splice(b, pos, c)[..pos + |c|] == b[..pos] + c;
  }

  /** Taking in a second piece of the data. */
  lemma Pieces(held: seq<int>, data: seq<int>, n: int, size: int, k: int)
    requires 0 <= n <= size <= |data| && 0 <= k <= size - n
    ensures held + data[..n] + data[n..size][..k] == held + data[..n + k]
  {
    assert data[..n + k] == data[..n] + data[n..size][..k];
  }

  /** Giving out a prefix of what is held. */
  lemma GiveOut(before: seq<int>, held: seq<int>, bytes: seq<int>, k: int)
    requires bytes <= held && 0 <= k <= |bytes|
    ensures before + held == before + bytes[..k] + held[k..]
  {
  }

  lemma DropOk(b: seq<int>, size: int, pos: int, k: int)
    requires Fits(b, size, pos) && 0 <= k <= size
    ensures Held(b, size - k, pos) == Held(b, size, pos)[k..]
  {
  }

  /** The oldest bytes up to the end of the array or the write position. */
  function Front(b: seq<int>, size: int, pos: int): seq<int>
    requires Fits(b, size, pos) && size > 0
  {
    var r := OldestAt(b, size, pos);
    if r < pos then b[r..pos] else b[r..]
  }

  lemma FrontOk(b: seq<int>, size: int, pos: int)
    requires Fits(b, size, pos) && size > 0
    ensures 1 <= |Front(b, size, pos)| <= size && Front(b, size, pos) <= Held(b, size, pos)
    ensures |Front(b, size, pos)| == Min(size, |b| - OldestAt(b, size, pos))
  {
  }

  class RingBuffer {
    const buffer: array<int>
    var dataSize: int
    var writePos: int

    ghost predicate Valid()
      reads this, buffer
    {
      Fits(buffer[..], dataSize, writePos)
    }

    /** The bytes written and not yet read, oldest first. */
    ghost function Contents(): seq<int>
      reads this, buffer
      requires Valid()
    {
      Held(buffer[..], dataSize, writePos)
    }

    constructor (size: nat)
      ensures Valid() && fresh(buffer) && buffer.Length == size && Contents() == []
    {
      buffer := new int[size];
      dataSize, writePos := 0, 0;
    }

    function Remain(): (r: int)
      reads this
    {
      buffer.Length - dataSize
    }

    function ReadPos(): (r: int)
      reads this, buffer
      requires Valid() && buffer.Length > 0
      ensures r == OldestAt(buffer[..], dataSize, writePos)
    {
      ReadPosIs(buffer.Length, dataSize, writePos);
      (writePos - dataSize + buffer.Length) % buffer.Length
    }

    /** `buffer`: bytes that can be read without copying: all of them, or those up to the end of the array. */
    method Peek() returns (bytes: seq<int>)
      requires Valid()
      ensures bytes <= Contents() && (Contents() != [] ==> bytes != [])
      ensures Contents() != [] ==> |bytes| == Min(|Contents()|, buffer.Length - ReadPos())
    {
      if dataSize == 0 {
        return [];
      }
      var r := ReadPos();
      FrontOk(buffer[..], dataSize, writePos);
      if r < writePos {
        bytes := buffer[r..writePos];
      } else {
        bytes := buffer[r..];
      }
      assert bytes == Front(buffer[..], dataSize, writePos);
    }

    /** `forward`: drops the oldest bytes; nothing or too much is refused. */
    method Forward(size: int) returns (rc: Rc)
      requires Valid()
      modifies `dataSize
      ensures Valid() && rc == if 0 < size <= |old(Contents())| then Success else InvalidArgument
      ensures Contents() == if rc == Success then old(Contents())[size..] else old(Contents())
    {
      if size <= 0 {
        return InvalidArgument;
      }
      if size > dataSize {
        return InvalidArgument;
      }
      DropOk(buffer[..], dataSize, writePos, size);
      dataSize := dataSize - size;
      rc := Success;
    }

    method CopyIn(pos: int, c: seq<int>)
      requires 0 <= pos && pos + |c| <= buffer.Length
      modifies buffer
      ensures buffer[..] == Splice(old(buffer[..]), pos, c)
    {
      var i := 0;
      while i < |c|
        invariant 0 <= i <= |c| && buffer[..] == Splice(old(buffer[..]), pos, c[..i])
      {
        ghost var was := buffer[..];
        buffer[pos + i] := c[i];
        assert buffer[..] == was[pos + i := c[i]];
        SpliceStep(old(buffer[..]), pos, c, i);
        i := i + 1;
      }
      assert c[..i] == c;
    }

    /** Copies bytes in behind the last one written; they must not run over the oldest byte or the end. */
    method Place(c: seq<int>)
      requires Valid() && dataSize < buffer.Length && |c| <= Gap(buffer[..], dataSize, writePos)
      modifies this, buffer
      ensures Valid() && Contents() == old(Contents()) + c
    {
      ghost var b, size, pos := buffer[..], dataSize, writePos;
      PutOk(b, size, pos, c);
      CopyIn(writePos, c);
      dataSize := dataSize + |c|;
      writePos := Advanced(writePos, |c|, buffer.Length);
      assert buffer[..] == Splice(b, pos, c);
    }

    /** One turn of the loop of `write`. */
    method Put(data: seq<int>) returns (n: int)
      requires Valid() && dataSize < buffer.Length && data != []
      modifies this, buffer
      ensures Valid() && 0 < n <= |data| && Contents() == old(Contents()) + data[..n]
    {
      var r := ReadPos();
      var room := if r <= writePos then buffer.Length - writePos else r - writePos;
      n := Min(|data|, room);
      Place(data[..n]);
    }

    /** `write`: takes as many bytes as there is room for. */
    method Write(data: seq<int>, size: int) returns (rc: Rc, n: int)
      requires Valid() && size <= |data|
      modifies this, buffer
      ensures Valid() && rc == if size < 0 then InvalidArgument else Success
      ensures n == if size < 0 then 0 else Min(size, buffer.Length - |old(Contents())|)
      ensures Contents() == old(Contents()) + data[..n]
    {
      n := 0;
      if size < 0 {
        return InvalidArgument, 0;
      }
      while n < size && Remain() > 0
        invariant Valid() && 0 <= n <= size && Contents() == old(Contents()) + data[..n]
        decreases size - n
      {
        var k := Put(data[n..size]);
        Pieces(old(Contents()), data, n, size, k);
        n := n + k;
      }
      rc := Success;
    }

    /** `read`: takes the oldest bytes out. */
    method Read(size: int) returns (rc: Rc, out: seq<int>)
      requires Valid()
      modifies `dataSize
      ensures Valid() && rc == if size < 0 then InvalidArgument else Success
      ensures |out| == if size < 0 then 0 else Min(size, |old(Contents())|)
      ensures old(Contents()) == out + Contents()
    {
      out := [];
      if size < 0 {
        return InvalidArgument, [];
      }
      while |out| < size && dataSize > 0
        invariant Valid() && |out| <= size && old(Contents()) == out + Contents()
        decreases size - |out|
      {
        var bytes := Peek();
        var k := Min(size - |out|, |bytes|);
        GiveOut(out, Contents(), bytes, k);
        out := out + bytes[..k];
        var _ := Forward(k);
      }
      rc := Success;
    }
  }

  // ---- the descriptor ----

  /** What the operating system does with one `write` call. */
  datatype Reply = Takes(n: nat) | TryAgain | Fails

  /** `after` is what is left of the script `before`. */
  ghost predicate Consumed(before: seq<Reply>, after: seq<Reply>) {
    |after| <= |before| && after == before[|before| - |after|..]
  }

  /** The replies given in between. */
  ghost function Given(before: seq<Reply>, after: seq<Reply>): seq<Reply>
    requires |after| <= |before|
  {
    before[..|before| - |after|]
  }

  /** Some reply given in between was a failure. */
  ghost predicate Failed(before: seq<Reply>, after: seq<Reply>)
    requires |after| <= |before|
  {
    Fails in Given(before, after)
  }

  lemma ConsumedOn(a: seq<Reply>, b: seq<Reply>, c: seq<Reply>)
    requires Consumed(a, b) && Consumed(b, c)
    ensures Consumed(a, c) && Given(a, c) == Given(a, b) + Given(b, c)
    ensures Failed(a, c) <==> Failed(a, b) || Failed(b, c)
  {
  }

  lemma NothingYet(before: seq<int>, data: seq<int>)
    ensures before + data[..0] == before
  {
  }

  /** A file descriptor whose replies are given by a script; after the script it takes everything. */
  class Descriptor {
    var script: seq<Reply>
    var emitted: seq<int>

    constructor (replies: seq<Reply>)
      ensures script == replies && emitted == []
    {
      script, emitted := replies, [];
    }

    /** `::write`: takes some prefix of the bytes, or reports an error with -1. */
    method SysWrite(bytes: seq<int>) returns (n: int, again: bool)
      modifies this
      ensures -1 <= n <= |bytes| && emitted == old(emitted) + bytes[..if n < 0 then 0 else n]
      ensures |script| <= |old(script)| && (n == 0 || (n < 0 && again) ==> |script| < |old(script)| || bytes == [])
      ensures Consumed(old(script), script) && (n < 0 && !again <==> Failed(old(script), script))
    {
      if script == [] {
        emitted := emitted + bytes;
        assert bytes[..|bytes|] == bytes;
        return |bytes|, false;
      }
      var reply := script[0];
      script := script[1..];
      match reply
      case Takes(k) =>
        n, again := Min(k, |bytes|), false;
        emitted := emitted + bytes[..n];
      case TryAgain => n, again := -1, true;
      case Fails => n, again := -1, false;
    }
  }

  // ---- the writer ----

  class BufferedWriter {
    var fd: int
    const ring: RingBuffer
    const out: Descriptor

    ghost predicate Valid()
      reads this, ring, ring.buffer
    {
      ring.Valid()
    }

    /** Everything accepted so far: what the descriptor took followed by what the ring holds. */
    ghost function Accepted(): seq<int>
      reads this, ring, ring.buffer, out
      requires Valid()
    {
      out.emitted + ring.Contents()
    }

    constructor (file: int, capacity: nat, device: Descriptor)
      requires device.emitted == []
      ensures Valid() && fresh(ring) && fresh(ring.buffer) && fd == file && out == device
      ensures ring.buffer.Length == capacity && ring.Contents() == []
    {
      fd, out := file, device;
      ring := new RingBuffer(capacity);
    }

    /** The retry loop around `::write`. */
    method Push(bytes: seq<int>) returns (n: int)
      requires bytes != []
      modifies out
      ensures n == -1 || 0 < n <= |bytes|
      ensures out.emitted == old(out.emitted) + bytes[..if n < 0 then 0 else n]
      ensures Consumed(old(out.script), out.script) && (n < 0 <==> Failed(old(out.script), out.script))
    {
      n := 0;
      while n == 0
        invariant 0 <= n <= |bytes| && out.emitted == old(out.emitted) + bytes[..n]
        invariant Consumed(old(out.script), out.script) && !Failed(old(out.script), out.script)
        decreases |out.script| + if n == 0 then 1 else 0
      {
        ghost var script := out.script;
        var again;
        n, again := out.SysWrite(bytes);
        ConsumedOn(old(out.script), script, out.script);
        if n < 0 {
          if again {
            n := 0;
          } else {
            return -1;
          }
        }
      }
    }

    /** One turn of the loop of `flush_internal`: the descriptor takes the oldest bytes, or fails. */
    method Emit() returns (n: int)
      requires Valid() && ring.Contents() != []
      modifies ring`dataSize, out
      ensures Valid() && Accepted() == old(Accepted()) && (n == -1 || n > 0)
      ensures |ring.Contents()| == |old(ring.Contents())| - if n < 0 then 0 else n
      ensures Consumed(old(out.script), out.script) && (n < 0 <==> Failed(old(out.script), out.script))
    {
      var bytes := ring.Peek();
      ghost var before := out.emitted;
      n := Push(bytes);
      GiveOut(before, ring.Contents(), bytes, if n < 0 then 0 else n);
      if n >= 0 {
        var _ := ring.Forward(n);
      }
    }

    /** A write error is reported if and only if the descriptor has failed, `script` being what it had to
        reply before. */
    ghost predicate Stopped(rc: Rc, script: seq<Reply>)
      reads out
    {
      Consumed(script, out.script) && (rc == IoErrWrite <==> Failed(script, out.script))
    }

    /** `flush_internal`: moves bytes from the ring to the descriptor, at least `size` of them or all.
        It fails only if the descriptor does. */
    method FlushInternal(size: int) returns (rc: Rc)
      requires Valid()
      modifies ring`dataSize, out
      ensures Valid() && Accepted() == old(Accepted()) && |ring.Contents()| <= |old(ring.Contents())|
      ensures rc == InvalidArgument <==> fd < 0
      ensures rc == Success ==> |old(ring.Contents())| - |ring.Contents()| >= Min(size, |old(ring.Contents())|)
      ensures size <= 0 && fd >= 0 ==> rc == Success
      ensures Stopped(rc, old(out.script))
    {
      if fd < 0 {
        return InvalidArgument;
      }
      var written := 0;
      while ring.dataSize > 0 && size > written
        invariant Valid() && Accepted() == old(Accepted()) && |ring.Contents()| + written == |old(ring.Contents())| && written >= 0
        invariant Consumed(old(out.script), out.script) && !Failed(old(out.script), out.script)
        decreases ring.dataSize
      {
        ghost var script := out.script;
        var n := Emit();
        ConsumedOn(old(out.script), script, out.script);
        if n < 0 {
          return IoErrWrite;
        }
        written := written + n;
      }
      rc := Success;
    }

    /** `size` more bytes fit in the ring. */
    ghost predicate Fits(size: int)
      reads this, ring, ring.buffer
      requires Valid()
    {
      0 < size <= ring.buffer.Length - |ring.Contents()|
    }

    /** The flush before a write into a full ring. */
    method MakeRoom(size: int) returns (rc: Rc)
      requires Valid() && fd >= 0
      modifies ring`dataSize, out
      ensures Valid() && Accepted() == old(Accepted()) && rc != InvalidArgument && (size <= 0 ==> rc == Success)
      ensures rc == Success && size > 0 && ring.buffer.Length > 0 ==> |ring.Contents()| < ring.buffer.Length
      ensures Stopped(rc, old(out.script))
      ensures |old(ring.Contents())| < ring.buffer.Length ==> rc == Success && unchanged(out) && unchanged(ring`dataSize)
    {
      rc := Success;
      if ring.Remain() == 0 {
        rc := FlushInternal(size);
      }
    }

    /** `write`: takes in as much as fits, flushing first if the ring is full. Unless the descriptor
        fails, some byte is taken whenever there is one and the ring has any capacity. */
    method Write(data: seq<int>, size: int) returns (rc: Rc, n: int)
      requires Valid() && size <= |data|
      modifies ring, ring.buffer, out
      ensures Valid() && 0 <= n <= |data| && Accepted() == old(Accepted()) + data[..n]
      ensures rc == InvalidArgument <==> fd < 0 || size < 0
      ensures rc != Success ==> n == 0
      ensures rc == Success && size > 0 ==> (n > 0 <==> ring.buffer.Length > 0)
      ensures Stopped(rc, old(out.script))
      ensures old(Fits(size)) && fd >= 0 ==> rc == Success && n == size && unchanged(out)
    {
      if fd < 0 {
        NothingYet(Accepted(), data);
        return InvalidArgument, 0;
      }
      rc, n := WriteOpen(data, size);
    }

    /** `write` on an open descriptor. */
    method WriteOpen(data: seq<int>, size: int) returns (rc: Rc, n: int)
      requires Valid() && size <= |data| && fd >= 0
      modifies ring, ring.buffer, out
      ensures Valid() && 0 <= n <= |data| && Accepted() == old(Accepted()) + data[..n]
      ensures rc == InvalidArgument <==> size < 0
      ensures rc != Success ==> n == 0
      ensures rc == Success && size > 0 ==> (n > 0 <==> ring.buffer.Length > 0)
      ensures Stopped(rc, old(out.script))
      ensures old(Fits(size)) ==> rc == Success && n == size && unchanged(out)
    {
      ghost var before, script, fits := Accepted(), out.script, Fits(size);
      NothingYet(before, data);
      n := 0;
      rc := MakeRoom(size);
      if rc == Success {
        rc, n := TakeIn(data, size, before, script, fits);
      }
    }

    /** The write into the ring, once there is room if there can be any. */
    method TakeIn(data: seq<int>, size: int, ghost before: seq<int>, ghost script: seq<Reply>, ghost fits: bool)
      returns (rc: Rc, n: int)
      requires Valid() && size <= |data| && Accepted() == before && Stopped(Success, script) && (fits ==> Fits(size))
      requires size > 0 && ring.buffer.Length > 0 ==> |ring.Contents()| < ring.buffer.Length
      modifies ring, ring.buffer
      ensures Valid() && 0 <= n <= |data| && Accepted() == before + data[..n]
      ensures rc == if size < 0 then InvalidArgument else Success
      ensures rc != Success ==> n == 0
      ensures rc == Success && size > 0 ==> (n > 0 <==> ring.buffer.Length > 0)
      ensures Stopped(rc, script) && (fits ==> rc == Success && n == size)
    {
      ghost var held := ring.Contents();
      rc, n := ring.Write(data, size);
      Assoc(out.emitted, held, data[..n]);
    }

    /** `writen`: everything is taken, or the descriptor failed after a prefix was taken. On an open
        file with a ring without capacity it repeats a `write` that takes nothing for ever. */
    method Writen(data: seq<int>) returns (rc: Rc, ghost n: nat)
      requires Valid() && (ring.buffer.Length == 0 && fd >= 0 ==> data == [])
      modifies ring, ring.buffer, out
      ensures Valid() && n <= |data| && Accepted() == old(Accepted()) + data[..n]
      ensures rc == InvalidArgument <==> fd < 0
      ensures rc == Success ==> n == |data|
      ensures Stopped(rc, old(out.script))
      ensures fd >= 0 && (data == [] || old(Fits(|data|))) ==> rc == Success && unchanged(out)
    {
      n := 0;
      if fd < 0 {
        return InvalidArgument, 0;
      }
      ghost var before, replies := Accepted(), out.script;
      var written := 0;
      while written < |data|
        invariant Valid() && 0 <= written <= |data| && Accepted() == before + data[..written]
        invariant Consumed(replies, out.script) && !Failed(replies, out.script)
        invariant data == [] || old(Fits(|data|)) ==> unchanged(out) && (written == |data| || (written == 0 && Fits(|data|)))
        decreases |data| - written
      {
        ghost var script := out.script;
        var k;
        rc, k := WriteOn(data, written, before);
        ConsumedOn(replies, script, out.script);
        if rc != Success {
          return rc, written;
        }
        written := written + k;
      }
      return Success, |data|;
    }

    /** One turn of the loop of `writen`. */
    method WriteOn(data: seq<int>, written: nat, ghost before: seq<int>) returns (rc: Rc, k: nat)
      requires Valid() && fd >= 0 && written < |data| && Accepted() == before + data[..written]
      modifies ring, ring.buffer, out
      ensures Valid() && written + k <= |data| && Accepted() == before + data[..written + k]
      ensures rc != InvalidArgument && (rc != Success ==> k == 0)
      ensures rc == Success ==> (k > 0 <==> ring.buffer.Length > 0)
      ensures Stopped(rc, old(out.script))
      ensures old(Fits(|data| - written)) ==> rc == Success && written + k == |data| && unchanged(out)
    {
      rc, k := Write(data[written..], |data| - written);
      assert data[written..] == data[written..|data|];
      Pieces(before, data, written, |data|, k);
    }

    /** `flush`: on success everything accepted has been emitted. */
    method Flush() returns (rc: Rc)
      requires Valid()
      modifies ring`dataSize, out
      ensures Valid() && Accepted() == old(Accepted())
      ensures rc == InvalidArgument <==> fd < 0
      ensures rc == Success ==> ring.Contents() == [] && out.emitted == old(Accepted())
      ensures Stopped(rc, old(out.script))
      ensures fd >= 0 && old(ring.Contents()) == [] ==> rc == Success && out.script == old(out.script)
    {
      if fd < 0 {
        return InvalidArgument;
      }
      rc := Success;
      ghost var replies, idle := out.script, ring.dataSize == 0;
      assert idle <==> ring.Contents() == [];
      while rc == Success && ring.dataSize > 0
        invariant Valid() && Accepted() == old(Accepted()) && rc != InvalidArgument && Stopped(rc, replies)
        invariant idle ==> ring.dataSize == 0 && rc == Success && out.script == replies
        decreases ring.dataSize, if rc == Success then 1 else 0
      {
        ghost var script := out.script;
        rc := FlushInternal(ring.dataSize);
        ConsumedOn(replies, script, out.script);
      }
    }

    /** `close`: the descriptor is given up only once everything has been emitted. */
    method Close() returns (rc: Rc)
      requires Valid()
      modifies this, ring`dataSize, out
      ensures Valid() && Accepted() == old(Accepted())
      ensures old(fd) >= 0 ==> (rc == Success <==> fd < 0)
      ensures old(fd) >= 0 && rc == Success ==> ring.Contents() == []
      ensures old(fd) < 0 ==> rc == Success && fd == old(fd)
      ensures rc != InvalidArgument && Stopped(rc, old(out.script))
    {
      if fd < 0 {
        return Success;
      }
      rc := Flush();
      if rc != Success {
        return;
      }
      fd := -1;
    }
  }

  // ---- any sequence of calls ----

  datatype Call = Writen(data: seq<int>) | Flush

  function Written(calls: seq<Call>): seq<int> {
    if calls == [] then []
    else Written(calls[..|calls| - 1]) + DataOf(calls[|calls| - 1])
  }

  function DataOf(call: Call): seq<int> {
    if call.Writen? then call.data else []
  }

  lemma WrittenStep(calls: seq<Call>, i: nat)
    requires i < |calls|
    ensures Written(calls[..i + 1]) == Written(calls[..i]) + DataOf(calls[i])
  {
    assert calls[..i + 1][..i] == calls[..i];
  }

  /** One call: all of its bytes are accepted, or it fails after some of them. */
  method Do(w: BufferedWriter, call: Call, ghost before: seq<int>) returns (rc: Rc, ghost part: nat)
    requires w.Valid() && w.fd >= 0 && w.ring.buffer.Length > 0 && w.Accepted() == before
    modifies w.ring, w.ring.buffer, w.out
    ensures w.Valid() && part <= |before + DataOf(call)| && w.Accepted() == (before + DataOf(call))[..part]
    ensures rc == Success ==> w.Accepted() == before + DataOf(call)
    ensures rc == Success && call.Flush? ==> w.ring.Contents() == []
    ensures (rc == Success || rc == IoErrWrite) && w.Stopped(rc, old(w.out.script))
    ensures rc != Success ==> if call.Flush? then before != [] else |before + DataOf(call)| > w.ring.buffer.Length
  {
    match call
    case Writen(data) =>
      ghost var n;
      rc, n := w.Writen(data);
      part := |before| + n;
      assert before + data[..n] == (before + data)[..part];
      assert data[..|data|] == data;
    case Flush =>
      rc := w.Flush();
      part := |before|;
      assert (before + [])[..part] == before;
  }

  /** The state of a session after `done` calls, none of which has failed. */
  ghost predicate Going(w: BufferedWriter, capacity: nat, replies: seq<Reply>, calls: seq<Call>, done: nat)
    requires done <= |calls|
    reads w, w.ring, w.ring.buffer, w.out
  {
    && w.Valid() && w.fd == 1 && w.ring.buffer.Length == capacity
    && w.Accepted() == Written(calls[..done]) && (done > 0 && calls[done - 1].Flush? ==> w.ring.Contents() == [])
    && Consumed(replies, w.out.script) && !Failed(replies, w.out.script)
  }

  /** The state of a session whose call after `done` others has failed. */
  ghost predicate Broken(w: BufferedWriter, capacity: nat, replies: seq<Reply>, calls: seq<Call>, done: nat, part: nat)
    requires done < |calls|
    reads w, w.ring, w.ring.buffer, w.out
  {
    && w.Valid() && part <= |Written(calls[..done + 1])| && w.Accepted() == Written(calls[..done + 1])[..part]
    && Consumed(replies, w.out.script) && Failed(replies, w.out.script)
    && if calls[done].Flush? then Written(calls[..done]) != [] else |Written(calls[..done + 1])| > capacity
  }

  /** The next call of a session. */
  method Next(w: BufferedWriter, ghost capacity: nat, ghost replies: seq<Reply>, calls: seq<Call>, done: nat)
    returns (rc: Rc, ghost part: nat)
    requires capacity > 0 && done < |calls| && Going(w, capacity, replies, calls, done)
    modifies w.ring, w.ring.buffer, w.out
    ensures if rc == Success then Going(w, capacity, replies, calls, done + 1) else Broken(w, capacity, replies, calls, done, part)
  {
    WrittenStep(calls, done);
    ghost var script := w.out.script;
    rc, part := Do(w, calls[done], Written(calls[..done]));
    ConsumedOn(replies, script, w.out.script);
  }

  /** Whatever the calls and whatever the descriptor does: as long as no call fails, the bytes emitted
      followed by the bytes held are the bytes written, and after a final flush they have all been
      emitted. If a call fails, what was accepted is still a prefix of what was written. A call fails if
      and only if the descriptor has failed; in particular none does if no reply is a failure, and only a call that has to
      emit something can fail. */
  method Session(capacity: nat, replies: seq<Reply>, calls: seq<Call>) returns (w: BufferedWriter, done: nat, ghost part: nat)
    requires capacity > 0
    ensures w.Valid() && done <= |calls|
    ensures done == |calls| ==> w.out.emitted + w.ring.Contents() == Written(calls)
    ensures done == |calls| > 0 && calls[|calls| - 1].Flush? ==> w.out.emitted == Written(calls)
    ensures done < |calls| ==>
      && part <= |Written(calls[..done + 1])|
      && w.out.emitted + w.ring.Contents() == Written(calls[..done + 1])[..part]
    ensures Consumed(replies, w.out.script) && (done < |calls| <==> Failed(replies, w.out.script))
    ensures Fails !in replies ==> done == |calls|
    ensures done < |calls| ==>
      if calls[done].Flush? then Written(calls[..done]) != [] else |Written(calls[..done + 1])| > capacity
  {
    var device := new Descriptor(replies);
    w := new BufferedWriter(1, capacity, device);
    done, part := 0, 0;
    while done < |calls|
      invariant fresh(w) && fresh(w.ring) && fresh(w.ring.buffer) && fresh(w.out)
      invariant done <= |calls| && Going(w, capacity, replies, calls, done)
      decreases |calls| - done
    {
      var rc;
      rc, part := Next(w, capacity, replies, calls, done);
      if rc != Success {
        return;
      }
      done := done + 1;
    }
    assert calls[..done] == calls;
  }
}

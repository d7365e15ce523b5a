/** The redo log: entries in memory, bytes in the file, and reading them back. */
module RedoLog {
  import opened ByteStrings

  datatype Rc = Success | LogBufFull | IoErrSync | IoErrRead | RecordEof | Crash

  const LOG_BUFFER_SIZE := 4 * 1024 * 1024
  const HEADER := 12         // bytes of a log entry header: three 32-bit integers
  const COMMIT_SIZE := 4
  const RECORD_HEADER := 24  // bytes of a record entry before its data, four alignment bytes included

  const MTR_BEGIN := 1
  const MTR_COMMIT := 2
  const MTR_ROLLBACK := 3

  // ---- entries ----

  /** `padding` stands for the alignment bytes of the record structure, which are written as they are. */
  datatype LogEntry =
    | Mtr(trxId: int, kind: int)
    | Commit(trxId: int, xid: int)
    | Record(trxId: int, kind: int, tableId: int, page: int, slot: int, dataLen: int, offset: int, padding: int, data: seq<int>)

  datatype LogHeader = LogHeader(trxId: int, kind: int, len: int)

  function HeaderOf(e: LogEntry): LogHeader {
    match e
    case Mtr(t, k) => LogHeader(t, k, 0)
    case Commit(t, _) => LogHeader(t, MTR_COMMIT, COMMIT_SIZE)
    case Record(t, k, _, _, _, n, _, _, _) => LogHeader(t, k, RECORD_HEADER + n)
  }

  /** What the `build_` constructors make. */
  ghost predicate WellFormed(e: LogEntry) {
    && IsInt32(e.trxId)
    && match e
      case Mtr(_, k) => k == MTR_BEGIN || k == MTR_ROLLBACK
      case Commit(_, x) => IsInt32(x)
      case Record(_, k, t, p, s, n, o, pad, d) =>
        && k != MTR_BEGIN && k != MTR_COMMIT && k != MTR_ROLLBACK && IsInt32(k)
        && IsInt32(t) && IsInt32(p) && IsInt32(s) && IsInt32(o) && IsInt32(pad)
        && n == |d| && IsInt32(RECORD_HEADER + n) && Bytes(d)
  }

  // ---- integers as bytes ----

  function Unsigned(v: int): int {
    if v < 0 then v + 2 * HALF else v
  }

  function IntBytes(v: int): seq<int> {
    var u := Unsigned(v);
    [u % 256, u / 256 % 256, u / 65536 % 256, u / 16777216 % 256]
  }

  function IntAt(bs: seq<int>, i: int): int
    requires 0 <= i && i + 4 <= |bs|
  {
    var u := bs[i] + 256 * bs[i + 1] + 65536 * bs[i + 2] + 16777216 * bs[i + 3];
    if u >= HALF then u - 2 * HALF else u
  }

  lemma FourBytes(u: int)
    requires 0 <= u < 2 * HALF
    ensures u % 256 + 256 * (u / 256 % 256) + 65536 * (u / 65536 % 256) + 16777216 * (u / 16777216 % 256) == u
  {
    assert u / 256 == 256 * (u / 65536) + u / 256 % 256;
    assert u / 65536 == 256 * (u / 16777216) + u / 65536 % 256;
  }

  lemma IntBack(v: int, before: seq<int>, after: seq<int>)
    requires IsInt32(v)
    ensures IntAt(before + IntBytes(v) + after, |before|) == v
  {
    FourBytes(Unsigned(v));
    var bs := before + IntBytes(v) + after;
    assert forall j :: 0 <= j < 4 ==> bs[|before| + j] == IntBytes(v)[j];
  }

  // ---- the bytes of an entry ----

  /** A structure of 32-bit integers. */
  function IntsBytes(vs: seq<int>): (bs: seq<int>)
    ensures |bs| == 4 * |vs|
  {
    if vs == [] then [] else IntBytes(vs[0]) + IntsBytes(vs[1..])
  }

  lemma {:induction false} IntsBack(vs: seq<int>, rest: seq<int>, i: nat)
    requires i < |vs| && forall j :: 0 <= j < |vs| ==> IsInt32(vs[j])
    ensures IntAt(IntsBytes(vs) + rest, 4 * i) == vs[i]
  {
    Assoc(IntBytes(vs[0]), IntsBytes(vs[1..]), rest);
    var tail := IntsBytes(vs[1..]) + rest;
    if i == 0 {
      FirstInt(vs[0], tail);
    } else {
      IntsBack(vs[1..], rest, i - 1);
      LaterInt(IntBytes(vs[0]), tail, 4 * (i - 1));
    }
  }

  lemma FirstInt(v: int, tail: seq<int>)
    requires IsInt32(v)
    ensures IntAt(IntBytes(v) + tail, 0) == v
  {
    IntBack(v, [], tail);
    assert [] + IntBytes(v) + tail == IntBytes(v) + tail;
  }

  lemma LaterInt(a: seq<int>, tail: seq<int>, i: nat)
    requires i + 4 <= |tail|
    ensures IntAt(a + tail, |a| + i) == IntAt(tail, i)
  {
  }

  function HeaderBytes(h: LogHeader): seq<int> {
    IntsBytes([h.trxId, h.kind, h.len])
  }

  function RecordBytes(e: LogEntry): seq<int>
    requires e.Record?
  {
    IntsBytes([e.tableId, e.page, e.slot, e.dataLen, e.offset, e.padding])
  }

  function BodyBytes(e: LogEntry): seq<int> {
    match e
    case Mtr(_, _) => []
    case Commit(_, x) => IntBytes(x)
    case Record(_, _, _, _, _, _, _, _, d) => RecordBytes(e) + d
  }

  function EntryBytes(e: LogEntry): seq<int> {
    HeaderBytes(HeaderOf(e)) + BodyBytes(e)
  }

  /** The 32-bit integer `v` is stored at offset `i`, low byte first. */
  ghost predicate Stores(bs: seq<int>, i: int, v: int) {
    && 0 <= i && i + 4 <= |bs| && (forall j :: i <= j < i + 4 ==> 0 <= bs[j] < 256)
    && bs[i] + 256 * bs[i + 1] + 65536 * bs[i + 2] + 16777216 * bs[i + 3] == if v < 0 then v + 0x1_0000_0000 else v
  }

  lemma StoresLater(a: seq<int>, bs: seq<int>, i: int, v: int)
    requires Stores(bs, i, v)
    ensures Stores(a + bs, |a| + i, v)
  {
    var c := a + bs;
    assert c[|a| + i] == bs[i] && c[|a| + i + 1] == bs[i + 1] && c[|a| + i + 2] == bs[i + 2] && c[|a| + i + 3] == bs[i + 3];
  }

  lemma IntStored(v: int, rest: seq<int>)
    requires IsInt32(v)
    ensures Stores(IntBytes(v) + rest, 0, v)
  {
    FourBytes(Unsigned(v));
    var bs := IntBytes(v) + rest;
    assert bs[0] == IntBytes(v)[0] && bs[1] == IntBytes(v)[1] && bs[2] == IntBytes(v)[2] && bs[3] == IntBytes(v)[3];
  }

  lemma {:induction false} IntsStored(vs: seq<int>, rest: seq<int>, i: nat)
    requires i < |vs| && forall j :: 0 <= j < |vs| ==> IsInt32(vs[j])
    ensures Stores(IntsBytes(vs) + rest, 4 * i, vs[i])
  {
    Assoc(IntBytes(vs[0]), IntsBytes(vs[1..]), rest);
    var tail := IntsBytes(vs[1..]) + rest;
    if i == 0 {
      IntStored(vs[0], tail);
    } else {
      IntsStored(vs[1..], rest, i - 1);
      StoresLater(IntBytes(vs[0]), tail, 4 * (i - 1), vs[i]);
    }
  }

  /** Where the parts of an entry are in its bytes: the transaction, the type and the length of the rest, then
      the number of a commit, or the table, the page, the slot, the data length, the offset, the alignment bytes
      and the data of a record. */
  lemma EntryLayout(e: LogEntry)
    requires WellFormed(e)
    ensures var bs := EntryBytes(e); |bs| >= 12 && Stores(bs, 0, e.trxId) && Stores(bs, 8, |bs| - 12)
    ensures e.Mtr? ==> |EntryBytes(e)| == 12 && Stores(EntryBytes(e), 4, e.kind)
    ensures e.Commit? ==> |EntryBytes(e)| == 16 && Stores(EntryBytes(e), 4, 2) && Stores(EntryBytes(e), 12, e.xid)
    ensures e.Record? ==>
      var bs := EntryBytes(e);
      && |bs| == 36 + |e.data| && Stores(bs, 4, e.kind) && Stores(bs, 12, e.tableId)
      && Stores(bs, 16, e.page) && Stores(bs, 20, e.slot) && Stores(bs, 24, |e.data|) && Stores(bs, 28, e.offset)
      && Stores(bs, 32, e.padding) && bs[36..] == e.data
  {
    HeaderLayout(e);
    if e.Commit? {
      CommitInEntry(e);
    } else if e.Record? {
      RecordInEntry(e);
    }
  }

  lemma HeaderLayout(e: LogEntry)
    requires WellFormed(e)
    ensures var bs := EntryBytes(e); var h := HeaderOf(e);
      |bs| == 12 + h.len && Stores(bs, 0, h.trxId) && Stores(bs, 4, h.kind) && Stores(bs, 8, h.len)
  {
    var h, body := HeaderOf(e), BodyBytes(e);
    var ints := [h.trxId, h.kind, h.len];
    IntsStored(ints, body, 0);
    IntsStored(ints, body, 1);
    IntsStored(ints, body, 2);
    BodyLength(e);
  }

  lemma CommitInEntry(e: LogEntry)
    requires WellFormed(e) && e.Commit?
    ensures Stores(EntryBytes(e), 12, e.xid)
  {
    IntStored(e.xid, []);
    assert IntBytes(e.xid) + [] == BodyBytes(e);
    StoresLater(HeaderBytes(HeaderOf(e)), BodyBytes(e), 0, e.xid);
  }

  lemma RecordInEntry(e: LogEntry)
    requires WellFormed(e) && e.Record?
    ensures var bs := EntryBytes(e);
      && Stores(bs, 12, e.tableId) && Stores(bs, 16, e.page) && Stores(bs, 20, e.slot) && Stores(bs, 24, |e.data|)
      && Stores(bs, 28, e.offset) && Stores(bs, 32, e.padding) && |bs| == 36 + |e.data| && bs[36..] == e.data
  {
    var head, body := HeaderBytes(HeaderOf(e)), BodyBytes(e);
    RecordLayout(e);
    StoresLater(head, body, 0, e.tableId);
    StoresLater(head, body, 4, e.page);
    StoresLater(head, body, 8, e.slot);
    StoresLater(head, body, 12, |e.data|);
    StoresLater(head, body, 16, e.offset);
    StoresLater(head, body, 20, e.padding);
    assert EntryBytes(e)[36..] == body[24..];
  }

  lemma RecordLayout(e: LogEntry)
    requires WellFormed(e) && e.Record?
    ensures var bs := BodyBytes(e);
      && Stores(bs, 0, e.tableId) && Stores(bs, 4, e.page) && Stores(bs, 8, e.slot) && Stores(bs, 12, |e.data|)
      && Stores(bs, 16, e.offset) && Stores(bs, 20, e.padding) && bs[24..] == e.data
  {
    var ints := [e.tableId, e.page, e.slot, e.dataLen, e.offset, e.padding];
    IntsStored(ints, e.data, 0);
    IntsStored(ints, e.data, 1);
    IntsStored(ints, e.data, 2);
    IntsStored(ints, e.data, 3);
    IntsStored(ints, e.data, 4);
    IntsStored(ints, e.data, 5);
  }

  ghost function Chunks(es: seq<LogEntry>): seq<seq<int>> {
    seq(|es|, i requires 0 <= i < |es| => EntryBytes(es[i]))
  }

  ghost function Flat(cs: seq<seq<int>>): seq<int> {
    if cs == [] then [] else cs[0] + Flat(cs[1..])
  }

  /** The bytes of a whole log. */
  ghost function LogBytes(es: seq<LogEntry>): seq<int> {
    Flat(Chunks(es))
  }

  lemma LogCons(es: seq<LogEntry>)
    requires es != []
    ensures LogBytes(es) == EntryBytes(es[0]) + LogBytes(es[1..])
  {
    assert Chunks(es)[1..] == Chunks(es[1..]);
  }

  lemma {:induction false} FlatConcat(a: seq<seq<int>>, b: seq<seq<int>>)
    ensures Flat(a + b) == Flat(a) + Flat(b)
  {
    if a == [] {
      assert a + b == b && [] + Flat(b) == Flat(b);
    } else {
      FlatConcat(a[1..], b);
      assert (a + b)[1..] == a[1..] + b;
      Assoc(a[0], Flat(a[1..]), Flat(b));
    }
  }

  lemma LogConcat(a: seq<LogEntry>, b: seq<LogEntry>)
    ensures LogBytes(a + b) == LogBytes(a) + LogBytes(b)
  {
    FlatConcat(Chunks(a), Chunks(b));
    ChunksConcat(a, b);
  }

  lemma ChunksConcat(a: seq<LogEntry>, b: seq<LogEntry>)
    ensures Chunks(a + b) == Chunks(a) + Chunks(b)
  {
    forall i | 0 <= i < |a| + |b|
      ensures Chunks(a + b)[i] == (Chunks(a) + Chunks(b))[i]
    {
      assert (a + b)[i] == if i < |a| then a[i] else b[i - |a|];
    }
  }

  lemma BodyLength(e: LogEntry)
    requires WellFormed(e)
    ensures |BodyBytes(e)| == HeaderOf(e).len && |HeaderBytes(HeaderOf(e))| == HEADER
  {
  }

  // ---- reading ----

  function ReadHeader(bs: seq<int>): LogHeader
    requires |bs| >= HEADER
  {
    LogHeader(IntAt(bs, 0), IntAt(bs, 4), IntAt(bs, 8))
  }

  /** `LogEntry::build`. A commit entry of the wrong length fails an assertion, and a record entry
      shorter than its own header is read beyond its end; both are crashes here. */
  function Build(h: LogHeader, body: seq<int>): (r: Result)
    requires h.len > 0 ==> |body| == h.len
  {
    if h.len <= 0 then Built(Mtr(h.trxId, h.kind))
    else if h.kind == MTR_COMMIT then if h.len == COMMIT_SIZE then Built(Commit(h.trxId, IntAt(body, 0))) else Broken
    else if h.len < RECORD_HEADER then Broken
    else Built(Record(h.trxId, h.kind, IntAt(body, 0), IntAt(body, 4), IntAt(body, 8), IntAt(body, 12),
                      IntAt(body, 16), IntAt(body, 20), body[RECORD_HEADER..]))
  }

  datatype Result = Built(e: LogEntry) | Broken

  datatype Outcome = Got(e: LogEntry, used: nat) | End(rc: Rc)

  /** One call of `next` on the bytes that are left. */
  function ReadOne(bs: seq<int>): (r: Outcome)
    ensures r.Got? ==> HEADER <= r.used <= |bs|
  {
    if |bs| < HEADER then End(RecordEof)
    else
      var h := ReadHeader(bs);
      var n := if h.len > 0 then h.len else 0;
      if |bs| < HEADER + n then End(IoErrRead)
      else
        match Build(h, bs[HEADER..HEADER + n])
        case Broken => End(Crash)
        case Built(e) => Got(e, HEADER + n)
  }

  function ReadAll(bs: seq<int>): (seq<LogEntry>, Rc) {
    match ReadOne(bs)
    case End(rc) => ([], rc)
    case Got(e, n) => var (es, rc) := ReadAll(bs[n..]); ([e] + es, rc)
  }

  lemma HeaderBack(h: LogHeader, rest: seq<int>)
    requires IsInt32(h.trxId) && IsInt32(h.kind) && IsInt32(h.len)
    ensures |HeaderBytes(h) + rest| >= HEADER && ReadHeader(HeaderBytes(h) + rest) == h
  {
    var vs := [h.trxId, h.kind, h.len];
    IntsBack(vs, rest, 0);
    IntsBack(vs, rest, 1);
    IntsBack(vs, rest, 2);
  }

  lemma RecordBack(e: LogEntry)
    requires WellFormed(e) && e.Record?
    ensures |BodyBytes(e)| == HeaderOf(e).len && Build(HeaderOf(e), BodyBytes(e)) == Built(e)
  {
    var vs := [e.tableId, e.page, e.slot, e.dataLen, e.offset, e.padding];
    IntsBack(vs, e.data, 0);
    IntsBack(vs, e.data, 1);
    IntsBack(vs, e.data, 2);
    IntsBack(vs, e.data, 3);
    IntsBack(vs, e.data, 4);
    IntsBack(vs, e.data, 5);
    assert BodyBytes(e)[RECORD_HEADER..] == e.data;
  }

  lemma BuildBack(e: LogEntry)
    requires WellFormed(e)
    ensures |BodyBytes(e)| == HeaderOf(e).len && Build(HeaderOf(e), BodyBytes(e)) == Built(e)
  {
    BodyLength(e);
    match e
    case Mtr(_, _) =>
    case Commit(_, x) =>
      IntBack(x, [], []);
      assert [] + IntBytes(x) + [] == IntBytes(x);
    case Record(_, _, _, _, _, _, _, _, _) => RecordBack(e);
  }

  lemma HeaderFits(e: LogEntry)
    requires WellFormed(e)
    ensures var h := HeaderOf(e); IsInt32(h.trxId) && IsInt32(h.kind) && IsInt32(h.len) && h.len >= 0
  {
  }

  /** Reading a written entry returns it, whatever follows. */
  lemma ReadOneBack(e: LogEntry, rest: seq<int>)
    requires WellFormed(e)
    ensures ReadOne(EntryBytes(e) + rest) == Got(e, |EntryBytes(e)|)
  {
    var h, body := HeaderOf(e), BodyBytes(e);
    HeaderFits(e);
    BodyLength(e);
    HeaderBack(h, body + rest);
    BuildBack(e);
    var bs := EntryBytes(e) + rest;
    assert bs == HeaderBytes(h) + (body + rest);
    assert bs[HEADER..HEADER + h.len] == body;
  }

  /** A cut entry is not returned: the reader reports the end of the file inside a header, and a read
      error inside a body. */
  lemma ReadOneCut(e: LogEntry, k: nat)
    requires WellFormed(e) && k < |EntryBytes(e)|
    ensures ReadOne(EntryBytes(e)[..k]) == End(if k < HEADER then RecordEof else IoErrRead)
  {
    var h := HeaderOf(e);
    HeaderFits(e);
    BodyLength(e);
    if k >= HEADER {
      var rest := BodyBytes(e)[..k - HEADER];
      HeaderBack(h, rest);
      assert EntryBytes(e)[..k] == HeaderBytes(h) + rest;
    }
  }

  ghost predicate AllWellFormed(es: seq<LogEntry>) {
    forall i :: 0 <= i < |es| ==> WellFormed(es[i])
  }

  /** How many pieces lie wholly within the first `k` bytes. */
  ghost function WholePieces(cs: seq<seq<int>>, k: nat): (r: nat)
    ensures r <= |cs|
  {
    if cs == [] || k < |cs[0]| then 0 else 1 + WholePieces(cs[1..], k - |cs[0]|)
  }

  ghost function Whole(es: seq<LogEntry>, k: nat): (r: nat)
    ensures r <= |es|
  {
    WholePieces(Chunks(es), k)
  }

  lemma {:induction false} WholePiecesMax(cs: seq<seq<int>>, k: nat)
    ensures |Flat(cs[..WholePieces(cs, k)])| <= k
    ensures WholePieces(cs, k) < |cs| ==> k < |Flat(cs[..WholePieces(cs, k) + 1])|
  {
    if cs != [] && k >= |cs[0]| {
      var m := WholePieces(cs[1..], k - |cs[0]|);
      WholePiecesMax(cs[1..], k - |cs[0]|);
      assert cs[..m + 1][1..] == cs[1..][..m];
      if m < |cs| - 1 {
        assert cs[..m + 2][1..] == cs[1..][..m + 1];
      }
    } else if cs != [] {
      assert cs[..1][1..] == [] && cs[..1][0] == cs[0];
    }
  }

  /** Of the first `k` bytes of a log, exactly the first `Whole` entries are complete. */
  lemma WholeMax(es: seq<LogEntry>, k: nat)
    ensures |LogBytes(es[..Whole(es, k)])| <= k
    ensures Whole(es, k) < |es| ==> k < |LogBytes(es[..Whole(es, k) + 1])|
  {
    var m := Whole(es, k);
    WholePiecesMax(Chunks(es), k);
    assert Chunks(es[..m]) == Chunks(es)[..m];
    assert m < |es| ==> Chunks(es[..m + 1]) == Chunks(es)[..m + 1];
  }

  function CutRc(left: int): Rc {
    if left < HEADER then RecordEof else IoErrRead
  }

  /** Reading entry after entry with any reader. */
  type Reader = seq<int> -> Outcome

  ghost function ReadAllBy(read: Reader, bs: seq<int>): (seq<LogEntry>, Rc)
    decreases |bs|
  {
    match read(bs)
    case End(rc) => ([], rc)
    case Got(e, n) => if 0 < n <= |bs| then var (es, rc) := ReadAllBy(read, bs[n..]); ([e] + es, rc) else ([], Crash)
  }

  lemma {:induction false} ReadAllIs(bs: seq<int>)
    ensures ReadAll(bs) == ReadAllBy(ReadOne, bs)
    decreases |bs|
  {
    var r := ReadOne(bs);
    if r.Got? {
      ReadAllIs(bs[r.used..]);
    }
  }

  /** `c` reads as `e`, whatever follows, and not at all when it is cut. */
  ghost predicate Decodes(read: Reader, c: seq<int>, e: LogEntry) {
    && c != [] && (forall rest :: read(c + rest) == Got(e, |c|))
    && (forall k :: 0 <= k < |c| ==> read(c[..k]) == End(CutRc(k)))
  }

  lemma EntryDecodes(e: LogEntry)
    requires WellFormed(e)
    ensures Decodes(ReadOne, EntryBytes(e), e)
  {
    BodyLength(e);
    forall rest
      ensures ReadOne(EntryBytes(e) + rest) == Got(e, |EntryBytes(e)|)
    {
      ReadOneBack(e, rest);
    }
    forall k | 0 <= k < |EntryBytes(e)|
      ensures ReadOne(EntryBytes(e)[..k]) == End(CutRc(k))
    {
      ReadOneCut(e, k);
    }
  }

  /** A log cut somewhere after its first piece. */
  lemma CutAfterFirst(read: Reader, c: seq<int>, e: LogEntry, rest: seq<int>, k: nat)
    requires Decodes(read, c, e) && |c| <= k <= |c| + |rest|
    ensures var left := ReadAllBy(read, rest[..k - |c|]);
      ReadAllBy(read, (c + rest)[..k]) == ([e] + left.0, left.1)
  {
    CutAfter(c, rest, k);
    assert read(c + rest[..k - |c|]) == Got(e, |c|);
  }

  /** A log cut within its first piece. */
  lemma CutInFirst(read: Reader, c: seq<int>, e: LogEntry, rest: seq<int>, k: nat)
    requires Decodes(read, c, e) && k < |c|
    ensures ReadAllBy(read, (c + rest)[..k]) == ([], CutRc(k))
  {
    assert (c + rest)[..k] == c[..k];
  }

  lemma CutAfter(a: seq<int>, b: seq<int>, k: nat)
    requires |a| <= k <= |a| + |b|
    ensures (a + b)[..k] == a + b[..k - |a|] && (a + b)[..k][|a|..] == b[..k - |a|]
  {
  }

  lemma {:induction false} PiecesTruncated(read: Reader, cs: seq<seq<int>>, es: seq<LogEntry>, k: nat)
    requires |cs| == |es| && (forall i :: 0 <= i < |es| ==> Decodes(read, cs[i], es[i])) && k <= |Flat(cs)|
    requires read([]) == End(RecordEof)
    ensures ReadAllBy(read, Flat(cs)[..k]) == (es[..WholePieces(cs, k)], CutRc(k - |Flat(cs[..WholePieces(cs, k)])|))
  {
    if cs != [] {
      if k < |cs[0]| {
        CutInFirst(read, cs[0], es[0], Flat(cs[1..]), k);
        assert es[..0] == [] && cs[..0] == [];
      } else {
        PiecesTruncated(read, cs[1..], es[1..], k - |cs[0]|);
        OnePieceMore(read, cs, es, k, WholePieces(cs[1..], k - |cs[0]|));
      }
    }
  }

  lemma OnePieceMore(read: Reader, cs: seq<seq<int>>, es: seq<LogEntry>, k: nat, m: nat)
    requires |cs| == |es| > 0 && m < |cs| && Decodes(read, cs[0], es[0]) && |cs[0]| <= k <= |Flat(cs)|
    requires ReadAllBy(read, Flat(cs[1..])[..k - |cs[0]|]) == (es[1..][..m], CutRc(k - |cs[0]| - |Flat(cs[1..][..m])|))
    ensures ReadAllBy(read, Flat(cs)[..k]) == (es[..m + 1], CutRc(k - |Flat(cs[..m + 1])|))
  {
    CutAfterFirst(read, cs[0], es[0], Flat(cs[1..]), k);
    assert es[..m + 1] == [es[0]] + es[1..][..m];
    assert cs[..m + 1][1..] == cs[1..][..m] && cs[..m + 1][0] == cs[0];
  }

  /** Truncated logs: however the file is cut, reading returns exactly the entries that are whole. */
  lemma ReadTruncated(es: seq<LogEntry>, k: nat)
    requires AllWellFormed(es) && k <= |LogBytes(es)|
    ensures ReadAll(LogBytes(es)[..k]) == (es[..Whole(es, k)], CutRc(k - |LogBytes(es[..Whole(es, k)])|))
  {
    ReadAllIs(LogBytes(es)[..k]);
    var cs := Pieces(es, k);
    NothingToRead();
    ReadPieces(ReadOne, cs, es, k, LogBytes(es), Whole(es, k), LogBytes(es[..Whole(es, k)]));
  }

  lemma ReadPieces(read: Reader, cs: seq<seq<int>>, es: seq<LogEntry>, k: nat, bs: seq<int>, m: nat, whole: seq<int>)
    requires |cs| == |es| && (forall i :: 0 <= i < |es| ==> Decodes(read, cs[i], es[i])) && k <= |bs|
    requires read([]) == End(RecordEof) && bs == Flat(cs) && m == WholePieces(cs, k) && whole == Flat(cs[..m])
    ensures ReadAllBy(read, bs[..k]) == (es[..m], CutRc(k - |whole|))
  {
    PiecesTruncated(read, cs, es, k);
  }

  /** The log as pieces that read as its entries. */
  lemma Pieces(es: seq<LogEntry>, k: nat) returns (cs: seq<seq<int>>)
    requires AllWellFormed(es)
    ensures |cs| == |es| && Flat(cs) == LogBytes(es) && WholePieces(cs, k) == Whole(es, k)
    ensures Flat(cs[..Whole(es, k)]) == LogBytes(es[..Whole(es, k)])
    ensures forall i :: 0 <= i < |es| ==> Decodes(ReadOne, cs[i], es[i])
  {
    cs := Chunks(es);
    AllDecode(es);
    LogPrefix(es, Whole(es, k));
  }

  lemma NothingToRead()
    ensures ReadOne([]) == End(RecordEof)
  {
  }

  lemma AllDecode(es: seq<LogEntry>)
    requires AllWellFormed(es)
    ensures forall i :: 0 <= i < |es| ==> Decodes(ReadOne, Chunks(es)[i], es[i])
  {
    forall i | 0 <= i < |es|
      ensures Decodes(ReadOne, Chunks(es)[i], es[i])
    {
      EntryDecodes(es[i]);
    }
  }

  lemma LogPrefix(es: seq<LogEntry>, m: nat)
    requires m <= |es|
    ensures LogBytes(es[..m]) == Flat(Chunks(es)[..m])
  {
    assert Chunks(es[..m]) == Chunks(es)[..m];
  }

  /** Reading back what was written returns the same entries and then the end of the file. */
  lemma ReadBack(es: seq<LogEntry>)
    requires AllWellFormed(es)
    ensures ReadAll(LogBytes(es)) == (es, RecordEof)
  {
    var k := |LogBytes(es)|;
    ReadTruncated(es, k);
    assert LogBytes(es)[..k] == LogBytes(es);
    WholeAll(Chunks(es));
    assert es[..|es|] == es;
  }

  lemma {:induction false} WholeAll(cs: seq<seq<int>>)
    ensures WholePieces(cs, |Flat(cs)|) == |cs|
  {
    if cs != [] {
      WholeAll(cs[1..]);
    }
  }

  // ---- the file ----

  class LogFile {
    var bytes: seq<int>
    var pos: nat
    var eof: bool

    ghost predicate Valid()
      reads this
    {
      pos <= |bytes|
    }

    constructor (contents: seq<int>)
      ensures Valid() && bytes == contents && pos == 0 && !eof
    {
      bytes, pos, eof := contents, 0, false;
    }

    /** The file is opened for appending. */
    method Write(data: seq<int>)
      modifies this
      ensures Valid() && bytes == old(bytes) + data
    {
      bytes := bytes + data;
      pos := |bytes|;
    }

    /** All of `len` bytes, or the end of the file is reached. */
    method Read(len: nat) returns (rc: Rc, data: seq<int>)
      requires Valid()
      modifies `pos, `eof
      ensures Valid() && rc == if old(pos) + len <= |bytes| then Success else IoErrRead
      ensures rc == Success ==> data == bytes[old(pos)..old(pos) + len] && pos == old(pos) + len && eof == old(eof)
      ensures rc != Success ==> pos == |bytes| && eof
    {
      if pos + len <= |bytes| {
        data := bytes[pos..pos + len];
        pos := pos + len;
        return Success, data;
      }
      pos, eof := |bytes|, true;
      return IoErrRead, [];
    }
  }

  /** `LogEntryIterator`. */
  class LogEntryIterator {
    const file: LogFile
    var current: seq<LogEntry>  // at most one entry

    constructor (f: LogFile)
      ensures file == f && current == []
    {
      file, current := f, [];
    }

    /** The body of an entry, if it has one; `left` are the bytes from its header on. */
    method ReadBody(len: int, ghost left: seq<int>) returns (rc: Rc, body: seq<int>)
      requires file.Valid() && file.pos >= HEADER && left == file.bytes[file.pos - HEADER..]
      modifies file`pos, file`eof
      ensures file.Valid() && rc == if len <= 0 || HEADER + len <= |left| then Success else IoErrRead
      ensures rc == Success ==>
        body == (if len > 0 then left[HEADER..HEADER + len] else []) && file.pos == old(file.pos) + if len > 0 then len else 0
      ensures rc != Success ==> file.pos == |file.bytes|
    {
      if len <= 0 {
        return Success, [];
      }
      ghost var at := file.pos - HEADER;
      rc, body := file.Read(len);
      if rc == Success {
        Slice(file.bytes, at, HEADER, HEADER + len);
      }
    }

    /** `next`: what one reading of the bytes that are left gives. */
    method Next(ghost r: Outcome) returns (rc: Rc)
      requires file.Valid() && r == ReadOne(file.bytes[file.pos..])
      modifies this, file`pos, file`eof
      ensures file.Valid()
      ensures r.Got? ==> rc == Success && current == [r.e] && file.pos == old(file.pos) + r.used
      ensures r.End? ==> rc == r.rc && (rc != Crash ==> file.pos == |file.bytes|)
    {
      ghost var left := file.bytes[file.pos..];
      var data;
      rc, data := file.Read(HEADER);
      if rc != Success {
        return RecordEof;
      }
      Slice(file.bytes, old(file.pos), 0, HEADER);
      SameHeader(left, data);
      var h := ReadHeader(data);
      var body;
      rc, body := ReadBody(h.len, left);
      if rc != Success {
        return;
      }
      var built := Build(h, body);
      if built.Broken? {
        return Crash;
      }
      current := [built.e];
      rc := Success;
    }
  }

  lemma Slice(bs: seq<int>, at: nat, i: nat, j: nat)
    requires i <= j && at + j <= |bs|
    ensures bs[at..][i..j] == bs[at + i..at + j]
  {
  }

  lemma SameHeader(bs: seq<int>, data: seq<int>)
    requires |bs| >= HEADER && data == bs[..HEADER]
    ensures ReadHeader(data) == ReadHeader(bs)
  {
  }

  /** Iterating over a whole file. */
  method ReadFile(contents: seq<int>) returns (es: seq<LogEntry>, rc: Rc)
    ensures (es, rc) == ReadAll(contents)
  {
    var file := new LogFile(contents);
    var it := new LogEntryIterator(file);
    es, rc := [], Success;
    AheadAtStart(ReadOne, contents);
    ReadAllIs(contents);
    while rc == Success
      invariant file.Valid() && file.bytes == contents && it.file == file && fresh(file) && fresh(it)
      invariant if rc == Success then Ahead(ReadOne, contents, file.pos, es) else (es, rc) == ReadAllBy(ReadOne, contents)
      decreases if rc == Success then 1 + |contents| - file.pos else 0
    {
      rc, es := ReadNext(it, es);
    }
  }

  /** One more entry, or the end. */
  method ReadNext(it: LogEntryIterator, es: seq<LogEntry>) returns (rc: Rc, more: seq<LogEntry>)
    requires it.file.Valid() && Ahead(ReadOne, it.file.bytes, it.file.pos, es)
    modifies it, it.file`pos, it.file`eof
    ensures it.file.Valid()
    ensures rc == Success ==> Ahead(ReadOne, it.file.bytes, it.file.pos, more) && it.file.pos > old(it.file.pos)
    ensures rc != Success ==> (more, rc) == ReadAllBy(ReadOne, it.file.bytes)
  {
    ghost var bytes, pos := it.file.bytes, it.file.pos;
    ghost var r := ReadOne(bytes[pos..]);
    Forward(bytes[pos..], r);
    rc := it.Next(r);
    more := if rc == Success then es + it.current else es;
    Advance(ReadOne, bytes, pos, es, r, it.file.pos, more);
  }

  lemma Forward(bs: seq<int>, r: Outcome)
    requires r == ReadOne(bs)
    ensures r.Got? ==> 0 < r.used <= |bs|
    ensures r.End? ==> r.rc != Success
  {
  }

  /** Having read `es`, what is left at `at` is the rest of the log. */
  ghost predicate Ahead(read: Reader, bs: seq<int>, at: nat, es: seq<LogEntry>)
    requires at <= |bs|
  {
    ReadAllBy(read, bs) == (es + ReadAllBy(read, bs[at..]).0, ReadAllBy(read, bs[at..]).1)
  }

  lemma AheadAtStart(read: Reader, bs: seq<int>)
    ensures Ahead(read, bs, 0, [])
  {
    assert bs[0..] == bs && [] + ReadAllBy(read, bs).0 == ReadAllBy(read, bs).0;
  }

  lemma Associate(es: seq<LogEntry>, e: LogEntry, rest: seq<LogEntry>)
    ensures es + ([e] + rest) == es + [e] + rest
  {
  }

  lemma Advance(read: Reader, bs: seq<int>, at: nat, es: seq<LogEntry>, r: Outcome, to: nat, more: seq<LogEntry>)
    requires at <= |bs| && Ahead(read, bs, at, es) && r == read(bs[at..]) && (r.Got? ==> 0 < r.used <= |bs| - at)
    requires r.Got? ==> to == at + r.used && more == es + [r.e]
    ensures r.Got? ==> Ahead(read, bs, to, more)
    ensures r.End? ==> ReadAllBy(read, bs) == (es, r.rc)
  {
    if r.Got? {
      assert bs[at..][r.used..] == bs[at + r.used..];
      Associate(es, r.e, ReadAllBy(read, bs[at + r.used..]).0);
    } else {
      assert es + [] == es;
    }
  }

  // ---- the buffer and the manager ----

  ghost function SizeOf(es: seq<LogEntry>): int {
    if es == [] then 0 else HeaderOf(es[0]).len + SizeOf(es[1..])
  }

  lemma {:induction false} SizePlus(es: seq<LogEntry>, e: LogEntry)
    ensures SizeOf(es + [e]) == SizeOf(es) + HeaderOf(e).len
  {
    if es == [] {
      assert [e][1..] == [];
    } else {
      SizePlus(es[1..], e);
      assert (es + [e])[1..] == es[1..] + [e];
    }
  }

  class LogBuffer {
    var entries: seq<LogEntry>
    var totalSize: int

    ghost predicate Valid()
      reads this
    {
      AllWellFormed(entries) && totalSize == SizeOf(entries)
    }

    constructor ()
      ensures Valid() && entries == []
    {
      entries, totalSize := [], 0;
    }

    method Append(e: LogEntry) returns (rc: Rc)
      requires Valid() && WellFormed(e)
      modifies this
      ensures Valid() && rc == if old(totalSize) + HeaderOf(e).len >= LOG_BUFFER_SIZE then LogBufFull else Success
      ensures entries == if rc == Success then old(entries) + [e] else old(entries)
    {
      if totalSize + HeaderOf(e).len >= LOG_BUFFER_SIZE {
        return LogBufFull;
      }
      SizePlus(entries, e);
      entries := entries + [e];
      totalSize := totalSize + HeaderOf(e).len;
      rc := Success;
    }

    /** The part of `write_log_entry` that depends on the type. */
    method WriteBody(file: LogFile, e: LogEntry)
      requires WellFormed(e)
      modifies file
      ensures file.Valid() && file.bytes == old(file.bytes) + BodyBytes(e)
    {
      var kind := HeaderOf(e).kind;
      if kind == MTR_BEGIN || kind == MTR_ROLLBACK {
        file.Write([]);
      } else if kind == MTR_COMMIT {
        file.Write(IntBytes(e.xid));
      } else {
        Assoc(file.bytes, RecordBytes(e), e.data);
        file.Write(RecordBytes(e));
        file.Write(e.data);
      }
    }

    /** `write_log_entry`. */
    method WriteEntry(file: LogFile, e: LogEntry)
      requires WellFormed(e)
      modifies file
      ensures file.Valid() && file.bytes == old(file.bytes) + EntryBytes(e)
    {
      Assoc(file.bytes, HeaderBytes(HeaderOf(e)), BodyBytes(e));
      file.Write(HeaderBytes(HeaderOf(e)));
      WriteBody(file, e);
    }

    /** `flush_buffer`: the queued entries go to the file in order. */
    method Flush(file: LogFile, syncs: bool) returns (rc: Rc)
      requires Valid()
      modifies this, file
      ensures Valid() && entries == [] && file.bytes == old(file.bytes) + LogBytes(old(entries))
      ensures rc == if syncs then Success else IoErrSync
    {
      while entries != []
        invariant Valid() && file.bytes + LogBytes(entries) == old(file.bytes) + LogBytes(old(entries))
        decreases |entries|
      {
        LogCons(entries);
        var e := entries[0];
        entries := entries[1..];
        Assoc(file.bytes, EntryBytes(e), LogBytes(entries));
        WriteEntry(file, e);
        totalSize := totalSize - HeaderOf(e).len;
      }
      assert file.bytes + [] == file.bytes;
      rc := if syncs then Success else IoErrSync;
    }
  }

  class LogManager {
    const buffer: LogBuffer
    const file: LogFile
    ghost var written: seq<LogEntry>  // entries in the file

    ghost predicate Valid()
      reads this, buffer, file
    {
      buffer.Valid() && AllWellFormed(written) && file.bytes == LogBytes(written)
    }

    /** Every entry accepted so far: those in the file, then those queued. */
    ghost function Accepted(): seq<LogEntry>
      reads this, buffer
    {
      written + buffer.entries
    }

    constructor ()
      ensures Valid() && Accepted() == [] && fresh(buffer) && fresh(file)
    {
      buffer := new LogBuffer();
      file := new LogFile([]);
      written := [];
    }

    method AppendLog(e: LogEntry) returns (rc: Rc)
      requires Valid() && WellFormed(e)
      modifies buffer
      ensures Valid() && rc == if old(buffer.totalSize) + HeaderOf(e).len >= LOG_BUFFER_SIZE then LogBufFull else Success
      ensures Accepted() == if rc == Success then old(Accepted()) + [e] else old(Accepted())
    {
      rc := buffer.Append(e);
    }

    method Sync(syncs: bool) returns (rc: Rc)
      requires Valid()
      modifies this, buffer, file
      ensures Valid() && buffer.entries == [] && written == old(Accepted())
      ensures rc == if syncs then Success else IoErrSync
    {
      LogConcat(written, buffer.entries);
      written := written + buffer.entries;
      rc := buffer.Flush(file, syncs);
    }

    /** `append_commit_trx_log`: unless the buffer is full, every entry accepted so far and the commit
        entry are in the file, in order, and reading the file returns them. */
    method AppendCommit(trxId: int, xid: int, syncs: bool) returns (rc: Rc)
      requires Valid() && IsInt32(trxId) && IsInt32(xid)
      modifies this, buffer, file
      ensures Valid()
      ensures rc == if old(buffer.totalSize) + COMMIT_SIZE >= LOG_BUFFER_SIZE then LogBufFull
                    else if syncs then Success else IoErrSync
      ensures rc == LogBufFull ==> Accepted() == old(Accepted()) && file.bytes == old(file.bytes)
      ensures rc != LogBufFull ==>
        && buffer.entries == [] && written == old(Accepted()) + [Commit(trxId, xid)]
        && ReadAll(file.bytes) == (old(Accepted()) + [Commit(trxId, xid)], RecordEof)
    {
      rc := AppendLog(Commit(trxId, xid));
      if rc != Success {
        return;
      }
      rc := Sync(syncs);
      ReadBack(written);
    }
  }
}

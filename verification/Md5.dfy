/** MD5 as a stream: context, buffering, padding and length. The compression of one block is a parameter. */
module Md5 {
  import opened ByteStrings

  const WORD := 0x1_0000_0000  // 2^32

  type Compress = (seq<int>, seq<int>) -> seq<int>

  const INITIAL_STATE := [0x67452301, 0xefcdab89, 0x98badcfe, 0x10325476]

  // ---- words and bytes ----

  /** The four bytes of a word, low byte first. */
  function WordBytes(w: int): seq<int> {
    [w % 256, w / 256 % 256, w / 65536 % 256, w / 16777216 % 256]
  }

  function EncodeOf(ws: seq<int>): seq<int> {
    if ws == [] then [] else EncodeOf(ws[..|ws| - 1]) + WordBytes(ws[|ws| - 1])
  }

  function WordAt(bs: seq<int>, j: int): int
    requires 0 <= j && j + 4 <= |bs|
  {
    bs[j] + 256 * bs[j + 1] + 65536 * bs[j + 2] + 16777216 * bs[j + 3]
  }

  lemma {:induction false} EncodeLength(ws: seq<int>)
    ensures |EncodeOf(ws)| == 4 * |ws|
  {
    if ws != [] {
      EncodeLength(ws[..|ws| - 1]);
    }
  }

  /** `Encode`. */
  method Encode(ws: seq<int>) returns (output: seq<int>)
    ensures output == EncodeOf(ws)
  {
    output := [];
    var i := 0;
    while i < |ws|
      invariant 0 <= i <= |ws| && output == EncodeOf(ws[..i])
    {
      assert ws[..i + 1][..i] == ws[..i];
      output := output + WordBytes(ws[i]);
      i := i + 1;
    }
    assert ws[..i] == ws;
  }

  ghost predicate Words(ws: seq<int>) {
    forall i :: 0 <= i < |ws| ==> 0 <= ws[i] < WORD
  }

  /** `Decode`: whole words, low byte first; it undoes `Encode`. */
  method Decode(input: seq<int>) returns (output: seq<int>)
    requires |input| % 4 == 0 && Bytes(input)
    ensures |output| == |input| / 4 && Words(output) && EncodeOf(output) == input
  {
    output := [];
    var j := 0;
    while j < |input|
      invariant 0 <= j <= |input| && j % 4 == 0 && |output| == j / 4 && Words(output) && EncodeOf(output) == input[..j]
    {
      var w := WordAt(input, j);
      BytesOfWord(input[j], input[j + 1], input[j + 2], input[j + 3]);
      assert (output + [w])[..|output|] == output;
      assert input[..j + 4] == input[..j] + WordBytes(w);
      output := output + [w];
      j := j + 4;
    }
    assert input[..j] == input;
  }

  lemma BytesOfWord(a: int, b: int, c: int, d: int)
    requires 0 <= a < 256 && 0 <= b < 256 && 0 <= c < 256 && 0 <= d < 256
    ensures var w := a + 256 * b + 65536 * c + 16777216 * d; 0 <= w < WORD && WordBytes(w) == [a, b, c, d]
  {
    var w := a + 256 * b + 65536 * c + 16777216 * d;
    assert w / 256 == b + 256 * c + 65536 * d;
    assert w / 65536 == c + 256 * d;
    assert w / 16777216 == d;
  }

  /** Different words have different bytes, so what `Decode` returns for an encoding is the encoded words. */
  lemma {:induction false} EncodeInjective(us: seq<int>, ws: seq<int>)
    requires Words(us) && Words(ws) && EncodeOf(us) == EncodeOf(ws)
    ensures us == ws
  {
    EncodeLength(us);
    EncodeLength(ws);
    if us != [] {
      var n := |us| - 1;
      EncodeLength(us[..n]);
      EncodeLength(ws[..n]);
      assert EncodeOf(us)[..4 * n] == EncodeOf(us[..n]) && EncodeOf(ws)[..4 * n] == EncodeOf(ws[..n]);
      EncodeInjective(us[..n], ws[..n]);
      assert EncodeOf(us)[4 * n..] == WordBytes(us[n]) && EncodeOf(ws)[4 * n..] == WordBytes(ws[n]);
      WordFromBytes(us[n]);
      WordFromBytes(ws[n]);
      assert us == us[..n] + [us[n]] && ws == ws[..n] + [ws[n]];
    }
  }

  lemma WordFromBytes(w: int)
    requires 0 <= w < WORD
    ensures WordAt(WordBytes(w), 0) == w
  {
    assert w == 256 * (w / 256) + w % 256;
    assert w / 256 == 256 * (w / 65536) + w / 256 % 256;
    assert w / 65536 == 256 * (w / 16777216) + w / 65536 % 256;
  }

  // ---- the digest of RFC 1321 ----

  /** The chaining value after the first `n` blocks of a message. */
  function Chain(f: Compress, msg: seq<int>, n: nat): seq<int>
    requires 64 * n <= |msg|
  {
    if n == 0 then INITIAL_STATE else f(Chain(f, msg, n - 1), msg[64 * (n - 1)..64 * n])
  }

  /** The number of padding bytes, sections 3.1: to 56 modulo 64, at least one. */
  function PadLength(n: nat): nat {
    if n % 64 < 56 then 56 - n % 64 else 120 - n % 64
  }

  /** A length in bits modulo 2^64 as two words, low word first. */
  function LengthWords(n: nat): seq<int> {
    [8 * n % WORD, 8 * n / WORD % WORD]
  }

  /** The padded message: a one bit, zero bits, and the length. */
  function Padded(msg: seq<int>): seq<int> {
    msg + [128] + Zeros(PadLength(|msg|) - 1) + EncodeOf(LengthWords(|msg|))
  }

  lemma PaddedBlocks(msg: seq<int>)
    ensures |Padded(msg)| % 64 == 0
  {
    EncodeLength(LengthWords(|msg|));
    assert |Padded(msg)| == |msg| + PadLength(|msg|) + 8;
    PadTo64(|msg|);
  }

  lemma PaddedInTwo(msg: seq<int>, all: seq<int>)
    requires all == msg + ([128] + Zeros(PadLength(|msg|) - 1)) + EncodeOf(LengthWords(|msg|))
    ensures all == Padded(msg)
  {
  }

  lemma PadTo64(n: nat)
    ensures (n + PadLength(n) + 8) % 64 == 0
  {
    var q, r := n / 64, n % 64;
    assert n + PadLength(n) + 8 == 64 * (q + if r < 56 then 1 else 2);
  }

  function DigestOf(f: Compress, msg: seq<int>): seq<int> {
    PaddedBlocks(msg);
    EncodeOf(Chain(f, Padded(msg), |Padded(msg)| / 64))
  }

  // ---- what the padding is ----

  /** A byte string read as a number, low byte first. */
  function Little(bs: seq<int>): int {
    if bs == [] then 0 else bs[0] + 256 * Little(bs[1..])
  }

  /** `p` is the message, a byte with only the top bit set, zero bytes and the length in bits modulo 2^64, and
      as short as whole blocks allow. */
  ghost predicate PadsTo(msg: seq<int>, p: seq<int>) {
    && |p| % 64 == 0 && |msg| + 9 <= |p| < |msg| + 9 + 64
    && p[..|msg|] == msg && p[|msg|] == 128 && (forall i :: |msg| < i < |p| - 8 ==> p[i] == 0)
    && Bytes(p[|p| - 8..]) && Little(p[|p| - 8..]) == 8 * |msg| % 0x1_0000_0000_0000_0000
  }

  lemma LittleWord(w: int, rest: seq<int>)
    requires 0 <= w < WORD
    ensures Little(WordBytes(w) + rest) == w + WORD * Little(rest)
  {
    var bs := WordBytes(w) + rest;
    assert bs[1..][1..][1..][1..] == rest && bs[1..] == [bs[1], bs[2], bs[3]] + rest
      && bs[1..][1..] == [bs[2], bs[3]] + rest && bs[1..][1..][1..] == [bs[3]] + rest;
    LittleFour(bs, rest);
    WordFromBytes(w);
  }

  lemma LittleFour(bs: seq<int>, rest: seq<int>)
    requires |bs| >= 4 && bs[1..][1..][1..][1..] == rest
    ensures Little(bs) == bs[0] + 256 * bs[1] + 65536 * bs[2] + 16777216 * bs[3] + WORD * Little(rest)
  {
    assert Little(bs) == bs[0] + 256 * Little(bs[1..]);
    assert Little(bs[1..]) == bs[1] + 256 * Little(bs[1..][1..]);
    assert Little(bs[1..][1..]) == bs[2] + 256 * Little(bs[1..][1..][1..]);
    assert Little(bs[1..][1..][1..]) == bs[3] + 256 * Little(rest);
  }

  lemma {:induction false} LittleInjective(a: seq<int>, b: seq<int>)
    requires |a| == |b| && Bytes(a) && Bytes(b) && Little(a) == Little(b)
    ensures a == b
  {
    if a != [] {
      assert Bytes(a[1..]) && Bytes(b[1..]);
      assert a[0] - b[0] == 256 * (Little(b[1..]) - Little(a[1..]));
      LittleInjective(a[1..], b[1..]);
      assert a == [a[0]] + a[1..] && b == [b[0]] + b[1..];
    }
  }

  /** The last eight bytes are the length in bits. */
  lemma LengthBytes(n: nat)
    ensures var bs := EncodeOf(LengthWords(n)); |bs| == 8 && Bytes(bs) && Little(bs) == 8 * n % 0x1_0000_0000_0000_0000
  {
    var lo, hi := 8 * n % WORD, 8 * n / WORD % WORD;
    assert LengthWords(n)[..1] == [lo] && [lo][..0] == [];
    assert EncodeOf([]) == [] && EncodeOf([lo]) == [] + WordBytes(lo) && [] + WordBytes(lo) == WordBytes(lo);
    assert EncodeOf(LengthWords(n)) == WordBytes(lo) + WordBytes(hi);
    assert WordBytes(hi) + [] == WordBytes(hi);
    LittleWord(lo, WordBytes(hi));
    LittleWord(hi, []);
    LowWords(8 * n);
  }

  lemma LowWords(x: nat)
    ensures x % WORD + WORD * (x / WORD % WORD) == x % 0x1_0000_0000_0000_0000
  {
    var q := x / WORD;
    assert x == WORD * q + x % WORD && q == WORD * (q / WORD) + q % WORD;
    assert x == 0x1_0000_0000_0000_0000 * (q / WORD) + (WORD * (q % WORD) + x % WORD);
  }

  /** The padding of the source is the padding of RFC 1321. */
  lemma PaddedIs(msg: seq<int>)
    ensures PadsTo(msg, Padded(msg))
  {
    PaddedBlocks(msg);
    LengthBytes(|msg|);
    var p := Padded(msg);
    assert p[|p| - 8..] == EncodeOf(LengthWords(|msg|));
    assert p[..|msg|] == msg;
  }

  /** There is only one such padding. */
  lemma PaddingUnique(msg: seq<int>, p: seq<int>, q: seq<int>)
    requires PadsTo(msg, p) && PadsTo(msg, q)
    ensures p == q
  {
    assert |p| == |q| by {
      assert |p| == 64 * (|p| / 64) && |q| == 64 * (|q| / 64);
    }
    LittleInjective(p[|p| - 8..], q[|q| - 8..]);
    forall i | 0 <= i < |p|
      ensures p[i] == q[i]
    {
      if i < |msg| {
        assert p[i] == p[..|msg|][i] && q[i] == q[..|msg|][i];
      } else if i >= |p| - 8 {
        assert p[i] == p[|p| - 8..][i - (|p| - 8)] && q[i] == q[|q| - 8..][i - (|q| - 8)];
      }
    }
  }

  /** The digest is that of the padded message, whichever way the padding has been found. */
  lemma DigestIs(f: Compress, msg: seq<int>, p: seq<int>)
    requires PadsTo(msg, p)
    ensures DigestOf(f, msg) == EncodeOf(Chain(f, p, |p| / 64))
  {
    PaddedIs(msg);
    PaddingUnique(msg, p, Padded(msg));
  }

  /** The initial state, as the bytes that RFC 1321, section 3.3, lists. */
  lemma InitialBytes()
    ensures EncodeOf(INITIAL_STATE) ==
      [0x01, 0x23, 0x45, 0x67, 0x89, 0xab, 0xcd, 0xef, 0xfe, 0xdc, 0xba, 0x98, 0x76, 0x54, 0x32, 0x10]
  {
    EncodeFour(0x67452301, 0xefcdab89, 0x98badcfe, 0x10325476);
    BytesOfWord(0x01, 0x23, 0x45, 0x67);
    BytesOfWord(0x89, 0xab, 0xcd, 0xef);
    BytesOfWord(0xfe, 0xdc, 0xba, 0x98);
    BytesOfWord(0x76, 0x54, 0x32, 0x10);
  }

  lemma EncodeFour(a: int, b: int, c: int, d: int)
    ensures EncodeOf([a, b, c, d]) == WordBytes(a) + WordBytes(b) + WordBytes(c) + WordBytes(d)
  {
    EncodeMore([], a);
    EncodeMore([a], b);
    EncodeMore([a, b], c);
    EncodeMore([a, b, c], d);
    assert [] + [a] == [a] && [a] + [b] == [a, b] && [a, b] + [c] == [a, b, c] && [a, b, c] + [d] == [a, b, c, d];
  }

  lemma EncodeMore(ws: seq<int>, w: int)
    ensures EncodeOf(ws + [w]) == EncodeOf(ws) + WordBytes(w)
  {
    assert (ws + [w])[..|ws|] == ws;
  }

  // ---- lemmas about chaining ----

  /** Blocks already compressed do not depend on what follows. */
  lemma {:induction false} ChainPrefix(f: Compress, msg: seq<int>, more: seq<int>, n: nat)
    requires 64 * n <= |msg|
    ensures Chain(f, msg + more, n) == Chain(f, msg, n)
  {
    if n > 0 {
      ChainPrefix(f, msg, more, n - 1);
      assert (msg + more)[64 * (n - 1)..64 * n] == msg[64 * (n - 1)..64 * n];
    }
  }

  // ---- the bit counter ----

  /** Adding a length to the two-word counter, with the carry taken from the wrapped low word. */
  lemma CountSum(x: nat, y: nat)
    requires y < WORD * 8
    ensures var low := (x % WORD + y % WORD) % WORD;
      && low == (x + y) % WORD
      && ((x / WORD % WORD + (if low < y % WORD then 1 else 0)) % WORD + y / WORD) % WORD == (x + y) / WORD % WORD
  {
    var xq, xr, yq, yr := x / WORD, x % WORD, y / WORD, y % WORD;
    var c := if xr + yr >= WORD then 1 else 0;
    assert x + y == (xq + yq + c) * WORD + (xr + yr - c * WORD);
    Divided(x + y, xq + yq + c, xr + yr - c * WORD);
    Divided(xr + yr, c, xr + yr - c * WORD);
    WrapTwice(xq, c, yq);
  }

  /** The two words after `n` more bytes. */
  lemma CountStep(bits: nat, n: nat, c0: int, c1: int)
    requires n < WORD && c0 == bits % WORD && c1 == bits / WORD % WORD
    ensures var low := 8 * n % WORD; var d0 := (c0 + low) % WORD;
      && d0 == (bits + 8 * n) % WORD
      && ((if d0 < low then (c1 + 1) % WORD else c1) + n / 0x2000_0000) % WORD == (bits + 8 * n) / WORD % WORD
  {
    CountSum(bits, 8 * n);
    BitsOf(n);
  }

  lemma Divided(a: nat, q: int, r: int)
    requires a == q * WORD + r && 0 <= r < WORD
    ensures a / WORD == q && a % WORD == r
  {
  }

  lemma WrapTwice(a: nat, c: nat, b: nat)
    ensures ((a % WORD + c) % WORD + b) % WORD == (a + b + c) % WORD
  {
    WrapOnce(a, c);
    WrapOnce(a + c, b);
  }

  lemma WrapOnce(a: nat, c: nat)
    ensures (a % WORD + c) % WORD == (a + c) % WORD
  {
    var q := a / WORD;
    var p := (a % WORD + c) / WORD;
    assert a + c == (q + p) * WORD + (a % WORD + c) % WORD;
    Divided(a + c, q + p, (a % WORD + c) % WORD);
  }

  /** The fill level of the buffer can be read off the counter. */
  lemma IndexOf(n: nat)
    ensures 8 * n % WORD / 8 % 64 == n % 64
  {
    var q, r := n / 0x2000_0000, n % 0x2000_0000;
    assert 8 * n == q * WORD + 8 * r;
    Divided(8 * n, q, 8 * r);
    assert n == 64 * (q * 0x80_0000) + r;
    Mod64(q * 0x80_0000, r);
  }

  lemma BitsOf(n: nat)
    ensures n / 0x2000_0000 == 8 * n / WORD
  {
  }

  lemma Mod64(k: int, r: nat)
    ensures (64 * k + r) % 64 == r % 64
  {
  }

  // ---- the context ----

  class Context {
    const f: Compress
    var state: seq<int>
    var count0: int
    var count1: int
    const buffer: array<int>
    ghost var message: seq<int>  // every byte passed in since initialization

    ghost predicate Counted()
      reads this
    {
      count0 == 8 * |message| % WORD && count1 == 8 * |message| / WORD % WORD
    }

    /** Whole blocks are compressed and the rest is in the buffer. */
    ghost predicate Valid()
      reads this, buffer
    {
      && buffer.Length == 64 && Counted()
      && state == Chain(f, message, |message| / 64)
      && buffer[..|message| % 64] == message[|message| / 64 * 64..]
    }

    constructor (compress: Compress)
      ensures Valid() && fresh(buffer) && message == [] && f == compress
    {
      f := compress;
      state, count0, count1 := INITIAL_STATE, 0, 0;
      buffer := new int[64];
      message := [];
    }

    /** `MD5_memcpy` into the buffer. */
    method CopyIn(index: nat, input: seq<int>)
      requires index + |input| <= buffer.Length
      modifies buffer
      ensures buffer[..] == old(buffer[..index]) + input + old(buffer[index + |input|..])
    {
      var i := 0;
      while i < |input|
        invariant 0 <= i <= |input|
        invariant buffer[..] == old(buffer[..index]) + input[..i] + old(buffer[index + i..])
      {
        buffer[index + i] := input[i];
        i := i + 1;
      }
      assert input[..i] == input;
    }

    method CountBits(n: nat)
      requires n < WORD && Counted()
      modifies `count0, `count1
      ensures count0 == 8 * (|message| + n) % WORD && count1 == 8 * (|message| + n) / WORD % WORD
    {
      CountStep(8 * |message|, n, count0, count1);
      var low := 8 * n % WORD;
      count0 := (count0 + low) % WORD;
      if count0 < low {
        count1 := (count1 + 1) % WORD;
      }
      count1 := (count1 + n / 0x2000_0000) % WORD;
    }

    /** The loop of `MD5Update` over whole blocks of the input; its counter has 32 bits. */
    method CompressBlocks(input: seq<int>, from: nat, ghost msg: seq<int>) returns (i: nat)
      requires 1 <= from <= 64 && |input| + 64 - from < WORD
      requires from <= |input| && |msg| >= |input| && (|msg| - |input| + from) % 64 == 0 && msg[|msg| - |input|..] == input
      requires state == Chain(f, msg, (|msg| - |input| + from) / 64)
      modifies `state
      ensures from <= i <= |input| < i + 64 && (|msg| - |input| + i) % 64 == 0 && state == Chain(f, msg, (|msg| - |input| + i) / 64)
    {
      i := from;
      ghost var base := |msg| - |input|;
      while (i + 63) % WORD < |input|
        invariant from <= i <= |input| && (base + i) % 64 == 0 && state == Chain(f, msg, (base + i) / 64)
        invariant (i - from) % 64 == 0
        decreases |input| - i
      {
        NoWrap(i, from, |input|);
        TailSlice(msg, input, i, i + 64);
        assert (base + i + 64) / 64 == (base + i) / 64 + 1;
        state := f(state, input[i..i + 64]);
        i := (i + 64) % WORD;
      }
      NoWrap(i, from, |input|);
    }

    /** The buffered bytes and the start of the input make a block. */
    method FillBlock(index: nat, input: seq<int>)
      requires buffer.Length == 64 && index == |message| % 64 && |input| >= 64 - index
      requires state == Chain(f, message, |message| / 64) && buffer[..index] == message[|message| / 64 * 64..]
      modifies `state, buffer
      ensures state == Chain(f, message + input, |message| / 64 + 1)
    {
      CopyIn(index, input[..64 - index]);
      BlockAcross(message, input);
      ChainPrefix(f, message, input, |message| / 64);
      assert buffer[..] == message[|message| / 64 * 64..] + input[..64 - index];
      state := f(state, buffer[..]);
    }

    /** Buffers the rest of the input. */
    method KeepRest(index: nat, rest: seq<int>, ghost msg: seq<int>)
      requires buffer.Length == 64 && index + |rest| == |msg| % 64
      requires buffer[..index] + rest == msg[|msg| / 64 * 64..]
      modifies buffer
      ensures buffer[..|msg| % 64] == msg[|msg| / 64 * 64..]
    {
      CopyIn(index, rest);
      assert buffer[..index + |rest|] == old(buffer[..index]) + rest;
    }

    /** The part of `MD5Update` after the counter. */
    method Absorb(index: nat, input: seq<int>)
      requires buffer.Length == 64 && index == |message| % 64 && |input| + index < WORD
      requires state == Chain(f, message, |message| / 64) && buffer[..index] == message[|message| / 64 * 64..]
      modifies `state, buffer
      ensures state == Chain(f, message + input, |message + input| / 64)
      ensures buffer[..|message + input| % 64] == (message + input)[|message + input| / 64 * 64..]
    {
      var partLen := 64 - index;
      ghost var msg := message + input;
      if |input| >= partLen {
        FillBlock(index, input);
        BlockEnd(|message|, partLen);
        var i := CompressBlocks(input, partLen, msg);
        RestOf(msg, input, i);
        KeepRest(0, input[i..], msg);
      } else {
        ShortInput(message, input);
        ChainPrefix(f, message, input, |message| / 64);
        KeepRest(index, input, msg);
      }
    }

    /** `MD5Update`: the context has then taken in the message so far followed by the input, whose
        length is a 32-bit number. When it is within 63 bytes of 2^32 and the buffer is that full, the
        loop counter wraps and the loop never ends: see `NeverEnds`. */
    method Update(input: seq<int>)
      requires Valid() && |input| + |message| % 64 < WORD
      modifies this, buffer
      ensures Valid() && message == old(message) + input
    {
      IndexOf(|message|);
      var index := count0 / 8 % 64;
      CountBits(|input|);
      Absorb(index, input);
      message := message + input;
    }

    /** `MD5Final`: the digest of the whole message; the context is wiped. */
    method Final() returns (digest: seq<int>)
      requires Valid()
      modifies this, buffer
      ensures digest == DigestOf(f, old(message))
      ensures state == [0, 0, 0, 0] && count0 == count1 == 0 && buffer[..] == Zeros(buffer.Length)
    {
      PadOut();
      PaddedBlocks(old(message));
      digest := Encode(state);
      state, count0, count1 := [0, 0, 0, 0], 0, 0;
      Wipe();
    }

    /** The padding and the length, taken in like any other bytes. */
    method PadOut()
      requires Valid()
      modifies this, buffer
      ensures Valid() && message == Padded(old(message))
    {
      ghost var msg := message;
      var bits := Encode([count0, count1]);
      IndexOf(|message|);
      var index := count0 / 8 % 64;
      var padLen := if index < 56 then 56 - index else 120 - index;
      EncodeLength([count0, count1]);
      Update([128] + Zeros(padLen - 1));
      Update(bits);
      PaddedInTwo(msg, message);
    }

    method Wipe()
      modifies buffer
      ensures buffer[..] == Zeros(buffer.Length)
    {
      var i := 0;
      while i < buffer.Length
        invariant 0 <= i <= buffer.Length && buffer[..i] == Zeros(i)
      {
        buffer[i] := 0;
        i := i + 1;
      }
    }
  }

  lemma TailSlice(msg: seq<int>, input: seq<int>, i: nat, j: nat)
    requires |msg| >= |input| && msg[|msg| - |input|..] == input && i <= j <= |input|
    ensures var base := |msg| - |input|; msg[base + i..base + j] == input[i..j]
  {
    var base := |msg| - |input|;
    assert msg[base..][i..j] == msg[base + i..base + j];
  }

  /** The counter does not pass 2^32 on inputs that leave room for the buffered bytes. */
  lemma NoWrap(i: nat, from: nat, n: nat)
    requires 1 <= from <= 64 && from <= i <= n && (i - from) % 64 == 0 && n + 64 - from < WORD
    ensures (i + 63) % WORD == i + 63 && (i + 63 < n ==> (i + 64) % WORD == i + 64)
  {
    var q := (i - from) / 64;
    assert i == from + 64 * q;
  }

  /** On the other inputs with a 32-bit length the condition for ending the loop is never met, however
      often it is evaluated. */
  lemma NeverEnds(index: nat, n: nat, k: nat)
    requires 0 < index < 64 && n < WORD && n + index >= WORD
    ensures ((64 - index + 64 * k) % WORD + 63) % WORD < n
  {
    var i := (64 - index + 64 * k) % WORD;
    assert (i + index) % 64 == 0;
  }

  lemma BlockAcross(m: seq<int>, input: seq<int>)
    requires |input| >= 64 - |m| % 64
    ensures var q := |m| / 64;
      && 64 * (q + 1) <= |m + input|
      && (m + input)[64 * q..64 * (q + 1)] == m[q * 64..] + input[..64 - |m| % 64]
  {
  }

  lemma BlockEnd(n: nat, partLen: nat)
    requires partLen == 64 - n % 64
    ensures (n + partLen) % 64 == 0 && (n + partLen) / 64 == n / 64 + 1
  {
  }

  lemma RestOf(msg: seq<int>, input: seq<int>, i: nat)
    requires |msg| >= |input| && msg[|msg| - |input|..] == input && i <= |input| < i + 64
    requires (|msg| - |input| + i) % 64 == 0
    ensures |msg| - |input| + i == |msg| / 64 * 64 && |input| - i == |msg| % 64 && input[i..] == msg[|msg| / 64 * 64..]
    ensures (|msg| - |input| + i) / 64 == |msg| / 64
  {
  }

  lemma ShortInput(m: seq<int>, input: seq<int>)
    requires |input| < 64 - |m| % 64
    ensures |m + input| / 64 == |m| / 64 && |m + input| % 64 == |m| % 64 + |input|
    ensures (m + input)[|m| / 64 * 64..] == m[|m| / 64 * 64..] + input
  {
  }

  // ---- cutting a message ----

  function Concat(chunks: seq<seq<int>>): seq<int> {
    if chunks == [] then [] else Concat(chunks[..|chunks| - 1]) + chunks[|chunks| - 1]
  }

  /** However a message is cut into updates on which the loop ends, the digest is that of the whole message. */
  method Digest(f: Compress, chunks: seq<seq<int>>) returns (digest: seq<int>)
    requires forall i :: 0 <= i < |chunks| ==> |chunks[i]| + |Concat(chunks[..i])| % 64 < WORD
    ensures digest == DigestOf(f, Concat(chunks))
    ensures exists p :: PadsTo(Concat(chunks), p) && digest == EncodeOf(Chain(f, p, |p| / 64))
  {
    var ctx := new Context(f);
    var i := 0;
    while i < |chunks|
      invariant 0 <= i <= |chunks| && ctx.Valid() && ctx.f == f && ctx.message == Concat(chunks[..i]) && fresh(ctx) && fresh(ctx.buffer)
    {
      assert chunks[..i + 1][..i] == chunks[..i];
      ctx.Update(chunks[i]);
      i := i + 1;
    }
    assert chunks[..i] == chunks;
    digest := ctx.Final();
    PaddedIs(Concat(chunks));
  }

  /** Different messages are padded differently, as long as their bit lengths fit the counter: the
      padding loses nothing. */
  lemma PaddingInjective(a: seq<int>, b: seq<int>)
    requires 8 * |a| < WORD * WORD && 8 * |b| < WORD * WORD && Padded(a) == Padded(b)
    ensures a == b
  {
    var n := |Padded(a)| - 8;
    PaddedEnd(a);
    PaddedEnd(b);
    EncodeInjective(LengthWords(|a|), LengthWords(|b|));
    SameLength(|a|, |b|);
    assert Padded(a)[..|a|] == a && Padded(b)[..|b|] == b;
  }

  lemma PaddedEnd(msg: seq<int>)
    ensures |Padded(msg)| >= 8 && Padded(msg)[|Padded(msg)| - 8..] == EncodeOf(LengthWords(|msg|)) && Words(LengthWords(|msg|))
  {
    EncodeLength(LengthWords(|msg|));
  }

  lemma SameLength(n: nat, m: nat)
    requires 8 * n < WORD * WORD && 8 * m < WORD * WORD && LengthWords(n) == LengthWords(m)
    ensures n == m
  {
    assert LengthWords(n)[0] == LengthWords(m)[0] && LengthWords(n)[1] == LengthWords(m)[1];
    assert 8 * n / WORD < WORD && 8 * m / WORD < WORD;
  }
}

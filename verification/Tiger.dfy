/** The Tiger hash: the streaming context against the one-shot definition. The compression function is any
    function of a 64-byte block and a state; words are little-endian. */
module Tiger {
  import opened Arithmetic
  import opened Bytes

  const BLOCK: nat := 64
  const DIGEST: nat := 24
  const WORDS: nat := 0x1_0000_0000_0000_0000

  type Word = w: nat | w < WORDS

  datatype State = State(a: Word, b: Word, c: Word)

  const INITIAL: State := State(0x0123456789ABCDEF, 0xFEDCBA9876543210, 0xF096A5B4C3B2E187)

  type Compression = (seq<Byte>, State) -> State

  /** The last `k` bytes of a number, lowest first. */
  function LittleEndian(n: nat, k: nat): (s: seq<Byte>)
    ensures |s| == k
  {
    if k == 0 then [] else [n % 256] + LittleEndian(n / 256, k - 1)
  }

  function Output(s: State, size: nat): seq<Byte> {
    var bytes := LittleEndian(s.a, 8) + LittleEndian(s.b, 8) + LittleEndian(s.c, 8);
    bytes[..if size > DIGEST then DIGEST else size]
  }

  function Power256(k: nat): (p: nat)
    ensures p > 0
  {
    if k == 0 then 1 else 256 * Power256(k - 1)
  }

  lemma {:induction false} LittleEndianAt(n: nat, k: nat, j: nat)
    requires j < k
    ensures LittleEndian(n, k)[j] == n / Power256(j) % 256
  {
    if j > 0 {
      LittleEndianAt(n / 256, k - 1, j - 1);
      DivideTwice(n, Power256(j - 1));
    }
  }

  lemma DivideTwice(n: nat, p: nat)
    requires p > 0
    ensures n / 256 / p == n / (256 * p)
  {
    var q, r := n / 256 / p, n / 256 % p;
    assert n / 256 == q * p + r;
    var s := 256 * r + n % 256;
    assert n == q * (256 * p) + s && s < 256 * p;
    DivMod(q, 256 * p, s);
  }

  /** The digest is the three words in their order, each with its lowest byte first, cut to the size asked for. */
  lemma OutputIs(s: State, size: nat)
    ensures |Output(s, size)| == if size < 24 then size else 24
    ensures forall j: nat :: j < |Output(s, size)| ==>
              var word := if j < 8 then s.a else if j < 16 then s.b else s.c;
              Output(s, size)[j] == word / Power256(j % 8) % 256
  {
    hide LittleEndian, Power256;
    forall j: nat | j < |Output(s, size)|
      ensures
        var word := if j < 8 then s.a else if j < 16 then s.b else s.c;
        Output(s, size)[j] == word / Power256(j % 8) % 256
    {
      var word := if j < 8 then s.a else if j < 16 then s.b else s.c;
      LittleEndianAt(word, 8, j % 8);
    }
  }

  /** The state after a stretch of `k` whole blocks. */
  ghost function Fold(compress: Compression, start: State, data: seq<Byte>, k: nat): State
    requires |data| == BLOCK * k
    decreases k
  {
    if k == 0 then start
    else
      var n := |data| - BLOCK;
      compress(data[n..], Fold(compress, start, data[..n], k - 1))
  }

  function Zero(n: nat): (s: seq<Byte>)
    ensures |s| == n && forall i :: 0 <= i < n ==> s[i] == 0
  {
    seq(n, i => 0)
  }

  /** How many blocks a message of this length takes with its padding byte and length word. */
  function Blocks(length: nat): nat {
    (length + 8) / BLOCK + 1
  }

  function LengthWord(message: seq<Byte>): seq<Byte> {
    LittleEndian(|message| * 8 % WORDS, 8)
  }

  /** The message as it is hashed: the padding byte, as few zeros as fill the blocks, and the length in bits. */
  ghost function Padded(message: seq<Byte>, padding: Byte): (s: seq<Byte>)
    ensures |s| == BLOCK * Blocks(|message|)
  {
    message + [padding] + Zero(BLOCK * Blocks(|message|) - |message| - 9) + LengthWord(message)
  }

  function PaddingByte(version: nat): Byte {
    if version == 1 then 0x01 else 0x80
  }

  /** The hash of a message. */
  ghost function Hash(compress: Compression, message: seq<Byte>, padding: Byte): State {
    Fold(compress, INITIAL, Padded(message, padding), Blocks(|message|))
  }

  /** The padded message byte by byte: the message, the version's padding byte, zeros, and in the last eight bytes the
      length in bits, lowest byte first; as few whole blocks as hold all of it. */
  lemma PaddedIs(message: seq<Byte>, version: nat)
    ensures
      var s, n := Padded(message, PaddingByte(version)), |message|;
      && |s| % 64 == 0 && n + 9 <= |s| < n + 9 + 64
      && s[..n] == message && s[n] == (if version == 1 then 1 else 128)
      && (forall i :: n < i < |s| - 8 ==> s[i] == 0)
      && (forall j: nat :: j < 8 ==> s[|s| - 8 + j] == n * 8 % WORDS / Power256(j) % 256)
  {
    hide LittleEndian, Power256;
    var s, n := Padded(message, PaddingByte(version)), |message|;
    forall j: nat | j < 8
      ensures s[|s| - 8 + j] == n * 8 % WORDS / Power256(j) % 256
    {
      LittleEndianAt(n * 8 % WORDS, 8, j);
    }
  }

  lemma FoldMore(compress: Compression, start: State, data: seq<Byte>, k: nat, block: seq<Byte>)
    requires |data| == BLOCK * k && |block| == BLOCK
    ensures Fold(compress, start, data + block, k + 1) == compress(block, Fold(compress, start, data, k))
  {
    assert (data + block)[..|data|] == data && (data + block)[|data|..] == block;
  }

  // ----- no two messages are padded alike

  lemma {:induction false} LittleEndianInjective(m: nat, n: nat, k: nat)
    requires m < Power256(k) && n < Power256(k) && LittleEndian(m, k) == LittleEndian(n, k)
    ensures m == n
  {
    if k > 0 {
      var s, t := LittleEndian(m, k), LittleEndian(n, k);
      assert s[0] == m % 256 && t[0] == n % 256;
      assert s[1..] == LittleEndian(m / 256, k - 1) && t[1..] == LittleEndian(n / 256, k - 1);
      LittleEndianInjective(m / 256, n / 256, k - 1);
    }
  }

  lemma Power256Is8()
    ensures Power256(8) == WORDS
  {
    assert Power256(4) == 0x1_0000_0000;
  }

  /** Messages whose length in bits fits the length word are never padded to the same blocks. */
  lemma PaddedInjective(m: seq<Byte>, n: seq<Byte>, padding: Byte)
    requires |m| * 8 < WORDS && |n| * 8 < WORDS && Padded(m, padding) == Padded(n, padding)
    ensures m == n
  {
    hide LittleEndian;
    var s, t := Padded(m, padding), Padded(n, padding);
    assert s[|s| - 8..] == LengthWord(m) && t[|t| - 8..] == LengthWord(n);
    Power256Is8();
    LittleEndianInjective(|m| * 8, |n| * 8, 8);
    assert s[..|m|] == m && t[..|n|] == n;
  }

  // ----- the last blocks

  /** What is compressed after the whole blocks of a message: one block, or two when the length does not fit. */
  function Finished(compress: Compression, start: State, rest: seq<Byte>, padding: Byte, word: seq<Byte>): State
    requires |rest| < BLOCK
  {
    if |rest| + 1 <= 56 then
      compress(rest + [padding] + Zero(55 - |rest|) + word, start)
    else
      compress(Zero(56) + word, compress(rest + [padding] + Zero(63 - |rest|), start))
  }

  lemma ZeroJoins(m: nat, n: nat)
    ensures Zero(m) + Zero(n) == Zero(m + n)
  {
  }

  /** They complete the hash: the padding fits one more block up to 55 bytes, and two from 56 bytes on. */
  lemma FinishedFolds(compress: Compression, whole: seq<Byte>, k: nat, rest: seq<Byte>, padding: Byte, word: seq<Byte>)
    requires |whole| == BLOCK * k && |rest| < BLOCK && |word| == 8
    ensures
      var start := Fold(compress, INITIAL, whole, k);
      if |rest| < 56 then
        Finished(compress, start, rest, padding, word) ==
          Fold(compress, INITIAL, whole + rest + [padding] + Zero(55 - |rest|) + word, k + 1)
      else
        Finished(compress, start, rest, padding, word) ==
          Fold(compress, INITIAL, whole + rest + [padding] + Zero(119 - |rest|) + word, k + 2)
  {
    hide Fold, Zero;
    if |rest| < 56 {
      var last := rest + [padding] + Zero(55 - |rest|) + word;
      FoldMore(compress, INITIAL, whole, k, last);
      assert whole + last == whole + rest + [padding] + Zero(55 - |rest|) + word;
    } else {
      var last, more := rest + [padding] + Zero(63 - |rest|), Zero(56) + word;
      FoldMore(compress, INITIAL, whole, k, last);
      FoldMore(compress, INITIAL, whole + last, k + 1, more);
      ZeroJoins(63 - |rest|, 56);
      assert whole + last + more == whole + rest + [padding] + (Zero(63 - |rest|) + Zero(56)) + word;
    }
  }

  lemma FinishedIsHash(compress: Compression, message: seq<Byte>, k: nat, padding: Byte)
    requires k == |message| / BLOCK
    ensures
      Finished(compress, Fold(compress, INITIAL, message[..BLOCK * k], k), message[BLOCK * k..], padding,
               LengthWord(message)) == Hash(compress, message, padding)
  {
    hide LittleEndian, Finished, Fold, Zero;
    var whole, rest := message[..BLOCK * k], message[BLOCK * k..];
    assert message == whole + rest;
    FinishedFolds(compress, whole, k, rest, padding, LengthWord(message));
  }

  /** Padding byte and zeros up to a multiple of 8 bytes. */
  method PadTo8(temp: array<Byte>, sz: nat, padding: Byte) returns (i: nat)
    requires temp.Length == BLOCK && sz < BLOCK
    modifies temp
    ensures i == (sz / 8 + 1) * 8
    ensures temp[..i] == old(temp[..sz]) + [padding] + Zero(i - sz - 1)
  {
    ghost var rest := temp[..sz];
    temp[sz] := padding;
    i := sz + 1;
    while i % 8 != 0
      invariant sz < i <= (sz / 8 + 1) * 8 <= BLOCK
      invariant temp[..i] == rest + [padding] + Zero(i - sz - 1)
      decreases BLOCK - i
    {
      temp[i] := 0;
      i := i + 1;
      assert temp[..i] == temp[..i - 1] + [0];
    }
  }

  /** Zeros up to the last 8 bytes, and the length word there. */
  method FillUp(temp: array<Byte>, from: nat, bits: Word)
    requires temp.Length == BLOCK && from <= 56
    modifies temp
    ensures temp[..] == old(temp[..from]) + Zero(56 - from) + LittleEndian(bits, 8)
  {
    var i := from;
    while i < 56
      invariant from <= i <= 56 && temp[..i] == old(temp[..from]) + Zero(i - from)
    {
      temp[i] := 0;
      i := i + 1;
      assert temp[..i] == temp[..i - 1] + [0];
    }
    ghost var filled := temp[..56];
    var word := LittleEndian(bits, 8);
    forall j | 0 <= j < 8 {
      temp[56 + j] := word[j];
    }
    assert temp[..] == filled + word;
  }

  /** The end of `tiger_end` and of `tiger_impl`: `temp` starts with the last, partial block of the message. */
  method Finish(compress: Compression, start: State, temp: array<Byte>, sz: nat, padding: Byte, bits: Word)
    returns (res: State)
    requires temp.Length == BLOCK && sz < BLOCK
    modifies temp
    ensures res == Finished(compress, start, old(temp[..sz]), padding, LittleEndian(bits, 8))
  {
    hide Zero, LittleEndian;
    ghost var rest, word := temp[..sz], LittleEndian(bits, 8);
    res := start;
    var i := PadTo8(temp, sz, padding);
    if i > 56 {
      assert temp[..] == temp[..i];
      res := compress(temp[..], res);
      i := 0;
      FillUp(temp, i, bits);
      assert temp[..] == Zero(56) + word;
    } else {
      ghost var zeros := Zero(i - sz - 1);
      FillUp(temp, i, bits);
      ZeroJoins(i - sz - 1, 56 - i);
      assert temp[..] == rest + [padding] + (zeros + Zero(56 - i)) + word;
    }
    res := compress(temp[..], res);
  }

  // ----- the one-shot reference

  /** The state after the first `k` blocks of a message, and the message goes on with `rest`. */
  ghost predicate Absorbed(compress: Compression, message: seq<Byte>, k: nat, rest: seq<Byte>, res: State) {
    && BLOCK * k + |rest| == |message| && rest == message[BLOCK * k..]
    && res == Fold(compress, INITIAL, message[..BLOCK * k], k)
  }

  lemma AbsorbOne(compress: Compression, message: seq<Byte>, k: nat, rest: seq<Byte>, res: State)
    requires Absorbed(compress, message, k, rest, res) && |rest| >= BLOCK
    ensures Absorbed(compress, message, k + 1, rest[BLOCK..], compress(rest[..BLOCK], res))
  {
    hide Fold;
    FoldMore(compress, INITIAL, message[..BLOCK * k], k, rest[..BLOCK]);
    assert message[..BLOCK * k] + rest[..BLOCK] == message[..BLOCK * (k + 1)];
  }

  lemma AbsorbMore(compress: Compression, message: seq<Byte>, k: nat, rest: seq<Byte>, res: State, data: seq<Byte>)
    requires Absorbed(compress, message, k, rest, res)
    ensures Absorbed(compress, message + data, k, rest + data, res)
  {
    assert (message + data)[..BLOCK * k] == message[..BLOCK * k];
  }

  /** `tiger_impl`: whole blocks straight from the message, then the padded rest. */
  method Reference(compress: Compression, message: seq<Byte>) returns (res: State)
    ensures res == Hash(compress, message, 0x01)
  {
    res := INITIAL;
    var str, i := message, |message|;
    ghost var k := 0;
    while i >= BLOCK
      invariant i == |str| && Absorbed(compress, message, k, str, res)
      decreases i
    {
      AbsorbOne(compress, message, k, str, res);
      res := compress(str[..BLOCK], res);
      str := str[BLOCK..];
      i := i - BLOCK;
      k := k + 1;
    }
    var temp := new Byte[BLOCK](_ => 0);
    for j := 0 to i
      invariant temp[..j] == str[..j]
    {
      temp[j] := str[j];
      assert str[..j + 1] == str[..j] + [str[j]];
    }
    assert temp[..i] == str;
    FinishedIsHash(compress, message, k, 0x01);
    res := Finish(compress, res, temp, i, 0x01, |message| * 8 % WORDS);
  }

  // ----- the streaming context

  class TigerContext {
    const compress: Compression
    const version: nat
    const buf: array<Byte>
    var res: State
    var length: Word
    var sz: nat
    /** Everything hashed so far, and how many blocks of it are compressed. */
    ghost var message: seq<Byte>
    ghost var blocks: nat

    /** The whole blocks of what came so far are compressed, and the rest, less than a block, is buffered. */
    ghost predicate Valid()
      reads this, buf
    {
      && buf.Length == BLOCK && version in {1, 2}
      && length == |message| % WORDS
      && sz < BLOCK
      && Absorbed(compress, message, blocks, buf[..sz], res)
    }

    /** `tiger_init`: version 1 unless asked for version 2. */
    constructor (compress: Compression, version: nat)
      ensures Valid() && fresh(buf) && message == []
      ensures this.compress == compress && this.version == if version == 2 then 2 else 1
    {
      this.compress := compress;
      this.version := if version == 2 then 2 else 1;
      buf := new Byte[BLOCK](_ => 0);
      res, length, sz, message, blocks := INITIAL, 0, 0, [], 0;
    }

    /** `memcpy` into the buffer. */
    method CopyIn(at: nat, data: seq<Byte>)
      requires at + |data| <= buf.Length
      modifies buf
      ensures buf[..at + |data|] == old(buf[..at]) + data
    {
      forall j | 0 <= j < |data| {
        buf[at + j] := data[j];
      }
    }

    /** `tiger_update`. */
    method Update(data: seq<Byte>)
      requires Valid()
      modifies this, buf
      ensures Valid() && message == old(message) + data
    {
      hide Absorbed;
      ghost var held := buf[..sz];
      AbsorbMore(compress, message, blocks, held, res, data);
      LengthGrows(|message|, |data|);
      length := (length + |data|) % WORDS;
      message := message + data;
      if sz + |data| < BLOCK {
        CopyIn(sz, data);
        sz := sz + |data|;
        return;
      }
      var rest := data;
      if sz != 0 {
        var bytes := BLOCK - sz;
        CopyIn(sz, rest[..bytes]);
        AbsorbOne(compress, message, blocks, held + data, res);
        assert buf[..] == buf[..BLOCK] == (held + data)[..BLOCK];
        res := compress(buf[..], res);
        blocks := blocks + 1;
        rest := rest[bytes..];
        assert rest == (held + data)[BLOCK..];
      } else {
        assert held + data == data;
      }
      while |rest| >= BLOCK
        invariant message == old(message) + data && length == |message| % WORDS
        invariant Absorbed(compress, message, blocks, rest, res)
        decreases |rest|
      {
        AbsorbOne(compress, message, blocks, rest, res);
        res := compress(rest[..BLOCK], res);
        rest := rest[BLOCK..];
        blocks := blocks + 1;
      }
      if |rest| != 0 {
        CopyIn(0, rest);
      }
      sz := |rest|;
      assert buf[..sz] == rest;
    }

    /** `tiger_end`: the digest, cut to the size asked for. */
    method End(size: nat) returns (digest: seq<Byte>)
      requires Valid()
      modifies this`res
      ensures digest == Output(Hash(compress, message, PaddingByte(version)), size)
    {
      hide Finished, Fold, Padded, LittleEndian;
      var temp := new Byte[BLOCK](_ => 0);
      forall j | 0 <= j < sz {
        temp[j] := buf[j];
      }
      assert temp[..sz] == buf[..sz];
      LengthIsKnown(|message|);
      FinishedIsHash(compress, message, blocks, PaddingByte(version));
      assert LittleEndian(length * 8 % WORDS, 8) == LengthWord(message);
      assert temp[..sz] == message[BLOCK * blocks..];
      res := Finish(compress, res, temp, sz, PaddingByte(version), length * 8 % WORDS);
      assert res == Hash(compress, message, PaddingByte(version));
      digest := Output(res, size);
    }
  }

  lemma LengthGrows(n: nat, d: nat)
    ensures (n % WORDS + d) % WORDS == (n + d) % WORDS
  {
  }

  /** The 64-bit count of bytes, shifted by 3, is the count of bits in 64 bits. */
  lemma LengthIsKnown(n: nat)
    ensures (n % WORDS) * 8 % WORDS == n * 8 % WORDS
  {
    var q := n / WORDS;
    assert n * 8 == (n % WORDS) * 8 + WORDS * (q * 8);
  }

  /** Any split of a message into updates gives the one-shot hash. */
  method HashParts(compress: Compression, parts: seq<seq<Byte>>) returns (digest: seq<Byte>)
    ensures digest == Output(Hash(compress, Joined(parts), 0x01), DIGEST)
  {
    var ctx := new TigerContext(compress, 1);
    for i := 0 to |parts|
      invariant ctx.Valid() && ctx.version == 1 && ctx.compress == compress && fresh(ctx) && fresh(ctx.buf)
      invariant ctx.message == Joined(parts[..i])
    {
      assert parts[..i + 1][..i] == parts[..i];
      ctx.Update(parts[i]);
    }
    assert parts[..|parts|] == parts;
    digest := ctx.End(DIGEST);
  }

  function Joined(parts: seq<seq<Byte>>): seq<Byte> {
    if parts == [] then [] else Joined(parts[..|parts| - 1]) + parts[|parts| - 1]
  }
}

/**
 * The encrypted backup stream: a fixed header, then STREAM chunks of an AEAD.
 *
 * The AEAD is ideal. For one key, `Log` records every chunk ever sealed; opening
 * succeeds only on a ciphertext recorded under exactly that nonce.
 */
module BackupCrypto {
  import opened Prelude

  /** "TPBKENC1" */
  const MAGIC: seq<byte> := [0x54, 0x50, 0x42, 0x4B, 0x45, 0x4E, 0x43, 0x31]
  const NONCE_PREFIX_LEN: nat := 7
  const CHUNK: nat := 65536
  const TAG: nat := 16
  const ENC_CHUNK: nat := CHUNK + TAG
  const HEADER_LEN: nat := 16
  const COUNTER_MAX: nat := 0xFFFF_FFFF

  /** The 12-byte STREAM nonce: random prefix, 32-bit counter, last-block flag. */
  datatype Nonce = Nonce(prefix: seq<byte>, counter: nat, last: bool)

  datatype Sealed = Sealed(plain: seq<byte>, cipher: seq<byte>)

  type Log = map<Nonce, Sealed>

  type Cipher = (Nonce, seq<byte>) -> seq<byte>

  ghost predicate TagSized(cipher: Cipher) {
    forall n, p :: |cipher(n, p)| == |p| + TAG
  }

  function Open(log: Log, n: Nonce, c: seq<byte>): Option<seq<byte>> {
    if n in log && log[n].cipher == c then Some(log[n].plain) else None
  }

  predicate IsEncrypted(header: seq<byte>) {
    |header| >= |MAGIC| && header[..|MAGIC|] == MAGIC
  }

  // ----- what encryption produces -----

  function Header(keyId: byte, prefix: seq<byte>): seq<byte> {
    MAGIC + [keyId] + prefix
  }

  /** The chunks of `p` from counter `ctr` on; exactly the final one carries the last flag. */
  ghost function Body(cipher: Cipher, prefix: seq<byte>, ctr: nat, p: seq<byte>): seq<byte>
    decreases |p|
  {
    if |p| <= CHUNK then cipher(Nonce(prefix, ctr, true), p)
    else cipher(Nonce(prefix, ctr, false), p[..CHUNK]) + Body(cipher, prefix, ctr + 1, p[CHUNK..])
  }

  /** Everything that encrypting `p` seals. */
  ghost function LogOf(cipher: Cipher, prefix: seq<byte>, ctr: nat, p: seq<byte>): Log
    decreases |p|
  {
    if |p| <= CHUNK then
      var n := Nonce(prefix, ctr, true);
      map[n := Sealed(p, cipher(n, p))]
    else
      var n := Nonce(prefix, ctr, false);
      map[n := Sealed(p[..CHUNK], cipher(n, p[..CHUNK]))] + LogOf(cipher, prefix, ctr + 1, p[CHUNK..])
  }

  ghost function Archive(cipher: Cipher, keyId: byte, prefix: seq<byte>, p: seq<byte>): seq<byte> {
    Header(keyId, prefix) + Body(cipher, prefix, 0, p)
  }

  ghost function NumChunks(n: nat): (k: nat)
    ensures k >= 1
  {
    if n <= CHUNK then 1 else 1 + NumChunks(n - CHUNK)
  }

  /** The archive is long enough for a 32-bit chunk counter. */
  ghost predicate CounterSuffices(p: seq<byte>) {
    NumChunks(|p|) <= COUNTER_MAX + 1
  }

  // ----- what decryption makes of any bytes -----

  datatype Decoded = Decoded(out: seq<byte>, ok: bool)

  /** What is written before the end or the first error, and whether the end was reached. */
  ghost function DecodeBody(log: Log, prefix: seq<byte>, ctr: nat, c: seq<byte>): Decoded
    decreases |c|
  {
    if |c| <= ENC_CHUNK then
      match Open(log, Nonce(prefix, ctr, true), c)
      case Some(p) => Decoded(p, true)
      case None => Decoded([], false)
    else if ctr == COUNTER_MAX then Decoded([], false)
    else match Open(log, Nonce(prefix, ctr, false), c[..ENC_CHUNK])
      case None => Decoded([], false)
      case Some(p) =>
        var rest := DecodeBody(log, prefix, ctr + 1, c[ENC_CHUNK..]);
        Decoded(p + rest.out, rest.ok)
  }

  ghost function Decode(log: Log, x: seq<byte>): Decoded {
    if |x| < HEADER_LEN || !IsEncrypted(x[..HEADER_LEN]) then Decoded([], false)
    else DecodeBody(log, x[|MAGIC| + 1..HEADER_LEN], 0, x[HEADER_LEN..])
  }

  // ----- properties of the framing -----

  lemma {:induction false} BodyLength(cipher: Cipher, prefix: seq<byte>, ctr: nat, p: seq<byte>)
    requires TagSized(cipher)
    ensures |Body(cipher, prefix, ctr, p)| == |p| + TAG * NumChunks(|p|)
    decreases |p|
  {
    if |p| > CHUNK {
      BodyLength(cipher, prefix, ctr + 1, p[CHUNK..]);
    }
  }

  lemma {:induction false} NumChunksIs(n: nat)
    ensures NumChunks(n) == if n == 0 then 1 else (n + CHUNK - 1) / CHUNK
  {
    if n > CHUNK {
      NumChunksIs(n - CHUNK);
      assert (n + CHUNK - 1) / CHUNK == (n - 1) / CHUNK + 1;
    }
  }

  /** 16 bytes of header, the plaintext, and one tag per chunk, of which there is always at least one. */
  lemma ArchiveLength(cipher: Cipher, keyId: byte, prefix: seq<byte>, p: seq<byte>)
    requires TagSized(cipher) && |prefix| == NONCE_PREFIX_LEN
    ensures |Archive(cipher, keyId, prefix, p)| == 16 + |p| + 16 * (if p == [] then 1 else (|p| + 65535) / 65536)
  {
    BodyLength(cipher, prefix, 0, p);
    NumChunksIs(|p|);
  }

  /** The counter suffices for exactly 2^32 chunks of 64 KiB. */
  lemma CounterSufficesIff(p: seq<byte>)
    ensures CounterSuffices(p) <==> |p| <= 0x1_0000_0000 * 65536
  {
    NumChunksIs(|p|);
  }

  /** Chunk i is sealed under counter i; the last flag marks the final chunk and no other. */
  lemma {:induction false} SealedNonces(cipher: Cipher, prefix: seq<byte>, ctr: nat, p: seq<byte>, n: Nonce)
    ensures n in LogOf(cipher, prefix, ctr, p) <==>
            && n.prefix == prefix && ctr <= n.counter < ctr + NumChunks(|p|)
            && (n.last <==> n.counter == ctr + NumChunks(|p|) - 1)
    decreases |p|
  {
    if |p| > CHUNK {
      SealedNonces(cipher, prefix, ctr + 1, p[CHUNK..], n);
    }
  }

  lemma SliceOfTail(p: seq<byte>, k: nat, a: nat, b: nat)
    requires k <= |p| && a <= b <= |p| - k
    ensures p[k..][a..b] == p[k + a..k + b]
  {}

  /** The chunk sealed under counter i is the i-th 64 KiB of the plaintext. */
  lemma {:induction false} SealedChunk(cipher: Cipher, prefix: seq<byte>, ctr: nat, p: seq<byte>, i: nat)
    requires i < NumChunks(|p|)
    ensures
      var n := Nonce(prefix, ctr + i, i == NumChunks(|p|) - 1);
      && i * CHUNK <= |p|
      && n in LogOf(cipher, prefix, ctr, p)
      && LogOf(cipher, prefix, ctr, p)[n].plain == p[i * CHUNK..Min((i + 1) * CHUNK, |p|)]
    decreases |p|
  {
    var n := Nonce(prefix, ctr + i, i == NumChunks(|p|) - 1);
    if |p| <= CHUNK {
      assert p[0..|p|] == p;
    } else if i > 0 {
      var tail := p[CHUNK..];
      SealedChunk(cipher, prefix, ctr + 1, tail, i - 1);
      assert CHUNK + Min(i * CHUNK, |tail|) == Min((i + 1) * CHUNK, |p|);
      SliceOfTail(p, CHUNK, (i - 1) * CHUNK, Min(i * CHUNK, |tail|));
    } else {
      SealedNonces(cipher, prefix, ctr + 1, p[CHUNK..], n);
    }
  }

  /** Under `prefix`, from counter `ctr` on, exactly the chunks of `p` were ever sealed. */
  ghost predicate Agrees(log: Log, cipher: Cipher, prefix: seq<byte>, ctr: nat, p: seq<byte>) {
    forall n: Nonce :: n.prefix == prefix && n.counter >= ctr ==>
      (n in log <==> n in LogOf(cipher, prefix, ctr, p)) &&
      (n in log && n in LogOf(cipher, prefix, ctr, p) ==> log[n] == LogOf(cipher, prefix, ctr, p)[n])
  }

  lemma AgreesNext(log: Log, cipher: Cipher, prefix: seq<byte>, ctr: nat, p: seq<byte>)
    requires Agrees(log, cipher, prefix, ctr, p) && |p| > CHUNK
    ensures Agrees(log, cipher, prefix, ctr + 1, p[CHUNK..])
  {}

  /**
   * Decoding any bytes as chunks of `p`: it succeeds exactly on the chunks as
   * they were written, and whatever comes out before is a prefix of `p`.
   */
  lemma {:induction false} DecodeBodyIff(log: Log, cipher: Cipher, prefix: seq<byte>, ctr: nat, p: seq<byte>,
                                         c: seq<byte>)
    requires TagSized(cipher) && Agrees(log, cipher, prefix, ctr, p) && ctr <= COUNTER_MAX
    ensures
      var d := DecodeBody(log, prefix, ctr, c);
      && (d.ok <==> c == Body(cipher, prefix, ctr, p) && ctr + NumChunks(|p|) <= COUNTER_MAX + 1)
      && (d.ok ==> d.out == p)
      && d.out <= p
    decreases |p|
  {
    hide Agrees, LogOf, TagSized;
    FirstChunkIn(log, cipher, prefix, ctr, p);
    BodyLength(cipher, prefix, ctr, p);
    if |c| <= ENC_CHUNK || |p| <= CHUNK || ctr == COUNTER_MAX {
      assert |p| > CHUNK ==> NumChunks(|p|) >= 2;
    } else {
      var part := Nonce(prefix, ctr, false);
      AgreesNext(log, cipher, prefix, ctr, p);
      DecodeBodyIff(log, cipher, prefix, ctr + 1, p[CHUNK..], c[ENC_CHUNK..]);
      Unchunk(cipher(part, p[..CHUNK]), Body(cipher, prefix, ctr + 1, p[CHUNK..]), c, ENC_CHUNK);
      if log[part].cipher == c[..ENC_CHUNK] {
        PrefixExtends(p, CHUNK, DecodeBody(log, prefix, ctr + 1, c[ENC_CHUNK..]).out);
      }
    }
  }

  lemma Unchunk(a: seq<byte>, b: seq<byte>, c: seq<byte>, k: nat)
    requires |a| == k <= |c|
    ensures c == a + b <==> c[..k] == a && c[k..] == b
  {
    assert c[..k] + c[k..] == c;
    assert (a + b)[..k] == a && (a + b)[k..] == b;
  }

  lemma PrefixExtends(p: seq<byte>, k: nat, out: seq<byte>)
    requires k <= |p| && out <= p[k..]
    ensures p[..k] + out <= p && (out == p[k..] ==> p[..k] + out == p)
  {
    assert p[..k] + p[k..] == p;
  }

  /** What the log says about counter `ctr` when `p` is what was sealed from there on. */
  lemma FirstChunkIn(log: Log, cipher: Cipher, prefix: seq<byte>, ctr: nat, p: seq<byte>)
    requires TagSized(cipher) && Agrees(log, cipher, prefix, ctr, p)
    ensures
      var whole, part := Nonce(prefix, ctr, true), Nonce(prefix, ctr, false);
      && (whole in log <==> |p| <= CHUNK) && (whole in log ==> log[whole] == Sealed(p, cipher(whole, p)))
      && (part in log <==> |p| > CHUNK)
      && (part in log ==> log[part] == Sealed(p[..CHUNK], cipher(part, p[..CHUNK])) && |log[part].cipher| == ENC_CHUNK)
  {
    var whole, part := Nonce(prefix, ctr, true), Nonce(prefix, ctr, false);
    SealedNonces(cipher, prefix, ctr, p, whole);
    SealedNonces(cipher, prefix, ctr, p, part);
    if |p| > CHUNK {
      SealedNonces(cipher, prefix, ctr + 1, p[CHUNK..], part);
    }
  }

  // ----- integrity -----

  /**
   * `log` is what the runs under one key sealed: those that completed are
   * `archives`, by the nonce prefix each drew; runs that broke off never got to
   * their final chunk.
   */
  ghost predicate LogFor(log: Log, cipher: Cipher, archives: map<seq<byte>, seq<byte>>) {
    && (forall prefix :: prefix in archives ==> Agrees(log, cipher, prefix, 0, archives[prefix]))
    && (forall n :: n in log && n.prefix !in archives ==> !n.last)
  }

  lemma HeaderFields(keyId: byte, prefix: seq<byte>, body: seq<byte>)
    requires |prefix| == NONCE_PREFIX_LEN
    ensures
      var x := Header(keyId, prefix) + body;
      && |x| >= HEADER_LEN && IsEncrypted(x[..HEADER_LEN]) && IsEncrypted(x)
      && x[|MAGIC| + 1..HEADER_LEN] == prefix && x[HEADER_LEN..] == body && x[|MAGIC|] == keyId
  {
    var h := Header(keyId, prefix);
    var x := h + body;
    assert x[..HEADER_LEN] == h && x[..|MAGIC|] == MAGIC;
    assert h[..|MAGIC|] == MAGIC && h[|MAGIC| + 1..] == prefix;
  }

  /** The bytes are an archive made under this key, except perhaps for the key-id byte. */
  ghost predicate IsArchiveOf(x: seq<byte>, cipher: Cipher, prefix: seq<byte>, p: seq<byte>) {
    |prefix| == NONCE_PREFIX_LEN && exists keyId: byte :: x == Archive(cipher, keyId, prefix, p)
  }

  /** Bytes with an intact header are their header fields put together again. */
  lemma HeaderSplits(x: seq<byte>)
    requires |x| >= HEADER_LEN && IsEncrypted(x[..HEADER_LEN])
    ensures x == Header(x[|MAGIC|], x[|MAGIC| + 1..HEADER_LEN]) + x[HEADER_LEN..]
  {
    assert x[..HEADER_LEN][..|MAGIC|] == x[..|MAGIC|];
    assert x[..|MAGIC|] + [x[|MAGIC|]] + x[|MAGIC| + 1..HEADER_LEN] + x[HEADER_LEN..] == x;
  }

  /**
   * Whatever bytes are fed in: decryption succeeds exactly on the archives made
   * under this key (the key-id byte aside), then yields the plaintext, and never
   * lets out anything but a prefix of the plaintext its nonce prefix belongs to.
   */
  lemma DecodeIff(log: Log, cipher: Cipher, archives: map<seq<byte>, seq<byte>>, x: seq<byte>)
    requires TagSized(cipher) && LogFor(log, cipher, archives)
    ensures
      var d := Decode(log, x);
      && (d.ok <==> exists prefix :: prefix in archives && IsArchiveOf(x, cipher, prefix, archives[prefix])
                                     && CounterSuffices(archives[prefix]))
      && (|x| >= HEADER_LEN && x[|MAGIC| + 1..HEADER_LEN] in archives ==> d.out <= archives[x[|MAGIC| + 1..HEADER_LEN]])
      && (d.ok ==>
            && |x| >= HEADER_LEN && x[|MAGIC| + 1..HEADER_LEN] in archives
            && d.out == archives[x[|MAGIC| + 1..HEADER_LEN]])
  {
    forall prefix | prefix in archives && IsArchiveOf(x, cipher, prefix, archives[prefix])
      ensures |x| >= HEADER_LEN && IsEncrypted(x[..HEADER_LEN]) && x[|MAGIC| + 1..HEADER_LEN] == prefix
      ensures x[HEADER_LEN..] == Body(cipher, prefix, 0, archives[prefix])
    {
      var keyId: byte :| x == Archive(cipher, keyId, prefix, archives[prefix]);
      HeaderFields(keyId, prefix, Body(cipher, prefix, 0, archives[prefix]));
    }
    if |x| >= HEADER_LEN && IsEncrypted(x[..HEADER_LEN]) {
      var prefix := x[|MAGIC| + 1..HEADER_LEN];
      if prefix in archives {
        DecodeBodyIff(log, cipher, prefix, 0, archives[prefix], x[HEADER_LEN..]);
        HeaderSplits(x);
        assert x[HEADER_LEN..] == Body(cipher, prefix, 0, archives[prefix]) ==>
            x == Archive(cipher, x[|MAGIC|], prefix, archives[prefix]);
      } else {
        var end := BrokenRunOutput(log, prefix, 0, x[HEADER_LEN..]);
      }
    }
  }

  /** Chunks `ctr` up to `end` were sealed under this prefix, none as a last one. */
  ghost predicate SealedUpTo(log: Log, prefix: seq<byte>, ctr: nat, end: nat) {
    ctr <= end && forall i :: ctr <= i < end ==> Nonce(prefix, i, false) in log
  }

  /** Their plaintexts, in counter order. */
  ghost function SealedText(log: Log, prefix: seq<byte>, ctr: nat, end: nat): seq<byte>
    requires SealedUpTo(log, prefix, ctr, end)
    decreases end - ctr
  {
    if ctr == end then [] else log[Nonce(prefix, ctr, false)].plain + SealedText(log, prefix, ctr + 1, end)
  }

  /** Under a prefix whose run broke off, what comes out are its first chunks, in order. */
  lemma {:induction false} BrokenRunOutput(log: Log, prefix: seq<byte>, ctr: nat, c: seq<byte>) returns (end: nat)
    requires forall n :: n in log && n.prefix == prefix ==> !n.last
    ensures SealedUpTo(log, prefix, ctr, end)
    ensures DecodeBody(log, prefix, ctr, c) == Decoded(SealedText(log, prefix, ctr, end), false)
    decreases |c|
  {
    end := ctr;
    var part := Nonce(prefix, ctr, false);
    if |c| > ENC_CHUNK && ctr != COUNTER_MAX && Open(log, part, c[..ENC_CHUNK]).Some? {
      end := BrokenRunOutput(log, prefix, ctr + 1, c[ENC_CHUNK..]);
    }
  }

  /** No chunk with a counter from `from` on was ever sealed under this prefix. */
  ghost predicate Unused(log: Log, prefix: seq<byte>, from: nat) {
    forall n :: n in log && n.prefix == prefix ==> n.counter < from
  }

  /** A run that broke off: it added chunks under its own prefix, none of them final. */
  ghost predicate BrokeOff(log0: Log, log: Log, prefix: seq<byte>) {
    && (forall n :: n in log0 ==> n in log && log[n] == log0[n])
    && (forall n :: n in log && n !in log0 ==> n.prefix == prefix && !n.last)
  }

  lemma UnusedIsNew(log: Log, cipher: Cipher, archives: map<seq<byte>, seq<byte>>, prefix: seq<byte>)
    requires LogFor(log, cipher, archives) && Unused(log, prefix, 0)
    ensures prefix !in archives
  {
    if prefix in archives {
      var p := archives[prefix];
      var n := Nonce(prefix, 0, NumChunks(|p|) == 1);
      SealedNonces(cipher, prefix, 0, p, n);
    }
  }

  /** Completed runs keep the log accounted for, ... */
  lemma CompletedRunLogged(log: Log, cipher: Cipher, archives: map<seq<byte>, seq<byte>>, prefix: seq<byte>,
                           p: seq<byte>)
    requires LogFor(log, cipher, archives) && Unused(log, prefix, 0)
    ensures LogFor(log + LogOf(cipher, prefix, 0, p), cipher, archives[prefix := p])
  {
    UnusedIsNew(log, cipher, archives, prefix);
    var more := LogOf(cipher, prefix, 0, p);
    forall n ensures n in more ==> n.prefix == prefix {
      SealedNonces(cipher, prefix, 0, p, n);
    }
    forall q | q in archives ensures Agrees(log + more, cipher, q, 0, archives[q]) {
      assert Agrees(log, cipher, q, 0, archives[q]);
    }
    assert Agrees(log + more, cipher, prefix, 0, p);
  }

  /** ... and so do broken-off ones. */
  lemma BrokenRunLogged(log0: Log, log: Log, cipher: Cipher, archives: map<seq<byte>, seq<byte>>, prefix: seq<byte>)
    requires LogFor(log0, cipher, archives) && Unused(log0, prefix, 0) && BrokeOff(log0, log, prefix)
    ensures LogFor(log, cipher, archives)
  {
    UnusedIsNew(log0, cipher, archives, prefix);
    forall q | q in archives ensures Agrees(log, cipher, q, 0, archives[q]) {
      assert Agrees(log0, cipher, q, 0, archives[q]);
    }
  }

  /** Decrypting what was encrypted gives the plaintext back, for every plaintext the counter can number. */
  lemma DecryptEncrypt(log: Log, cipher: Cipher, archives: map<seq<byte>, seq<byte>>, keyId: byte, prefix: seq<byte>)
    requires TagSized(cipher) && LogFor(log, cipher, archives)
    requires prefix in archives && |prefix| == NONCE_PREFIX_LEN && CounterSuffices(archives[prefix])
    ensures Decode(log, Archive(cipher, keyId, prefix, archives[prefix])) == Decoded(archives[prefix], true)
  {
    var x := Archive(cipher, keyId, prefix, archives[prefix]);
    HeaderFields(keyId, prefix, Body(cipher, prefix, 0, archives[prefix]));
    DecodeBodyIff(log, cipher, prefix, 0, archives[prefix], x[HEADER_LEN..]);
  }

  /** An archive cut short anywhere is refused, after letting out at most a prefix of its plaintext. */
  lemma TruncationDetected(log: Log, cipher: Cipher, archives: map<seq<byte>, seq<byte>>, keyId: byte,
                           prefix: seq<byte>, len: nat)
    requires TagSized(cipher) && LogFor(log, cipher, archives) && prefix in archives && |prefix| == NONCE_PREFIX_LEN
    requires len < |Archive(cipher, keyId, prefix, archives[prefix])|
    ensures
      var d := Decode(log, Archive(cipher, keyId, prefix, archives[prefix])[..len]);
      !d.ok && d.out <= archives[prefix]
  {
    var a := Archive(cipher, keyId, prefix, archives[prefix]);
    var x := a[..len];
    DecodeIff(log, cipher, archives, x);
    HeaderFields(keyId, prefix, Body(cipher, prefix, 0, archives[prefix]));
    if len >= HEADER_LEN {
      assert x[|MAGIC| + 1..HEADER_LEN] == prefix;
      DecodeBodyIff(log, cipher, prefix, 0, archives[prefix], x[HEADER_LEN..]);
    }
  }

  /**
   * Bytes that differ from an archive in more than the key-id byte are refused,
   * unless they are, in full, another archive made under the same key. With the
   * nonce prefix intact at most a prefix of the plaintext comes out before; with
   * the prefix of another archive, of that one's; with the prefix of a run that
   * broke off, the first chunks of that run; with any other prefix nothing.
   */
  lemma TamperingDetected(log: Log, cipher: Cipher, archives: map<seq<byte>, seq<byte>>, keyId: byte,
                          prefix: seq<byte>, x: seq<byte>)
    requires TagSized(cipher) && LogFor(log, cipher, archives) && prefix in archives && |prefix| == NONCE_PREFIX_LEN
    requires forall k: byte :: x != Archive(cipher, k, prefix, archives[prefix])
    requires forall other :: other in archives && other != prefix ==> !IsArchiveOf(x, cipher, other, archives[other])
    ensures
      var d := Decode(log, x);
      && !d.ok
      && (|x| < HEADER_LEN || !IsEncrypted(x[..HEADER_LEN]) ==> d.out == [])
      && (|x| >= HEADER_LEN && IsEncrypted(x[..HEADER_LEN]) ==>
            var own := x[|MAGIC| + 1..HEADER_LEN];
            && (own == prefix ==> d.out <= archives[prefix])
            && (own in archives ==> d.out <= archives[own])
            && (own !in archives ==>
                  exists end :: SealedUpTo(log, own, 0, end) && d.out == SealedText(log, own, 0, end))
            && (Nonce(own, 0, false) !in log && Nonce(own, 0, true) !in log ==> d.out == []))
  {
    DecodeIff(log, cipher, archives, x);
    hide IsArchiveOf, Archive, LogOf;
    if |x| >= HEADER_LEN && IsEncrypted(x[..HEADER_LEN]) {
      var own := x[|MAGIC| + 1..HEADER_LEN];
      if own !in archives {
        var end := BrokenRunOutput(log, own, 0, x[HEADER_LEN..]);
      }
    }
  }
}

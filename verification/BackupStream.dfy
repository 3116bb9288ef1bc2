/**
 * `encrypt_stream` and `decrypt_stream` as they run: two chunk buffers with one
 * chunk of look-ahead, over readers that may return fewer bytes than asked for.
 */
module BackupStream {
  import opened Prelude
  import opened BackupCrypto

  datatype ReadOutcome = Got(n: nat) | Interrupted | Failed

  datatype StreamError = ReadFailed | WriteFailed | TruncatedHeader | NotEncrypted | AuthFailed | RngFailed

  /** A byte source. Each call returns any positive number of the bytes that are left and fit. */
  class Reader {
    const data: seq<byte>
    const mayFail: bool
    var pos: nat
    /** How many more calls may be interrupted before one gets through. */
    var interrupts: nat

    ghost predicate Valid()
      reads this
    {
      pos <= |data|
    }

    constructor (data: seq<byte>, interrupts: nat, mayFail: bool)
      ensures Valid() && this.data == data && pos == 0 && this.interrupts == interrupts && this.mayFail == mayFail
    {
      this.data := data;
      this.mayFail := mayFail;
      this.pos := 0;
      this.interrupts := interrupts;
    }

    ghost function Left(): seq<byte>
      requires Valid()
      reads this
    {
      data[pos..]
    }

    method Read(buf: array<byte>, from: nat) returns (r: ReadOutcome)
      requires Valid() && from <= buf.Length
      modifies this`pos, this`interrupts, buf
      ensures Valid() && buf[..from] == old(buf[..from])
      ensures r.Got? ==>
                && from + r.n <= buf.Length && old(pos) + r.n == pos
                && buf[from..from + r.n] == data[old(pos)..pos]
                && (r.n == 0 ==> from == buf.Length || pos == |data|)
                && interrupts == old(interrupts)
      ensures !r.Got? ==> pos == old(pos)
      ensures r.Interrupted? ==> interrupts < old(interrupts)
      ensures r.Failed? ==> mayFail
    {
      var event: nat := *;
      if event == 1 && interrupts > 0 {
        interrupts := interrupts - 1;
        return Interrupted;
      }
      if event == 2 && mayFail {
        return Failed;
      }
      var most := Min(buf.Length - from, |data| - pos);
      var n: int := *;
      if n < 0 || n > most || (n == 0 && most > 0) {
        n := most;
      }
      forall i | 0 <= i < n {
        buf[from + i] := data[pos + i];
      }
      pos := pos + n;
      r := Got(n);
    }
  }

  /** A byte sink; a failing write may have stored some leading bytes. */
  class Writer {
    const mayFail: bool
    var out: seq<byte>

    constructor (mayFail: bool)
      ensures out == [] && this.mayFail == mayFail
    {
      this.mayFail := mayFail;
      this.out := [];
    }

    method WriteAll(bytes: seq<byte>) returns (ok: bool)
      modifies this`out
      ensures ok ==> out == old(out) + bytes
      ensures !ok ==> mayFail && exists k :: 0 <= k <= |bytes| && out == old(out) + bytes[..k]
    {
      var failing: bool := *;
      if mayFail && failing {
        var k: int := *;
        if k < 0 || k > |bytes| {
          k := 0;
        }
        out := out + bytes[..k];
        return false;
      }
      out := out + bytes;
      ok := true;
    }
  }

  /** The ideal AEAD under one key, remembering what it sealed. */
  class Aead {
    const cipher: Cipher
    var log: Log

    ghost predicate Valid()
      reads this
    {
      TagSized(cipher)
    }

    constructor (cipher: Cipher)
      requires TagSized(cipher)
      ensures Valid() && this.cipher == cipher && log == map[]
    {
      this.cipher := cipher;
      this.log := map[];
    }

    /** A nonce must never be used twice under one key. */
    method Seal(n: Nonce, p: seq<byte>) returns (c: seq<byte>)
      requires Valid() && n !in log
      modifies this`log
      ensures c == cipher(n, p) && log == old(log)[n := Sealed(p, c)]
    {
      c := cipher(n, p);
      log := log[n := Sealed(p, c)];
    }
  }

  /** Fill `buf` or reach the end: exactly the next bytes of the source, however it portions them out. */
  method ReadFull(reader: Reader, buf: array<byte>) returns (r: Result<nat, StreamError>)
    requires reader.Valid()
    modifies reader`pos, reader`interrupts, buf
    ensures reader.Valid()
    ensures r.Ok? ==>
              && r.value == Min(buf.Length, |old(reader.Left())|)
              && buf[..r.value] == old(reader.Left())[..r.value]
              && reader.pos == old(reader.pos) + r.value
    ensures r.Err? ==> reader.mayFail && r.error == ReadFailed
  {
    var filled := 0;
    while filled < buf.Length
      invariant reader.Valid() && 0 <= filled <= buf.Length && reader.pos == old(reader.pos) + filled
      invariant buf[..filled] == reader.data[old(reader.pos)..reader.pos]
      decreases buf.Length - filled, reader.interrupts
    {
      ghost var had := buf[..filled];
      ghost var p := reader.pos;
      var got := reader.Read(buf, filled);
      match got {
        case Got(n) =>
          assert buf[..filled + n] == buf[..filled] + buf[filled..filled + n];
          assert reader.data[old(reader.pos)..p + n] == reader.data[old(reader.pos)..p] + reader.data[p..p + n];
          if n == 0 {
            break;
          }
          filled := filled + n;
        case Interrupted =>
        case Failed =>
          return Err(ReadFailed);
      }
    }
    r := Ok(filled);
  }

  /** `rest` is still to be sealed from counter `ctr` on; what is written and sealed so far completes to the whole. */
  ghost predicate Pending(cipher: Cipher, prefix: seq<byte>, ctr: nat, rest: seq<byte>, total: nat,
                          out: seq<byte>, log: Log, whole: seq<byte>, sealed: Log) {
    && ctr + NumChunks(|rest|) == total
    && Unused(log, prefix, ctr)
    && whole == out + Body(cipher, prefix, ctr, rest)
    && sealed == log + LogOf(cipher, prefix, ctr, rest)
  }

  lemma PendingStart(cipher: Cipher, keyId: byte, prefix: seq<byte>, p: seq<byte>, out: seq<byte>, log: Log)
    requires Unused(log, prefix, 0)
    ensures Pending(cipher, prefix, 0, p, NumChunks(|p|), out + Header(keyId, prefix), log,
                    out + Archive(cipher, keyId, prefix, p), log + LogOf(cipher, prefix, 0, p))
  {}

  method WriteHeader(writer: Writer, keyId: byte, prefix: seq<byte>) returns (ok: bool)
    modifies writer`out
    ensures ok ==> writer.out == old(writer.out) + Header(keyId, prefix)
    ensures !ok ==> writer.mayFail
  {
    ok := writer.WriteAll(MAGIC);
    if ok {
      ok := writer.WriteAll([keyId]);
    }
    if ok {
      ok := writer.WriteAll(prefix);
    }
  }

  lemma PendingNext(cipher: Cipher, prefix: seq<byte>, ctr: nat, rest: seq<byte>, total: nat,
                    out: seq<byte>, log: Log, whole: seq<byte>, sealed: Log)
    requires Pending(cipher, prefix, ctr, rest, total, out, log, whole, sealed) && |rest| > CHUNK
    ensures
      var n := Nonce(prefix, ctr, false);
      var c := cipher(n, rest[..CHUNK]);
      && n !in log
      && Pending(cipher, prefix, ctr + 1, rest[CHUNK..], total, out + c, log[n := Sealed(rest[..CHUNK], c)],
                 whole, sealed)
  {
    var n := Nonce(prefix, ctr, false);
    var c := cipher(n, rest[..CHUNK]);
    var tail := Body(cipher, prefix, ctr + 1, rest[CHUNK..]);
    assert out + (c + tail) == out + c + tail;
    var s, more := Sealed(rest[..CHUNK], c), LogOf(cipher, prefix, ctr + 1, rest[CHUNK..]);
    assert log + (map[n := s] + more) == log[n := s] + more;
  }

  lemma PendingTooLong(cipher: Cipher, prefix: seq<byte>, ctr: nat, rest: seq<byte>, total: nat,
                       out: seq<byte>, log: Log, whole: seq<byte>, sealed: Log)
    requires Pending(cipher, prefix, ctr, rest, total, out, log, whole, sealed) && |rest| > CHUNK
    ensures total >= ctr + 2
  {}

  lemma BrokeOffStart(log: Log, prefix: seq<byte>)
    ensures BrokeOff(log, log, prefix)
  {}

  lemma BrokeOffNext(log0: Log, log: Log, n: Nonce, s: Sealed)
    requires BrokeOff(log0, log, n.prefix) && n !in log && !n.last
    ensures BrokeOff(log0, log[n := s], n.prefix)
  {}

  lemma PendingLast(cipher: Cipher, prefix: seq<byte>, ctr: nat, rest: seq<byte>, total: nat,
                    out: seq<byte>, log: Log, whole: seq<byte>, sealed: Log)
    requires Pending(cipher, prefix, ctr, rest, total, out, log, whole, sealed) && |rest| <= CHUNK
    ensures
      var n := Nonce(prefix, ctr, true);
      var c := cipher(n, rest);
      n !in log && whole == out + c && sealed == log[n := Sealed(rest, c)] && ctr + 1 == total
  {
    var n := Nonce(prefix, ctr, true);
    assert log + map[n := Sealed(rest, cipher(n, rest))] == log[n := Sealed(rest, cipher(n, rest))];
  }

  /**
   * Encrypt everything left in `reader`. A successful run writes exactly the
   * archive of the plaintext and seals exactly its chunks; it cannot succeed if
   * the plaintext has more chunks than the counter can number.
   */
  method EncryptStream(reader: Reader, writer: Writer, aead: Aead, keyId: byte, rng: Option<seq<byte>>)
    returns (r: Result<(), StreamError>)
    requires reader.Valid() && aead.Valid()
    requires rng.Some? ==> |rng.value| == NONCE_PREFIX_LEN && Unused(aead.log, rng.value, 0)
    modifies reader`pos, reader`interrupts, writer`out, aead`log
    ensures r.Ok? ==>
              && rng.Some? && CounterSuffices(old(reader.Left()))
              && writer.out == old(writer.out) + Archive(aead.cipher, keyId, rng.value, old(reader.Left()))
              && aead.log == old(aead.log) + LogOf(aead.cipher, rng.value, 0, old(reader.Left()))
    ensures r.Err? && rng.Some? ==>
              || BrokeOff(old(aead.log), aead.log, rng.value)
              || aead.log == old(aead.log) + LogOf(aead.cipher, rng.value, 0, old(reader.Left()))
    ensures r.Err? && rng.Some? && !reader.mayFail && !writer.mayFail ==> !CounterSuffices(old(reader.Left()))
  {
    hide Body, LogOf, TagSized, Archive, Header, Unused, Pending, BrokeOff;
    BrokeOffStart(aead.log, if rng.Some? then rng.value else []);
    if rng.None? {
      return Err(RngFailed);
    }
    var prefix := rng.value;
    ghost var p := reader.Left();
    ghost var whole := writer.out + Archive(aead.cipher, keyId, prefix, p);
    ghost var sealed := aead.log + LogOf(aead.cipher, prefix, 0, p);
    PendingStart(aead.cipher, keyId, prefix, p, writer.out, aead.log);
    var ok := WriteHeader(writer, keyId, prefix);
    if !ok {
      return Err(WriteFailed);
    }

    var cur := new byte[CHUNK];
    var nxt := new byte[CHUNK];
    var first := ReadFull(reader, cur);
    if first.Err? {
      return Err(first.error);
    }
    var n := first.value;
    var ctr := 0;
    ghost var rest := p;
    while true
      invariant cur.Length == CHUNK && nxt.Length == CHUNK && cur != nxt && fresh(cur) && fresh(nxt)
      invariant reader.Valid() && aead.Valid() && 0 <= ctr <= COUNTER_MAX
      invariant n == Min(CHUNK, |rest|) && cur[..n] == rest[..n] && reader.Left() == rest[n..]
      invariant Pending(aead.cipher, prefix, ctr, rest, NumChunks(|p|), writer.out, aead.log, whole, sealed)
      invariant BrokeOff(old(aead.log), aead.log, prefix)
      decreases |rest|
    {
      var more := ReadFull(reader, nxt);
      if more.Err? {
        return Err(more.error);
      }
      var m := more.value;
      if m == 0 {
        assert rest[..n] == rest;
        PendingLast(aead.cipher, prefix, ctr, rest, NumChunks(|p|), writer.out, aead.log, whole, sealed);
        var last := aead.Seal(Nonce(prefix, ctr, true), cur[..n]);
        ok := writer.WriteAll(last);
        if !ok {
          return Err(WriteFailed);
        }
        return Ok(());
      }
      if ctr == COUNTER_MAX {
        PendingTooLong(aead.cipher, prefix, ctr, rest, NumChunks(|p|), writer.out, aead.log, whole, sealed);
        return Err(AuthFailed);
      }
      PendingNext(aead.cipher, prefix, ctr, rest, NumChunks(|p|), writer.out, aead.log, whole, sealed);
      BrokeOffNext(old(aead.log), aead.log, Nonce(prefix, ctr, false),
                   Sealed(rest[..CHUNK], aead.cipher(Nonce(prefix, ctr, false), rest[..CHUNK])));
      var c := aead.Seal(Nonce(prefix, ctr, false), cur[..n]);
      ok := writer.WriteAll(c);
      if !ok {
        return Err(WriteFailed);
      }
      cur, nxt := nxt, cur;
      rest := rest[CHUNK..];
      n := m;
      ctr := ctr + 1;
    }
  }

  /** `rest` is still to be decoded from counter `ctr` on; `d` is the outcome for the whole input, after `base`. */
  ghost predicate Decoding(log: Log, prefix: seq<byte>, ctr: nat, rest: seq<byte>, base: seq<byte>, out: seq<byte>,
                           d: Decoded)
  {
    var tail := DecodeBody(log, prefix, ctr, rest);
    d.ok == tail.ok && base + d.out == out + tail.out
  }

  lemma DecodingNext(log: Log, prefix: seq<byte>, ctr: nat, rest: seq<byte>, base: seq<byte>, out: seq<byte>,
                     d: Decoded)
    requires Decoding(log, prefix, ctr, rest, base, out, d) && |rest| > ENC_CHUNK
    ensures
      var o := Open(log, Nonce(prefix, ctr, false), rest[..ENC_CHUNK]);
      if ctr == COUNTER_MAX || o.None? then !d.ok && base + d.out == out
      else Decoding(log, prefix, ctr + 1, rest[ENC_CHUNK..], base, out + o.value, d) && out + o.value <= base + d.out
  {
    var o := Open(log, Nonce(prefix, ctr, false), rest[..ENC_CHUNK]);
    if ctr < COUNTER_MAX && o.Some? {
      var tail := DecodeBody(log, prefix, ctr + 1, rest[ENC_CHUNK..]).out;
      assert out + (o.value + tail) == out + o.value + tail;
    }
  }

  lemma DecodingLast(log: Log, prefix: seq<byte>, ctr: nat, rest: seq<byte>, base: seq<byte>, out: seq<byte>,
                     d: Decoded)
    requires Decoding(log, prefix, ctr, rest, base, out, d) && |rest| <= ENC_CHUNK
    ensures
      var o := Open(log, Nonce(prefix, ctr, true), rest);
      if o.None? then !d.ok && base + d.out == out else d.ok && base + d.out == out + o.value
  {}

  lemma DecodingPrefix(log: Log, prefix: seq<byte>, ctr: nat, rest: seq<byte>, base: seq<byte>, out: seq<byte>,
                       d: Decoded)
    requires Decoding(log, prefix, ctr, rest, base, out, d)
    ensures out <= base + d.out
  {}

  lemma PartialWrite(out: seq<byte>, bytes: seq<byte>, k: nat, whole: seq<byte>)
    requires k <= |bytes| && out + bytes <= whole
    ensures out + bytes[..k] <= whole
  {
    assert out + bytes[..k] == (out + bytes)[..|out| + k];
  }

  method ReadHeader(reader: Reader) returns (r: Result<seq<byte>, StreamError>)
    requires reader.Valid()
    modifies reader`pos, reader`interrupts
    ensures reader.Valid()
    ensures
      var x := old(reader.Left());
      && (r.Ok? ==> |x| >= HEADER_LEN && IsEncrypted(x[..HEADER_LEN])
                    && r.value == x[|MAGIC| + 1..HEADER_LEN] && reader.Left() == x[HEADER_LEN..])
      && (r.Err? ==> reader.mayFail || |x| < HEADER_LEN || !IsEncrypted(x[..HEADER_LEN]))
  {
    var header := new byte[HEADER_LEN];
    var got := ReadFull(reader, header);
    if got.Err? {
      return Err(got.error);
    }
    if got.value != HEADER_LEN {
      return Err(TruncatedHeader);
    }
    ghost var x := old(reader.Left());
    assert header[..] == header[..HEADER_LEN] == x[..HEADER_LEN];
    if !IsEncrypted(header[..]) {
      return Err(NotEncrypted);
    }
    assert header[|MAGIC| + 1..] == x[..HEADER_LEN][|MAGIC| + 1..];
    r := Ok(header[|MAGIC| + 1..]);
  }

  /**
   * Decrypt everything left in `reader`: success and output are those of
   * `Decode`, and a run that fails for any reason has written only a prefix of
   * that output.
   */
  method DecryptStream(reader: Reader, writer: Writer, aead: Aead) returns (r: Result<(), StreamError>)
    requires reader.Valid() && aead.Valid()
    modifies reader`pos, reader`interrupts, writer`out
    ensures
      var d := Decode(aead.log, old(reader.Left()));
      && (r.Ok? ==> d.ok && writer.out == old(writer.out) + d.out)
      && (r.Err? ==> old(writer.out) <= writer.out <= old(writer.out) + d.out)
      && (r.Err? && !reader.mayFail && !writer.mayFail ==> !d.ok && writer.out == old(writer.out) + d.out)
  {
    hide DecodeBody, TagSized, Decoding, Open;
    ghost var d := Decode(aead.log, reader.Left());
    ghost var base := writer.out;
    var header := ReadHeader(reader);
    if header.Err? {
      assert base + [] == base;
      return Err(header.error);
    }
    var prefix := header.value;
    ghost var rest := reader.Left();
    DecodingStart(aead.log, prefix, rest, base);
    var cur := new byte[ENC_CHUNK];
    var nxt := new byte[ENC_CHUNK];
    var first := ReadFull(reader, cur);
    if first.Err? {
      return Err(first.error);
    }
    var n := first.value;
    var ctr := 0;
    while true
      invariant cur.Length == ENC_CHUNK && nxt.Length == ENC_CHUNK && cur != nxt && fresh(cur) && fresh(nxt)
      invariant reader.Valid() && aead.log == old(aead.log) && 0 <= ctr <= COUNTER_MAX
      invariant n == Min(ENC_CHUNK, |rest|) && cur[..n] == rest[..n] && reader.Left() == rest[n..]
      invariant Decoding(aead.log, prefix, ctr, rest, base, writer.out, d)
      invariant base <= writer.out
      decreases |rest|
    {
      DecodingPrefix(aead.log, prefix, ctr, rest, base, writer.out, d);
      var more := ReadFull(reader, nxt);
      if more.Err? {
        return Err(more.error);
      }
      var m := more.value;
      if m == 0 {
        assert rest[..n] == rest;
        DecodingLast(aead.log, prefix, ctr, rest, base, writer.out, d);
        var last := Open(aead.log, Nonce(prefix, ctr, true), cur[..n]);
        if last.None? {
          return Err(AuthFailed);
        }
        r := Emit(writer, last.value, base + d.out);
        return;
      }
      DecodingNext(aead.log, prefix, ctr, rest, base, writer.out, d);
      if ctr == COUNTER_MAX {
        return Err(AuthFailed);
      }
      var p := Open(aead.log, Nonce(prefix, ctr, false), cur[..n]);
      if p.None? {
        return Err(AuthFailed);
      }
      r := Emit(writer, p.value, base + d.out);
      if r.Err? {
        return;
      }
      cur, nxt := nxt, cur;
      rest := rest[ENC_CHUNK..];
      n := m;
      ctr := ctr + 1;
    }
  }

  /** Write `bytes`, which continue a prefix of `whole`. */
  method Emit(writer: Writer, bytes: seq<byte>, ghost whole: seq<byte>) returns (r: Result<(), StreamError>)
    requires writer.out + bytes <= whole
    modifies writer`out
    ensures r.Ok? ==> writer.out == old(writer.out) + bytes
    ensures r.Err? ==> writer.mayFail
    ensures old(writer.out) <= writer.out <= whole
  {
    ghost var before := writer.out;
    var ok := writer.WriteAll(bytes);
    if !ok {
      ghost var k :| 0 <= k <= |bytes| && writer.out == before + bytes[..k];
      PartialWrite(before, bytes, k, whole);
      return Err(WriteFailed);
    }
    r := Ok(());
  }

  lemma DecodingStart(log: Log, prefix: seq<byte>, rest: seq<byte>, base: seq<byte>)
    ensures Decoding(log, prefix, 0, rest, base, base, DecodeBody(log, prefix, 0, rest))
  {}
}

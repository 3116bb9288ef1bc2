/** Backups end to end: archive, optionally encrypt, decrypt, extract. */
module Backup {
  import opened Prelude
  import opened FileTree
  import opened FileSystems
  import opened ExtractSpec
  import opened ZipTree
  import opened RoundTrip
  import opened BackupCrypto
  import Stream = BackupStream
  import SafeFs

  const MAX_EXTRACT_BYTES: u64 := 20 * 1024 * 1024 * 1024
  const MAX_EXTRACT_ENTRIES: nat := 200_000

  /** The zip container: how members become bytes and what a reader finds in any bytes. */
  datatype ZipFormat = ZipFormat(encode: seq<ZipItem> -> seq<byte>, decode: seq<byte> -> Option<seq<ZipEntry>>)

  /**
   * Members of distinct names come back as written, and a zip does not start like
   * an encrypted backup (it starts with "PK").
   */
  ghost predicate Faithful(z: ZipFormat) {
    forall items :: Readable(items) && DistinctNames(items) ==>
      z.decode(z.encode(items)) == Some(ReadAll(items)) && !IsEncrypted(z.encode(items))
  }

  datatype BackupError =
    | Zipping(zip: ZipError) | Encrypting(e: Stream.StreamError) | KeyRequired | Decrypting(e: Stream.StreamError)
    | NotAZip | NoServerDir | Extracting(x: SafeFs.ExtractError)

  /** The plaintext bytes behind a stored archive, given what was sealed under the supplied key. */
  ghost function Plaintext(log: Option<Log>, stored: seq<byte>): Option<seq<byte>> {
    if !IsEncrypted(stored) then Some(stored)
    else if log.None? then None
    else
      var d := Decode(log.value, stored);
      if d.ok then Some(d.out) else None
  }

  /** What storing a zip leaves on disk: the zip itself, or its encryption under the given key. */
  ghost predicate Stores(stored: seq<byte>, zip: seq<byte>, cipher: Option<Cipher>, keyId: byte,
                         prefix: Option<seq<byte>>)
  {
    if cipher.None? then stored == zip
    else prefix.Some? && |prefix.value| == NONCE_PREFIX_LEN && CounterSuffices(zip)
         && stored == Archive(cipher.value, keyId, prefix.value, zip)
  }

  /** `write_backup_archive`: zip the tree and, with a key, encrypt the zip. */
  method WriteBackupArchive(fs: FileSystem, source: Path, key: Option<Stream.Aead>, keyId: byte,
                            rng: Option<seq<byte>>, z: ZipFormat)
    returns (r: Result<seq<byte>, BackupError>, ghost items: seq<ZipItem>, ghost paths: seq<Path>)
    requires fs.Valid()
    requires key.Some? ==> key.value.Valid()
    requires key.Some? && rng.Some? ==> |rng.value| == NONCE_PREFIX_LEN && Unused(key.value.log, rng.value, 0)
    modifies if key.Some? then {key.value} else {}
    ensures r.Ok? ==>
              && DistinctNames(items)
              && Lists(paths, ViewOf(fs.disk), source, {}) && Renders(items, paths, ViewOf(fs.disk), source)
              && Stores(r.value, z.encode(items), if key.Some? then Some(key.value.cipher) else None, keyId, rng)
    ensures r.Ok? && key.Some? ==>
              rng.Some? && key.value.log == old(key.value.log) + LogOf(key.value.cipher, rng.value, 0, z.encode(items))
    ensures r.Err? && !fs.faults.read && IsDir(fs.disk.tree, source) && DistinctlyNamed(ViewOf(fs.disk), source, {}) ==>
              && key.Some?
              && Lists(paths, ViewOf(fs.disk), source, {}) && Renders(items, paths, ViewOf(fs.disk), source)
              && (rng.None? || !CounterSuffices(z.encode(items)))
  {
    hide DistinctNames, DistinctlyNamed, Lists, Renders, ViewOf;
    var zipWriter := new ZipWriter();
    NothingRendered(ViewOf(fs.disk), source);
    var zipped;
    items := [];
    zipped, paths := ZipTree.ZipTree(zipWriter, fs, source, source, {}, []);
    if zipped.Err? {
      return Err(Zipping(zipped.error)), items, paths;
    }
    assert [] + paths == paths;
    items := zipWriter.items;
    var zip := z.encode(zipWriter.items);
    if key.None? {
      return Ok(zip), items, paths;
    }
    var reader := new Stream.Reader(zip, 0, false);
    var writer := new Stream.Writer(false);
    assert reader.Left() == zip;
    var done := Stream.EncryptStream(reader, writer, key.value, keyId, rng);
    if done.Err? {
      return Err(Encrypting(done.error)), items, paths;
    }
    r := Ok(writer.out);
  }

  lemma NothingRendered(v: View, base: Path)
    ensures Renders([], [], v, base)
  {}

  /** `open_plaintext_archive`: decrypt if the magic says so, else pass through. */
  method OpenPlaintextArchive(stored: seq<byte>, key: Option<Stream.Aead>) returns (r: Result<seq<byte>, BackupError>)
    requires key.Some? ==> key.value.Valid()
    ensures
      var p := Plaintext(if key.Some? then Some(key.value.log) else None, stored);
      && (r.Ok? <==> p.Some?) && (r.Ok? ==> r.value == p.value)
  {
    if !IsEncrypted(stored) {
      return Ok(stored);
    }
    if key.None? {
      return Err(KeyRequired);
    }
    var reader := new Stream.Reader(stored, 0, false);
    var writer := new Stream.Writer(false);
    assert reader.Left() == stored;
    var done := Stream.DecryptStream(reader, writer, key.value);
    if done.Err? {
      return Err(Decrypting(done.error));
    }
    r := Ok(writer.out);
  }

  /** Opening a stored archive with the key it was made under gives the zip back, with or without encryption. */
  lemma OpensToZip(stored: seq<byte>, zip: seq<byte>, key: Option<Cipher>, keyId: byte, prefix: Option<seq<byte>>,
                   log: Option<Log>, archives: map<seq<byte>, seq<byte>>)
    requires Stores(stored, zip, key, keyId, prefix) && !IsEncrypted(zip) && log.Some? == key.Some?
    requires key.Some? ==>
               && TagSized(key.value) && LogFor(log.value, key.value, archives)
               && prefix.value in archives && archives[prefix.value] == zip
    ensures Plaintext(log, stored) == Some(zip)
  {
    if key.Some? {
      DecryptEncrypt(log.value, key.value, archives, keyId, prefix.value);
      HeaderFields(keyId, prefix.value, Body(key.value, prefix.value, 0, zip));
    }
  }

  /** `restore_backup`: open, read the zip, extract into the server directory under the default limits. */
  method RestoreBackup(fs: FileSystem, dest: Path, stored: seq<byte>, key: Option<Stream.Aead>, z: ZipFormat)
    returns (r: Result<Stats, BackupError>)
    requires fs.Valid() && (key.Some? ==> key.value.Valid())
    modifies fs`disk, fs`trace
    ensures fs.Valid() && SafeFs.Confined(old(fs.disk), fs.disk, dest)
    ensures !IsDir(old(fs.disk).tree, dest) ==> r == Err(NoServerDir) && fs.disk == old(fs.disk)
    ensures r.Ok? ==>
              var p := Plaintext(if key.Some? then Some(key.value.log) else None, stored);
              && p.Some? && z.decode(p.value).Some? && |z.decode(p.value).value| <= MAX_EXTRACT_ENTRIES
              && Extracted(old(fs.disk), fs.disk, dest, z.decode(p.value).value)
    ensures r.Err? && IsDir(old(fs.disk).tree, dest) && !fs.faults.write && !fs.faults.stat ==>
              var p := Plaintext(if key.Some? then Some(key.value.log) else None, stored);
              || p.None? || z.decode(p.value).None? || |z.decode(p.value).value| > MAX_EXTRACT_ENTRIES
              || !Extractable(old(fs.disk), dest, z.decode(p.value).value)
              || r.error == Extracting(SafeFs.WriteFailed(NoTempName))
    ensures !fs.faults.stat ==> forall p :: p in old(fs.disk).tree ==> p in fs.disk.tree
    ensures r.Err? && !fs.faults.stat && !fs.faults.remove ==> SafeFs.SameNames(old(fs.disk).tree, fs.disk.tree)
  {
    SafeFs.ConfinedRefl(fs.disk);
    if !IsDir(fs.disk.tree, dest) {
      return Err(NoServerDir);
    }
    CanonicalReal(fs.disk.tree, dest);
    var plain := OpenPlaintextArchive(stored, key);
    if plain.Err? {
      return Err(plain.error);
    }
    var entries := z.decode(plain.value);
    if entries.None? {
      return Err(NotAZip);
    }
    ghost var d0 := fs.disk;
    var done;
    ghost var broke;
    done, broke := SafeFs.ExtractZip(fs, Comps(dest), entries.value, MAX_EXTRACT_BYTES, MAX_EXTRACT_ENTRIES);
    if done.Err? {
      return Err(Extracting(done.error));
    }
    r := Ok(done.value);
  }

  ghost predicate Extractable(d: Disk, dest: Path, es: seq<ZipEntry>) {
    ExtractAll(ViewOf(d), dest, es, MAX_EXTRACT_BYTES, Stats(0, 0)).Done?
  }

  ghost predicate Extracted(d0: Disk, d: Disk, dest: Path, es: seq<ZipEntry>) {
    var out := ExtractAll(ViewOf(d0), dest, es, MAX_EXTRACT_BYTES, Stats(0, 0));
    out.Done? && out.view == ViewOf(d)
  }

  /** At most 200,000 entries and 20 GiB. */
  ghost predicate WithinLimits(a: map<Path, Item>) {
    |a| <= 200_000 && TreeBytes(a) <= 21_474_836_480
  }

  /** The chunk counter can number every zip of the tree. */
  ghost predicate Countable(z: ZipFormat, v: View, source: Path) {
    forall items, paths :: Lists(paths, v, source, {}) && Renders(items, paths, v, source) ==>
      CounterSuffices(z.encode(items))
  }

  /**
   * A backup of `source`, with or without a key, restored into `dest`.
   *
   * If the target clashes with nothing and no system call fails, a restorable tree
   * within the extraction limits is restored (short of eight temp names in a row
   * being taken), and one beyond them is not. After a restore that succeeds, `dest`
   * holds exactly the restorable part of the source if and only if it was compatible
   * with it before; in particular whenever it was empty.
   */
  method BackupAndRestore(src: FileSystem, source: Path, dst: FileSystem, dest: Path, key: Option<Stream.Aead>,
                          keyId: byte, rng: Option<seq<byte>>, z: ZipFormat, ghost archives: map<seq<byte>, seq<byte>>)
    returns (r: Result<Stats, BackupError>)
    requires src.Valid() && dst.Valid() && src != dst
    requires Faithful(z) && PlainTree(ViewOf(src.disk), source, {}) && SmallTree(ViewOf(src.disk), source)
    requires key.Some? ==> key.value.Valid() && LogFor(key.value.log, key.value.cipher, archives)
    requires key.Some? && rng.Some? ==> |rng.value| == NONCE_PREFIX_LEN && Unused(key.value.log, rng.value, 0)
    modifies dst`disk, dst`trace, if key.Some? then {key.value} else {}
    ensures
      var a, before := Restorable(ViewOf(src.disk), source, {}), old(Subtree(ViewOf(dst.disk), dest));
      && (WithinLimits(a) && NoClash(before, a)
          && !src.faults.read && IsDir(src.disk.tree, source)
          && !dst.faults.write && !dst.faults.stat && IsDir(old(dst.disk).tree, dest)
          && (key.Some? ==> rng.Some? && Countable(z, ViewOf(src.disk), source)) ==>
            r.Ok? || r == Err(Extracting(SafeFs.WriteFailed(NoTempName))))
      && (r.Ok? && NoClash(before, a) ==> WithinLimits(a))
      && (r.Ok? ==> (Subtree(ViewOf(dst.disk), dest) == a <==> Compatible(before, a)))
      && (r.Ok? && before == map[] ==> Subtree(ViewOf(dst.disk), dest) == a)
      && (r.Err? && !dst.faults.stat && !dst.faults.remove ==> SafeFs.SameNames(old(dst.disk).tree, dst.disk.tree))
  {
    hide ViewOf, Lists, Renders, PlainTree, Readable, LogFor, Plaintext, Restorable, Subtree, Compatible, Faithful;
    hide SmallTree, Unused, IsEncrypted, Stores, ValidDisk, TagSized, Extracted, Extractable, ReadAll, LogOf;
    hide DistinctNames, DistinctlyNamed, Countable, NoClash, WithinLimits, SafeFs.SameNames, SafeFs.Confined;
    ghost var log0: Log := if key.Some? then key.value.log else map[];
    var stored;
    ghost var items, paths;
    PlainTreeDistinct(ViewOf(src.disk), source);
    SafeFs.NothingLost(dst.disk.tree, dst.trace);
    stored, items, paths := WriteBackupArchive(src, source, key, keyId, rng, z);
    if stored.Err? {
      CountableAt(z, ViewOf(src.disk), source, items, paths);
      return Err(stored.error);
    }
    ReadableItems(ViewOf(src.disk), source, items, paths);
    ghost var zip := z.encode(items);
    FaithfulAt(z, items);
    if key.Some? {
      CompletedRunLogged(log0, key.value.cipher, archives, rng.value, zip);
    }
    OpensToZip(stored.value, zip, if key.Some? then Some(key.value.cipher) else None, keyId, rng,
               if key.Some? then Some(key.value.log) else None,
               if key.Some? then archives[rng.value := zip] else map[]);
    ghost var d0 := dst.disk;
    if IsDir(d0.tree, dest) {
      RestorableIff(src.disk, source, items, paths, d0, dest);
    }
    r := RestoreBackup(dst, dest, stored.value, key, z);
    if r.Ok? {
      RestoredIff(src.disk, source, items, paths, d0, dst.disk, dest);
    }
  }

  lemma FaithfulAt(z: ZipFormat, items: seq<ZipItem>)
    requires Faithful(z) && Readable(items) && DistinctNames(items)
    ensures z.decode(z.encode(items)) == Some(ReadAll(items)) && !IsEncrypted(z.encode(items))
  {}

  lemma CountableAt(z: ZipFormat, v: View, source: Path, items: seq<ZipItem>, paths: seq<Path>)
    ensures Countable(z, v, source) && Lists(paths, v, source, {}) && Renders(items, paths, v, source) ==>
              CounterSuffices(z.encode(items))
  {}

  lemma PlainTreeDistinct(v: View, source: Path)
    requires PlainTree(v, source, {})
    ensures DistinctlyNamed(v, source, {})
  {
    PlainDistinct(v, source, {});
  }

  /** On a target without a clash, an archive of the tree is extractable exactly within the limits. */
  lemma RestorableIff(src: Disk, source: Path, items: seq<ZipItem>, paths: seq<Path>, d0: Disk, dest: Path)
    requires ValidDisk(src) && Lists(paths, ViewOf(src), source, {}) && Renders(items, paths, ViewOf(src), source)
    requires PlainTree(ViewOf(src), source, {}) && Readable(items) && IsDir(d0.tree, dest)
    ensures
      var a := Restorable(ViewOf(src), source, {});
      NoClash(Subtree(ViewOf(d0), dest), a) ==>
        (|ReadAll(items)| <= MAX_EXTRACT_ENTRIES && Extractable(d0, dest, ReadAll(items)) <==> WithinLimits(a))
  {
    hide Lists, Renders, PlainTree, Readable, Restorable, NoClash, Subtree, TreeBytes, ExtractAll;
    ArchiveRoundTrip(src, source, {}, items, paths, ViewOf(d0), dest, MAX_EXTRACT_BYTES);
  }

  lemma RestoredIff(src: Disk, source: Path, items: seq<ZipItem>, paths: seq<Path>, d0: Disk, d: Disk, dest: Path)
    requires ValidDisk(src) && Lists(paths, ViewOf(src), source, {}) && Renders(items, paths, ViewOf(src), source)
    requires PlainTree(ViewOf(src), source, {}) && Readable(items)
    requires IsDir(d0.tree, dest) && Extracted(d0, d, dest, ReadAll(items))
    ensures
      var a, before := Restorable(ViewOf(src), source, {}), Subtree(ViewOf(d0), dest);
      && Extractable(d0, dest, ReadAll(items))
      && (Subtree(ViewOf(d), dest) == a <==> Compatible(before, a))
      && (before == map[] ==> Subtree(ViewOf(d), dest) == a)
  {
    hide Lists, Renders, PlainTree, Readable, Restorable, NoClash, TreeBytes, ExtractAll;
    ArchiveRoundTrip(src, source, {}, items, paths, ViewOf(d0), dest, MAX_EXTRACT_BYTES);
  }

  /** No file is as large as 2^64 bytes. */
  ghost predicate SmallTree(v: View, base: Path) {
    forall p :: p in v && base < p && v[p].IFile? ==> |v[p].content| < U64_SIZE
  }

  lemma ReadableItems(v: View, base: Path, items: seq<ZipItem>, paths: seq<Path>)
    requires Lists(paths, v, base, {}) && Renders(items, paths, v, base) && SmallTree(v, base)
    ensures Readable(items)
  {
    forall i | 0 <= i < |items| ensures |items[i].content| < U64_SIZE {
      assert paths[i] in paths;
    }
  }
}

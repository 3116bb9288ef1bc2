/**
 * The node's PKI files: written one after the other, each by temp file and
 * rename, and read back after a crash at any point in between.
 */
module NodePki {
  import opened Prelude
  import opened Text

  const CA_FILE: string := "ca.pem"
  const CERT_FILE: string := "node-cert.pem"
  const KEY_FILE: string := "node-key.pem"
  const MIN_REMAINING: int := 30 * 24 * 3600

  /** PEM contents, as far as they matter: public keys are numbers, a signature names the key that made it. */
  datatype Pem =
    | Cert(pub: nat, signer: nat, cns: seq<string>, notAfter: int)
    | Key(pub: nat, p256: bool)
    | Junk(length: nat)

  datatype PkiSet = PkiSet(ca: Pem, cert: Pem, key: Pem)

  function FoldCase(s: string): string {
    Mapped(s, c => if 'A' <= c <= 'Z' then ((c as int) + 32) as char else c)
  }

  /** `validate`: key and certificate belong together, the CA signed it, it is this node's and good for 30 days more. */
  predicate Valid(p: PkiSet, nodeId: string, now: int) {
    && p.ca.Cert? && p.key.Key? && p.key.p256 && p.cert.Cert?
    && p.cert.pub == p.key.pub
    && p.cert.signer == p.ca.pub
    && |p.cert.cns| == 1 && FoldCase(p.cert.cns[0]) == FoldCase(nodeId)
    && p.cert.notAfter - now >= MIN_REMAINING
  }

  /** Equal up to the case of ASCII letters. */
  ghost predicate SameButCase(a: string, b: string) {
    |a| == |b| && forall i :: 0 <= i < |a| ==>
      || a[i] == b[i]
      || ('a' <= a[i] <= 'z' && b[i] as int + 32 == a[i] as int)
      || ('a' <= b[i] <= 'z' && a[i] as int + 32 == b[i] as int)
  }

  lemma FoldCaseIff(a: string, b: string)
    ensures FoldCase(a) == FoldCase(b) <==> SameButCase(a, b)
  {
    if FoldCase(a) == FoldCase(b) {
      forall i | 0 <= i < |a|
        ensures || a[i] == b[i]
                || ('a' <= a[i] <= 'z' && b[i] as int + 32 == a[i] as int)
                || ('a' <= b[i] <= 'z' && a[i] as int + 32 == b[i] as int)
      {
        assert FoldCase(a)[i] == FoldCase(b)[i];
      }
    }
  }

  type Dir = map<string, Pem>

  function Load(d: Dir, nodeId: string, now: int): Option<PkiSet> {
    if CA_FILE !in d || CERT_FILE !in d || KEY_FILE !in d then None
    else
      var p := PkiSet(d[CA_FILE], d[CERT_FILE], d[KEY_FILE]);
      if Valid(p, nodeId, now) then Some(p) else None
  }

  /**
   * What loads: exactly the three files as they are, if they are a CA certificate, a
   * P-256 key and a certificate of that key, signed by that CA, naming this node and
   * no other, and good for thirty more days. So nothing expired, nothing of another
   * node, another panel or another key ever does.
   */
  lemma LoadIff(d: Dir, nodeId: string, now: int, p: PkiSet)
    ensures Load(d, nodeId, now) == Some(p) <==>
            && "ca.pem" in d && d["ca.pem"] == p.ca && "node-cert.pem" in d && d["node-cert.pem"] == p.cert
            && "node-key.pem" in d && d["node-key.pem"] == p.key
            && p.ca.Cert? && p.cert.Cert? && p.key.Key? && p.key.p256
            && p.key.pub == p.cert.pub && p.ca.pub == p.cert.signer
            && (exists cn :: p.cert.cns == [cn] && SameButCase(cn, nodeId))
            && now + 30 * 86400 <= p.cert.notAfter
  {
    if p.cert.Cert? && |p.cert.cns| == 1 {
      FoldCaseIff(p.cert.cns[0], nodeId);
      assert p.cert.cns == [p.cert.cns[0]];
    }
  }

  // ----- writing, one directory operation at a time -----

  datatype Op = Unlink(name: string) | Put(name: string, data: Pem) | Rename(from: string, to: string)

  function TempOf(name: string): string {
    name + ".tmp"
  }

  function Do(d: Dir, op: Op): Dir {
    match op
    case Unlink(n) => d - {n}
    case Put(n, data) => d[n := data]
    case Rename(a, b) => if a in d then (d - {a})[b := d[a]] else d
  }

  function DoAll(d: Dir, ops: seq<Op>): Dir
    decreases |ops|
  {
    if ops == [] then d else DoAll(Do(d, ops[0]), ops[1..])
  }

  /** `write_file`: drop a stale temp, create it empty, write part and then all of it, rename. */
  function FileOps(name: string, data: Pem): seq<Op> {
    var tmp := TempOf(name);
    [Unlink(tmp), Put(tmp, Junk(0)), Put(tmp, Junk(1)), Put(tmp, data), Rename(tmp, name)]
  }

  /** `write_pki`: the CA, then the certificate, the key last. */
  function PkiOps(p: PkiSet): seq<Op> {
    FileOps(CA_FILE, p.ca) + FileOps(CERT_FILE, p.cert) + FileOps(KEY_FILE, p.key)
  }

  predicate IsPkiFile(n: string) {
    n == CA_FILE || n == CERT_FILE || n == KEY_FILE
  }

  function At(d: Dir, n: string): Option<Pem> {
    if n in d then Some(d[n]) else None
  }

  /** The three files as a crash would leave them after `k` operations of `write_pki`. */
  ghost predicate Holds(d: Dir, ca: Option<Pem>, cert: Option<Pem>, key: Option<Pem>) {
    At(d, CA_FILE) == ca && At(d, CERT_FILE) == cert && At(d, KEY_FILE) == key
  }

  lemma {:induction false} DoAllAppend(d: Dir, a: seq<Op>, b: seq<Op>)
    ensures DoAll(d, a + b) == DoAll(DoAll(d, a), b)
    decreases |a|
  {
    if a == [] {
      assert a + b == b;
    } else {
      assert (a + b)[1..] == a[1..] + b;
      DoAllAppend(Do(d, a[0]), a[1..], b);
    }
  }

  /** Writing one file: its name changes only with the last operation, the other files not at all. */
  lemma FileIsAtomic(d: Dir, name: string, data: Pem, k: nat)
    requires IsPkiFile(name) && k <= |FileOps(name, data)|
    ensures
      var d' := DoAll(d, FileOps(name, data)[..k]);
      && (forall n :: IsPkiFile(n) && n != name ==> At(d', n) == At(d, n))
      && At(d', name) == if k == |FileOps(name, data)| then Some(data) else At(d, name)
  {
    var ops, tmp := FileOps(name, data), TempOf(name);
    assert !IsPkiFile(tmp) by {
      assert tmp[|tmp| - 1] == 'p';
    }
    var d1 := d - {tmp};
    var d2 := d1[tmp := Junk(0)];
    var d3 := d2[tmp := Junk(1)];
    var d4 := d3[tmp := data];
    Steps(d, ops, k, d1, d2, d3, d4);
  }

  lemma Steps(d: Dir, ops: seq<Op>, k: nat, d1: Dir, d2: Dir, d3: Dir, d4: Dir)
    requires |ops| == 5 && k <= 5
    requires d1 == Do(d, ops[0]) && d2 == Do(d1, ops[1]) && d3 == Do(d2, ops[2]) && d4 == Do(d3, ops[3])
    ensures DoAll(d, ops[..k]) == if k == 0 then d else if k == 1 then d1 else if k == 2 then d2
                                  else if k == 3 then d3 else if k == 4 then d4 else Do(d4, ops[4])
  {
    if k > 0 {
      LastOp(d, ops, k);
      Steps(d, ops, k - 1, d1, d2, d3, d4);
    }
  }

  lemma LastOp(d: Dir, ops: seq<Op>, k: nat)
    requires 0 < k <= |ops|
    ensures DoAll(d, ops[..k]) == Do(DoAll(d, ops[..k - 1]), ops[k - 1])
  {
    assert ops[..k] == ops[..k - 1] + [ops[k - 1]];
    DoAllAppend(d, ops[..k - 1], [ops[k - 1]]);
    var e := DoAll(d, ops[..k - 1]);
    assert [ops[k - 1]][1..] == [];
    assert DoAll(e, [ops[k - 1]]) == DoAll(Do(e, ops[k - 1]), []);
  }

  /** After any number of operations the files are a prefix of the writes, in the order CA, certificate, key. */
  lemma CrashStates(d: Dir, p: PkiSet, k: nat)
    requires k <= |PkiOps(p)|
    ensures
      var d' := DoAll(d, PkiOps(p)[..k]);
      || Holds(d', At(d, CA_FILE), At(d, CERT_FILE), At(d, KEY_FILE))
      || Holds(d', Some(p.ca), At(d, CERT_FILE), At(d, KEY_FILE))
      || Holds(d', Some(p.ca), Some(p.cert), At(d, KEY_FILE))
      || Holds(d', Some(p.ca), Some(p.cert), Some(p.key))
    ensures k == |PkiOps(p)| ==> Holds(DoAll(d, PkiOps(p)[..k]), Some(p.ca), Some(p.cert), Some(p.key))
  {
    hide FileOps, DoAll, At;
    var a, b, c := FileOps(CA_FILE, p.ca), FileOps(CERT_FILE, p.cert), FileOps(KEY_FILE, p.key);
    FiveOps(CA_FILE, p.ca);
    FiveOps(CERT_FILE, p.cert);
    FiveOps(KEY_FILE, p.key);
    DistinctFiles();
    if k <= 5 {
      assert PkiOps(p)[..k] == a[..k];
      FileIsAtomic(d, CA_FILE, p.ca, k);
    } else {
      var d1 := DoAll(d, a);
      assert a[..5] == a;
      FileIsAtomic(d, CA_FILE, p.ca, 5);
      if k <= 10 {
        assert PkiOps(p)[..k] == a + b[..k - 5];
        DoAllAppend(d, a, b[..k - 5]);
        FileIsAtomic(d1, CERT_FILE, p.cert, k - 5);
      } else {
        var d2 := DoAll(d1, b);
        assert b[..5] == b;
        FileIsAtomic(d1, CERT_FILE, p.cert, 5);
        assert PkiOps(p)[..k] == a + b + c[..k - 10];
        DoAllAppend(d, a + b, c[..k - 10]);
        DoAllAppend(d, a, b);
        FileIsAtomic(d2, KEY_FILE, p.key, k - 10);
      }
    }
  }

  lemma FiveOps(name: string, data: Pem)
    ensures |FileOps(name, data)| == 5
  {}

  lemma DistinctFiles()
    ensures CA_FILE != CERT_FILE && CERT_FILE != KEY_FILE && CA_FILE != KEY_FILE
  {
    assert |CA_FILE| == 6 && |CERT_FILE| == 13 && |KEY_FILE| == 12;
  }

  /** A freshly generated key pair is not the one on disk. */
  ghost predicate FreshKey(d: Dir, p: PkiSet) {
    p.key.Key? && (KEY_FILE in d && d[KEY_FILE].Key? ==> d[KEY_FILE].pub != p.key.pub)
  }

  /**
   * A crash anywhere while writing a validated set over any earlier contents: a
   * later load gives nothing, the complete old set, the complete new set, or the
   * old certificate and key with a new CA that signed that certificate too. A new
   * certificate never comes with an old key.
   */
  lemma CrashIsSafe(d: Dir, p: PkiSet, k: nat, nodeId: string, issued: int, now: int)
    requires Valid(p, nodeId, issued) && FreshKey(d, p) && k <= |PkiOps(p)|
    ensures
      var r := Load(DoAll(d, PkiOps(p)[..k]), nodeId, now);
      r.Some? ==>
        || r == Load(d, nodeId, now)
        || r.value == p
        || (&& CERT_FILE in d && KEY_FILE in d && r.value == PkiSet(p.ca, d[CERT_FILE], d[KEY_FILE])
            && d[CERT_FILE].Cert? && p.ca.Cert? && d[CERT_FILE].signer == p.ca.pub)
    ensures
      var r := Load(DoAll(d, PkiOps(p)[..k]), nodeId, now);
      r.Some? && r.value.cert == p.cert ==>
        r.value.key.Key? && r.value.key.pub == p.key.pub && At(d, KEY_FILE) != Some(r.value.key)
  {
    hide DoAll, PkiOps;
    CrashStates(d, p, k);
  }

  // ----- as it runs -----

  class PkiStore {
    const mayFail: bool
    var files: Dir

    constructor (files: Dir, mayFail: bool)
      ensures this.files == files && this.mayFail == mayFail
    {
      this.files := files;
      this.mayFail := mayFail;
    }

    /** Run `ops`, stopping at the first that fails. */
    method Perform(ops: seq<Op>) returns (ok: bool, ghost k: nat)
      modifies this`files
      ensures k <= |ops| && files == DoAll(old(files), ops[..k])
      ensures ok ==> k == |ops|
      ensures !ok ==> mayFail
    {
      ghost var d := files;
      var i := 0;
      assert ops[..0] == [];
      while i < |ops|
        invariant 0 <= i <= |ops| && files == DoAll(d, ops[..i])
      {
        var failing: bool := *;
        if mayFail && failing {
          return false, i;
        }
        LastOp(d, ops, i + 1);
        files := Do(files, ops[i]);
        i := i + 1;
      }
      assert ops[..|ops|] == ops;
      ok, k := true, i;
    }

    /**
     * `ensure_pki`: keep a set that loads, else enrol with a new key and write
     * what the panel issued. `generated` is the new key pair, `issued` the panel's
     * answer; no answer, or one that does not validate, leaves the files alone.
     */
    method EnsurePki(nodeId: string, now: int, generated: Pem, issued: Option<(Pem, Pem)>) returns (r: Option<PkiSet>)
      requires generated.Key? && (KEY_FILE in files && files[KEY_FILE].Key? ==> files[KEY_FILE].pub != generated.pub)
      modifies this`files
      ensures r.Some? ==> Load(files, nodeId, now) == r && Valid(r.value, nodeId, now)
      ensures Load(old(files), nodeId, now).Some? ==> r == Load(old(files), nodeId, now) && files == old(files)
      ensures r.Some? && Load(old(files), nodeId, now).None? ==>
                r.value.key == generated && issued.Some? && issued.value == (r.value.ca, r.value.cert)
      ensures r.None? && !mayFail ==>
                issued.None? || !Valid(PkiSet(issued.value.0, issued.value.1, generated), nodeId, now)
      ensures r.None? ==>
                var after := Load(files, nodeId, now);
                after.Some? ==>
                  || after.value.key == generated
                  || (&& KEY_FILE in old(files) && after.value.key == old(files)[KEY_FILE]
                      && CERT_FILE in old(files) && after.value.cert == old(files)[CERT_FILE])
    {
      hide DoAll, PkiOps;
      var loaded := Load(files, nodeId, now);
      if loaded.Some? {
        return loaded;
      }
      if issued.None? {
        return None;
      }
      var p := PkiSet(issued.value.0, issued.value.1, generated);
      if !Valid(p, nodeId, now) {
        return None;
      }
      ghost var d := files;
      var ok;
      ghost var k;
      ok, k := Perform(PkiOps(p));
      CrashStates(d, p, k);
      if !ok {
        CrashIsSafe(d, p, k, nodeId, now, now);
        return None;
      }
      r := Some(p);
    }
  }
}

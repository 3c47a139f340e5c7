/**
 * Pack verification against a trust store: an explicit allow-list, or a
 * trust-on-first-use store that records one fingerprint per key id.
 */
module TrustStore {
  import opened Wrappers

  datatype Header = Header(alg: string, x5c: bool, kid: string)

  datatype Payload = Payload(treeHash: string, keyId: string)

  /** The cryptographic operations: None stands for their failure. */
  datatype Crypto = Crypto(
    header: string -> Option<Header>,
    fingerprint: string -> Option<string>,
    decode: (string, string) -> Option<Payload>)

  /** The sidecar public keys by key id, and the hash of the signed files. */
  datatype Pack = Pack(sidecars: map<string, string>, treeHash: string)

  datatype Store = StaticStore(allowed: map<string, string>) | TofuStore(records: map<string, string>)

  datatype Verdict = Verified(keyId: string) | NotVerified(reason: string) | Raised(reason: string)

  /** The key id of an acceptable header. */
  function HeaderKey(c: Crypto, token: string): Option<string> {
    match c.header(token)
    case None => None
    case Some(h) => if h.x5c || h.alg != "EdDSA" || h.kid == "" then None else Some(h.kid)
  }

  function RefuseOrWarn(mandatory: bool, reason: string): Verdict {
    if mandatory then Raised(reason) else NotVerified(reason)
  }

  /** Steps 4 to 6, under a resolved public key. */
  function CheckToken(c: Crypto, pack: Pack, token: string, kid: string, pem: string, mandatory: bool): Verdict {
    match c.decode(token, pem)
    case None => RefuseOrWarn(mandatory, "signature-invalid")
    case Some(payload) =>
      if payload.treeHash != pack.treeHash then RefuseOrWarn(mandatory, "tree-hash-mismatch")
      else if payload.keyId != kid then RefuseOrWarn(mandatory, "key-id-mismatch")
      else Verified(kid)
  }

  class FilesystemTrustStore {
    var records: map<string, string>

    constructor ()
      ensures records == map[]
    {
      records := map[];
    }

    /** First sight writes the record; later sights only compare. */
    method Pin(c: Crypto, kid: string, pem: string) returns (error: Option<string>)
      modifies this
      ensures records == PinnedRecords(c, old(records), kid, pem)
      ensures error == PinError(c, old(records), kid, pem)
    {
      var live := c.fingerprint(pem);
      if live.None? { return Some("not-ed25519"); }
      if kid !in records {
        records := records[kid := live.value];
        return None;
      }
      if records[kid] != live.value { return Some("fingerprint-mismatch"); }
      error := None;
    }
  }

  function PinnedRecords(c: Crypto, records: map<string, string>, kid: string, pem: string): map<string, string> {
    match c.fingerprint(pem)
    case None => records
    case Some(live) => if kid in records then records else records[kid := live]
  }

  function PinError(c: Crypto, records: map<string, string>, kid: string, pem: string): Option<string> {
    match c.fingerprint(pem)
    case None => Some("not-ed25519")
    case Some(live) => if kid in records && records[kid] != live then Some("fingerprint-mismatch") else None
  }

  /** The verdict and the records after one verification. */
  function Verify(c: Crypto, store: Store, pack: Pack, token: string, mandatory: bool): (Verdict, Store) {
    match c.header(token)
    case None => (Raised("header-unparseable"), store)
    case Some(h) =>
      if h.x5c then (Raised("x5c-rejected"), store)
      else if h.alg != "EdDSA" then (Raised("alg-not-eddsa"), store)
      else if h.kid == "" then (Raised("kid-missing"), store)
      else
        match store
        case StaticStore(allowed) =>
          if h.kid in allowed then (CheckToken(c, pack, token, h.kid, allowed[h.kid], mandatory), store)
          else (RefuseOrWarn(mandatory, "untrusted-key"), store)
        case TofuStore(records) =>
          if h.kid !in pack.sidecars then (RefuseOrWarn(mandatory, "untrusted-key"), store)
          else
            var pem := pack.sidecars[h.kid];
            var after := TofuStore(PinnedRecords(c, records, h.kid, pem));
            match PinError(c, records, h.kid, pem)
            case Some(reason) => (Raised(reason), after)
            case None => (CheckToken(c, pack, token, h.kid, pem, mandatory), after)
  }

  /** `verify_pack` with a trust-on-first-use store. */
  method VerifyPack(c: Crypto, store: FilesystemTrustStore, pack: Pack, token: string, mandatory: bool)
    returns (v: Verdict)
    modifies store
    ensures (v, TofuStore(store.records)) == Verify(c, TofuStore(old(store.records)), pack, token, mandatory)
  {
    var header := c.header(token);
    if header.None? { return Raised("header-unparseable"); }
    if header.value.x5c { return Raised("x5c-rejected"); }
    if header.value.alg != "EdDSA" { return Raised("alg-not-eddsa"); }
    var kid := header.value.kid;
    if kid == "" { return Raised("kid-missing"); }
    if kid !in pack.sidecars { return RefuseOrWarn(mandatory, "untrusted-key"); }
    var pem := pack.sidecars[kid];
    var error := store.Pin(c, kid, pem);
    if error.Some? { return Raised(error.value); }
    var payload := c.decode(token, pem);
    if payload.None? { return RefuseOrWarn(mandatory, "signature-invalid"); }
    if payload.value.treeHash != pack.treeHash { return RefuseOrWarn(mandatory, "tree-hash-mismatch"); }
    if payload.value.keyId != kid { return RefuseOrWarn(mandatory, "key-id-mismatch"); }
    v := Verified(kid);
  }

  /** The key a store trusts for `kid` after the call, given the sidecars beside the token. */
  ghost predicate TrustedKey(c: Crypto, store: Store, pack: Pack, kid: string, pem: string) {
    match store
    case StaticStore(allowed) => kid in allowed && allowed[kid] == pem
    case TofuStore(records) =>
      && kid in pack.sidecars && pack.sidecars[kid] == pem
      && c.fingerprint(pem).Some?
      && (kid in records ==> Some(records[kid]) == c.fingerprint(pem))
  }

  /**
   * Success, exactly: an acceptable header, and a token that decodes under the
   * key the store trusts and names this tree and this key id.
   */
  lemma VerifiedExactly(c: Crypto, store: Store, pack: Pack, token: string, mandatory: bool, kid: string)
    ensures Verify(c, store, pack, token, mandatory).0 == Verified(kid) <==>
              && HeaderKey(c, token) == Some(kid)
              && exists pem ::
                   TrustedKey(c, store, pack, kid, pem) && c.decode(token, pem) == Some(Payload(pack.treeHash, kid))
  {
    if HeaderKey(c, token) == Some(kid) {
      var pem := match store
        case StaticStore(allowed) => if kid in allowed then allowed[kid] else ""
        case TofuStore(_) => if kid in pack.sidecars then pack.sidecars[kid] else "";
      assert forall q :: TrustedKey(c, store, pack, kid, q) ==> q == pem;
      if c.decode(token, pem).Some? {
        var p := c.decode(token, pem).value;
        assert p == Payload(pack.treeHash, kid) <==> p.treeHash == pack.treeHash && p.keyId == kid;
      }
      assert TrustedKey(c, store, pack, kid, pem) || !TrustedKey(c, store, pack, kid, pem);
    }
  }

  /** The sidecar of the key cannot be pinned: no Ed25519 key, or not the one on record. */
  predicate PinFails(c: Crypto, store: Store, pack: Pack, kid: string) {
    && store.TofuStore? && kid in pack.sidecars
    && match c.fingerprint(pack.sidecars[kid])
       case None => true
       case Some(live) => kid in store.records && store.records[kid] != live
  }

  /**
   * What `mandatory` changes: a bad header and a failed pin raise either way; of the other failures
   * an optional check only reports, and a mandatory one raises for the same reason. What is recorded
   * does not depend on it.
   */
  lemma MandatoryExactly(c: Crypto, store: Store, pack: Pack, token: string)
    ensures var (soft, softStore) := Verify(c, store, pack, token, false);
            var (hard, hardStore) := Verify(c, store, pack, token, true);
            && softStore == hardStore
            && (soft.Verified? || soft.Raised? ==> hard == soft)
            && (soft.NotVerified? ==> hard == Raised(soft.reason))
            && (soft.Raised? <==>
                  HeaderKey(c, token).None? || PinFails(c, store, pack, HeaderKey(c, token).value))
  {
  }

  /** The header is refused for embedding a key, for another algorithm, or for naming no key. */
  lemma HeaderExactly(c: Crypto, token: string)
    ensures HeaderKey(c, token).Some? <==>
              exists kid :: kid != "" && c.header(token) == Some(Header("EdDSA", false, kid))
  {
    if HeaderKey(c, token).Some? {
      var h := c.header(token).value;
      assert h == Header("EdDSA", false, h.kid);
    }
  }

  /** A record is written once, at the first sight of an Ed25519 sidecar, whatever the verdict; it never changes. */
  lemma RecordsAreWriteOnce(c: Crypto, records: map<string, string>, pack: Pack, token: string, mandatory: bool,
                            kid: string)
    ensures var after := Verify(c, TofuStore(records), pack, token, mandatory).1;
            && after.TofuStore?
            && (kid in records ==> kid in after.records && after.records[kid] == records[kid])
            && (kid !in records ==> (kid in after.records <==>
                  HeaderKey(c, token) == Some(kid) && kid in pack.sidecars && c.fingerprint(pack.sidecars[kid]).Some?))
            && (kid !in records && kid in after.records ==>
               Some(after.records[kid]) == c.fingerprint(pack.sidecars[kid]))
  {
  }

  datatype Call = Call(pack: Pack, token: string, mandatory: bool)

  function StoreAfter(c: Crypto, store: Store, calls: seq<Call>): Store {
    if calls == [] then store
    else
      var before := StoreAfter(c, store, calls[..|calls| - 1]);
      var l := calls[|calls| - 1];
      Verify(c, before, l.pack, l.token, l.mandatory).1
  }

  function VerdictOf(c: Crypto, store: Store, calls: seq<Call>, i: nat): Verdict
    requires i < |calls|
  {
    Verify(c, StoreAfter(c, store, calls[..i]), calls[i].pack, calls[i].token, calls[i].mandatory).0
  }

  lemma {:induction false} RecordsSurvive(c: Crypto, records: map<string, string>, calls: seq<Call>, i: nat, j: nat,
                                          kid: string)
    requires i <= j <= |calls|
    ensures var at := StoreAfter(c, TofuStore(records), calls[..i]);
            var later := StoreAfter(c, TofuStore(records), calls[..j]);
            && at.TofuStore? && later.TofuStore?
            && (kid in at.records ==> kid in later.records && later.records[kid] == at.records[kid])
    decreases j
  {
    if j > 0 {
      var before := calls[..j - 1];
      assert calls[..j][..j - 1] == before;
      if i < j {
        RecordsSurvive(c, records, calls, i, j - 1, kid);
      } else {
        RecordsSurvive(c, records, calls, i - 1, j - 1, kid);
      }
      var l := calls[j - 1];
      RecordsAreWriteOnce(c, StoreAfter(c, TofuStore(records), before).records, l.pack, l.token, l.mandatory, kid);
    }
  }

  /** Over any run of verifications, a key id stands for one fingerprint in all successes. */
  lemma OneKeyPerId(c: Crypto, records: map<string, string>, calls: seq<Call>, i: nat, j: nat, kid: string)
    requires i < j < |calls|
    requires VerdictOf(c, TofuStore(records), calls, i) == VerdictOf(c, TofuStore(records), calls, j) == Verified(kid)
    ensures kid in calls[i].pack.sidecars && kid in calls[j].pack.sidecars
    ensures c.fingerprint(calls[i].pack.sidecars[kid]) == c.fingerprint(calls[j].pack.sidecars[kid])
  {
    RecordsSurvive(c, records, calls, i, i, kid);
    RecordsSurvive(c, records, calls, i + 1, j, kid);
    assert calls[..i + 1][..i] == calls[..i];
    var at := StoreAfter(c, TofuStore(records), calls[..i]);
    RecordsAreWriteOnce(c, at.records, calls[i].pack, calls[i].token, calls[i].mandatory, kid);
    VerifiedExactly(c, at, calls[i].pack, calls[i].token, calls[i].mandatory, kid);
    VerifiedExactly(c, StoreAfter(c, TofuStore(records), calls[..j]), calls[j].pack, calls[j].token,
        calls[j].mandatory, kid);
  }
}

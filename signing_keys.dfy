/** `getSigningKey`: selection of the signing key from a fetched JSON Web Key
    Set. The fetch itself is an input: `None` when the GET fails or its body
    has no `keys` array. */
module SigningKeys {
  import opened Wrappers
  import opened AuthErrors
  import Pem

  /** One record of the key set's `keys` array; JSON fields may be missing. */
  datatype JsonWebKey = JsonWebKey(
    use: Option<string>,
    kty: Option<string>,
    kid: Option<string>,
    nbf: Option<int>,
    x5c: Option<seq<string>>)

  /** The record the `map` at lines 100-102 builds. */
  datatype SigningKey = SigningKey(kid: string, nbf: Option<int>, publicKey: Pem.Certificate)

  /** JavaScript truthiness of an optional string: present and non-empty. */
  predicate IsTruthy(v: Option<string>) {
    v.Some? && v.value != ""
  }

  /** `key.x5c && key.x5c.length`: an array is truthy, and so is a non-zero length. */
  predicate HasCertificates(x5c: Option<seq<string>>) {
    x5c.Some? && |x5c.value| != 0
  }

  /** The filter of lines 96-99: a signing RSA key with a non-empty key
      identifier and at least one certificate. */
  predicate IsSigningCandidate(k: JsonWebKey)
    ensures IsSigningCandidate(k) <==>
      k.use == Some("sig") && k.kty == Some("RSA")
      && k.kid.Some? && |k.kid.value| > 0
      && k.x5c.Some? && |k.x5c.value| > 0
  {
    k.use == Some("sig") && k.kty == Some("RSA") && IsTruthy(k.kid) && HasCertificates(k.x5c)
  }

  /** `keys.filter(...)`. */
  function SigningCandidates(keys: seq<JsonWebKey>): (r: seq<JsonWebKey>)
    ensures |r| <= |keys|
    ensures forall k :: k in r <==> k in keys && IsSigningCandidate(k)
  {
    if |keys| == 0 then []
    else if IsSigningCandidate(keys[0]) then [keys[0]] + SigningCandidates(keys[1..])
    else SigningCandidates(keys[1..])
  }

  /** Filtering distributes over concatenation, so it keeps the relative
      order of the keys it lets through. */
  lemma {:induction false} SigningCandidatesAppend(a: seq<JsonWebKey>, b: seq<JsonWebKey>)
    ensures SigningCandidates(a + b) == SigningCandidates(a) + SigningCandidates(b)
    decreases |a|
  {
    if |a| > 0 {
      assert (a + b)[0] == a[0];
      assert (a + b)[1..] == a[1..] + b;
      SigningCandidatesAppend(a[1..], b);
      if IsSigningCandidate(a[0]) {
        assert [a[0]] + (SigningCandidates(a[1..]) + SigningCandidates(b))
          == ([a[0]] + SigningCandidates(a[1..])) + SigningCandidates(b);
      }
    } else {
      assert a + b == b;
    }
  }

  /** The certificate `map` reads: the first of the chain. */
  function FirstCertificate(k: JsonWebKey): (r: string)
    requires IsSigningCandidate(k)
    ensures r in k.x5c.value && r == k.x5c.value[0]
  {
    k.x5c.value[0]
  }

  /** `.map(key => ({ kid, nbf, publicKey: certToPEM(key.x5c[0]) }))`: throws
      as soon as one certificate makes `certToPEM` throw; otherwise one record
      per candidate, in order, keeping its key identifier and `nbf`. */
  function ToSigningKeys(cands: seq<JsonWebKey>): (r: Result<seq<SigningKey>, AuthError>)
    requires forall i :: 0 <= i < |cands| ==> IsSigningCandidate(cands[i])
    ensures r.Failure? <==> exists i :: 0 <= i < |cands| && Pem.CertToPem(FirstCertificate(cands[i])).Failure?
    ensures r.Failure? ==> r.error == CertificateNotMatched
    ensures r.Success? ==> |r.value| == |cands|
    ensures r.Success? ==> forall i :: 0 <= i < |cands| ==>
      Some(r.value[i].kid) == cands[i].kid && r.value[i].nbf == cands[i].nbf
      && r.value[i].publicKey == Pem.EmbeddedCertificate
    decreases |cands|
  {
    if |cands| == 0 then Success([])
    else
      assert forall i :: 1 <= i < |cands| ==> cands[1..][i - 1] == cands[i];
      match Pem.CertToPem(FirstCertificate(cands[0]))
      case Failure(e) => Failure(e)
      case Success(pem) =>
        match ToSigningKeys(cands[1..])
        case Failure(e) => Failure(e)
        case Success(rest) => Success([SigningKey(cands[0].kid.value, cands[0].nbf, pem)] + rest)
  }

  /** `signingKeys.find(key => key.kid === kid)`: the first key with that key
      identifier, if any. */
  function FindByKid(keys: seq<SigningKey>, kid: Option<string>): (r: Option<SigningKey>)
    ensures r.None? <==> forall i :: 0 <= i < |keys| ==> Some(keys[i].kid) != kid
    ensures r.Some? ==>
      exists i :: 0 <= i < |keys| && keys[i] == r.value && Some(keys[i].kid) == kid
        && (forall j :: 0 <= j < i ==> Some(keys[j].kid) != kid)
  {
    if |keys| == 0 then None
    else if Some(keys[0].kid) == kid then Some(keys[0])
    else
      var r := FindByKid(keys[1..], kid);
      assert forall i :: 1 <= i < |keys| ==> keys[1..][i - 1] == keys[i];
      r
  }

  /** `getSigningKey` after the fetch: filter, map, then find. */
  function GetSigningKey(jwks: Option<seq<JsonWebKey>>, kid: Option<string>): (r: Result<SigningKey, AuthError>)
    ensures r.Success? ==> Some(r.value.kid) == kid && r.value.publicKey == Pem.EmbeddedCertificate
  {
    var keys :- jwks.ToResult(KeySetUnavailable);
    var signingKeys :- ToSigningKeys(SigningCandidates(keys));
    FindByKid(signingKeys, kid).ToResult(NoSigningKey)
  }

  /** Some candidate has a first certificate that `certToPEM` cannot chunk. */
  predicate HasUnchunkableCandidate(keys: seq<JsonWebKey>) {
    exists i :: 0 <= i < |keys| && IsSigningCandidate(keys[i])
      && Pem.CertToPem(FirstCertificate(keys[i])).Failure?
  }

  /** The first key of the raw key set that passes the filter and carries the
      requested identifier, found in one pass. */
  function FirstCandidateWithKid(keys: seq<JsonWebKey>, kid: Option<string>): (r: Option<JsonWebKey>)
    ensures r.Some? ==> IsSigningCandidate(r.value) && r.value.kid == kid
  {
    if |keys| == 0 then None
    else if IsSigningCandidate(keys[0]) && keys[0].kid == kid then Some(keys[0])
    else FirstCandidateWithKid(keys[1..], kid)
  }

  /** The filter/map/find pipeline agrees with the one-pass reference: it
      fails when any candidate's certificate cannot be chunked (even one with
      another identifier), fails when no candidate has the identifier, and
      otherwise returns the first such candidate's identifier and `nbf` with
      the embedded certificate. */
  lemma {:induction false} GetSigningKeyIsFirstMatch(keys: seq<JsonWebKey>, kid: Option<string>)
    ensures GetSigningKey(Some(keys), kid) ==
      if HasUnchunkableCandidate(keys) then Failure(CertificateNotMatched)
      else match FirstCandidateWithKid(keys, kid)
        case None => Failure(NoSigningKey)
        case Some(k) => Success(SigningKey(k.kid.value, k.nbf, Pem.EmbeddedCertificate))
  {
    UnchunkableIff(keys);
    if !HasUnchunkableCandidate(keys) {
      FindAfterMap(keys, kid);
    }
  }

  /** The `map` throws exactly when some candidate's certificate cannot be chunked. */
  lemma UnchunkableIff(keys: seq<JsonWebKey>)
    ensures ToSigningKeys(SigningCandidates(keys)).Failure? <==> HasUnchunkableCandidate(keys)
  {
    var cands := SigningCandidates(keys);
    if ToSigningKeys(cands).Failure? {
      var i :| 0 <= i < |cands| && Pem.CertToPem(FirstCertificate(cands[i])).Failure?;
      assert cands[i] in keys;
    }
    if HasUnchunkableCandidate(keys) {
      var i :| 0 <= i < |keys| && IsSigningCandidate(keys[i])
        && Pem.CertToPem(FirstCertificate(keys[i])).Failure?;
      assert keys[i] in cands;
    }
  }

  /** Once the `map` succeeds, `find` returns the record built from the first
      candidate with the requested identifier. */
  lemma {:induction false} FindAfterMap(keys: seq<JsonWebKey>, kid: Option<string>)
    requires ToSigningKeys(SigningCandidates(keys)).Success?
    ensures FindByKid(ToSigningKeys(SigningCandidates(keys)).value, kid) ==
      match FirstCandidateWithKid(keys, kid)
      case None => None
      case Some(k) => Some(SigningKey(k.kid.value, k.nbf, Pem.EmbeddedCertificate))
    decreases |keys|
  {
    if |keys| > 0 {
      var k, rest := keys[0], keys[1..];
      var cands := SigningCandidates(keys);
      if IsSigningCandidate(k) {
        assert cands == [k] + SigningCandidates(rest);
        ToSigningKeysCons(k, SigningCandidates(rest));
        FindAfterMap(rest, kid);
        var sk := SigningKey(k.kid.value, k.nbf, Pem.EmbeddedCertificate);
        FindByKidCons(sk, ToSigningKeys(SigningCandidates(rest)).value, kid);
      } else {
        assert cands == SigningCandidates(rest);
        FindAfterMap(rest, kid);
      }
    }
  }

  /** The map over a candidate followed by others. */
  lemma ToSigningKeysCons(k: JsonWebKey, cands: seq<JsonWebKey>)
    requires IsSigningCandidate(k)
    requires forall i :: 0 <= i < |cands| ==> IsSigningCandidate(cands[i])
    requires ToSigningKeys([k] + cands).Success?
    ensures ToSigningKeys(cands).Success?
    ensures ToSigningKeys([k] + cands).value
      == [SigningKey(k.kid.value, k.nbf, Pem.EmbeddedCertificate)] + ToSigningKeys(cands).value
  {
    var all := [k] + cands;
    assert all[0] == k && all[1..] == cands;
    var pem := Pem.CertToPem(FirstCertificate(k));
    assert pem.Success?;
  }

  /** `find` over a record followed by others. */
  lemma FindByKidCons(sk: SigningKey, sks: seq<SigningKey>, kid: Option<string>)
    ensures FindByKid([sk] + sks, kid) == if Some(sk.kid) == kid then Some(sk) else FindByKid(sks, kid)
  {
    assert ([sk] + sks)[1..] == sks;
  }

  /** A successful lookup returns the first candidate with the requested
      identifier, keeping its identifier and `nbf`. */
  lemma GetSigningKeySuccess(keys: seq<JsonWebKey>, kid: Option<string>)
    requires GetSigningKey(Some(keys), kid).Success?
    ensures
      exists i :: 0 <= i < |keys| && IsSigningCandidate(keys[i]) && keys[i].kid == kid
        && GetSigningKey(Some(keys), kid).value == SigningKey(keys[i].kid.value, keys[i].nbf, Pem.EmbeddedCertificate)
        && (forall j :: 0 <= j < i ==> !(IsSigningCandidate(keys[j]) && keys[j].kid == kid))
  {
    GetSigningKeyIsFirstMatch(keys, kid);
    FirstCandidateWithKidIsFirst(keys, kid);
  }

  lemma {:induction false} FirstCandidateWithKidIsFirst(keys: seq<JsonWebKey>, kid: Option<string>)
    ensures FirstCandidateWithKid(keys, kid).None? <==>
      forall i :: 0 <= i < |keys| ==> !(IsSigningCandidate(keys[i]) && keys[i].kid == kid)
    ensures FirstCandidateWithKid(keys, kid).Some? ==>
      exists i :: 0 <= i < |keys| && keys[i] == FirstCandidateWithKid(keys, kid).value
        && IsSigningCandidate(keys[i]) && keys[i].kid == kid
        && forall j :: 0 <= j < i ==> !(IsSigningCandidate(keys[j]) && keys[j].kid == kid)
    decreases |keys|
  {
    if |keys| > 0 {
      FirstCandidateWithKidIsFirst(keys[1..], kid);
      assert forall i :: 1 <= i < |keys| ==> keys[1..][i - 1] == keys[i];
      if !(IsSigningCandidate(keys[0]) && keys[0].kid == kid) && FirstCandidateWithKid(keys, kid).Some? {
        var i :| 0 <= i < |keys[1..]| && keys[1..][i] == FirstCandidateWithKid(keys, kid).value
          && IsSigningCandidate(keys[1..][i]) && keys[1..][i].kid == kid
          && forall j :: 0 <= j < i ==> !(IsSigningCandidate(keys[1..][j]) && keys[1..][j].kid == kid);
        assert keys[i + 1] == keys[1..][i];
      }
    }
  }

  /** When no candidate carries the requested identifier the lookup fails. */
  lemma UnknownKidFails(keys: seq<JsonWebKey>, kid: Option<string>)
    requires forall i :: 0 <= i < |keys| ==> !(IsSigningCandidate(keys[i]) && keys[i].kid == kid)
    ensures GetSigningKey(Some(keys), kid).Failure?
  {
    GetSigningKeyIsFirstMatch(keys, kid);
    FirstCandidateWithKidIsFirst(keys, kid);
  }

  /** A candidate whose first certificate is empty passes the filter at line 99
      but makes every lookup fail, whatever identifier is requested. */
  lemma EmptyCertificateFailsEveryLookup(keys: seq<JsonWebKey>, i: nat, kid: Option<string>)
    requires i < |keys| && IsSigningCandidate(keys[i]) && FirstCertificate(keys[i]) == ""
    ensures GetSigningKey(Some(keys), kid) == Failure(CertificateNotMatched)
  {
    Pem.EmptyCertificateFails();
    GetSigningKeyIsFirstMatch(keys, kid);
  }
}

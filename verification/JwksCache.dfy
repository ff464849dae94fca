/** The cached JWK Set (section 5 of RFC 7517) of the OIDC verifier: one call's reads and writes of it. */
module JwksCache {
  import opened Wrappers

  datatype Algorithm = Rsa | EllipticCurve | OctetKey | OctetKeyPair

  datatype Jwk = Jwk(kid: Option<string>, algorithm: Algorithm, material: string)

  /** A decoding key, as the conversion produced it. */
  datatype Key = Key(value: string)

  /** `DecodingKey::from_jwk`, kept arbitrary. */
  type Conversion = Jwk -> Option<Key>

  datatype Error = Fetch | KeyConversion | NoUsableKeys | UnknownKid

  datatype Result<T> = Ok(value: T) | Err(error: Error)

  // ----- From a JWK Set to keys

  /** Named, and of an algorithm family that is accepted. */
  predicate Usable(j: Jwk) {
    j.kid.Some? && (j.algorithm.Rsa? || j.algorithm.EllipticCurve?)
  }

  /** The keys of `jwks` added to `keys`; the first usable key that does not convert fails the whole set. */
  function Added(conv: Conversion, keys: map<string, Key>, jwks: seq<Jwk>): (r: Option<map<string, Key>>)
    decreases |jwks|
  {
    if jwks == [] then Some(keys)
    else if !Usable(jwks[0]) then Added(conv, keys, jwks[1..])
    else
      var key :- conv(jwks[0]);
      Added(conv, keys[jwks[0].kid.value := key], jwks[1..])
  }

  function Converted(conv: Conversion, jwks: seq<Jwk>): (r: Result<map<string, Key>>) {
    var keys := Added(conv, map[], jwks);
    if keys.None? then Err(KeyConversion) else if keys.value == map[] then Err(NoUsableKeys) else Ok(keys.value)
  }

  method JwksToKeys(conv: Conversion, jwks: seq<Jwk>) returns (r: Result<map<string, Key>>)
    ensures r == Converted(conv, jwks)
  {
    var out: map<string, Key> := map[];
    for i := 0 to |jwks|
      invariant Added(conv, map[], jwks) == Added(conv, out, jwks[i..])
    {
      assert jwks[i..][1..] == jwks[i + 1..];
      if !Usable(jwks[i]) {
        continue;
      }
      var key := conv(jwks[i]);
      if key.None? {
        return Err(KeyConversion);
      }
      out := out[jwks[i].kid.value := key.value];
    }
    if out == map[] {
      return Err(NoUsableKeys);
    }
    r := Ok(out);
  }

  lemma {:induction false} AddedSucceeds(conv: Conversion, keys: map<string, Key>, jwks: seq<Jwk>)
    ensures Added(conv, keys, jwks).Some? <==> forall j <- jwks :: Usable(j) ==> conv(j).Some?
    decreases |jwks|
  {
    if jwks != [] {
      assert forall j :: j in jwks <==> j == jwks[0] || j in jwks[1..];
      if !Usable(jwks[0]) {
        AddedSucceeds(conv, keys, jwks[1..]);
      } else if conv(jwks[0]).Some? {
        AddedSucceeds(conv, keys[jwks[0].kid.value := conv(jwks[0]).value], jwks[1..]);
      }
    }
  }

  /** Key `i` is the last usable one of its name. */
  ghost predicate LastOfName(jwks: seq<Jwk>, i: nat) {
    && i < |jwks| && Usable(jwks[i])
    && forall j :: i < j < |jwks| && Usable(jwks[j]) ==> jwks[j].kid != jwks[i].kid
  }

  /** Names that no usable key has are left as they were. */
  lemma {:induction false} AddedOthers(conv: Conversion, keys: map<string, Key>, jwks: seq<Jwk>, kid: string)
    requires Added(conv, keys, jwks).Some?
    requires forall j :: 0 <= j < |jwks| && Usable(jwks[j]) ==> jwks[j].kid != Some(kid)
    ensures kid in Added(conv, keys, jwks).value <==> kid in keys
    ensures kid in keys ==> Added(conv, keys, jwks).value[kid] == keys[kid]
    decreases |jwks|
  {
    if jwks != [] {
      var more := if Usable(jwks[0]) then keys[jwks[0].kid.value := conv(jwks[0]).value] else keys;
      AddedOthers(conv, more, jwks[1..], kid);
    }
  }

  lemma {:induction false} AddedLast(conv: Conversion, keys: map<string, Key>, jwks: seq<Jwk>, i: nat)
    requires Added(conv, keys, jwks).Some? && LastOfName(jwks, i)
    ensures jwks[i].kid.value in Added(conv, keys, jwks).value
    ensures conv(jwks[i]) == Some(Added(conv, keys, jwks).value[jwks[i].kid.value])
    decreases |jwks|
  {
    var keys' := if Usable(jwks[0]) then keys[jwks[0].kid.value := conv(jwks[0]).value] else keys;
    if i == 0 {
      AddedOthers(conv, keys', jwks[1..], jwks[0].kid.value);
    } else {
      assert LastOfName(jwks[1..], i - 1);
      AddedLast(conv, keys', jwks[1..], i - 1);
    }
  }

  lemma NamesConverted(conv: Conversion, jwks: seq<Jwk>, kid: string)
    requires Added(conv, map[], jwks).Some?
    ensures kid in Added(conv, map[], jwks).value
       <==> exists i :: 0 <= i < |jwks| && Usable(jwks[i]) && jwks[i].kid == Some(kid)
  {
    hide Added, Usable;
    if i :| 0 <= i < |jwks| && Usable(jwks[i]) && jwks[i].kid == Some(kid) {
      var k := LastLike(jwks, i);
      AddedLast(conv, map[], jwks, k);
    } else {
      AddedOthers(conv, map[], jwks, kid);
    }
  }

  /**
   * A set converts exactly when it has a named RSA or elliptic-curve key and every such key
   * converts. One that does not convert is the error, before there being none.
   */
  lemma ConvertedExactly(conv: Conversion, jwks: seq<Jwk>)
    ensures Converted(conv, jwks).Ok? <==>
              && (exists j <- jwks :: j.kid.Some? && (j.algorithm.Rsa? || j.algorithm.EllipticCurve?))
              && (forall j <- jwks :: j.kid.Some? && (j.algorithm.Rsa? || j.algorithm.EllipticCurve?) ==>
                    conv(j).Some?)
    ensures Converted(conv, jwks) == Err(KeyConversion) <==>
              exists j <- jwks :: j.kid.Some? && (j.algorithm.Rsa? || j.algorithm.EllipticCurve?) && conv(j).None?
    ensures Converted(conv, jwks).Err? ==> Converted(conv, jwks).error in {KeyConversion, NoUsableKeys}
  {
    hide Added;
    AddedSucceeds(conv, map[], jwks);
    var keys := Added(conv, map[], jwks);
    if keys.Some? {
      if j :| 0 <= j < |jwks| && Usable(jwks[j]) {
        NamesConverted(conv, jwks, jwks[j].kid.value);
      }
      if kid :| kid in keys.value {
        NamesConverted(conv, jwks, kid);
      }
    }
  }

  /** A converted set has a name exactly when an RSA or elliptic-curve key of that name is in the set. */
  lemma ConvertedNames(conv: Conversion, jwks: seq<Jwk>, kid: string)
    requires Converted(conv, jwks).Ok?
    ensures kid in Converted(conv, jwks).value <==>
              exists j <- jwks :: j.kid == Some(kid) && (j.algorithm.Rsa? || j.algorithm.EllipticCurve?)
  {
    hide Added;
    NamesConverted(conv, jwks, kid);
    assert forall i :: 0 <= i < |jwks| ==> jwks[i] in jwks;
  }

  /** Under each name stands the conversion of the last such key of that name. */
  lemma ConvertedLast(conv: Conversion, jwks: seq<Jwk>, i: nat)
    requires Converted(conv, jwks).Ok? && i < |jwks| && jwks[i].kid.Some?
    requires jwks[i].algorithm.Rsa? || jwks[i].algorithm.EllipticCurve?
    requires forall j :: i < j < |jwks| && jwks[j].kid == jwks[i].kid ==>
               !jwks[j].algorithm.Rsa? && !jwks[j].algorithm.EllipticCurve?
    ensures jwks[i].kid.value in Converted(conv, jwks).value
    ensures conv(jwks[i]) == Some(Converted(conv, jwks).value[jwks[i].kid.value])
  {
    hide Added;
    AddedLast(conv, map[], jwks, i);
  }

  /** The set without its unnamed and symmetric entries. */
  function Relevant(jwks: seq<Jwk>): (r: seq<Jwk>) {
    if jwks == [] then []
    else if jwks[0].kid.None? || jwks[0].algorithm.OctetKey? || jwks[0].algorithm.OctetKeyPair? then Relevant(jwks[1..])
    else [jwks[0]] + Relevant(jwks[1..])
  }

  lemma {:induction false} IrrelevantAddsNothing(conv: Conversion, keys: map<string, Key>, jwks: seq<Jwk>)
    ensures Added(conv, keys, Relevant(jwks)) == Added(conv, keys, jwks)
    decreases |jwks|
  {
    if jwks != [] {
      var more := if Usable(jwks[0]) && conv(jwks[0]).Some?
                  then keys[jwks[0].kid.value := conv(jwks[0]).value] else keys;
      IrrelevantAddsNothing(conv, more, jwks[1..]);
      assert ([jwks[0]] + Relevant(jwks[1..]))[1..] == Relevant(jwks[1..]);
    }
  }

  /** Unnamed and symmetric entries make no difference. */
  lemma IrrelevantSkipped(conv: Conversion, jwks: seq<Jwk>)
    ensures Converted(conv, Relevant(jwks)) == Converted(conv, jwks)
  {
    IrrelevantAddsNothing(conv, map[], jwks);
  }

  lemma {:induction false} LastLike(jwks: seq<Jwk>, j: nat) returns (i: nat)
    requires j < |jwks| && Usable(jwks[j])
    ensures LastOfName(jwks, i) && jwks[i].kid == jwks[j].kid
    decreases |jwks| - j
  {
    if k :| j < k < |jwks| && Usable(jwks[k]) && jwks[k].kid == jwks[j].kid {
      i := LastLike(jwks, k);
    } else {
      i := j;
    }
  }

  // ----- The cache

  /** 900 seconds, in nanoseconds. */
  const TTL: int := 900_000_000_000

  datatype Snapshot = Snapshot(keys: map<string, Key>, expiresAt: int)

  /** A hit on the fast path: an unexpired cache that has the key. */
  function FastRead(c: Snapshot, kid: string, now: int): (k: Option<Key>) {
    if c.expiresAt > now && kid in c.keys then Some(c.keys[kid]) else None
  }

  /** The read after a refresh, which does not look at the expiry. */
  function SlowRead(c: Snapshot, kid: string): (k: Result<Key>) {
    if kid in c.keys then Ok(c.keys[kid]) else Err(UnknownKid)
  }

  function Refreshed(keys: map<string, Key>, now: int): (c: Snapshot) {
    Snapshot(keys, now + TTL)
  }

  /** What a fetch of the JWK Set yields. */
  datatype Response = Failed | Body(jwks: seq<Jwk>)

  function KeysOf(conv: Conversion, response: Response): (r: Result<map<string, Key>>) {
    if response.Failed? then Err(Fetch) else Converted(conv, response.jwks)
  }

  /** The state behind the lock. */
  class Cache {
    var keys: map<string, Key>
    var expiresAt: int

    function View(): (c: Snapshot)
      reads this
    {
      Snapshot(keys, expiresAt)
    }

    constructor (now: int)
      ensures View() == Snapshot(map[], now)
    {
      keys, expiresAt := map[], now;
    }

    /** `refresh`, given the response and the time of the store. */
    method Refresh(conv: Conversion, response: Response, now: int) returns (r: Result<()>)
      modifies this
      ensures r.Ok? <==> KeysOf(conv, response).Ok?
      ensures r.Ok? ==> View() == Refreshed(KeysOf(conv, response).value, now)
      ensures r.Err? ==> View() == old(View()) && r.error == KeysOf(conv, response).error
    {
      if response.Failed? {
        return Err(Fetch);
      }
      var converted := JwksToKeys(conv, response.jwks);
      if converted.Err? {
        return Err(converted.error);
      }
      keys := converted.value;
      expiresAt := now + TTL;
      return Ok(());
    }

    /** `get_or_refresh` with no other call in between. */
    method GetOrRefresh(conv: Conversion, kid: string, now: int, response: Response, later: int)
      returns (r: Result<Key>)
      modifies this
      ensures match FastRead(old(View()), kid, now)
              case Some(k) => r == Ok(k) && View() == old(View())
              case None =>
                if KeysOf(conv, response).Err? then r == Err(KeysOf(conv, response).error) && View() == old(View())
                else View() == Refreshed(KeysOf(conv, response).value, later) && r == SlowRead(View(), kid)
    {
      if expiresAt > now && kid in keys {
        return Ok(keys[kid]);
      }
      var refreshed := Refresh(conv, response, later);
      if refreshed.Err? {
        return Err(refreshed.error);
      }
      if kid in keys {
        return Ok(keys[kid]);
      }
      return Err(UnknownKid);
    }
  }
}

// Where the v2 frame handler finds signing keys: a provider says whether
// it can validate at all and, for a (system, component, link) triple, which
// secret key signs that link's frames.

module Signing {
  import opened Bytes

  /** The exact triple a key is registered under. */
  datatype SigningKey = SigningKey(systemId: int, componentId: int, linkId: int)

  /**
   * What a provider answers at one moment: whether it validates and the
   * key of each triple (absent means `getSigningKey` returns null).
   */
  datatype SigningKeyProvider = SigningKeyProvider(canValidate: bool, signingKeys: map<SigningKey, seq<uint8>>)

  /** The provider used when none is given: it never validates and holds no keys. */
  const NoSigningKeyProvider: SigningKeyProvider := SigningKeyProvider(false, map[])

  /** `getSigningKey`: the key registered for exactly this triple, if any. */
  function GetSigningKey(provider: SigningKeyProvider, systemId: int, componentId: int, linkId: int): (r: Option<seq<uint8>>)
    ensures r.Some? <==> SigningKey(systemId, componentId, linkId) in provider.signingKeys
    ensures r.Some? ==> r.value == provider.signingKeys[SigningKey(systemId, componentId, linkId)]
  {
    var key := SigningKey(systemId, componentId, linkId);
    if key in provider.signingKeys then Some(provider.signingKeys[key]) else None
  }

  /** A provider backed by a mutable map from triples to keys. */
  class MapSigningKeyProvider {
    var signingKeys: map<SigningKey, seq<uint8>>

    constructor()
      ensures signingKeys == map[]
    {
      signingKeys := map[];
    }

    /** `register`: from now on the triple maps to `key`; other triples keep theirs. */
    method Register(systemId: int, componentId: int, linkId: int, key: seq<uint8>)
      modifies this
      ensures signingKeys == old(signingKeys)[SigningKey(systemId, componentId, linkId) := key]
    {
      signingKeys := signingKeys[SigningKey(systemId, componentId, linkId) := key];
    }

    /** `unregister`: the triple no longer has a key; other triples keep theirs. */
    method Unregister(systemId: int, componentId: int, linkId: int)
      modifies this
      ensures signingKeys == old(signingKeys) - {SigningKey(systemId, componentId, linkId)}
    {
      signingKeys := signingKeys - {SigningKey(systemId, componentId, linkId)};
    }

    /** `canValidate` is always true for this provider. */
    function CanValidate(): (r: bool)
      ensures r
    {
      true
    }

    /** The provider as the frame handler sees it now. */
    function Provider(): (r: SigningKeyProvider)
      reads this
      ensures r.canValidate && r.signingKeys == signingKeys
    {
      SigningKeyProvider(CanValidate(), signingKeys)
    }
  }

  /** After registering a key for a triple, the lookup of that triple returns it. */
  lemma LookupAfterRegister(keys: map<SigningKey, seq<uint8>>, s: int, c: int, l: int, key: seq<uint8>, s2: int, c2: int, l2: int)
    ensures var p := SigningKeyProvider(true, keys[SigningKey(s, c, l) := key]);
            GetSigningKey(p, s2, c2, l2)
            == if (s2, c2, l2) == (s, c, l) then Some(key) else GetSigningKey(SigningKeyProvider(true, keys), s2, c2, l2)
  {
  }

  /** After unregistering a triple, its lookup returns nothing and other lookups are unchanged. */
  lemma LookupAfterUnregister(keys: map<SigningKey, seq<uint8>>, s: int, c: int, l: int, s2: int, c2: int, l2: int)
    ensures var p := SigningKeyProvider(true, keys - {SigningKey(s, c, l)});
            GetSigningKey(p, s2, c2, l2)
            == if (s2, c2, l2) == (s, c, l) then None else GetSigningKey(SigningKeyProvider(true, keys), s2, c2, l2)
  {
  }
}

/** key/sig_keyring.go: a keyring of trusted signature verification keys alone, a slice
    kept strictly sorted by the key bytes. */
module SigKeyring {
  import opened Bytes
  import opened Wrappers
  import opened SortedKeys
  import Search
  import Sig

  function SigBytes(key: Sig.SigPublicKey): seq<byte> { key }

  /** cmpSigPublicKey (key/sig_keyring.go): bytes.Compare on the key bytes, zero exactly for
      equal keys and reversed when they are swapped. */
  function CmpSigPublicKey(a: Sig.SigPublicKey, b: Sig.SigPublicKey): (r: int)
    ensures r == 0 <==> a == b
    ensures r == -Compare(b, a)
  {
    CompareZeroIffEqual(a, b);
    CompareAntisymmetric(a, b);
    Compare(a, b)
  }

  lemma CmpSigPublicKeyTransitive(a: Sig.SigPublicKey, b: Sig.SigPublicKey, c: Sig.SigPublicKey)
    ensures CmpSigPublicKey(a, b) < 0 && CmpSigPublicKey(b, c) < 0 ==> CmpSigPublicKey(a, c) < 0
  {
    CompareIsTotalOrder(a, b, c);
  }

  function CmpSigKid(a: Sig.SigPublicKey, kid: seq<byte>): int {
    if |kid| == 32 then CmpSigPublicKey(a, kid) else Compare(a, kid)
  }

  class SigKeyring {
    var ring: seq<Sig.SigPublicKey>

    ghost predicate Valid()
      reads this
    {
      StrictlySorted(ring, SigBytes)
    }

    constructor ()
      ensures Valid() && ring == []
    {
      ring := [];
    }

    /** Import (key/sig_keyring.go:11-17): inserts the key at its sorted position unless it
        is held already. */
    method Import(key: Sig.SigPublicKey)
      requires Valid()
      modifies this
      ensures Valid()
      ensures ring == SortedKeys.Import(old(ring), SigBytes, key)
      ensures key in ring
      ensures key in old(ring) ==> ring == old(ring)
      ensures key !in old(ring) ==> multiset(ring) == multiset(old(ring)) + multiset{key}
    {
      ImportSpec(ring, SigBytes, key);
      var i, found := Find(ring, SigBytes, key, CmpSigKid);
      if found {
        return;
      }
      ring := Search.Insert(ring, i, key);
    }

    /** LookupSigningPublicKey (key/sig_keyring.go:19-29): nothing for an identifier of the
        wrong length or one not held; otherwise the key held, which equals it. */
    method LookupSigningPublicKey(kid: seq<byte>) returns (key: Option<Sig.SigPublicKey>)
      requires Valid()
      ensures key.Some? <==> |kid| == 32 && kid in ring
      ensures key.Some? ==> key.value == kid
    {
      if |kid| != 32 {
        return None;
      }
      var i, found := Find(ring, SigBytes, kid, CmpSigKid);
      if !found {
        return None;
      }
      return Some(ring[i]);
    }
  }
}

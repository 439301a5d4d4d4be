/** key/keyring.go: the in-memory keyring saltpack reads keys from. It holds the local box
    keypairs sorted by public key and the trusted signature verification keys sorted by
    their bytes; both lists only grow, by idempotent imports. */
module Keyring {
  import opened Bytes
  import opened Wrappers
  import opened SortedKeys
  import Search
  import Box
  import Sig

  /** The key a box keypair is filed under. */
  function PublicOf(pair: Box.BoxKeypair): seq<byte> { pair.public }

  /** The key a signature public key is filed under: its bytes. */
  function SigBytes(key: Sig.SigPublicKey): seq<byte> { key }

  /** cmpBoxKeypairPubKey: a keypair against a public key, by the keypair's public half
      only; zero exactly when they are the same key, and the reverse of the swapped
      comparison. */
  function CmpBoxKeypairPubKey(a: Box.BoxKeypair, b: Box.BoxPublicKey): (r: int)
    ensures r == 0 <==> a.public == b
    ensures r == -Compare(b, a.public)
  {
    Box.Compare(a.public, b)
  }

  /** cmpSigPublicKey (key/keyring.go): bytes.Compare on the key bytes. */
  function CmpSigPublicKey(a: Sig.SigPublicKey, b: Sig.SigPublicKey): (r: int)
    ensures r == 0 <==> a == b
    ensures r == -Compare(b, a)
  {
    CompareZeroIffEqual(a, b);
    CompareAntisymmetric(a, b);
    Compare(a, b)
  }

  /** The comparisons the binary searches use, as SortedKeys.Find expects them: on key
      identifiers of any length. */
  function CmpBoxKid(a: Box.BoxKeypair, kid: seq<byte>): int {
    if |kid| == 32 then CmpBoxKeypairPubKey(a, kid) else Compare(a.public, kid)
  }

  function CmpSigKid(a: Sig.SigPublicKey, kid: seq<byte>): int {
    if |kid| == 32 then CmpSigPublicKey(a, kid) else Compare(a, kid)
  }

  /** Whether a key identifier names a box keypair of the list: it has the length of a
      public key and some keypair's public key equals it. */
  predicate HeldKid(boxKeys: seq<Box.BoxKeypair>, kid: seq<byte>) {
    |kid| == 32 && Holds(boxKeys, PublicOf, kid)
  }

  /** The index in `kids` of the first identifier held, or -1 when none is. */
  function FirstHeld(boxKeys: seq<Box.BoxKeypair>, kids: seq<seq<byte>>): (k: int)
    ensures -1 <= k < |kids|
    ensures k == -1 <==> forall j :: 0 <= j < |kids| ==> !HeldKid(boxKeys, kids[j])
    ensures k >= 0 ==> HeldKid(boxKeys, kids[k]) && forall j :: 0 <= j < k ==> !HeldKid(boxKeys, kids[j])
  {
    if kids == [] then -1
    else if HeldKid(boxKeys, kids[0]) then 0
    else
      var k := FirstHeld(boxKeys, kids[1..]);
      assert forall j :: 1 <= j < |kids| ==> kids[1..][j - 1] == kids[j];
      if k == -1 then -1 else k + 1
  }

  class Keyring {
    var boxKeys: seq<Box.BoxKeypair>
    var sigPubKeys: seq<Sig.SigPublicKey>

    /** Both lists strictly sorted: what every binary search of the keyring relies on. */
    ghost predicate Valid()
      reads this
    {
      StrictlySorted(boxKeys, PublicOf) && StrictlySorted(sigPubKeys, SigBytes)
    }

    /** NewKeyring (key/keyring.go:15-17): an empty keyring. */
    constructor ()
      ensures Valid() && boxKeys == [] && sigPubKeys == []
    {
      boxKeys, sigPubKeys := [], [];
    }

    /** ImportBoxKeypair (key/keyring.go:19-25): files the keypair under its public key,
        unless a keypair with that public key is held already, whatever its private half. */
    method ImportBoxKeypair(pair: Box.BoxKeypair)
      requires Valid()
      modifies this
      ensures Valid() && sigPubKeys == old(sigPubKeys)
      ensures boxKeys == Import(old(boxKeys), PublicOf, pair)
      ensures Holds(boxKeys, PublicOf, pair.public)
      ensures Holds(old(boxKeys), PublicOf, pair.public) ==> boxKeys == old(boxKeys)
      ensures !Holds(old(boxKeys), PublicOf, pair.public) ==> multiset(boxKeys) == multiset(old(boxKeys)) + multiset{pair}
    {
      ImportSpec(boxKeys, PublicOf, pair);
      var i, found := Find(boxKeys, PublicOf, pair.public, CmpBoxKid);
      if found {
        return;
      }
      boxKeys := Search.Insert(boxKeys, i, pair);
    }

    /** ImportSigPublicKey (key/keyring.go:27-33): files the key under its bytes unless it is
        held already. */
    method ImportSigPublicKey(key: Sig.SigPublicKey)
      requires Valid()
      modifies this
      ensures Valid() && boxKeys == old(boxKeys)
      ensures sigPubKeys == Import(old(sigPubKeys), SigBytes, key)
      ensures key in sigPubKeys
      ensures key in old(sigPubKeys) ==> sigPubKeys == old(sigPubKeys)
      ensures key !in old(sigPubKeys) ==> multiset(sigPubKeys) == multiset(old(sigPubKeys)) + multiset{key}
    {
      ImportSpec(sigPubKeys, SigBytes, key);
      var i, found := Find(sigPubKeys, SigBytes, key, CmpSigKid);
      if found {
        return;
      }
      sigPubKeys := Search.Insert(sigPubKeys, i, key);
    }

    /** LookupBoxSecretKey (key/keyring.go:39-52): scans the identifiers in order, skipping
        those of the wrong length, and returns, for the first one held, the keypair filed
        under it and its index in the keyring's own list; -1 and nothing when none is held. */
    method LookupBoxSecretKey(kids: seq<seq<byte>>) returns (index: int, pair: Option<Box.BoxKeypair>)
      requires Valid()
      ensures var k := FirstHeld(boxKeys, kids);
        (k == -1 ==> index == -1 && pair == None)
        && (k >= 0 ==> 0 <= index < |boxKeys| && index == Position(boxKeys, PublicOf, kids[k])
                       && pair == Some(boxKeys[index]) && boxKeys[index].public == kids[k])
    {
      var n := 0;
      while n < |kids|
        invariant 0 <= n <= |kids|
        invariant forall j :: 0 <= j < n ==> !HeldKid(boxKeys, kids[j])
      {
        var kid := kids[n];
        if |kid| == 32 {
          var i, found := Find(boxKeys, PublicOf, kid, CmpBoxKid);
          if found {
            return i, Some(boxKeys[i]);
          }
        }
        n := n + 1;
      }
      return -1, None;
    }

    /** LookupBoxSecretKey with the index saltpack's Keyring interface asks for: the
        position in `kids` of the identifier found. */
    method LookupBoxSecretKeyByKid(kids: seq<seq<byte>>) returns (index: int, pair: Option<Box.BoxKeypair>)
      requires Valid()
      ensures index == FirstHeld(boxKeys, kids)
      ensures index == -1 <==> pair == None
      ensures index >= 0 ==> pair.Some? && pair.value in boxKeys && pair.value.public == kids[index]
    {
      var n := 0;
      while n < |kids|
        invariant 0 <= n <= |kids|
        invariant forall j :: 0 <= j < n ==> !HeldKid(boxKeys, kids[j])
      {
        var kid := kids[n];
        if |kid| == 32 {
          var i, found := Find(boxKeys, PublicOf, kid, CmpBoxKid);
          if found {
            return n, Some(boxKeys[i]);
          }
        }
        n := n + 1;
      }
      return -1, None;
    }

    /** LookupBoxPublicKey (key/keyring.go:54-65): nothing for an identifier of the wrong
        length or one not held; otherwise the public key, which equals the identifier. */
    method LookupBoxPublicKey(kid: seq<byte>) returns (key: Option<Box.BoxPublicKey>)
      requires Valid()
      ensures key.Some? <==> HeldKid(boxKeys, kid)
      ensures key.Some? ==> key.value == kid
    {
      if |kid| != 32 {
        return None;
      }
      var i, found := Find(boxKeys, PublicOf, kid, CmpBoxKid);
      if !found {
        return None;
      }
      return Some(boxKeys[i].public);
    }

    /** GetAllBoxSecretKeys (key/keyring.go:67-73): every keypair, in the keyring's order. */
    method GetAllBoxSecretKeys() returns (secrets: seq<Box.BoxKeypair>)
      ensures |secrets| == |boxKeys|
      ensures forall i :: 0 <= i < |boxKeys| ==> secrets[i] == boxKeys[i]
    {
      var a := new Box.BoxKeypair[|boxKeys|](_ => Box.ZeroKeypair);
      for i := 0 to |boxKeys|
        invariant forall j :: 0 <= j < i ==> a[j] == boxKeys[j]
      {
        a[i] := boxKeys[i];
      }
      secrets := a[..];
    }

    /** ImportBoxEphemeralKey (key/keyring.go:75-79): never fails; the first
        min(len(kid), 32) bytes of the identifier, zero after them. */
    function ImportBoxEphemeralKey(kid: seq<byte>): (key: Box.BoxPublicKey)
      ensures forall i :: 0 <= i < 32 ==> key[i] == if i < |kid| then kid[i] else 0
    {
      if |kid| >= 32 then kid[..32] else kid + Zeros(32 - |kid|)
    }

    /** LookupSigningPublicKey (key/keyring.go:81-91): nothing for an identifier of the
        wrong length or one not held; otherwise the key held, which equals the identifier. */
    method LookupSigningPublicKey(kid: seq<byte>) returns (key: Option<Sig.SigPublicKey>)
      requires Valid()
      ensures key.Some? <==> |kid| == 32 && kid in sigPubKeys
      ensures key.Some? ==> key.value == kid
    {
      if |kid| != 32 {
        return None;
      }
      var i, found := Find(sigPubKeys, SigBytes, kid, CmpSigKid);
      if !found {
        return None;
      }
      return Some(sigPubKeys[i]);
    }
  }

  /** The index LookupBoxSecretKey returns is not the one saltpack expects: a keyring
      holding one keypair, asked about two identifiers of which the second is its key,
      answers 0, the index in the keyring, where the identifier's index is 1. */
  lemma LookupBoxSecretKeyWrongIndex()
    ensures var ones := seq(32, _ => 1);
      var boxKeys := [Box.BoxKeypair(ones, Zeros(32))];
      var kids := [Zeros(32), ones];
      StrictlySorted(boxKeys, PublicOf)
      && FirstHeld(boxKeys, kids) == 1 && Position(boxKeys, PublicOf, kids[1]) == 0
  {
    var ones: seq<byte> := seq(32, _ => 1);
    var boxKeys := [Box.BoxKeypair(ones, Zeros(32))];
    assert PublicOf(boxKeys[0]) != Zeros(32) by {
      assert ones[0] != Zeros(32)[0];
    }
    assert !HeldKid(boxKeys, Zeros(32));
    assert HeldKid(boxKeys, ones) by {
      assert PublicOf(boxKeys[0]) == ones;
    }
    CompareZeroIffEqual(ones, ones);
  }
}

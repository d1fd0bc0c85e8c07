/** BLS aggregation in the exponent: keys and signatures are scalars modulo the
    group order, the public key of secret x is x, a signature on m is x times H(m),
    and a signature verifies when it equals the key times H(m). This is the
    additive structure behind sections 2.8 and 3.3.4 of draft-irtf-cfrg-bls-signature. */
module Bls {
  /** Order of the BLS12-381 groups. */
  const ORDER: nat := 0x73eda753299d7d483339d80809a1d80553bda402fffe5bfeffffffff00000001

  type Scalar = x: nat | x < ORDER

  /** Addition modulo the order, with one conditional subtraction. */
  function Add(a: Scalar, b: Scalar): Scalar { if a + b < ORDER then a + b else a + b - ORDER }

  /** Adding a point k times, as scalar multiplication in the group does. */
  function Scale(k: nat, h: Scalar): Scalar {
    if k == 0 then 0 else Add(Scale(k - 1, h), h)
  }

  function Mul(x: Scalar, h: Scalar): Scalar { Scale(x, h) }

  predicate Verifies(pubKey: Scalar, hashed: Scalar, signature: Scalar) {
    signature == Mul(pubKey, hashed)
  }

  function Sum(s: seq<Scalar>): Scalar {
    if s == [] then 0 else Add(Sum(s[..|s| - 1]), s[|s| - 1])
  }

  /** One signature piece per secret key, all on the same hashed message. */
  function Pieces(secrets: seq<Scalar>, hashed: Scalar): (r: seq<Scalar>)
    ensures |r| == |secrets|
  {
    seq(|secrets|, i requires 0 <= i < |secrets| => Mul(secrets[i], hashed))
  }

  // ----- The aggregation loops -----

  method AggregatePublicKey(pubKeys: seq<Scalar>) returns (aggKey: Scalar)
    requires pubKeys != []
    ensures aggKey == Sum(pubKeys)
  {
    aggKey := pubKeys[0];
    assert pubKeys[..1][..0] == [];
    for i := 1 to |pubKeys|
      invariant aggKey == Sum(pubKeys[..i])
    {
      assert pubKeys[..i + 1][..i] == pubKeys[..i];
      aggKey := Add(aggKey, pubKeys[i]);
    }
    assert pubKeys[..|pubKeys|] == pubKeys;
  }

  method AggregateSignature(signatures: seq<Scalar>) returns (aggSig: Scalar)
    requires signatures != []
    ensures aggSig == Sum(signatures)
  {
    aggSig := signatures[0];
    assert signatures[..1][..0] == [];
    for i := 1 to |signatures|
      invariant aggSig == Sum(signatures[..i])
    {
      assert signatures[..i + 1][..i] == signatures[..i];
      aggSig := Add(aggSig, signatures[i]);
    }
    assert signatures[..|signatures|] == signatures;
  }

  /** Verification under a vector of keys. */
  method VerifyUnderKeys(pubKeys: seq<Scalar>, hashed: Scalar, signature: Scalar) returns (ok: bool)
    requires pubKeys != []
    ensures ok == Verifies(Sum(pubKeys), hashed, signature)
  {
    var aggKey := AggregatePublicKey(pubKeys);
    return signature == Mul(aggKey, hashed);
  }

  // ----- Sums do not depend on the order -----

  lemma AddSwap(a: Scalar, b: Scalar, c: Scalar)
    ensures Add(Add(a, b), c) == Add(Add(a, c), b)
  {
  }

  lemma {:induction false} SumRemove(s: seq<Scalar>, j: nat)
    requires j < |s|
    ensures Sum(s) == Add(Sum(s[..j] + s[j + 1..]), s[j])
  {
    var rest := s[..j] + s[j + 1..];
    var init := s[..|s| - 1];
    if j == |s| - 1 {
      assert rest == init;
    } else {
      SumRemove(init, j);
      var restInit := init[..j] + init[j + 1..];
      assert rest[..|rest| - 1] == restInit && rest[|rest| - 1] == s[|s| - 1];
      AddSwap(Sum(restInit), s[j], s[|s| - 1]);
    }
  }

  lemma {:induction false} SumPermutation(a: seq<Scalar>, b: seq<Scalar>)
    requires multiset(a) == multiset(b)
    ensures Sum(a) == Sum(b)
  {
    if a == [] {
      assert |multiset(a)| == |multiset(b)| == |b|;
    } else {
      var init, x := a[..|a| - 1], a[|a| - 1];
      assert a == init + [x];
      assert x in multiset(b);
      var j :| 0 <= j < |b| && b[j] == x;
      var rest := b[..j] + b[j + 1..];
      assert b == b[..j] + [x] + b[j + 1..];
      assert multiset(rest) == multiset(b) - multiset{x};
      SumPermutation(init, rest);
      SumRemove(b, j);
    }
  }

  // ----- Sums distribute over the hashed message -----

  lemma {:induction false} ScaleSum(j: nat, k: nat, h: Scalar)
    ensures Scale(j + k, h) == Add(Scale(j, h), Scale(k, h))
  {
    if k > 0 { ScaleSum(j, k - 1, h); }
  }

  lemma {:induction false} ScaleOfSum(k: nat, g: Scalar, h: Scalar)
    ensures Scale(k, Add(g, h)) == Add(Scale(k, g), Scale(k, h))
  {
    if k > 0 { ScaleOfSum(k - 1, g, h); }
  }

  lemma {:induction false} ScaleUnits(k: nat)
    requires k <= ORDER
    ensures Scale(k, 0) == 0 && Scale(k, 1) == if k < ORDER then k else 0
  {
    if k > 0 { ScaleUnits(k - 1); }
  }

  /** The group order annihilates every point. */
  lemma {:induction false} ScaleByOrder(order: nat, h: Scalar)
    requires order == ORDER
    ensures Scale(order, h) == 0
    decreases h
  {
    ScaleUnits(order);
    if h > 0 {
      ScaleByOrder(order, h - 1);
      ScaleOfSum(order, h - 1, 1);
    }
  }

  lemma MulDistributes(a: Scalar, b: Scalar, h: Scalar)
    ensures Mul(Add(a, b), h) == Add(Mul(a, h), Mul(b, h))
  {
    ScaleSum(a, b, h);
    if a + b >= ORDER {
      var order: nat, rest: nat := ORDER, a + b - ORDER;
      ScaleSum(order, rest, h);
      ScaleByOrder(order, h);
    }
  }

  lemma {:induction false} SumOfPieces(secrets: seq<Scalar>, h: Scalar)
    ensures Sum(Pieces(secrets, h)) == Mul(Sum(secrets), h)
  {
    if secrets != [] {
      var n := |secrets| - 1;
      SumOfPieces(secrets[..n], h);
      assert Pieces(secrets, h)[..n] == Pieces(secrets[..n], h);
      MulDistributes(Sum(secrets[..n]), secrets[n], h);
    }
  }

  /** Pieces summed in arrival order verify under the keys summed in list order,
      whenever they belong to the same keys, each as often in both. */
  lemma AggregateVerifies(signed: seq<Scalar>, listed: seq<Scalar>, h: Scalar)
    requires multiset(signed) == multiset(listed)
    ensures Verifies(Sum(listed), h, Sum(Pieces(signed, h)))
  {
    SumOfPieces(signed, h);
    SumPermutation(signed, listed);
  }

  /** Only zero takes the point to zero, as for every point but the identity of a
      group of prime order. */
  ghost predicate Generates(h: Scalar) { forall x: Scalar :: Mul(x, h) == 0 ==> x == 0 }

  /** Soundness of the sum: on a message whose hash is not the identity, the aggregate
      verifies under a list of keys exactly when both sums of secrets agree. */
  lemma AggregateVerifiesIff(signed: seq<Scalar>, listed: seq<Scalar>, h: Scalar)
    requires Generates(h)
    ensures Verifies(Sum(listed), h, Sum(Pieces(signed, h))) <==> Sum(signed) == Sum(listed)
  {
    SumOfPieces(signed, h);
    var a, b := Sum(signed), Sum(listed);
    var difference: Scalar := if a >= b then a - b else a + ORDER - b;
    MulDistributes(difference, b, h);
    assert Add(difference, b) == a;
  }

  // ----- What the operations are -----

  /** Repeated addition is the product modulo the order: with the quotient q. */
  lemma {:induction false} ScaleIsProduct(k: nat, h: Scalar) returns (q: nat)
    ensures k * h == q * ORDER + Scale(k, h)
  {
    if k == 0 {
      q := 0;
    } else {
      q := ScaleIsProduct(k - 1, h);
      assert k * h == (k - 1) * h + h;
      if Scale(k - 1, h) + h >= ORDER { q := q + 1; }
    }
  }

  /** A signature is the product of secret and hash modulo the order. */
  lemma MulIsProduct(x: Scalar, h: Scalar) returns (q: nat)
    ensures x * h == q * ORDER + Mul(x, h)
  {
    q := ScaleIsProduct(x, h);
  }

  /** The sum of a single value, and of two lists one after the other. */
  lemma {:induction false} SumOfParts(x: Scalar, a: seq<Scalar>, b: seq<Scalar>)
    ensures Sum([]) == 0 && Sum([x]) == x
    ensures Sum(a + b) == Add(Sum(a), Sum(b))
    ensures (Sum(a) + Sum(b)) - Sum(a + b) in {0, ORDER}
  {
    assert [x][..0] == [];
    if b == [] {
      assert a + b == a;
    } else {
      SumOfParts(x, a, b[..|b| - 1]);
      assert (a + b)[..|a + b| - 1] == a + b[..|b| - 1];
    }
  }
}

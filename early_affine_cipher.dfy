/**
 * The earlier variant of the cipher (TP2.py): the same Euclid loop and the
 * same transform modulo 27, but its key check asks for `pgcd(a, 26) == 1`
 * (TP2.py:7) instead of `pgcd(a, 27) == 1`. Its `pgcd` (TP2.py:1-4) is the
 * loop of `ModularArithmetic.EuclidGcd`.
 */
module EarlyAffineCipher {
  import opened Wrappers
  import opened ModularArithmetic
  import AffineCipher

  /** The modulus of this variant's key check, which is not the transform's `AffineCipher.N` (27). */
  const KeyModulus: int := 26

  /** What `chiffrer_affine` of TP2.py returns. */
  function Encryption(message: string, a: int, b: int): (r: Option<string>)
    ensures r.None? <==> Gcd(a, KeyModulus) != 1
    ensures r.Some? ==> |r.value| == |message|
    ensures r.Some? ==> forall i :: 0 <= i < |message| ==>
      (AffineCipher.IsSymbol(r.value[i]) <==> AffineCipher.IsSymbol(AffineCipher.Upper(message[i])))
  {
    if Gcd(a, KeyModulus) != 1 then None
    else Some(AffineCipher.Encipher(AffineCipher.UpperText(message), a, b))
  }

  /**
   * `chiffrer_affine` (TP2.py:6-35): rejects a key with `pgcd(a, 26) != 1`,
   * otherwise upper-cases the message and applies `(a * M + b) % 27` to each
   * alphabet character, copying the others.
   */
  method Encrypt(message: string, a: int, b: int) returns (result: Option<string>)
    ensures result == Encryption(message, a, b)
    ensures result.None? <==> Gcd(a, KeyModulus) != 1
    ensures result.Some? ==> |result.value| == |message|
  {
    var g := EuclidGcd(a, KeyModulus);
    if g != 1 {
      return None;
    }
    var text := AffineCipher.UpperText(message);
    var acc := "";
    for i := 0 to |text|
      invariant |acc| == i
      invariant forall j :: 0 <= j < i ==> acc[j] == AffineCipher.EncipherSymbol(text[j], a, b)
    {
      var c := text[i];
      var m: int;
      if c == ' ' {
        m := 26;
      } else if 'A' <= c <= 'Z' {
        m := c as int - 'A' as int;
      } else {
        acc := acc + [c];
        continue;
      }
      var code := (a * m + b) % AffineCipher.N;
      var out := if code == 26 then ' ' else (code + 'A' as int) as char;
      assert out == AffineCipher.EncipherSymbol(c, a, b);
      acc := acc + [out];
    }
    assert acc == AffineCipher.Encipher(text, a, b);
    result := Some(acc);
  }

  /** Whenever both variants accept the key, they produce the same ciphertext. */
  lemma AgreesWithCorrectedCipher(message: string, a: int, b: int)
    requires Encryption(message, a, b).Some? && AffineCipher.Encryption(message, a, b).Some?
    ensures Encryption(message, a, b) == AffineCipher.Encryption(message, a, b)
  {
  }

  /** Key a = 13 is invertible modulo 27, yet this variant rejects it. */
  lemma RejectsThirteen(message: string, b: int)
    ensures Encryption(message, 13, b) == None
    ensures AffineCipher.Encryption(message, 13, b).Some?
  {
    assert Gcd(13, KeyModulus) == 13;
    assert Gcd(13, AffineCipher.N) == 1;
  }

  /** Key a = 3 is not invertible modulo 27, yet this variant accepts it. */
  lemma AcceptsThree(message: string, b: int)
    ensures Encryption(message, 3, b).Some?
    ensures AffineCipher.Encryption(message, 3, b) == None
  {
    assert Gcd(3, KeyModulus) == 1;
    assert Gcd(3, AffineCipher.N) == 3;
  }

  /**
   * With the accepted key a = 3 the transform is not injective: 'A' (code 0)
   * and 'J' (code 9) encrypt alike, since 3 * 9 = 27, so no decryption can
   * tell them apart.
   */
  lemma KeyThreeCollides(b: int)
    ensures Encryption("A", 3, b).Some?
    ensures Encryption("A", 3, b) == Encryption("J", 3, b)
  {
    AcceptsThree("A", b);
    PyModShift(b, AffineCipher.N, 1);
    assert (3 * AffineCipher.CodeOf('J') + b) % AffineCipher.N == (3 * AffineCipher.CodeOf('A') + b) % AffineCipher.N;
    assert AffineCipher.UpperText("A") == "A";
    assert AffineCipher.UpperText("J") == "J";
    var ea := AffineCipher.Encipher("A", 3, b);
    var ej := AffineCipher.Encipher("J", 3, b);
    assert ea[0] == ej[0];
    assert ea == ej;
  }
}

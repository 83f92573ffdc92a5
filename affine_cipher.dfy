/**
 * The affine cipher of tp02.py:30-94 over the 27-symbol alphabet: 'A'..'Z'
 * have codes 0..25 and the space has code 26. Encryption maps code `M` to
 * `(a * M + b) % 27`, decryption maps `C` to `(a⁻¹ * (C - b)) % 27`; every
 * other character is copied unchanged. The modulus 27 is positive, so
 * Python's `%` and Dafny's `%` agree here.
 */
module AffineCipher {
  import opened Wrappers
  import opened ModularArithmetic

  /** The size of the alphabet and the modulus of every transform. */
  const N: int := 27

  /** `str.upper()` restricted to ASCII: 'a'..'z' become 'A'..'Z', nothing else changes. */
  function Upper(c: char): (u: char)
    ensures !IsLower(u)
    ensures IsLower(c) ==> u as int == c as int - 32
    ensures !IsLower(c) ==> u == c
  {
    if 'a' <= c <= 'z' then (c as int - 'a' as int + 'A' as int) as char else c
  }

  predicate IsLower(c: char) { 'a' <= c <= 'z' }

  /** `message.upper()` (tp02.py:36, tp02.py:71), one character for one. */
  function UpperText(s: string): (r: string)
    ensures |r| == |s|
    ensures forall i :: 0 <= i < |s| ==> !IsLower(r[i])
    ensures forall i :: 0 <= i < |s| && !IsLower(s[i]) ==> r[i] == s[i]
  {
    seq(|s|, i requires 0 <= i < |s| => Upper(s[i]))
  }

  /** Upper-casing twice is upper-casing once. */
  lemma UpperTextIdempotent(s: string)
    ensures UpperText(UpperText(s)) == UpperText(s)
  {
  }

  /** A character of the alphabet: the space or one of 'A'..'Z'. */
  predicate IsSymbol(c: char) { c == ' ' || 'A' <= c <= 'Z' }

  /** The code of a symbol (tp02.py:40-43): space is 26, 'A'..'Z' are 0..25. */
  function CodeOf(c: char): (m: int)
    requires IsSymbol(c)
    ensures 0 <= m < N
  {
    if c == ' ' then 26 else c as int - 'A' as int
  }

  /** The symbol of a code (tp02.py:52-55): 26 is the space, 0..25 are 'A'..'Z'. */
  function SymbolOf(m: int): (c: char)
    requires 0 <= m < N
    ensures IsSymbol(c) && CodeOf(c) == m
  {
    if m == 26 then ' ' else (m + 'A' as int) as char
  }

  /** Codes and symbols are inverse bijections. */
  lemma SymbolOfCodeOf(c: char)
    requires IsSymbol(c)
    ensures SymbolOf(CodeOf(c)) == c
  {
  }

  /** One character of the encryption loop (tp02.py:40-57). */
  function EncipherSymbol(c: char, a: int, b: int): (e: char)
    ensures IsSymbol(e) <==> IsSymbol(c)
    ensures !IsSymbol(c) ==> e == c
  {
    if IsSymbol(c) then SymbolOf((a * CodeOf(c) + b) % N) else c
  }

  /** One character of the decryption loop (tp02.py:75-92), with `inv` the inverse of `a`. */
  function DecipherSymbol(c: char, inv: int, b: int): (d: char)
    ensures IsSymbol(d) <==> IsSymbol(c)
    ensures !IsSymbol(c) ==> d == c
  {
    if IsSymbol(c) then SymbolOf((inv * (CodeOf(c) - b)) % N) else c
  }

  /**
   * The text the encryption loop builds: one output character per input
   * character, at the same position; alphabet characters go to alphabet
   * characters and every other character is copied.
   */
  function Encipher(s: string, a: int, b: int): (r: string)
    ensures |r| == |s|
    ensures forall i :: 0 <= i < |s| ==> (IsSymbol(r[i]) <==> IsSymbol(s[i]))
    ensures forall i :: 0 <= i < |s| && !IsSymbol(s[i]) ==> r[i] == s[i]
  {
    seq(|s|, i requires 0 <= i < |s| => EncipherSymbol(s[i], a, b))
  }

  /** The text the decryption loop builds, with the same shape guarantees as `Encipher`. */
  function Decipher(s: string, inv: int, b: int): (r: string)
    ensures |r| == |s|
    ensures forall i :: 0 <= i < |s| ==> (IsSymbol(r[i]) <==> IsSymbol(s[i]))
    ensures forall i :: 0 <= i < |s| && !IsSymbol(s[i]) ==> r[i] == s[i]
  {
    seq(|s|, i requires 0 <= i < |s| => DecipherSymbol(s[i], inv, b))
  }

  /** What `chiffrer_affine` (tp02.py:30-59) returns. */
  function Encryption(message: string, a: int, b: int): (r: Option<string>)
    ensures r.None? <==> Gcd(a, N) != 1
    ensures r.Some? ==> |r.value| == |message|
    ensures r.Some? ==> forall i :: 0 <= i < |message| && !IsSymbol(Upper(message[i])) ==>
      r.value[i] == Upper(message[i])
  {
    if Gcd(a, N) != 1 then None else Some(Encipher(UpperText(message), a, b))
  }

  /** What `dechiffrer_affine` (tp02.py:62-94) returns. */
  function Decryption(message: string, a: int, b: int): (r: Option<string>)
    ensures r.None? <==> Gcd(a, N) != 1
    ensures r.Some? ==> |r.value| == |message|
    ensures r.Some? ==> forall i :: 0 <= i < |message| && !IsSymbol(Upper(message[i])) ==>
      r.value[i] == Upper(message[i])
  {
    match Inverse(a, N)
    case None => None
    case Some(inv) => Some(Decipher(UpperText(message), inv, b))
  }

  /**
   * `chiffrer_affine` (tp02.py:30-59): rejects a key with `pgcd(a, 27) != 1`,
   * otherwise upper-cases the message and builds the result character by character.
   */
  method Encrypt(message: string, a: int, b: int) returns (result: Option<string>)
    ensures result == Encryption(message, a, b)
    ensures result.None? <==> Gcd(a, N) != 1
    ensures result.Some? ==> |result.value| == |message|
  {
    var g := EuclidGcd(a, N);
    if g != 1 {
      return None;
    }
    var text := UpperText(message);
    var acc := "";
    for i := 0 to |text|
      invariant |acc| == i
      invariant forall j :: 0 <= j < i ==> acc[j] == EncipherSymbol(text[j], a, b)
    {
      var c := text[i];
      var m: int;
      if c == ' ' {
        m := 26;
      } else if 'A' <= c <= 'Z' {
        m := c as int - 'A' as int;
      } else {
        acc := acc + [c];
        continue;
      }
      var code := (a * m + b) % N;
      var out := if code == 26 then ' ' else (code + 'A' as int) as char;
      assert out == EncipherSymbol(c, a, b);
      acc := acc + [out];
    }
    assert acc == Encipher(text, a, b);
    result := Some(acc);
  }

  /**
   * `dechiffrer_affine` (tp02.py:62-94): rejects a key whose inverse modulo 27
   * does not exist, otherwise upper-cases the text and undoes the transform
   * character by character.
   */
  method Decrypt(cipherText: string, a: int, b: int) returns (result: Option<string>)
    ensures result == Decryption(cipherText, a, b)
    ensures result.None? <==> Gcd(a, N) != 1
    ensures result.Some? ==> |result.value| == |cipherText|
  {
    var aInv := Inverse(a, N);
    if aInv.None? {
      return None;
    }
    var inv := aInv.value;
    var text := UpperText(cipherText);
    var acc := "";
    for i := 0 to |text|
      invariant |acc| == i
      invariant forall j :: 0 <= j < i ==> acc[j] == DecipherSymbol(text[j], inv, b)
    {
      var c := text[i];
      var code: int;
      if c == ' ' {
        code := 26;
      } else if 'A' <= c <= 'Z' {
        code := c as int - 'A' as int;
      } else {
        acc := acc + [c];
        continue;
      }
      var m := (inv * (code - b)) % N;
      var out := if m == 26 then ' ' else (m + 'A' as int) as char;
      assert out == DecipherSymbol(c, inv, b);
      acc := acc + [out];
    }
    assert acc == Decipher(text, inv, b);
    result := Some(acc);
  }

  /** Both key checks reject the same keys: `pgcd(a, 27) != 1` exactly when the inverse is `None`. */
  lemma KeyChecksAgree(message: string, cipherText: string, a: int, b: int)
    ensures Encryption(message, a, b).None? <==> Decryption(cipherText, a, b).None?
  {
  }

  /**
   * The arithmetic of one symbol's round trip: with `inv * a ≡ 1 (mod 27)`,
   * `inv * (((a * M + b) % 27) - b) % 27` gives back the code `M`.
   */
  lemma AffineStepInverse(code: int, a: int, inv: int, b: int)
    requires 0 <= code < N
    requires (a * inv) % N == 1
    ensures (inv * ((a * code + b) % N - b)) % N == code
  {
    var q := (a * code + b) / N;
    var k := (a * inv) / N;
    var c := (a * code + b) % N;
    assert c - b == a * code - N * q;
    assert inv * a == 1 + N * k;
    var t := k * code - inv * q;
    assert inv * (c - b) == code + N * t by {
      assert inv * (c - b) == (inv * a) * code - N * (inv * q);
      assert (inv * a) * code == code + N * (k * code);
    }
    DivModUnique(inv * (c - b), N, t, code);
  }

  /** Deciphering undoes enciphering, one character at a time. */
  lemma SymbolRoundTrip(c: char, a: int, inv: int, b: int)
    requires (a * inv) % N == 1
    ensures DecipherSymbol(EncipherSymbol(c, a, b), inv, b) == c
  {
    if IsSymbol(c) {
      AffineStepInverse(CodeOf(c), a, inv, b);
      SymbolOfCodeOf(c);
    }
  }

  /** An enciphered upper-case text has no lower-case letter left to upper-case. */
  lemma EncipherUpperClosed(s: string, a: int, b: int)
    requires forall i :: 0 <= i < |s| ==> !IsLower(s[i])
    ensures UpperText(Encipher(s, a, b)) == Encipher(s, a, b)
  {
    var e := Encipher(s, a, b);
    forall i | 0 <= i < |e| ensures !IsLower(e[i]) {
      if IsSymbol(s[i]) {
        assert IsSymbol(e[i]);
      }
    }
  }

  /**
   * The round-trip law: for a valid key, decrypting the encryption gives back
   * the upper-cased message, whatever characters it holds.
   */
  lemma RoundTrip(message: string, a: int, b: int)
    requires Gcd(a, N) == 1
    ensures Encryption(message, a, b).Some?
    ensures Decryption(Encryption(message, a, b).value, a, b) == Some(UpperText(message))
  {
    var text := UpperText(message);
    var cipher := Encipher(text, a, b);
    var inv := Inverse(a, N).value;
    EncipherUpperClosed(text, a, b);
    var back := Decipher(UpperText(cipher), inv, b);
    assert (a * inv) % N == 1;
    forall i | 0 <= i < |text| ensures back[i] == text[i] {
      SymbolRoundTrip(text[i], a, inv, b);
    }
    assert back == text;
    assert Encryption(message, a, b).value == cipher;
  }

  /** For a valid key, encryption loses nothing but case: equal ciphertexts come from equal upper-cased messages. */
  lemma EncryptionInjective(m1: string, m2: string, a: int, b: int)
    requires Gcd(a, N) == 1
    requires Encryption(m1, a, b) == Encryption(m2, a, b)
    ensures UpperText(m1) == UpperText(m2)
  {
    RoundTrip(m1, a, b);
    RoundTrip(m2, a, b);
  }

  /** Case does not matter to encryption, and the ciphertext holds no lower-case letter. */
  lemma EncryptionCaseInsensitive(message: string, a: int, b: int)
    ensures Encryption(message, a, b) == Encryption(UpperText(message), a, b)
    ensures Encryption(message, a, b).Some? ==>
      forall i :: 0 <= i < |message| ==> !IsLower(Encryption(message, a, b).value[i])
  {
    UpperTextIdempotent(message);
    if Gcd(a, N) == 1 {
      EncipherUpperClosed(UpperText(message), a, b);
    }
  }

  /** Decryption is case-insensitive too. */
  lemma DecryptionCaseInsensitive(cipherText: string, a: int, b: int)
    ensures Decryption(cipherText, a, b) == Decryption(UpperText(cipherText), a, b)
  {
    UpperTextIdempotent(cipherText);
  }

  /** The worked example of the cipher: key (5, 8) takes "HELLO WORLD" to "QBJJYDKYMJX" and back. */
  lemma HelloWorld()
    ensures Inverse(5, N) == Some(11)
    ensures Encryption("HELLO WORLD", 5, 8) == Some("QBJJYDKYMJX")
    ensures Decryption("QBJJYDKYMJX", 5, 8) == Some("HELLO WORLD")
  {
    assert Gcd(5, N) == 1;
    var e := Encipher(UpperText("HELLO WORLD"), 5, 8);
    assert UpperText("HELLO WORLD") == "HELLO WORLD";
    assert e == "QBJJYDKYMJX";
    RoundTrip("HELLO WORLD", 5, 8);
  }

  /** Key a = 9 shares the factor 3 with 27: both directions reject it. */
  lemma InvalidKeyNine(message: string, b: int)
    ensures Encryption(message, 9, b) == None
    ensures Decryption(message, 9, b) == None
  {
    assert Gcd(9, N) == 9;
  }
}

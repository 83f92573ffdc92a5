# Affine cipher over a 27-symbol alphabet

A Dafny model of a teaching implementation of the affine cipher. The alphabet has 27 symbols. Letters `A`–`Z` have codes 0–25 and the space has code 26.

- Encryption maps a code `M` to `(a * M + b) mod 27`.
- Decryption maps a code `C` to `a⁻¹ * (C - b) mod 27`.
- Characters outside the alphabet are copied unchanged.
- A key `a` that is not invertible modulo 27 is rejected with `None`.

The model has four modules:

- `Wrappers` (`wrappers.dfy`): `Option`, the model of a Python `None` return.
- `ModularArithmetic` (`modular_arithmetic.dfy`): the helpers of `tp02.py`.
  - `EuclidGcd` is Euclid's loop (`pgcd`). It is proved against the recursive `Gcd`.
  - `ExtendedEuclid` is the recursive extended algorithm (`euclide_etendu`).
  - `Inverse` is the modular inverse (`inverse_modulaire`).
  - Python's floor-rounding `//` and `%` are written out as `PyDiv` and `PyMod` for every non-zero divisor. No sign restriction on the inputs is needed.
- `AffineCipher` (`affine_cipher.dfy`): `chiffrer_affine` and `dechiffrer_affine` of `tp02.py`.
  - They are the methods `Encrypt` and `Decrypt`. Each builds its result in a loop over the characters.
  - Each is proved equal to a specification function, `Encryption` or `Decryption`. The lemmas state their properties: the round-trip law, case insensitivity, agreement of the two key checks, injectivity, and the worked example.
- `EarlyAffineCipher` (`early_affine_cipher.dfy`): the earlier `TP2.py`. It has the same transform but checks the key against 26.
  - Its `pgcd` (TP2.py:1-4) is the same loop as `tp02.py`'s. `ModularArithmetic.EuclidGcd` models both.

## Model

| member | source | states |
|---|---|---|
| `ModularArithmetic.PyMod` | tp02.py:5 | Python's `a % b`: `a == b * (a // b) + r`; `r` lies in `[0, b)` for a positive divisor and in `(b, 0]` for a negative one |
| `ModularArithmetic.PyDiv` | tp02.py:15 | Python's `a // b` rounds toward minus infinity: `b * q <= a < b * q + b` for a positive divisor, `b * q + b < a <= b * q` for a negative one |
| `ModularArithmetic.Gcd` | tp02.py:3-6 | Euclid's recursion `gcd(a, 0) = a`, `gcd(a, b) = gcd(b, a % b)` with Python's remainder; the result is positive for a positive `b` and negative for a negative `b` |
| `ModularArithmetic.EuclidGcd` | tp02.py:3-6 | the loop terminates (the divisor shrinks in magnitude) and returns `Gcd(a, b)`; `pgcd(a, 0) == a`; the result divides both inputs, and every common divisor divides it |
| `ModularArithmetic.GcdDividesBoth` | tp02.py:3-6 | Euclid's recursion `gcd(a, b) = gcd(b, a % b)`, `gcd(a, 0) = a` yields a common divisor of `a` and `b` |
| `ModularArithmetic.GcdIsGreatest` | tp02.py:3-6 | every common divisor of `a` and `b` divides `gcd(a, b)` |
| `ModularArithmetic.BezoutStep` | tp02.py:13-15 | the update `x = y1`, `y = x1 - (a // m) * y1` carries Bézout's identity from `(m, a % m)` to `(a, m)` |
| `ModularArithmetic.ExtendedEuclid` | tp02.py:9-17 | `euclide_etendu(a, m)` returns `(g, x, y)` with `a*x + m*y == g` and `g == pgcd(a, m)` (the definition's base case, for `m == 0`, is `(a, 1, 0)`) |
| `ModularArithmetic.NormalisedInverse` | tp02.py:26 | from `a*x + m*y == 1`, the value `(x % m + m) % m` is an inverse of `a` modulo `m` |
| `ModularArithmetic.Inverse` | tp02.py:20-26 | `None` exactly when the gcd is not 1; otherwise `a * r ≡ 1 (mod m)`, and `r` lies in `[0, m)` for `m > 0` (in `(m, 0]` for `m < 0`) |
| `AffineCipher.Upper` | tp02.py:36 | one character of `str.upper()` on ASCII: the result is never a lower-case letter; `'a'..'z'` move down by 32 to `'A'..'Z'`; every other character is unchanged |
| `AffineCipher.UpperText` | tp02.py:36 | `message.upper()` on ASCII: same length, no lower-case letter left, other characters unchanged |
| `AffineCipher.UpperTextIdempotent` | tp02.py:71 | upper-casing an upper-cased text changes nothing |
| `AffineCipher.CodeOf` | tp02.py:40-43 | the code of an alphabet symbol lies in `[0, 26]` |
| `AffineCipher.SymbolOf` | tp02.py:52-55 | the code `26` maps to space and `0..25` map to `A`–`Z`; the result is an alphabet symbol whose code is the input |
| `AffineCipher.SymbolOfCodeOf` | tp02.py:40-55 | the symbol of a symbol's code is that symbol |
| `AffineCipher.EncipherSymbol` | tp02.py:40-57 | one character of encryption: alphabet characters go to alphabet characters, every other character is copied |
| `AffineCipher.DecipherSymbol` | tp02.py:75-92 | one character of decryption: alphabet characters go to alphabet characters, every other character is copied |
| `AffineCipher.Encipher` | tp02.py:38-57 | one output character per input character, at the same position; alphabet characters map to alphabet characters, others are copied |
| `AffineCipher.Decipher` | tp02.py:73-92 | the same shape guarantees for the decryption transform |
| `AffineCipher.Encryption` | tp02.py:30-59 | what `chiffrer_affine` returns: `None` exactly when `pgcd(a, 27) != 1`; otherwise a text as long as the message, in which every upper-cased non-alphabet character is copied at its position |
| `AffineCipher.Decryption` | tp02.py:62-94 | what `dechiffrer_affine` returns: `None` exactly when `pgcd(a, 27) != 1` (no inverse modulo 27); otherwise a text as long as the input, with upper-cased non-alphabet characters copied at their positions |
| `AffineCipher.Encrypt` | tp02.py:30-59 | the loop returns `Encryption(message, a, b)`: `None` exactly when `pgcd(a, 27) != 1`, otherwise a text as long as the message |
| `AffineCipher.Decrypt` | tp02.py:62-94 | the loop returns `Decryption(text, a, b)`: `None` exactly when `a` has no inverse modulo 27 (i.e. `pgcd(a, 27) != 1`), otherwise a text as long as the input |
| `AffineCipher.KeyChecksAgree` | tp02.py:31 | the gcd check of encryption and the inverse check of decryption (tp02.py:64-68) reject exactly the same keys |
| `AffineCipher.AffineStepInverse` | tp02.py:84 | with `inv * a ≡ 1 (mod 27)`, `inv * (((a*M + b) % 27) - b) % 27 == M` for every code `M` |
| `AffineCipher.SymbolRoundTrip` | tp02.py:40-92 | deciphering one enciphered character gives it back |
| `AffineCipher.EncipherUpperClosed` | tp02.py:38-57 | enciphering an upper-case text yields a text that upper-casing leaves unchanged |
| `AffineCipher.RoundTrip` | tp02.py:30-94 | for `pgcd(a, 27) == 1` and any `b`, decrypting the encryption of any message gives back the upper-cased message |
| `AffineCipher.EncryptionInjective` | tp02.py:30-59 | for a valid key, equal ciphertexts come from messages that are equal once upper-cased |
| `AffineCipher.EncryptionCaseInsensitive` | tp02.py:36 | encrypting a message and its upper-cased form give the same result, and the ciphertext holds no lower-case letter |
| `AffineCipher.DecryptionCaseInsensitive` | tp02.py:71 | decrypting a text and its upper-cased form give the same result |
| `AffineCipher.HelloWorld` | tp02.py:49 | with key `(5, 8)`: `inverse_modulaire(5, 27) == 11`, `"HELLO WORLD"` encrypts to `"QBJJYDKYMJX"`, and that decrypts back |
| `AffineCipher.InvalidKeyNine` | tp02.py:31-33 | key `a = 9` (`pgcd(9, 27) == 9`) is rejected by both directions |
| `EarlyAffineCipher.Encryption` | TP2.py:6-35 | what TP2's `chiffrer_affine` returns: `None` exactly when `pgcd(a, 26) != 1`; otherwise a text as long as the message, with an alphabet character exactly where the upper-cased message has one |
| `EarlyAffineCipher.Encrypt` | TP2.py:6-35 | the loop returns `None` exactly when `pgcd(a, 26) != 1`; otherwise it returns the tp02 transform of the upper-cased message, which is as long as the message |
| `EarlyAffineCipher.AgreesWithCorrectedCipher` | TP2.py:14-35 | whenever both variants accept the key, their ciphertexts are equal |
| `EarlyAffineCipher.RejectsThirteen` | TP2.py:7-9 | `a = 13` is rejected although it is invertible modulo 27 |
| `EarlyAffineCipher.AcceptsThree` | TP2.py:7 | `a = 3` is accepted although `pgcd(3, 27) == 3` |
| `EarlyAffineCipher.KeyThreeCollides` | TP2.py:25 | with the accepted key `a = 3`, `"A"` and `"J"` encrypt to the same text, for every `b` |

## Left out

- `main` (tp02.py:98-170) is not modelled. It is the interactive menu: console input, `int()` parsing with its `ValueError` message, and printed banners. Its `if resultat:` test treats an empty result as a failure, which is shell behaviour.
- The diagnostic `print` on an invalid key (tp02.py:32, tp02.py:67, TP2.py:8) is not modelled. Only the `None` return is.
- `AffineCipher.UpperText`: models `str.upper()` on ASCII only. Python also upper-cases non-ASCII letters, and some of them change the length (`'ß'` becomes `"SS"`). The model's length and passthrough guarantees hold only under this ASCII assumption.
- `ModularArithmetic.Inverse`: requires `m != 0 || a != 1`. With `m == 0` and `a == 1`, tp02.py:26 computes `x % 0` and Python raises `ZeroDivisionError`. Every other input is covered.
- `ModularArithmetic.ExtendedEuclid`: the Python recursion depth limit is not modelled. The depth is logarithmic in the inputs.
- Python integers are unbounded, like Dafny's `int`, so there is no overflow to model.

## Findings

| source | as written | input that shows it | evidently intended | confidence | as-written member | corrected member |
|---|---|---|---|---|---|---|
| TP2.py:7 | the key check tests `pgcd(a, 26) != 1`, but the transform works modulo 27 (TP2.py:25) and the error message speaks of invertibility modulo 27 | `a = 3`, any `b`: accepted, and `"A"` and `"J"` encrypt alike, so no decryption can recover the message; `a = 13` is rejected although it is invertible modulo 27 | test `pgcd(a, 27) != 1`, as tp02.py:31 does | high; not executed | `EarlyAffineCipher.KeyThreeCollides` | `AffineCipher.RoundTrip` |

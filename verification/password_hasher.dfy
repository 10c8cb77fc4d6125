/** PasswordHasher: a salted PBKDF2 verifier stored as base64(derived key) + base64(salt). */
module PasswordHasher {
  import opened Outcomes
  import opened Base64
  import opened Text

  datatype HashAlgorithmName = SHA256

  datatype Pbkdf2Parameters = Pbkdf2Parameters(prf: HashAlgorithmName, iterations: nat, outputLength: nat)

  /** Salt length in bytes (the source names the constant `SaltBits`, but it sizes a byte array). */
  const SaltBytes: nat := 64
  const Iterations: nat := 100000
  const OutputLength: nat := 16

  /** The parameters both hashing paths hand to PBKDF2 (HMAC-SHA-256, section 5.2 of RFC 8018). */
  const Parameters: Pbkdf2Parameters := Pbkdf2Parameters(SHA256, Iterations, OutputLength)

  /** `Rfc2898DeriveBytes.Pbkdf2(password, salt, algorithm, iterations, outputLength)`, left
      uninterpreted: any deterministic function that yields the requested number of bytes. */
  type Pbkdf2 = f: (string, seq<byte>, Pbkdf2Parameters) -> seq<byte>
    | forall password, salt, prm :: |f(password, salt, prm)| == prm.outputLength
    witness (password: string, salt: seq<byte>, prm: Pbkdf2Parameters) => seq(prm.outputLength, _ => 0)

  /** What `GenerateSalt` returns: 64 bytes from the system's random number generator. */
  type Salt = s: seq<byte> | |s| == SaltBytes witness seq(SaltBytes, _ => 0)

  /** Length of every stored verifier: 24 characters of derived key, 88 of salt. */
  const StoredLength: nat := 112

  /** Index of the first `=` in every stored verifier: the padding of the derived key. */
  const FirstPadIndex: nat := 22

  /** The public `Hash(password)`, with the random salt as a parameter. The result is the
      derived key's base64 followed by the salt's base64; the salt text is exactly what
      `Verify` recovers at `IndexOf("=") + 2`, and the key text decodes to the derived key. */
  function Hash(password: string, salt: Salt, kdf: Pbkdf2): (stored: string)
    ensures |stored| == StoredLength
    ensures IndexOf(stored, Pad) == FirstPadIndex
    ensures stored[FirstPadIndex + 2..] == Encode(salt)
    ensures Decode(stored[..FirstPadIndex + 2]) == Some(kdf(password, salt, Parameters))
    ensures Decode(stored[FirstPadIndex + 2..]) == Some(salt)
  {
    var key := kdf(password, salt, Parameters);
    var keyText := Encode(key);
    var saltText := Encode(salt);
    SixteenBytes(key);
    IndexOfInPrefix(keyText, saltText, Pad, FirstPadIndex);
    DecodeEncode(key);
    DecodeEncode(salt);
    assert (keyText + saltText)[..24] == keyText;
    assert (keyText + saltText)[24..] == saltText;
    keyText + saltText
  }

  /** The private `Hash(password, salt)`: decodes the salt text (throwing `FormatException` when
      it is not base64) and returns the base64 of the derived key. */
  function HashEncodedSalt(password: string, saltText: string, kdf: Pbkdf2): (r: Completion<string>)
    ensures r.Threw? <==> Decode(saltText).None?
    ensures r.Threw? ==> r.exception == Format
    ensures r.Returned? ==> |r.value| == 24 && Decode(r.value) == Some(kdf(password, Decode(saltText).value, Parameters))
  {
    var decoded := Decode(saltText);
    if decoded.None? then Threw(Format)
    else
      var key := kdf(password, decoded.value, Parameters);
      SixteenBytes(key);
      DecodeEncode(key);
      Returned(Encode(key))
  }

  /** `Verify(password, hashedPassword)`: take the text after the first `=` plus one more
      character as the salt, rehash, and compare with the whole stored string. `s[i..]` throws
      when `i` is past the end; decoding a non-base64 salt throws `FormatException`. A `true`
      answer pins the layout down: the first `=` is at index 22 and the first 24 characters are
      the base64 of the derived key for the salt that follows. */
  function Verify(password: string, stored: string, kdf: Pbkdf2): (r: Completion<bool>)
    ensures r.Threw? ==> r.exception == ArgumentOutOfRange || r.exception == Format
    ensures r == Returned(true) ==>
      && |stored| >= 24
      && IndexOf(stored, Pad) == FirstPadIndex
      && Decode(stored[24..]).Some?
      && Decode(stored[..24]) == Some(kdf(password, Decode(stored[24..]).value, Parameters))
  {
    var start := IndexOf(stored, Pad) + 2;
    if start > |stored| then Threw(ArgumentOutOfRange)
    else
      var saltText := stored[start..];
      match HashEncodedSalt(password, saltText, kdf)
      case Threw(e) => Threw(e)
      case Returned(keyText) =>
        var ok := stored == keyText + saltText;
        assert ok ==> stored[..24] == keyText && start == 24;
        Returned(ok)
  }

  /** Every stored value of the form base64(16-byte key) + base64(salt) verifies exactly the
      passwords whose derived key for that salt is the stored key. */
  lemma VerifyStoredForm(password: string, key: seq<byte>, salt: seq<byte>, kdf: Pbkdf2)
    requires |key| == OutputLength
    ensures Verify(password, Encode(key) + Encode(salt), kdf) == Returned(kdf(password, salt, Parameters) == key)
  {
    var keyText, saltText := Encode(key), Encode(salt);
    var stored := keyText + saltText;
    SixteenBytes(key);
    IndexOfInPrefix(keyText, saltText, Pad, FirstPadIndex);
    assert stored[24..] == saltText;
    DecodeEncode(salt);
    var derived := kdf(password, salt, Parameters);
    assert HashEncodedSalt(password, saltText, kdf) == Returned(Encode(derived));
    EncodeInjective(derived, key);
    if Encode(derived) + saltText == stored {
      assert Encode(derived) == (Encode(derived) + saltText)[..24] == keyText;
    }
  }

  /** Round trip: a password verifies against its own hash, whatever the salt. */
  lemma VerifyHash(password: string, salt: Salt, kdf: Pbkdf2)
    ensures Verify(password, Hash(password, salt, kdf), kdf) == Returned(true)
  {
    VerifyStoredForm(password, kdf(password, salt, Parameters), salt, kdf);
  }

  /** A different password verifies against a hash exactly when PBKDF2 collides on that salt. */
  lemma VerifyOtherPassword(password: string, attempt: string, salt: Salt, kdf: Pbkdf2)
    ensures Verify(attempt, Hash(password, salt, kdf), kdf)
         == Returned(kdf(attempt, salt, Parameters) == kdf(password, salt, Parameters))
  {
    VerifyStoredForm(attempt, kdf(password, salt, Parameters), salt, kdf);
  }

  /** The private rehash reproduces the derived-key half of the public hash: both paths use
      the same PBKDF2 parameters. */
  lemma HashPathsAgree(password: string, salt: Salt, kdf: Pbkdf2)
    ensures HashEncodedSalt(password, Encode(salt), kdf) == Returned(Hash(password, salt, kdf)[..24])
  {
    DecodeEncode(salt);
    var h := Hash(password, salt, kdf);
    assert h[..24] == Encode(kdf(password, salt, Parameters));
  }

  /** A stored value that is not in `Hash`'s format makes `Verify` throw: the plaintext "Test"
      has no `=`, so the salt text is "est", which is not base64. */
  lemma VerifyPlaintextThrows(password: string, kdf: Pbkdf2)
    ensures Verify(password, "Test", kdf) == Threw(Format)
  {
    assert IndexOf("Test", Pad) == -1;
    assert "Test"[1..] == "est";
  }
}

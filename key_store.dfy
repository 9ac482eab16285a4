/**
  Saving and loading a key pair (saveKeyPair / loadKeyPair, encryptFile / decryptFile). A file
  is its text content. Without a passphrase the file is the Base16 text of the container;
  with one it is three lines: the salt, the IV and the ciphertext, each as Base16 text. The
  Base16 codec, PBKDF2 and AES-CFB are Crypto++ calls: they are parameters here, and the
  round-trip lemmas assume only that decoding undoes encoding.
 */
module KeyStore {
  import opened Wrappers
  import opened Errors
  import opened KeyPairs
  import opened BinaryCodec
  import PublicKeyInfo

  /** Base16 conversion of a string (strHexEncode / strHexDecode and the buffer variants). */
  datatype Hex = Hex(encode: string -> string, decode: string -> string)

  /** Decoding undoes encoding, and encoded text never holds a line break. */
  ghost predicate HexLaws(hex: Hex) {
    && (forall s :: hex.decode(hex.encode(s)) == s)
    && (forall s :: '\n' !in hex.encode(s))
  }

  /** PBKDF2-HMAC-SHA1 key derivation and AES in CFB mode. */
  datatype Cipher = Cipher(
    deriveKey: (string, string, nat, nat) -> string,  // passphrase, salt, iterations, key bytes
    encrypt: (string, string, string) -> string,      // key, iv, plaintext
    decrypt: (string, string, string) -> string)      // key, iv, ciphertext

  /** Decrypting with the key and IV used to encrypt gives back the plaintext. */
  ghost predicate CipherLaws(cipher: Cipher) {
    forall key, iv, plain :: cipher.decrypt(key, iv, cipher.encrypt(key, iv, plain)) == plain
  }

  /** The PBKDF2 iteration count and AES key size saveKeyPair and loadKeyPair pass on. */
  const PBKDF_ITERATIONS: nat := 1000
  const AES_KEY_SIZE: int := 256

  /** The salt and the IV are 16 random bytes each. */
  const SALT_LENGTH: nat := 16
  const IV_LENGTH: nat := 16

  /** The AES key sizes, in bits, that encryptFile and decryptFile accept. */
  predicate ValidAesKeySize(bits: int) {
    bits == 128 || bits == 192 || bits == 256
  }

  // ---------------------------------------------------------------------------------------
  // Lines, as std::getline reads them

  /** The length of the first line of s: the position of the first line break, or |s|. */
  function LineEnd(s: string): (n: nat)
    ensures n <= |s|
    ensures forall i :: 0 <= i < n ==> s[i] != '\n'
    ensures n < |s| ==> s[n] == '\n'
  {
    if s == [] || s[0] == '\n' then 0 else 1 + LineEnd(s[1..])
  }

  /** The lines successive getline calls extract; a final line break starts no further line. */
  function Lines(s: string): seq<string>
    decreases |s|
  {
    if s == [] then []
    else
      var n := LineEnd(s);
      [s[..n]] + if n < |s| then Lines(s[n + 1..]) else []
  }

  /** The text the i-th getline call leaves in its string: "" once the file is exhausted. */
  function Line(s: string, i: nat): string {
    if i < |Lines(s)| then Lines(s)[i] else ""
  }

  lemma {:induction false} LineEndOf(a: string, rest: string)
    requires '\n' !in a
    ensures LineEnd(a + rest) == |a| || (LineEnd(a + rest) > |a| && rest != [] && rest[0] != '\n')
    ensures rest != [] && rest[0] == '\n' ==> LineEnd(a + rest) == |a|
    ensures rest == [] ==> LineEnd(a + rest) == |a|
    decreases |a|
  {
    if a != [] {
      assert (a + rest)[1..] == a[1..] + rest;
      LineEndOf(a[1..], rest);
    }
  }

  /** A line without a break, followed by a break, is the first line. */
  lemma LinesCons(a: string, rest: string)
    requires '\n' !in a
    ensures Lines(a + "\n" + rest) == [a] + Lines(rest)
  {
    var s := a + "\n" + rest;
    LineEndOf(a, "\n" + rest);
    assert a + "\n" + rest == a + ("\n" + rest);
    assert s[..|a|] == a;
    assert s[|a| + 1..] == rest;
  }

  /** A text without a break is the only line, if it is not empty. */
  lemma LinesSingle(a: string)
    requires '\n' !in a
    ensures Line(a, 0) == a
  {
    if a != [] {
      LineEndOf(a, []);
      assert a + [] == a;
    }
  }

  /** The three lines of an encrypted file read back as written. */
  lemma ThreeLines(a: string, b: string, c: string)
    requires '\n' !in a && '\n' !in b && '\n' !in c
    ensures var s := a + "\n" + b + "\n" + c;
      Line(s, 0) == a && Line(s, 1) == b && Line(s, 2) == c
  {
    var s := a + "\n" + b + "\n" + c;
    LinesCons(b, c);
    assert s == a + "\n" + (b + "\n" + c);
    LinesCons(a, b + "\n" + c);
    LinesSingle(c);
    if c == [] {
      assert Lines(c) == [];
    } else {
      assert Lines(c)[0] == c;
    }
  }

  // ---------------------------------------------------------------------------------------
  // Encrypted files

  /** encryptFile (keyring.cc:971-1003): the content of the file written. */
  function EncryptFile(hex: Hex, cipher: Cipher, content: string, passphrase: string,
                       salt: string, iv: string, iterations: nat, aesKeySize: int): (r: Result<string, Error>)
    requires |salt| == SALT_LENGTH && |iv| == IV_LENGTH
    ensures r.Success? <==> ValidAesKeySize(aesKeySize)
    ensures r.Failure? ==> r.error == UnsupportedAesKeySize
  {
    if !ValidAesKeySize(aesKeySize) then Failure(UnsupportedAesKeySize)
    else
      var key := cipher.deriveKey(passphrase, salt, iterations, aesKeySize / 8);
      Success(hex.encode(salt) + "\n" + hex.encode(iv) + "\n" + hex.encode(cipher.encrypt(key, iv, content)))
  }

  /** decryptFile (keyring.cc:1005-1036): the plaintext recovered from a file's content. */
  function DecryptFile(hex: Hex, cipher: Cipher, file: string, passphrase: string,
                       iterations: nat, aesKeySize: int): (r: Result<string, Error>)
    ensures r.Success? <==> ValidAesKeySize(aesKeySize)
    ensures r.Failure? ==> r.error == UnsupportedAesKeySize
  {
    if !ValidAesKeySize(aesKeySize) then Failure(UnsupportedAesKeySize)
    else
      var salt := hex.decode(Line(file, 0));
      var iv := hex.decode(Line(file, 1));
      var encrypted := hex.decode(Line(file, 2));
      var key := cipher.deriveKey(passphrase, salt, iterations, aesKeySize / 8);
      Success(cipher.decrypt(key, iv, encrypted))
  }

  /** The encrypted file holds the salt, the IV and the ciphertext, one per line. */
  lemma EncryptedLayout(hex: Hex, cipher: Cipher, content: string, passphrase: string,
                        salt: string, iv: string, iterations: nat, aesKeySize: int)
    requires HexLaws(hex)
    requires |salt| == SALT_LENGTH && |iv| == IV_LENGTH && ValidAesKeySize(aesKeySize)
    ensures var file := EncryptFile(hex, cipher, content, passphrase, salt, iv, iterations, aesKeySize).value;
      var key := cipher.deriveKey(passphrase, salt, iterations, aesKeySize / 8);
      && Line(file, 0) == hex.encode(salt)
      && Line(file, 1) == hex.encode(iv)
      && Line(file, 2) == hex.encode(cipher.encrypt(key, iv, content))
  {
    var key := cipher.deriveKey(passphrase, salt, iterations, aesKeySize / 8);
    ThreeLines(hex.encode(salt), hex.encode(iv), hex.encode(cipher.encrypt(key, iv, content)));
  }

  /** Decrypting an encrypted file with the same passphrase and parameters gives back the
      content. */
  lemma DecryptEncrypt(hex: Hex, cipher: Cipher, content: string, passphrase: string,
                       salt: string, iv: string, iterations: nat, aesKeySize: int)
    requires HexLaws(hex) && CipherLaws(cipher)
    requires |salt| == SALT_LENGTH && |iv| == IV_LENGTH && ValidAesKeySize(aesKeySize)
    ensures var file := EncryptFile(hex, cipher, content, passphrase, salt, iv, iterations, aesKeySize).value;
      DecryptFile(hex, cipher, file, passphrase, iterations, aesKeySize) == Success(content)
  {
    EncryptedLayout(hex, cipher, content, passphrase, salt, iv, iterations, aesKeySize);
  }

  // ---------------------------------------------------------------------------------------
  // Key pair files

  /** saveKeyPair (keyring.cc:525-535): the content of the file written for a record, or the
      exception encodeBuffer throws. */
  function SaveKeyPair(hex: Hex, cipher: Cipher, kp: KeyPair, passphrase: string,
                       salt: string, iv: string): (r: Result<string, Error>)
    requires |salt| == SALT_LENGTH && |iv| == IV_LENGTH
    ensures r.Success? <==> Encodable(kp)
    ensures r.Failure? ==> r.error == Encode(kp).error
  {
    var buffer :- Encode(kp);
    if passphrase != "" then
      EncryptFile(hex, cipher, buffer, passphrase, salt, iv, PBKDF_ITERATIONS, AES_KEY_SIZE)
    else
      Success(hex.encode(buffer))
  }

  /** loadKeyPair (keyring.cc:512-523): the record read back from a file's content. */
  function LoadKeyPair(hex: Hex, cipher: Cipher, file: string, passphrase: string): (r: Result<KeyPair, Error>)
    ensures r.Failure? ==> r.error in {InvalidContainer, UnknownKeyType, UnknownCurveId, TruncatedInput}
  {
    var content :-
      if passphrase != "" then DecryptFile(hex, cipher, file, passphrase, PBKDF_ITERATIONS, AES_KEY_SIZE)
      else Success(hex.decode(Line(file, 0)));
    Decode(content)
  }

  /** The container a file holds, as loadKeyPair recovers it, is the one saveKeyPair encoded. */
  lemma SavedContainer(hex: Hex, cipher: Cipher, kp: KeyPair, passphrase: string, salt: string, iv: string)
    requires HexLaws(hex) && CipherLaws(cipher)
    requires |salt| == SALT_LENGTH && |iv| == IV_LENGTH
    requires Encodable(kp)
    ensures var file := SaveKeyPair(hex, cipher, kp, passphrase, salt, iv).value;
      LoadKeyPair(hex, cipher, file, passphrase) == Decode(Encode(kp).value)
  {
    var buffer := Encode(kp).value;
    if passphrase != "" {
      DecryptEncrypt(hex, cipher, buffer, passphrase, salt, iv, PBKDF_ITERATIONS, AES_KEY_SIZE);
    } else {
      LinesSingle(hex.encode(buffer));
    }
  }

  /** Saving then loading with the same passphrase gives back the record restricted to its
      schema, on both the plain and the encrypted path. */
  lemma SaveLoadRoundTrip(hex: Hex, cipher: Cipher, kp: KeyPair, t: KeyType, passphrase: string,
                          salt: string, iv: string)
    requires HexLaws(hex) && CipherLaws(cipher)
    requires |salt| == SALT_LENGTH && |iv| == IV_LENGTH
    requires Encodable(kp) && kp["keyType"] == TypeName(t)
    requires forall f :: f in Fields(t) ==> |kp[f]| <= MAX_FIELD_LENGTH
    ensures var file := SaveKeyPair(hex, cipher, kp, passphrase, salt, iv).value;
      LoadKeyPair(hex, cipher, file, passphrase) == Success(Schema(kp, t))
  {
    SavedContainer(hex, cipher, kp, passphrase, salt, iv);
    RoundTrip(kp, t, "");
    assert Encode(kp).value + "" == Encode(kp).value;
  }

  /** Whatever loadKeyPair returns can be saved again and has a public view. */
  lemma LoadedRecord(hex: Hex, cipher: Cipher, file: string, passphrase: string)
    requires LoadKeyPair(hex, cipher, file, passphrase).Success?
    ensures var kp := LoadKeyPair(hex, cipher, file, passphrase).value;
      && Encodable(kp) && PublicKeyInfo.PublicInfoOf(kp).Success?
      && kp.Keys == SchemaKeys(ParseKeyType(kp["keyType"]).value)
  {
    var content :=
      if passphrase != "" then DecryptFile(hex, cipher, file, passphrase, PBKDF_ITERATIONS, AES_KEY_SIZE).value
      else hex.decode(Line(file, 0));
    assert LoadKeyPair(hex, cipher, file, passphrase) == Decode(content);
    DecodedSchema(content);
    PublicKeyInfo.DecodedHasPublicInfo(content);
    var t := TagType(Octet(content[3])).value;
    TypeCodesRoundTrip(t);
  }
}

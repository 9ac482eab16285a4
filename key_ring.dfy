/**
  The KeyRing object: a slot holding at most one key-pair record, which createKeyPair and
  load fill, clear empties, and the other operations read. The V8 argument handling is not
  modelled; each operation takes the values its arguments carry.
 */
module KeyRingObject {
  import opened Wrappers
  import opened Errors
  import opened KeyPairs
  import opened CurveRegistry
  import opened BinaryCodec
  import opened PublicKeyInfo
  import opened KeyStore

  /** A file as load finds it: absent, or present with its text content. */
  datatype File = Missing | Present(content: string)

  /** The record with each named field set to the value key generation produced for it. */
  function Filled(acc: KeyPair, names: seq<string>, material: string -> string): KeyPair
    decreases |names|
  {
    if names == [] then acc else Filled(acc[names[0] := material(names[0])], names[1..], material)
  }

  lemma {:induction false} FilledContents(acc: KeyPair, names: seq<string>, material: string -> string)
    ensures forall k :: k in Filled(acc, names, material) <==> k in acc || k in names
    ensures forall k :: k in Filled(acc, names, material) ==>
      Filled(acc, names, material)[k] == if k in names then material(k) else acc[k]
    decreases |names|
  {
    if names != [] {
      FilledContents(acc[names[0] := material(names[0])], names[1..], material);
      assert forall k :: k in names <==> k == names[0] || k in names[1..];
    }
  }

  /** The record createKeyPair inserts for type t: the type name, the curve name for the
      elliptic-curve types, and the generated fields. */
  function Generated(t: KeyType, curve: string, material: string -> string): KeyPair {
    Filled(HeaderRecord(t, curve), Fields(t), material)
  }

  /** A generated record holds exactly the keys of its schema. */
  lemma GeneratedKeys(t: KeyType, curve: string, material: string -> string)
    ensures Generated(t, curve, material).Keys == SchemaKeys(t)
  {
    var kp := Generated(t, curve, material);
    FilledContents(HeaderRecord(t, curve), Fields(t), material);
    assert forall k :: k in Required(t) <==> (HasCurve(t) && k == "curveName") || k in Fields(t);
    assert forall k :: k in kp <==> k in SchemaKeys(t);
  }

  /** A generated record carries the type name, the curve name for the elliptic-curve types,
      and the generated value of each field. */
  lemma GeneratedValues(t: KeyType, curve: string, material: string -> string)
    ensures var kp := Generated(t, curve, material);
      && "keyType" in kp && kp["keyType"] == TypeName(t)
      && (HasCurve(t) ==> "curveName" in kp && kp["curveName"] == curve)
      && (forall f :: f in Fields(t) ==> f in kp && kp[f] == material(f))
  {
    FilledContents(HeaderRecord(t, curve), Fields(t), material);
    HeaderNotField(t);
    assert "keyType" in HeaderRecord(t, curve);
  }

  /** A generated record on a registered curve is one the container codec accepts, is its own
      schema restriction, and has a public view. */
  lemma GeneratedRecord(t: KeyType, curve: string, material: string -> string)
    requires HasCurve(t) ==> curve in CURVE_NAMES
    ensures var kp := Generated(t, curve, material);
      && WellFormed(kp, t) && Encodable(kp)
      && SchemaKeys(t) <= kp.Keys && Schema(kp, t) == kp
      && PublicInfoOf(kp).Success?
  {
    var kp := Generated(t, curve, material);
    GeneratedKeys(t, curve, material);
    GeneratedValues(t, curve, material);
    assert WellFormed(kp, t);
    SchemaOfExact(kp, t);
    EncodedForm(kp, t);
    TypeCodesRoundTrip(t);
    PublicParamsInSchema(t);
  }

  /** Whether s starts with "sect", the test createKeyPair applies to refuse binary curves. */
  predicate IsBinaryCurveName(s: string) {
    |s| >= 4 && s[..4] == "sect"
  }

  /** No prime curve name passes for a binary one. */
  lemma PrimeNamesNotBinary(name: string)
    requires IsBinaryCurveName(name)
    ensures name !in PRIME_CURVE_NAMES
  {
    RegistryShape();
    forall j | 0 <= j < 15
      ensures PRIME_CURVE_NAMES[j] != name
    {
      assert PRIME_CURVE_NAMES[j][..4] == "secp";
    }
  }

  /** The checks createKeyPair makes after installing the new record: the key size for rsa and
      dsa, the curve name for the elliptic-curve types. */
  function CreateCheck(t: KeyType, keySize: int, curveName: string): (r: Outcome<Error>)
    ensures !HasCurve(t) ==> (r.Pass? <==> 1024 <= keySize <= 16384)
    ensures !HasCurve(t) && r.Fail? ==> r.error == InvalidKeySize
    ensures HasCurve(t) ==> (r.Pass? <==> curveName in PRIME_CURVE_NAMES)
    ensures HasCurve(t) && IsBinaryCurveName(curveName) ==> r == Fail(BinaryCurveUnsupported)
    ensures HasCurve(t) && !IsBinaryCurveName(curveName) && curveName !in PRIME_CURVE_NAMES ==> r == Fail(UnknownCurve)
  {
    if !HasCurve(t) then
      if 1024 <= keySize <= 16384 then Pass else Fail(InvalidKeySize)
    else if IsBinaryCurveName(curveName) then
      PrimeNamesNotBinary(curveName);
      Fail(BinaryCurveUnsupported)
    else if curveName !in PRIME_CURVE_NAMES then Fail(UnknownCurve)
    else Pass
  }

  /** Every prime curve of the registry is accepted, and every binary one is refused as such. */
  lemma CurveCheckMatchesRegistry(t: KeyType, keySize: int, name: string)
    requires HasCurve(t) && name in CURVE_NAMES
    ensures CreateCheck(t, keySize, name).Pass? <==> name in PRIME_CURVE_NAMES
    ensures name !in PRIME_CURVE_NAMES ==> CreateCheck(t, keySize, name) == Fail(BinaryCurveUnsupported)
  {
    RegistryShape();
    var i :| 0 <= i < |CURVE_NAMES| && CURVE_NAMES[i] == name;
    if i < 15 {
      assert PRIME_CURVE_NAMES[i] == name;
      assert !IsBinaryCurveName(name);
    } else {
      assert IsBinaryCurveName(name);
    }
  }

  /** A record the slot holds after a successful create or load: it encodes, and it carries
      exactly the keys of its type's schema. */
  predicate IsRecord(kp: KeyPair) {
    Encodable(kp) && kp.Keys == SchemaKeys(ParseKeyType(kp["keyType"]).value)
  }

  /** A whole record has everything publicKeyInfo copies. */
  lemma RecordHasPublicInfo(kp: KeyPair)
    requires IsRecord(kp)
    ensures PublicInfoOf(kp).Success?
  {
    var t := ParseKeyType(kp["keyType"]).value;
    TypeCodesRoundTrip(t);
    PublicParamsInSchema(t);
  }

  class KeyRing {
    /** The loaded key pair, if any (the keyPair member of the C++ object, null when empty). */
    var keyPair: Option<KeyPair>

    /** The slot is empty, holds the empty record a failed createKeyPair leaves behind, or holds
        a whole record. */
    ghost predicate Valid()
      reads this
    {
      keyPair.None? || keyPair.value == map[] || IsRecord(keyPair.value)
    }

    /** The constructor (keyring.cc:90-103). It may read a file, but it discards what
        loadKeyPair returns, so the slot starts empty either way. */
    constructor()
      ensures keyPair == None
      ensures Valid()
    {
      keyPair := None;
    }

    /** createKeyPair (keyring.cc:256-398). An unknown algorithm leaves the slot as it was. A
        known one empties the slot into a fresh record before the key size or curve is checked,
        so a failed check leaves an empty record behind. Key generation is the material
        function: the field values Crypto++ would produce. */
    method CreateKeyPair(algoType: string, keySize: int, curveName: string, material: string -> string)
      returns (r: Result<PublicInfo, Error>)
      requires Valid()
      modifies this
      ensures Valid()
      ensures ParseKeyType(algoType).None? ==> r == Failure(InvalidAlgoType) && keyPair == old(keyPair)
      ensures ParseKeyType(algoType).Some? ==>
        var t := ParseKeyType(algoType).value;
        match CreateCheck(t, keySize, curveName)
        case Fail(e) => r == Failure(e) && keyPair == Some(map[])
        case Pass =>
          && keyPair == Some(Generated(t, curveName, material))
          && r.Success? && r == PublicInfoOf(Generated(t, curveName, material))
    {
      var parsed := ParseKeyType(algoType);
      if parsed.None? {
        return Failure(InvalidAlgoType);
      }
      var t := parsed.value;
      keyPair := Some(map[]);
      var check := CreateCheck(t, keySize, curveName);
      if check.Fail? {
        return Failure(check.error);
      }
      var kp := Generated(t, curveName, material);
      GeneratedRecord(t, curveName, material);
      GeneratedKeys(t, curveName, material);
      GeneratedValues(t, curveName, material);
      TypeCodesRoundTrip(t);
      keyPair := Some(kp);
      r := PPublicKeyInfo(kp);
    }

    /** publicKeyInfo (keyring.cc:242-250): the public view of the loaded record. */
    method PublicKeyInfo() returns (r: Result<PublicInfo, Error>)
      requires Valid()
      ensures keyPair.None? ==> r == Failure(NoKeyLoaded)
      ensures keyPair.Some? ==> r == PublicInfoOf(keyPair.value)
      ensures keyPair.Some? && keyPair.value != map[] ==> r.Success?
    {
      if keyPair.None? {
        return Failure(NoKeyLoaded);
      }
      if keyPair.value != map[] {
        RecordHasPublicInfo(keyPair.value);
      }
      r := PPublicKeyInfo(keyPair.value);
    }

    /** load (keyring.cc:449-471). A missing file is refused and the slot kept; otherwise the
        slot takes the record loadKeyPair returns, and keeps its old content if that throws. */
    method Load(file: File, passphrase: string, hex: Hex, cipher: Cipher) returns (r: Outcome<Error>)
      requires Valid()
      modifies this
      ensures Valid()
      ensures file.Missing? ==> r == Fail(FileNotFound) && keyPair == old(keyPair)
      ensures file.Present? ==>
        match LoadKeyPair(hex, cipher, file.content, passphrase)
        case Success(kp) => r == Pass && keyPair == Some(kp)
        case Failure(e) => r == Fail(e) && keyPair == old(keyPair)
      ensures r.Pass? ==> keyPair.Some? && IsRecord(keyPair.value) && PublicInfoOf(keyPair.value).Success?
    {
      if file.Missing? {
        return Fail(FileNotFound);
      }
      var loaded := LoadKeyPair(hex, cipher, file.content, passphrase);
      if loaded.Failure? {
        return Fail(loaded.error);
      }
      LoadedRecord(hex, cipher, file.content, passphrase);
      keyPair := Some(loaded.value);
      r := Pass;
    }

    /** save (keyring.cc:477-499): the content of the file saveKeyPair writes for the loaded
        record. The salt and IV are the random bytes the encrypted path draws. */
    method Save(passphrase: string, hex: Hex, cipher: Cipher, salt: string, iv: string)
      returns (r: Result<string, Error>)
      requires Valid()
      requires |salt| == SALT_LENGTH && |iv| == IV_LENGTH
      ensures keyPair.None? ==> r == Failure(NoKeyLoaded)
      ensures keyPair.Some? ==> r.Success? == Encodable(keyPair.value)
      ensures keyPair.Some? ==> (r.Success? <==> keyPair.value != map[])
      ensures keyPair.Some? ==> r == SaveKeyPair(hex, cipher, keyPair.value, passphrase, salt, iv)
    {
      if keyPair.None? {
        return Failure(NoKeyLoaded);
      }
      var buffer := EncodeBuffer(keyPair.value);
      if buffer.Failure? {
        return Failure(buffer.error);
      }
      if passphrase != "" {
        r := EncryptFile(hex, cipher, buffer.value, passphrase, salt, iv, PBKDF_ITERATIONS, AES_KEY_SIZE);
      } else {
        r := Success(hex.encode(buffer.value));
      }
    }

    /** clear (keyring.cc:502-510): the slot is emptied. */
    method Clear()
      modifies this
      ensures keyPair == None
      ensures Valid()
    {
      keyPair := None;
    }

    /** sign (keyring.cc:219-226): only the empty-slot guard exists; Pass is reaching the
        unimplemented body. */
    method Sign() returns (r: Outcome<Error>)
      ensures r.Fail? <==> keyPair.None?
      ensures r.Fail? ==> r.error == NoKeyLoaded
    {
      if keyPair.None? {
        return Fail(NoKeyLoaded);
      }
      return Pass;
    }

    /** agree (keyring.cc:232-239): only the empty-slot guard exists. */
    method Agree() returns (r: Outcome<Error>)
      ensures r.Fail? <==> keyPair.None?
      ensures r.Fail? ==> r.error == NoKeyLoaded
    {
      if keyPair.None? {
        return Fail(NoKeyLoaded);
      }
      return Pass;
    }

    /** decrypt (keyring.cc:168-213): the checks before decryption. The slot must hold a record
        whose "keyType" is an encryption algorithm, and an explicit encoding must be "hex" or
        "base64"; Pass is reaching the unfinished decryption. */
    method Decrypt(encoding: Option<string>) returns (r: Outcome<Error>)
      requires Valid()
      ensures r.Pass? <==>
        && keyPair.Some? && "keyType" in keyPair.value
        && (keyPair.value["keyType"] == "rsa" || keyPair.value["keyType"] == "ecies")
        && (encoding.Some? ==> encoding.value == "hex" || encoding.value == "base64")
      ensures keyPair.None? ==> r == Fail(NoKeyLoaded)
      ensures keyPair.Some? && "keyType" !in keyPair.value ==> r == Fail(MissingKeyType)
      ensures keyPair.Some? && "keyType" in keyPair.value ==>
        (keyPair.value["keyType"] != "rsa" && keyPair.value["keyType"] != "ecies" ==> r == Fail(NotEncryptionKey))
      ensures keyPair.Some? && "keyType" in keyPair.value ==>
        ((keyPair.value["keyType"] in {"rsa", "ecies"} && encoding.Some? && encoding.value !in {"hex", "base64"})
         ==> r == Fail(UnknownEncoding))
      ensures r.Pass? && keyPair.value["keyType"] == "rsa" ==>
        "modulus" in keyPair.value && "publicExponent" in keyPair.value && "privateExponent" in keyPair.value
    {
      if keyPair.None? {
        return Fail(NoKeyLoaded);
      }
      var kp := keyPair.value;
      if "keyType" !in kp {
        return Fail(MissingKeyType);
      }
      var keyType := kp["keyType"];
      if !(keyType == "rsa" || keyType == "ecies") {
        return Fail(NotEncryptionKey);
      }
      if encoding.Some? && !(encoding.value == "hex" || encoding.value == "base64") {
        return Fail(UnknownEncoding);
      }
      return Pass;
    }
  }

  /** Every value key generation produces fits the two-byte length of a frame. */
  ghost predicate FitsFrames(material: string -> string) {
    forall f :: |material(f)| <= MAX_FIELD_LENGTH
  }

  /** A key pair created, saved, cleared and loaded again with the same passphrase is back in
      the slot unchanged, provided hex and the cipher invert and every generated field fits the
      two-byte length. */
  method CreateSaveClearLoad(algoType: string, keySize: int, curveName: string, material: string -> string,
                             passphrase: string, hex: Hex, cipher: Cipher, salt: string, iv: string)
    returns (ring: KeyRing)
    requires HexLaws(hex) && CipherLaws(cipher)
    requires |salt| == SALT_LENGTH && |iv| == IV_LENGTH
    requires FitsFrames(material)
    ensures ParseKeyType(algoType).Some? && CreateCheck(ParseKeyType(algoType).value, keySize, curveName).Pass? ==>
      ring.keyPair == Some(Generated(ParseKeyType(algoType).value, curveName, material))
  {
    ring := new KeyRing();
    var info := ring.CreateKeyPair(algoType, keySize, curveName, material);
    if info.Failure? {
      return;
    }
    var t := ParseKeyType(algoType).value;
    var kp := Generated(t, curveName, material);
    assert CreateCheck(t, keySize, curveName).Pass?;
    GeneratedRecord(t, curveName, material);
    GeneratedValues(t, curveName, material);
    var file := ring.Save(passphrase, hex, cipher, salt, iv);
    ring.Clear();
    SaveLoadRoundTrip(hex, cipher, kp, t, passphrase, salt, iv);
    var loaded := ring.Load(Present(file.value), passphrase, hex, cipher);
  }
}

# node-cryptopp KeyRing, modelled in Dafny

This project models the key ring of node-cryptopp (`keyring.cc`). A `KeyRing` object holds at
most one key pair. A key pair is a record from field names to text: `keyType`, `curveName` for
the elliptic-curve types, and the hex text of each key component. The model covers these parts:

- **Curve registry.** `getCurveID` and `getCurveName` map the 15 prime curves (`secp…`) to the
  ids 0x01–0x0F and the 18 binary curves (`sect…`) to 0x80–0x91.
- **Container codec.** `encodeBuffer` checks a record and writes the container: the magic
  `key`, a tag byte for the type (ecdsa 0, rsa 1, dsa 2, ecdh 3, ecies 4), a curve id byte for
  the elliptic-curve types, then each field of the type's schema as a two-byte big-endian
  length followed by its text. `decodeBuffer` reads a container back into a record.
- **Public view.** `PPublicKeyInfo` builds the public view of a record: `keyType`, the public
  fields of its type, and for ecdsa and ecies the curve name and the point `(x, y)`.
- **The slot.** `createKeyPair`, `load`, `save` and `clear` fill and empty the slot. `sign`,
  `agree`, `decrypt` and `publicKeyInfo` first check it.
- **Saving and loading.** `saveKeyPair` and `loadKeyPair` write the container as hex text. With a
  passphrase, `encryptFile` and `decryptFile` store it as three hex lines: the salt, the IV and
  the AES-CFB ciphertext under a PBKDF2 key.

Modules:

| module | file | covers |
|---|---|---|
| `Wrappers`, `Errors` | `wrappers.dfy` | `Option`, `Result`, `Outcome`; one error per exception the code throws |
| `KeyPairs` | `key_pairs.dfy` | key types, their names and tags, schemas |
| `CurveRegistry` | `curve_registry.dfy` | the curve registry |
| `BinaryCodec` | `binary_codec.dfy` | the container codec |
| `PublicKeyInfo` | `public_key_info.dfy` | the public view |
| `KeyStore` | `key_store.dfy` | saving and loading files |
| `KeyRingObject` | `key_ring.dfy` | the `KeyRing` class and its slot |

The codec, the public view and the `KeyRing` operations are methods with loops and state. Each
is proved equal to a function: `EncodeBuffer` to `Encode`, `DecodeBuffer` to `Decode`,
`PPublicKeyInfo` to `PublicInfoOf`, and `Save` to `SaveKeyPair`. The properties are lemmas
about those functions. The `KeyRing` class keeps an invariant, `Valid`. The slot is empty,
or holds the empty record a failed `createKeyPair` leaves behind, or holds a whole record.
A whole record encodes and has exactly the keys of its type's schema. The constructor
establishes `Valid`, and every operation that changes the slot preserves it.

keyring.cc does the following, which its readers might not expect; the model follows the code:

- Field values in the container are the hex TEXT of each integer, not its raw bytes. The text
  is framed with its own length.
- A failed key-size or curve check in `createKeyPair` still leaves an empty record in the
  slot. The new record is installed before the check runs.
- The constructor calls `loadKeyPair` but discards its result, so a new ring starts empty even
  when it is given a file.

## Model

| member | source | states |
|---|---|---|
| CurveRegistry.CurveId | keyring.cc:772-808 | succeeds exactly on the 33 registered names, with an id in 0x01–0x0F or 0x80–0x91; any other name fails with the unknown-curve-name error |
| CurveRegistry.CurveName | keyring.cc:810-846 | succeeds exactly on the 33 registered ids, giving a registered name; any other id fails with the unknown-curve-id error |
| CurveRegistry.IdsInRange | keyring.cc:772-808 | the registry has 33 names and 33 ids, and every id lies in 0x01–0x0F or 0x80–0x91 |
| CurveRegistry.NamesDistinct | keyring.cc:772-808 | no curve name appears twice, so each name has exactly one id |
| CurveRegistry.IdsDistinct | keyring.cc:810-846 | no id appears twice, so each id has exactly one name |
| CurveRegistry.IdLayout | keyring.cc:772-808 | the i-th prime curve has id 0x01 + i and the i-th binary curve has id 0x80 + i |
| CurveRegistry.RegistryShape | keyring.cc:772-808 | the first 15 names start with "secp" and have ids 0x01–0x0F; the other 18 start with "sect" and have ids 0x80–0x91 |
| CurveRegistry.EntryId | keyring.cc:772-808 | getCurveID gives the i-th name the i-th id |
| CurveRegistry.EntryName | keyring.cc:810-846 | getCurveName gives the i-th id the i-th name |
| CurveRegistry.EntryRoundTrip | keyring.cc:772-846 | the i-th name maps to the i-th id and that id maps back to the i-th name |
| CurveRegistry.NameIdRoundTrip | keyring.cc:772-846 | getCurveName(getCurveID(n)) == n for every registered name |
| CurveRegistry.IdNameRoundTrip | keyring.cc:772-846 | getCurveID(getCurveName(id)) == id for every registered id |
| CurveRegistry.CurveNameOfChar | keyring.cc:810-846 | as written, on an id read into a signed char (-128..127): succeeds exactly on the prime ids 0x01–0x0F, and every other value, every binary id included, fails with the unknown-curve-id error |
| CurveRegistry.BinaryIdsRejectedAsSignedChar | keyring.cc:810-846 | as written: read into a signed char, the id of every binary curve matches no branch, so getCurveName throws although the name round-trips through the unsigned id |
| KeyPairs.ParseKeyType | keyring.cc:266-269 | a key type name parses to the type of that name; a string that names no type parses to nothing |
| KeyPairs.TagType | keyring.cc:553-662 | a tag byte gives the type whose tag it is; a byte no type uses gives nothing |
| KeyPairs.TypeCodesRoundTrip | keyring.cc:678-755 | every type's name parses back to it, and the tag encodeBuffer writes for it reads back as it |
| KeyPairs.FirstMissing | keyring.cc:673-676 | the index of the first listed field absent from the record, with every field before it present; none exactly when all are present |
| KeyPairs.Schema | keyring.cc:574-580 | the record restricted to the keys decodeBuffer produces for a type: exactly the schema keys, with the record's values |
| BinaryCodec.Frame | keyring.cc:688-690 | a field is framed as two bytes and its text; the two bytes, read back high then low, give the text's length modulo 0x10000 |
| BinaryCodec.Frames | keyring.cc:686-698 | the frames of the fields take two bytes plus the text length per field |
| BinaryCodec.Encode | keyring.cc:666-770 | succeeds exactly on the records that have a known keyType, every required parameter and, for the elliptic-curve types, a registered curve |
| BinaryCodec.EncodeErrors | keyring.cc:668-768 | the exception for each record Encode rejects: missing keyType, then unknown key type, then the first missing parameter in the order checked, then an unknown curve name |
| BinaryCodec.FindMissing | keyring.cc:673-676 | the parameter-check loop returns the index of the first missing parameter, as FirstMissing does |
| BinaryCodec.AppendFrames | keyring.cc:686-698 | appending each field as two length bytes and its text gives the buffer followed by the frames of the fields |
| BinaryCodec.EncodeBuffer | keyring.cc:666-770 | the buffer-writing encoder returns exactly Encode of the record, including which exception it throws |
| BinaryCodec.EncodedForm | keyring.cc:666-770 | for a record whose keyType names t, Encode succeeds exactly when the record is well formed for t, and then gives the header followed by the frames of t's fields |
| BinaryCodec.EncodeLayout | keyring.cc:669-698 | an encoded container is "key", the tag of the type, the curve id for the elliptic-curve types, and 2 + length bytes per field |
| BinaryCodec.FrameReads | keyring.cc:559-563 | a field of at most 0xFFFF chars, framed, reads back as the same field whatever precedes or follows it |
| BinaryCodec.FrameWraps | keyring.cc:688-690 | a field of 0x10000 chars is framed with length 0 because the (char) casts of the length wrap, and reads back as the empty field |
| BinaryCodec.FieldAt | keyring.cc:559-563 | a field is read as a two-byte big-endian length and that many bytes: the result is exactly those bytes and the position after them; a buffer that ends before the length or inside the field gives the truncated-input error |
| BinaryCodec.ReadFields | keyring.cc:559-580 | the named fields are read in order; reading no fields returns the record and position unchanged; a successful read of at least one field ends at least two bytes on and inside the buffer; the only failure is truncated input |
| BinaryCodec.ReadFieldsKeys | keyring.cc:574-580 | a successful read adds exactly the named fields to the record and keeps every other entry |
| BinaryCodec.ReadFrames | keyring.cc:559-573 | the frames of a list of fields, read in order, give back those fields and end right after the last frame |
| BinaryCodec.Decode | keyring.cc:544-664 | a buffer that does not start with "key" is an invalid key file; a missing tag byte or one no type uses is an unknown key type; for ecdsa, ecdh and ecies a missing curve byte or one no curve uses is an unknown curve id; no other error than these and truncated input occurs |
| BinaryCodec.ReadField | keyring.cc:559-563 | the byte-by-byte field loop returns exactly FieldAt: the field's text and the next position, or truncated input |
| BinaryCodec.ReadFieldsInto | keyring.cc:559-573 | reading the named fields one after the other returns exactly ReadFields |
| BinaryCodec.DecodeBuffer | keyring.cc:544-664 | the cursor-based decoder returns exactly Decode of the buffer |
| BinaryCodec.ReadSchema | keyring.cc:574-580 | reading t's fields into the header record gives exactly t's schema keys, with keyType and curveName unchanged |
| BinaryCodec.DecodedSchema | keyring.cc:544-664 | a decoded record has exactly the schema keys of its tag's type, its keyType names that type, and its curveName is the registered name of the id byte after the tag |
| BinaryCodec.DecodeFramed | keyring.cc:544-664 | the header and frames of a well-formed record decode to the record restricted to its schema, whatever bytes follow |
| BinaryCodec.RoundTrip | keyring.cc:544-770 | decodeBuffer(encodeBuffer(kp) + rest) gives back kp restricted to its schema, when every field fits the two-byte length |
| BinaryCodec.FieldAtAsWritten | keyring.cc:559-562 | as written: with both length bytes present the length is the big-endian value they hold; with one, the missing low byte is EOF (-1), so the length is high * 0x100 - 1, or 0xFFFF when the high byte is 0; with none, it is 0xFEFF; the read ends 2 + length bytes on; bytes past the end of the buffer read as 0xFF, and bytes inside it are the buffer's own |
| BinaryCodec.FieldAtAgrees | keyring.cc:559-562 | as written: where the checked read succeeds, the unchecked sbumpc read gives the same field and position |
| BinaryCodec.TruncatedFieldIsPadded | keyring.cc:559-562 | as written: on a buffer that ends before a length, the checked read fails, but the unchecked read makes a field of 0xFEFF bytes 0xFF |
| PublicKeyInfo.PublicParamsNotSecret | keyring.cc:407-440 | the fields copied into the public view are never privateKey, privateExponent or keyType |
| PublicKeyInfo.PublicParamsInSchema | keyring.cc:407-440 | every field the public view checks is one encodeBuffer requires for the type |
| PublicKeyInfo.PublicInfoOf | keyring.cc:400-443 | succeeds exactly when keyType is present and known and every public field of the type is present; otherwise map::at fails, or the type is unknown, or the first missing public field is named |
| PublicKeyInfo.CopyChecked | keyring.cc:407-418 | the check-and-copy loop fails on the first missing field; otherwise it copies every field as text |
| PublicKeyInfo.PPublicKeyInfo | keyring.cc:400-443 | the object-building method returns exactly PublicInfoOf of the record |
| PublicKeyInfo.CopiedContents | keyring.cc:407-418 | the copy holds the named fields as text and keeps every other entry |
| PublicKeyInfo.ProjectionContents | keyring.cc:405-440 | the view holds keyType; for ecdsa and ecies also curveName and the point (publicKeyX, publicKeyY); for the others each public field as text; and nothing else |
| PublicKeyInfo.NoSecretExposed | keyring.cc:400-443 | a public view never holds privateKey or privateExponent |
| PublicKeyInfo.SameProjection | keyring.cc:400-443 | two records that agree on keyType and on its public fields have the same view |
| PublicKeyInfo.SecretsIrrelevant | keyring.cc:400-443 | changing, adding or removing private fields leaves the view unchanged |
| PublicKeyInfo.SchemaKeepsPublicInfo | keyring.cc:400-443 | restricting a record to its schema, as a save and load does, keeps its view |
| PublicKeyInfo.DecodedHasPublicInfo | keyring.cc:400-443 | every record decodeBuffer returns has a public view |
| KeyStore.LineEnd | keyring.cc:1017-1019 | the first line ends at the first line break, or at the end of the text |
| KeyStore.LinesCons | keyring.cc:1017-1019 | a line without a break followed by a break is the first line getline returns, and the rest follow |
| KeyStore.LinesSingle | keyring.cc:517-518 | getline on a text without a break returns the whole text |
| KeyStore.ThreeLines | keyring.cc:1017-1019 | three getline calls on "a\nb\nc" return a, b and c |
| KeyStore.EncryptFile | keyring.cc:971-1003 | succeeds exactly when the AES key size is 128, 192 or 256 bits; otherwise fails with the key-size error |
| KeyStore.DecryptFile | keyring.cc:1005-1036 | succeeds exactly when the AES key size is 128, 192 or 256 bits; otherwise fails with the key-size error |
| KeyStore.EncryptedLayout | keyring.cc:996-1001 | the encrypted file's three lines are the hex salt, the hex IV and the hex ciphertext |
| KeyStore.DecryptEncrypt | keyring.cc:971-1036 | decrypting an encrypted file with the same passphrase, iteration count and key size gives back the content |
| KeyStore.SaveKeyPair | keyring.cc:525-535 | succeeds exactly when encodeBuffer accepts the record, and otherwise fails with encodeBuffer's exception |
| KeyStore.LoadKeyPair | keyring.cc:512-523 | with the default AES key size decryption never fails, so the only errors loadKeyPair reports are decodeBuffer's: invalid key file, unknown key type, unknown curve id or truncated input |
| KeyStore.SavedContainer | keyring.cc:512-535 | with or without a passphrase, loadKeyPair recovers from the saved file the container saveKeyPair encoded |
| KeyStore.SaveLoadRoundTrip | keyring.cc:512-535 | loading a saved record with the same passphrase gives back the record restricted to its schema |
| KeyStore.LoadedRecord | keyring.cc:512-523 | every record loadKeyPair returns can be encoded again, has exactly the schema keys of its type, and has a public view |
| KeyRingObject.FilledContents | keyring.cc:290-394 | inserting the generated fields adds exactly those keys with their generated values and keeps the others |
| KeyRingObject.GeneratedKeys | keyring.cc:290-394 | the record createKeyPair builds has exactly the keys of its type's schema |
| KeyRingObject.GeneratedValues | keyring.cc:290-394 | the created record holds the type name, the curve name for the elliptic-curve types, and the generated value of each field |
| KeyRingObject.GeneratedRecord | keyring.cc:256-398 | a record created on a registered curve can be encoded, is its own schema restriction, and has a public view |
| KeyRingObject.PrimeNamesNotBinary | keyring.cc:314-324 | no prime curve name starts with "sect", so the binary-curve test never refuses a prime curve |
| KeyRingObject.CreateCheck | keyring.cc:278-384 | rsa and dsa pass exactly with a key size in 1024..16384 and otherwise fail with the key-size error; the curve types pass exactly on the 15 prime curve names, refuse a name starting with "sect" as a binary curve and any other name as an unknown curve |
| KeyRingObject.CurveCheckMatchesRegistry | keyring.cc:314-384 | of the registered curves, createKeyPair accepts exactly the prime ones and refuses every binary one as binary |
| KeyRingObject.RecordHasPublicInfo | keyring.cc:400-443 | a record with exactly its schema keys that encodes has a public view |
| KeyRingObject.KeyRing.constructor | keyring.cc:90-103 | a new ring has an empty slot, which satisfies the invariant Valid: the slot is empty, holds the empty record a failed create leaves, or holds a record with exactly its schema keys that encodes |
| KeyRingObject.KeyRing.CreateKeyPair | keyring.cc:256-398 | an unknown algorithm fails and leaves the slot as it was; a failed check fails and leaves an empty record; otherwise the slot holds the generated record and the result is its public view; Valid is preserved |
| KeyRingObject.KeyRing.PublicKeyInfo | keyring.cc:242-250 | fails if no key is loaded; otherwise it is PPublicKeyInfo of the loaded record, which succeeds whenever the slot holds more than the empty record |
| KeyRingObject.KeyRing.Load | keyring.cc:449-471 | a missing file fails and keeps the slot; otherwise the slot takes the record loadKeyPair returns, which has exactly its schema keys, can be saved and has a public view; when loadKeyPair throws, the model reports its error with the slot unchanged (the source does not catch it); Valid is preserved |
| KeyRingObject.KeyRing.Save | keyring.cc:477-499 | fails if no key is loaded; otherwise it writes exactly what saveKeyPair writes, and succeeds exactly when the record can be encoded, which is exactly when the slot holds more than the empty record |
| KeyRingObject.KeyRing.Clear | keyring.cc:502-510 | the slot is empty afterwards, and Valid holds |
| KeyRingObject.KeyRing.Sign | keyring.cc:219-226 | fails exactly when no key is loaded |
| KeyRingObject.KeyRing.Agree | keyring.cc:232-239 | fails exactly when no key is loaded |
| KeyRingObject.KeyRing.Decrypt | keyring.cc:168-213 | passes exactly when the slot holds an rsa or ecies record and any encoding given is hex or base64; otherwise no key loaded, missing keyType, not an encryption key, or unknown encoding, in that order; when it passes on an rsa record, the modulus and both exponents that keyring.cc:202 reads are present |
| KeyRingObject.CreateSaveClearLoad | keyring.cc:256-535 | creating a key pair, saving it, clearing the ring and loading the file with the same passphrase puts the created record back in the slot |

## Left out

- The V8 layer: argument counts, casts of the arguments and the JavaScript objects built.
  Each operation takes the values its arguments carry. The public view is a map from names to
  text or to a point.
- Key generation (Crypto++ RSA, DSA, ECDSA, ECIES and ECDH) is the `material` parameter: the
  value each schema field receives.
- Hex encoding, PBKDF2-HMAC-SHA1 and AES-CFB are Crypto++ calls. They are function-valued
  parameters. The round-trip lemmas assume only that hex decoding undoes encoding, that hex
  text has no line break, and that decryption undoes encryption under the same key and IV.
- The random salt and IV of `encryptFile` are parameters of 16 bytes each.
- KeyStore.DecryptFile: the salt and IV lines are decoded into arrays half their length. The
  model decodes each whole line with the hex codec, which agrees on well-formed files.
- Files: `doesFileExist` is the `File` datatype (`Missing` or `Present`), and a file is its text
  content. `getline` is `Line`. Streams, paths and file errors are not modelled.
- PBKDF_ITERATIONS and AES_KEY_SIZE: the default arguments 1000 and 256 come from `keyring.h`.
  keyring.h is not part of this model, and these values are assumed.
- KeyRingObject.KeyRing.constructor: takes no file name. The source loads the file but
  discards the result, so the slot starts empty either way. An exception thrown while that
  file is read is not modelled.
- KeyRingObject.KeyRing.CreateKeyPair: `getPCurveFromName` (keyring.cc:848-880) throws a V8
  exception on an unknown name and then ends without returning a value. The model returns the
  "Unknown curve" failure its caller evidently means; the curve OIDs are not modelled.
- `getBCurveFromName` (keyring.cc:882-920) is not called by any operation here, because binary
  curves are refused before any lookup. It lists `sect239k1` where the registry has `sect239r1`.
- PublicKeyInfo.PPublicKeyInfo: takes the record, so its null check
  (keyring.cc:402-404) is left out. `publicKeyInfo` checks the slot before calling it, and
  `createKeyPair` calls it (keyring.cc:397) right after installing a non-null record.
- KeyRingObject.KeyRing.Decrypt: `map::at("keyType")` throws `out_of_range` on a record without
  keyType; this is the `MissingKeyType` error. Under Valid, the only such record is the empty
  one a failed `createKeyPair` leaves. The decryption itself is unfinished in the
  source, and `Pass` means reaching it.
- KeyRingObject.KeyRing.Sign and KeyRingObject.KeyRing.Agree: their bodies are empty apart
  from the slot check, so the model covers only the check.
- Uncaught C++ exceptions: `encodeBuffer`, `decodeBuffer`, `getCurveID`, `getCurveName`,
  `PPublicKeyInfo`, `encryptFile` and `decryptFile` throw `new runtime_error`, and `map::at`
  throws `out_of_range` (keyring.cc:182 and 405). No caller catches them: `load`, `save`,
  `publicKeyInfo`, `createKeyPair`, `decrypt` and the constructor let them escape the V8
  callback. Only the errors raised with `ThrowException` reach JavaScript. The model returns
  both kinds as a `Failure` or `Fail` with the slot as the source leaves it at the throw.
  It does not model the process ending or the escape itself.
- Exception messages: each one is an `Error` constructor. The two different messages for a bad
  AES key size share one constructor.
- Memory: `load` replaces the slot without deleting the old record, and the other operations
  delete and reallocate. Heap allocation and leaks are not modelled.
- BinaryCodec.RoundTrip and KeyStore.SaveLoadRoundTrip: require every field to fit in 0xFFFF
  chars. A longer field is written with a wrapped length, as BinaryCodec.FrameWraps shows, and
  does not round-trip.

## Findings

| source | as written | input that shows it | evidently intended | confidence | as-written member | corrected member |
|---|---|---|---|---|---|---|
| keyring.cc:555-556 | `decodeBuffer` reads the curve id into a `char` and `getCurveName(char)` compares it with 0x80–0x91; where `char` is signed the byte 0x80 is -128 and matches no branch | a record on the binary curve `sect113r1`: `encodeBuffer` writes id byte 0x80, and decoding it throws "Unknown curve ID" | every id `getCurveID` writes maps back to its name; proved as CurveRegistry.IdNameRoundTrip | not executed; holds where `char` is signed | CurveRegistry.BinaryIdsRejectedAsSignedChar | CurveRegistry.CurveName |
| keyring.cc:559-562 | field lengths and bytes are read with `sbumpc` without checking for the end of the buffer; EOF is -1, so a missing length reads as `(-1 << 8) + -1`, which is 0xFEFF as an unsigned short, and each missing byte reads as 0xFF | the 4-byte buffer `key` followed by the rsa tag 0x01: the modulus becomes 0xFEFF bytes 0xFF instead of an error | a buffer that ends inside a field is rejected as truncated; the checked reader still reads every encoded container back, proved as BinaryCodec.RoundTrip | not executed | BinaryCodec.TruncatedFieldIsPadded | BinaryCodec.FieldAt |

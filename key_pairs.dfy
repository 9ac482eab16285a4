/**
  The key-pair record of keyring.cc: a map<string, string> whose "keyType" entry names one
  of five algorithms and whose other entries are the fields that algorithm needs. Field
  values are opaque text (in practice the hex text IntegerToHexStr produces).
 */
module KeyPairs {
  import opened Wrappers

  type KeyPair = map<string, string>

  datatype KeyType = Ecdsa | Rsa | Dsa | Ecdh | Ecies

  /** The value of the "keyType" entry for each algorithm. */
  function TypeName(t: KeyType): string {
    match t
    case Ecdsa => "ecdsa"
    case Rsa => "rsa"
    case Dsa => "dsa"
    case Ecdh => "ecdh"
    case Ecies => "ecies"
  }

  /** The algorithm a "keyType" value names, if any. */
  function ParseKeyType(s: string): (r: Option<KeyType>)
    ensures r.Some? ==> TypeName(r.value) == s
    ensures r.None? ==> forall t: KeyType :: TypeName(t) != s
  {
    if s == "ecdsa" then Some(Ecdsa)
    else if s == "rsa" then Some(Rsa)
    else if s == "dsa" then Some(Dsa)
    else if s == "ecdh" then Some(Ecdh)
    else if s == "ecies" then Some(Ecies)
    else None
  }

  /** The container tag byte of each algorithm. */
  function Tag(t: KeyType): nat {
    match t
    case Ecdsa => 0x00
    case Rsa => 0x01
    case Dsa => 0x02
    case Ecdh => 0x03
    case Ecies => 0x04
  }

  /** The algorithm a container tag byte selects, if any. */
  function TagType(b: int): (r: Option<KeyType>)
    ensures r.Some? ==> Tag(r.value) == b
    ensures r.None? ==> forall t: KeyType :: Tag(t) != b
  {
    if b == 0x00 then Some(Ecdsa)
    else if b == 0x01 then Some(Rsa)
    else if b == 0x02 then Some(Dsa)
    else if b == 0x03 then Some(Ecdh)
    else if b == 0x04 then Some(Ecies)
    else None
  }

  /** The type name and the tag byte each identify the type. */
  lemma TypeCodesRoundTrip(t: KeyType)
    ensures ParseKeyType(TypeName(t)) == Some(t)
    ensures TagType(Tag(t)) == Some(t)
  {
  }

  /** Whether the container carries a curve id byte after the tag. */
  predicate HasCurve(t: KeyType) {
    t == Ecdsa || t == Ecies || t == Ecdh
  }

  /** The length-prefixed fields of the container, in the order they are written. */
  function Fields(t: KeyType): seq<string> {
    match t
    case Ecdsa => ["publicKeyX", "publicKeyY", "privateKey"]
    case Ecies => ["publicKeyX", "publicKeyY", "privateKey"]
    case Rsa => ["modulus", "publicExponent", "privateExponent"]
    case Dsa => ["primeField", "divider", "base", "publicElement", "privateExponent"]
    case Ecdh => ["publicKey", "privateKey"]
  }

  /** The fields whose presence is checked before encoding, in the order they are checked. */
  function Required(t: KeyType): seq<string> {
    (if HasCurve(t) then ["curveName"] else []) + Fields(t)
  }

  /** The header keys are never among the length-prefixed fields. */
  lemma HeaderNotField(t: KeyType)
    ensures "keyType" !in Fields(t) && "curveName" !in Fields(t)
  {
  }

  /** Every key a record of type t carries: "keyType" and the required fields. */
  function SchemaKeys(t: KeyType): (r: set<string>)
    ensures forall k :: k in r <==> k == "keyType" || k in Required(t)
  {
    set k | k in ["keyType"] + Required(t)
  }

  /** The record restricted to the keys of its schema. */
  function Schema(kp: KeyPair, t: KeyType): (r: KeyPair)
    requires SchemaKeys(t) <= kp.Keys
    ensures r.Keys == SchemaKeys(t)
    ensures forall k :: k in r ==> r[k] == kp[k]
  {
    map k | k in SchemaKeys(t) :: kp[k]
  }

  /** A record with exactly the schema's keys, each with kp's value, is kp's restriction. */
  lemma IsSchema(r: KeyPair, kp: KeyPair, t: KeyType)
    requires SchemaKeys(t) <= kp.Keys
    requires forall k :: k in r <==> k in SchemaKeys(t)
    requires forall k :: k in r ==> r[k] == kp[k]
    ensures r == Schema(kp, t)
  {
    var s := Schema(kp, t);
    assert r.Keys == s.Keys;
  }

  /** A record that holds exactly its schema's keys is its own restriction. */
  lemma SchemaOfExact(kp: KeyPair, t: KeyType)
    requires kp.Keys == SchemaKeys(t)
    ensures Schema(kp, t) == kp
  {
    assert forall k :: k in Schema(kp, t) <==> k in kp;
  }

  /** The index of the first name that is not a key of kp: the check loops of keyring.cc. */
  function FirstMissing(kp: KeyPair, names: seq<string>): (r: Option<nat>)
    ensures r.None? <==> forall n :: n in names ==> n in kp
    ensures r.Some? ==> r.value < |names| && names[r.value] !in kp
    ensures r.Some? ==> forall j :: 0 <= j < r.value ==> names[j] in kp
  {
    if names == [] then None
    else if names[0] !in kp then Some(0)
    else match FirstMissing(kp, names[1..])
      case None => None
      case Some(i) => Some(i + 1)
  }
}

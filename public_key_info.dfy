/**
  The public view of a key pair (PPublicKeyInfo): the "keyType" entry and the public fields of
  the type, copied as text; for ecdsa and ecies the two coordinates are grouped as one point.
  The V8 object is modelled as a map from property name to value.
 */
module PublicKeyInfo {
  import opened Wrappers
  import opened Errors
  import opened KeyPairs
  import BinaryCodec

  datatype PublicValue = Text(text: string) | Point(x: string, y: string)

  type PublicInfo = map<string, PublicValue>

  /** The fields of the record each type must carry for its public view, in checking order. */
  function PublicParams(t: KeyType): seq<string> {
    match t
    case Rsa => ["modulus", "publicExponent"]
    case Dsa => ["primeField", "divider", "base", "publicElement"]
    case Ecdsa => ["curveName", "publicKeyX", "publicKeyY"]
    case Ecies => ["curveName", "publicKeyX", "publicKeyY"]
    case Ecdh => ["curveName", "publicKey"]
  }

  /** The types whose public key is a point given by two coordinate fields. */
  predicate HasPoint(t: KeyType) {
    t == Ecdsa || t == Ecies
  }

  /** The fields no public view may depend on. */
  const SECRET_FIELDS: set<string> := {"privateKey", "privateExponent"}

  /** The public fields carry no secret. */
  lemma PublicParamsNotSecret(t: KeyType)
    ensures forall n :: n in PublicParams(t) ==> n !in SECRET_FIELDS && n != "keyType"
  {
  }

  /** Every public field is one the record schema requires. */
  lemma PublicParamsInSchema(t: KeyType)
    ensures forall n :: n in PublicParams(t) ==> n in Required(t)
  {
  }

  /** acc with each named field of kp copied in as text. */
  function Copied(acc: PublicInfo, kp: KeyPair, names: seq<string>): PublicInfo
    requires forall n :: n in names ==> n in kp
    decreases |names|
  {
    if names == [] then acc else Copied(acc[names[0] := Text(kp[names[0]])], kp, names[1..])
  }

  /** The public view of a record whose public fields are all present. */
  function Projection(kp: KeyPair, t: KeyType): PublicInfo
    requires "keyType" in kp && forall n :: n in PublicParams(t) ==> n in kp
  {
    var info := map["keyType" := Text(kp["keyType"])];
    if HasPoint(t) then
      info["curveName" := Text(kp["curveName"])]["publicKey" := Point(kp["publicKeyX"], kp["publicKeyY"])]
    else
      Copied(info, kp, PublicParams(t))
  }

  /** PPublicKeyInfo (keyring.cc:400-443) as a function of the record: a missing "keyType"
      makes map::at throw, an unknown type and a missing public field throw. */
  function PublicInfoOf(kp: KeyPair): (r: Result<PublicInfo, Error>)
    ensures r.Success? <==>
      && "keyType" in kp
      && ParseKeyType(kp["keyType"]).Some?
      && forall n :: n in PublicParams(ParseKeyType(kp["keyType"]).value) ==> n in kp
    ensures "keyType" !in kp ==> r == Failure(MissingKeyType)
    ensures "keyType" in kp && ParseKeyType(kp["keyType"]).None? ==> r == Failure(UnknownKeyType)
    ensures "keyType" in kp && ParseKeyType(kp["keyType"]).Some? ==>
      var params := PublicParams(ParseKeyType(kp["keyType"]).value);
      FirstMissing(kp, params).Some? ==> r == Failure(MissingField(params[FirstMissing(kp, params).value]))
  {
    if "keyType" !in kp then Failure(MissingKeyType)
    else match ParseKeyType(kp["keyType"])
      case None => Failure(UnknownKeyType)
      case Some(t) =>
        match FirstMissing(kp, PublicParams(t))
        case Some(i) => Failure(MissingField(PublicParams(t)[i]))
        case None => Success(Projection(kp, t))
  }

  // ---------------------------------------------------------------------------------------
  // The loop of PPublicKeyInfo

  /** Copying one more field extends the copy of the fields before it. */
  lemma {:induction false} CopiedSnoc(acc: PublicInfo, kp: KeyPair, names: seq<string>, n: string)
    requires forall m :: m in names ==> m in kp
    requires n in kp
    ensures Copied(acc, kp, names + [n]) == Copied(acc, kp, names)[n := Text(kp[n])]
    decreases |names|
  {
    if names != [] {
      assert (names + [n])[1..] == names[1..] + [n];
      CopiedSnoc(acc[names[0] := Text(kp[names[0]])], kp, names[1..], n);
    }
  }

  /** Checks each named field and copies it as text into info, as the rsa, dsa and ecdh branches
      do; stops at the first missing field. */
  method CopyChecked(info: PublicInfo, kp: KeyPair, names: seq<string>) returns (r: Result<PublicInfo, Error>)
    ensures FirstMissing(kp, names).Some? ==> r == Failure(MissingField(names[FirstMissing(kp, names).value]))
    ensures FirstMissing(kp, names).None? ==> r == Success(Copied(info, kp, names))
  {
    var obj := info;
    for i := 0 to |names|
      invariant forall j :: 0 <= j < i ==> names[j] in kp
      invariant obj == Copied(info, kp, names[..i])
    {
      if names[i] !in kp {
        return Failure(MissingField(names[i]));
      }
      CopiedSnoc(info, kp, names[..i], names[i]);
      assert names[..i + 1] == names[..i] + [names[i]];
      obj := obj[names[i] := Text(kp[names[i]])];
    }
    assert names[..|names|] == names;
    return Success(obj);
  }

  /** PPublicKeyInfo: reads "keyType", then checks and copies the public fields of the type. */
  method PPublicKeyInfo(kp: KeyPair) returns (r: Result<PublicInfo, Error>)
    ensures r == PublicInfoOf(kp)
  {
    if "keyType" !in kp {
      return Failure(MissingKeyType);
    }
    var keyType := ParseKeyType(kp["keyType"]);
    if keyType.None? {
      return Failure(UnknownKeyType);
    }
    var t := keyType.value;
    var info := map["keyType" := Text(kp["keyType"])];
    var params := PublicParams(t);
    if HasPoint(t) {
      for i := 0 to |params|
        invariant forall j :: 0 <= j < i ==> params[j] in kp
      {
        if params[i] !in kp {
          return Failure(MissingField(params[i]));
        }
      }
      assert params[0] in kp && params[1] in kp && params[2] in kp;
      assert params[0] == "curveName" && params[1] == "publicKeyX" && params[2] == "publicKeyY";
      info := info["curveName" := Text(kp["curveName"])];
      info := info["publicKey" := Point(kp["publicKeyX"], kp["publicKeyY"])];
      return Success(info);
    }
    r := CopyChecked(info, kp, params);
  }

  // ---------------------------------------------------------------------------------------
  // Properties

  /** What Copied adds: the named fields as text; everything else of acc is kept. */
  lemma {:induction false} CopiedContents(acc: PublicInfo, kp: KeyPair, names: seq<string>)
    requires forall n :: n in names ==> n in kp
    ensures forall k :: k in Copied(acc, kp, names) <==> k in acc || k in names
    ensures forall k :: k in names ==> Copied(acc, kp, names)[k] == Text(kp[k])
    ensures forall k :: k in acc && k !in names ==> Copied(acc, kp, names)[k] == acc[k]
    decreases |names|
  {
    if names != [] {
      CopiedContents(acc[names[0] := Text(kp[names[0]])], kp, names[1..]);
    }
  }

  /** The public view holds "keyType" and, for ecdsa and ecies, the curve name and the point;
      for the other types, exactly the public fields, each copied as text. */
  lemma ProjectionContents(kp: KeyPair, t: KeyType)
    requires "keyType" in kp && forall n :: n in PublicParams(t) ==> n in kp
    ensures var r := Projection(kp, t);
      && "keyType" in r && r["keyType"] == Text(kp["keyType"])
      && (HasPoint(t) ==>
            && r.Keys == {"keyType", "curveName", "publicKey"}
            && r["curveName"] == Text(kp["curveName"])
            && r["publicKey"] == Point(kp["publicKeyX"], kp["publicKeyY"]))
      && (!HasPoint(t) ==>
            && (forall k :: k in r <==> k == "keyType" || k in PublicParams(t))
            && (forall k :: k in PublicParams(t) ==> r[k] == Text(kp[k])))
  {
    PublicParamsNotSecret(t);
    if !HasPoint(t) {
      CopiedContents(map["keyType" := Text(kp["keyType"])], kp, PublicParams(t));
    }
  }

  /** PPublicKeyInfo never exposes a private field. */
  lemma NoSecretExposed(kp: KeyPair)
    requires PublicInfoOf(kp).Success?
    ensures forall k :: k in SECRET_FIELDS ==> k !in PublicInfoOf(kp).value
  {
    var t := ParseKeyType(kp["keyType"]).value;
    ProjectionContents(kp, t);
    PublicParamsNotSecret(t);
  }

  /** FirstMissing only looks at the names it is given. */
  lemma {:induction false} FirstMissingAgrees(kp: KeyPair, kp': KeyPair, names: seq<string>)
    requires forall n :: n in names ==> (n in kp <==> n in kp')
    ensures FirstMissing(kp, names) == FirstMissing(kp', names)
    decreases |names|
  {
    if names != [] {
      FirstMissingAgrees(kp, kp', names[1..]);
    }
  }

  /** Copied only looks at the names it is given. */
  lemma {:induction false} CopiedAgrees(acc: PublicInfo, kp: KeyPair, kp': KeyPair, names: seq<string>)
    requires forall n :: n in names ==> n in kp && n in kp' && kp[n] == kp'[n]
    ensures Copied(acc, kp, names) == Copied(acc, kp', names)
    decreases |names|
  {
    if names != [] {
      CopiedAgrees(acc[names[0] := Text(kp[names[0]])], kp, kp', names[1..]);
    }
  }

  /** Two records that agree on "keyType" and on the public fields of that type have the same
      public view, or fail in the same way. */
  lemma SameProjection(kp: KeyPair, kp': KeyPair)
    requires "keyType" in kp <==> "keyType" in kp'
    requires "keyType" in kp ==> kp["keyType"] == kp'["keyType"]
    requires "keyType" in kp && ParseKeyType(kp["keyType"]).Some? ==>
      forall n :: n in PublicParams(ParseKeyType(kp["keyType"]).value) ==>
        (n in kp <==> n in kp') && (n in kp ==> kp[n] == kp'[n])
    ensures PublicInfoOf(kp) == PublicInfoOf(kp')
  {
    if "keyType" in kp && ParseKeyType(kp["keyType"]).Some? {
      var t := ParseKeyType(kp["keyType"]).value;
      FirstMissingAgrees(kp, kp', PublicParams(t));
      if FirstMissing(kp, PublicParams(t)).None? {
        if !HasPoint(t) {
          CopiedAgrees(map["keyType" := Text(kp["keyType"])], kp, kp', PublicParams(t));
        } else {
          assert "curveName" in PublicParams(t) && "publicKeyX" in PublicParams(t) && "publicKeyY" in PublicParams(t);
        }
      }
    }
  }

  /** Changing, adding or removing private fields does not change the public view. */
  lemma SecretsIrrelevant(kp: KeyPair, kp': KeyPair)
    requires forall k :: k !in SECRET_FIELDS ==> (k in kp <==> k in kp')
    requires forall k :: k !in SECRET_FIELDS && k in kp ==> kp[k] == kp'[k]
    ensures PublicInfoOf(kp) == PublicInfoOf(kp')
  {
    assert "keyType" !in SECRET_FIELDS;
    if "keyType" in kp && ParseKeyType(kp["keyType"]).Some? {
      PublicParamsNotSecret(ParseKeyType(kp["keyType"]).value);
    }
    SameProjection(kp, kp');
  }

  /** Restricting a record to its schema, as a save and load does, keeps its public view. */
  lemma SchemaKeepsPublicInfo(kp: KeyPair, t: KeyType)
    requires SchemaKeys(t) <= kp.Keys && kp["keyType"] == TypeName(t)
    ensures PublicInfoOf(Schema(kp, t)) == PublicInfoOf(kp)
  {
    TypeCodesRoundTrip(t);
    PublicParamsInSchema(t);
    SameProjection(Schema(kp, t), kp);
  }

  /** Every record decodeBuffer returns has a public view. */
  lemma DecodedHasPublicInfo(buf: string)
    requires BinaryCodec.Decode(buf).Success?
    ensures PublicInfoOf(BinaryCodec.Decode(buf).value).Success?
  {
    BinaryCodec.DecodedSchema(buf);
    var t := TagType(BinaryCodec.Octet(buf[3])).value;
    TypeCodesRoundTrip(t);
    PublicParamsInSchema(t);
  }
}

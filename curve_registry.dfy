/**
  The closed two-way table between named curves and the single byte that stands for them in
  the container (getCurveID / getCurveName). Prime curves take 0x01-0x0F, binary curves
  0x80-0x91; the table is the if/else chain of keyring.cc written as two parallel sequences.
 */
module CurveRegistry {
  import opened Wrappers
  import opened Errors

  const CURVE_NAMES: seq<string> := [
    "secp112r1", "secp112r2", "secp128r1", "secp128r2", "secp160r1", "secp160r2", "secp160k1",
    "secp192r1", "secp192k1", "secp224r1", "secp224k1", "secp256r1", "secp256k1", "secp384r1",
    "secp521r1",
    "sect113r1", "sect113r2", "sect131r1", "sect131r2", "sect163r1", "sect163r2", "sect163k1",
    "sect193r1", "sect193r2", "sect233r1", "sect233k1", "sect239r1", "sect283r1", "sect283k1",
    "sect409r1", "sect409k1", "sect571r1", "sect571k1"]

  const CURVE_IDS: seq<nat> := [
    0x01, 0x02, 0x03, 0x04, 0x05, 0x06, 0x07, 0x08, 0x09, 0x0A, 0x0B, 0x0C, 0x0D, 0x0E, 0x0F,
    0x80, 0x81, 0x82, 0x83, 0x84, 0x85, 0x86, 0x87, 0x88, 0x89, 0x8A, 0x8B, 0x8C, 0x8D, 0x8E,
    0x8F, 0x90, 0x91]

  /** The prime curves, the only ones key generation accepts. */
  const PRIME_CURVE_NAMES: seq<string> := CURVE_NAMES[..15]

  /** The byte values the registry assigns. */
  predicate IsCurveId(b: int) {
    0x01 <= b <= 0x0F || 0x80 <= b <= 0x91
  }

  /** The first position of x in s, as the if/else chain finds the first matching branch. */
  function IndexOf<T(==)>(s: seq<T>, x: T): (r: Option<nat>)
    ensures r.Some? ==> r.value < |s| && s[r.value] == x && x !in s[..r.value]
    ensures r.None? <==> x !in s
  {
    if s == [] then None
    else if s[0] == x then Some(0)
    else match IndexOf(s[1..], x)
      case None => None
      case Some(i) =>
        assert s[1..][..i] == s[1..i + 1];
        Some(i + 1)
  }

  /** getCurveID: the byte of a registered curve name. */
  function CurveId(name: string): (r: Result<nat, Error>)
    ensures r.Success? <==> name in CURVE_NAMES
    ensures r.Failure? ==> r.error == UnknownCurve
    ensures r.Success? ==> IsCurveId(r.value)
  {
    IdsInRange();
    match IndexOf(CURVE_NAMES, name)
    case None => Failure(UnknownCurve)
    case Some(i) => Success(CURVE_IDS[i])
  }

  /** getCurveName with the id read as an unsigned byte: the name of a registered id. */
  function CurveName(id: int): (r: Result<string, Error>)
    ensures r.Success? <==> IsCurveId(id)
    ensures r.Failure? ==> r.error == UnknownCurveId
    ensures r.Success? ==> r.value in CURVE_NAMES
  {
    IdsInRange();
    assert IsCurveId(id) ==> id in CURVE_IDS by {
      if 0x01 <= id <= 0x0F {
        assert CURVE_IDS[id - 0x01] == id;
      } else if 0x80 <= id <= 0x91 {
        assert CURVE_IDS[id - 0x80 + 15] == id;
      }
    }
    match IndexOf(CURVE_IDS, id)
    case None => Failure(UnknownCurveId)
    case Some(i) => Success(CURVE_NAMES[i])
  }

  lemma IdsInRange()
    ensures |CURVE_IDS| == |CURVE_NAMES| == 33
    ensures forall i :: 0 <= i < |CURVE_IDS| ==> IsCurveId(CURVE_IDS[i])
  {
  }

  lemma NamesDistinct()
    ensures forall i, j | 0 <= i < j < |CURVE_NAMES| :: CURVE_NAMES[i] != CURVE_NAMES[j]
  {
    PrimeNamesDistinct();
    BinaryNamesDistinct();
    RegistryShape();
  }

  lemma PrimeNamesDistinct()
    ensures forall i, j | 0 <= i < j < 15 :: CURVE_NAMES[i] != CURVE_NAMES[j]
  {
  }

  lemma BinaryNamesDistinct()
    ensures forall i, j | 15 <= i < j < 33 :: CURVE_NAMES[i] != CURVE_NAMES[j]
  {
  }

  lemma IdsDistinct()
    ensures forall i, j | 0 <= i < j < |CURVE_IDS| :: CURVE_IDS[i] != CURVE_IDS[j]
  {
    IdLayout();
  }

  /** In a sequence without repeats, the first position of an element is its position. */
  lemma IndexOfDistinct<T>(s: seq<T>, i: nat)
    requires i < |s|
    requires forall j, k | 0 <= j < k < |s| :: s[j] != s[k]
    ensures IndexOf(s, s[i]) == Some(i)
  {
  }

  /** The ids are consecutive from 0x01 for the prime curves and from 0x80 for the binary ones. */
  lemma IdLayout()
    ensures forall i :: 0 <= i < 15 ==> CURVE_IDS[i] == i + 0x01
    ensures forall i :: 15 <= i < 33 ==> CURVE_IDS[i] == i - 15 + 0x80
  {
  }

  /** Both lookups agree on every entry of the table. */
  lemma EntryRoundTrip(i: nat)
    requires i < |CURVE_NAMES|
    ensures CurveId(CURVE_NAMES[i]) == Success(CURVE_IDS[i])
    ensures CurveName(CURVE_IDS[i]) == Success(CURVE_NAMES[i])
  {
    EntryId(i);
    EntryName(i);
  }

  /** The id getCurveID gives the name at position i is the id at position i. */
  lemma EntryId(i: nat)
    requires i < |CURVE_NAMES|
    ensures CurveId(CURVE_NAMES[i]) == Success(CURVE_IDS[i])
  {
    NamesDistinct();
    IndexOfDistinct(CURVE_NAMES, i);
  }

  /** The name getCurveName gives the id at position i is the name at position i. */
  lemma EntryName(i: nat)
    requires i < |CURVE_IDS|
    ensures CurveName(CURVE_IDS[i]) == Success(CURVE_NAMES[i])
  {
    IdsDistinct();
    IndexOfDistinct(CURVE_IDS, i);
  }

  /** Every registered name survives name -> id -> name. */
  lemma NameIdRoundTrip(name: string)
    requires name in CURVE_NAMES
    ensures CurveId(name).Success? && CurveName(CurveId(name).value) == Success(name)
  {
    EntryRoundTrip(IndexOf(CURVE_NAMES, name).value);
  }

  /** Every registered id survives id -> name -> id. */
  lemma IdNameRoundTrip(id: int)
    requires IsCurveId(id)
    ensures CurveName(id).Success? && CurveId(CurveName(id).value) == Success(id)
  {
    var i := if id <= 0x0F then id - 0x01 else id - 0x80 + 15;
    IdLayout();
    assert CURVE_IDS[i] == id;
    EntryRoundTrip(i);
  }

  /** The registry holds 15 prime and 18 binary curves; the prime ones are exactly those
      starting with "secp", the binary ones those starting with "sect". */
  lemma RegistryShape()
    ensures |CURVE_NAMES| == |CURVE_IDS| == 33
    ensures forall i :: 0 <= i < 15 ==> CURVE_NAMES[i][..4] == "secp" && 0x01 <= CURVE_IDS[i] <= 0x0F
    ensures forall i :: 15 <= i < 33 ==> CURVE_NAMES[i][..4] == "sect" && 0x80 <= CURVE_IDS[i] <= 0x91
  {
  }

  /** Reading the id byte into a signed char, as keyring.cc:555 and 643 do on platforms
      where char is signed. */
  function SignedChar(b: int): int
    requires 0 <= b < 256
  {
    if b < 0x80 then b else b - 0x100
  }

  /** getCurveName as written: the char parameter is promoted to int and compared with the
      constants 0x01..0x91, so a negative char matches no branch. */
  function CurveNameOfChar(c: int): (r: Result<string, Error>)
    requires -0x80 <= c < 0x80
    ensures r.Success? <==> 0x01 <= c <= 0x0F
    ensures r.Failure? ==> r.error == UnknownCurveId
  {
    if c < 0 then Failure(UnknownCurveId) else CurveName(c)
  }

  /** Every binary-curve byte the encoder writes is rejected by the as-written lookup when
      char is signed, although the unsigned lookup names it. */
  lemma BinaryIdsRejectedAsSignedChar(name: string)
    requires name in CURVE_NAMES[15..]
    ensures CurveId(name).Success?
    ensures CurveName(CurveId(name).value) == Success(name)
    ensures CurveNameOfChar(SignedChar(CurveId(name).value)) == Failure(UnknownCurveId)
  {
    var i :| 0 <= i < |CURVE_NAMES[15..]| && CURVE_NAMES[15..][i] == name;
    IdLayout();
    EntryRoundTrip(i + 15);
  }
}

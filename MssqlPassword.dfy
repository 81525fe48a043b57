/** `com.imd.database.MssqlPassword`: creates and checks password hashes in the
    legacy SQL Server PWDENCRYPT layout
      "0x0200" ++ hex(salt: 4 bytes) ++ hex(SHA-512(UTF-16LE(password) ++ salt): 64 bytes).
    The random salt and the SHA-512 primitive are parameters: the salt is any
    4 bytes, and `sha512` is any function that yields 64 bytes. Hash strings,
    stored or produced, are Java strings given as their UTF-16 code units (`Utf16.JavaString`), so
    `length`, `substring` and the hex codec count code units as Java does; the
    password, which is encoded, is a Dafny string. */
module MssqlPassword {
  import opened Bytes
  import opened Wrappers
  import Hex
  import Utf16

  /** The version marker every hash string begins with. */
  const Marker: Utf16.JavaString := ['0' as int, 'x' as int, '0' as int, '2' as int, '0' as int, '0' as int]

  const SaltLength := 4
  const DigestLength := 64

  /** 6 marker characters, 8 salt digits and 128 digest digits. */
  const HashLength := |Marker| + 2 * SaltLength + 2 * DigestLength

  type Salt = s: seq<byte> | |s| == SaltLength witness [0, 0, 0, 0]

  type Digest = d: seq<byte> | |d| == DigestLength witness seq(64, _ => 0)

  /** `MessageDigest.getInstance("SHA-512")`, fed its whole input and asked for `digest()`. */
  type Sha512 = seq<byte> -> Digest

  /** The exception that `pwdCompare` wraps in its RuntimeException. */
  datatype Cause =
    | NullDereference          // `dbPassword.startsWith` on a null stored string
    | StringIndexOutOfBounds   // `substring(6, 14)` on a string shorter than 14
    | IllegalArgument(hex: Hex.HexError)  // `parseHexBinary` on a malformed field

  /** How a call of `pwdCompare` ends: a returned boolean or a thrown exception. */
  datatype Outcome = Returned(value: bool) | Raised(cause: Cause)

  /** `String.startsWith` */
  function StartsWith(s: Utf16.JavaString, prefix: Utf16.JavaString): (b: bool)
    ensures b <==> |prefix| <= |s| && forall i | 0 <= i < |prefix| :: s[i] == prefix[i]
  {
    |prefix| <= |s| && s[..|prefix|] == prefix
  }

  /** The password `pwdEncrypt` works with: a null one becomes the empty string. */
  function OrEmpty(password: Option<string>): (p: string)
    ensures password.None? ==> p == ""
    ensures password.Some? ==> p == password.value
  {
    if password.Some? then password.value else ""
  }

  /** What the digest is fed: the UTF-16LE bytes of the password (two per code
      unit, low byte first), then the salt, with no separator. */
  function DigestInput(password: string, salt: Salt): (m: seq<byte>)
    ensures var u := Utf16.CodeUnits(password);
      && |m| == 2 * |u| + SaltLength
      && (forall i | 0 <= i < |u| :: m[2 * i] == u[i] % 0x100 && m[2 * i + 1] == u[i] / 0x100)
      && m[2 * |u|..] == salt
  {
    var m := Utf16.GetBytes(password) + salt;
    assert m[..2 * |Utf16.CodeUnits(password)|] == Utf16.GetBytes(password);
    m
  }

  /** `pwdEncrypt`: the marker, the salt's hex and the digest's hex. */
  function PwdEncrypt(password: Option<string>, salt: Salt, sha512: Sha512): (r: Utf16.JavaString)
    ensures |r| == HashLength == 142
    ensures StartsWith(r, Marker)
    ensures forall i | |Marker| <= i < |r| :: Hex.IsUpperHexChar(r[i])
    ensures Hex.ParseHexBinary(r[6..14]) == Success(salt)
    ensures Hex.ParseHexBinary(r[14..]) == Success(sha512(DigestInput(OrEmpty(password), salt)))
  {
    var digest := sha512(DigestInput(OrEmpty(password), salt));
    var saltHex, digestHex := Hex.PrintHexBinary(salt), Hex.PrintHexBinary(digest);
    Hex.ParsePrint(salt);
    Hex.ParsePrint(digest);
    var r := Marker + saltHex + digestHex;
    assert r[..6] == Marker && r[6..14] == saltHex && r[14..] == digestHex;
    r
  }

  /** `pwdCompare`: a null password or a stored string without the marker is a
      plain `false`; everything else is split at 6 and 14, hex-decoded, and the
      recomputed digest compared with the stored bytes by `Arrays.equals`. */
  function PwdCompare(password: Option<string>, dbPassword: Option<Utf16.JavaString>, sha512: Sha512): (r: Outcome)
    ensures password.None? ==> r == Returned(false)
    ensures password.Some? && dbPassword.None? ==> r == Raised(NullDereference)
    ensures password.Some? && dbPassword.Some? && !StartsWith(dbPassword.value, Marker) ==> r == Returned(false)
    ensures password.Some? && dbPassword.Some? && StartsWith(dbPassword.value, Marker) && |dbPassword.value| < 14
            ==> r == Raised(StringIndexOutOfBounds)
    ensures (password.Some? && dbPassword.Some? && StartsWith(dbPassword.value, Marker) && |dbPassword.value| >= 14
             && !Hex.IsHexBinary(dbPassword.value[6..])) ==> r.Raised? && r.cause.IllegalArgument?
    ensures r == Returned(true) ==> dbPassword.Some? && |dbPassword.value| == HashLength
  {
    if password.None? then Returned(false)
    else if dbPassword.None? then Raised(NullDereference)
    else if !StartsWith(dbPassword.value, Marker) then Returned(false)
    else
      var s := dbPassword.value;
      if |s| < 14 then Raised(StringIndexOutOfBounds)
      else
        assert s[6..] == s[6..14] + s[14..];
        Hex.IsHexBinaryAppend(s[6..14], s[14..]);
        match Hex.ParseHexBinary(s[6..14])
        case Failure(e) => Raised(IllegalArgument(e))
        case Success(salt) =>
          match Hex.ParseHexBinary(s[14..])
          case Failure(e) => Raised(IllegalArgument(e))
          case Success(encodedDb) => Returned(sha512(DigestInput(password.value, salt)) == encodedDb)
  }

  /** A null password is hashed as the empty one. */
  lemma EncryptNullIsEncryptEmpty(salt: Salt, sha512: Sha512)
    ensures PwdEncrypt(None, salt, sha512) == PwdEncrypt(Some(""), salt, sha512)
  {
  }

  /** The round trip the class documents: a password checks against its own hash. */
  lemma CompareAcceptsEncrypt(password: string, salt: Salt, sha512: Sha512)
    ensures PwdCompare(Some(password), Some(PwdEncrypt(Some(password), salt, sha512)), sha512) == Returned(true)
  {
  }

  /** The hash of a null password checks against the empty password, but a null
      password checks against nothing, not even that hash. */
  lemma NullPasswordNeverMatches(salt: Salt, sha512: Sha512)
    ensures PwdCompare(Some(""), Some(PwdEncrypt(None, salt, sha512)), sha512) == Returned(true)
    ensures PwdCompare(None, Some(PwdEncrypt(None, salt, sha512)), sha512) == Returned(false)
  {
    CompareAcceptsEncrypt("", salt, sha512);
  }

  /** For a non-null password and stored string, `pwdCompare` throws exactly when
      the stored string carries the marker but is shorter than 14 code units or
      holds anything but an even number of hex digits after the marker. */
  lemma CompareRaisesIff(password: string, s: Utf16.JavaString, sha512: Sha512)
    ensures PwdCompare(Some(password), Some(s), sha512).Raised?
            <==> StartsWith(s, Marker) && (|s| < 14 || !Hex.IsHexBinary(s[6..]))
  {
    if |s| >= 14 {
      assert s[6..] == s[6..14] + s[14..];
      Hex.IsHexBinaryAppend(s[6..14], s[14..]);
    }
  }

  /** A marker-prefixed stored string of well-formed hex but of a length other
      than 142 gives `false`: the decoded digest has the wrong byte count. */
  lemma CompareWrongLengthIsFalse(password: string, s: Utf16.JavaString, sha512: Sha512)
    requires StartsWith(s, Marker) && |s| >= 14 && Hex.IsHexBinary(s[6..])
    requires |s| != HashLength
    ensures PwdCompare(Some(password), Some(s), sha512) == Returned(false)
  {
    CompareRaisesIff(password, s, sha512);
  }

  /** `pwdCompare` returns true exactly for the hashes `pwdEncrypt` can produce
      for that password, up to the letter case of the hex digits. */
  lemma CompareTrueIff(password: string, s: Utf16.JavaString, sha512: Sha512)
    ensures PwdCompare(Some(password), Some(s), sha512) == Returned(true)
            <==> exists salt: Salt :: Hex.ToUpperHex(s) == PwdEncrypt(Some(password), salt, sha512)
  {
    if PwdCompare(Some(password), Some(s), sha512) == Returned(true) {
      var salt := CompareTrueGivesSalt(password, s, sha512);
    }
    if salt: Salt :| Hex.ToUpperHex(s) == PwdEncrypt(Some(password), salt, sha512) {
      EncryptUpToCaseIsAccepted(password, s, salt, sha512);
    }
  }

  /** A stored string that checks true is, once upper-cased, the hash of the
      password under the salt it carries. */
  lemma CompareTrueGivesSalt(password: string, s: Utf16.JavaString, sha512: Sha512) returns (salt: Salt)
    requires PwdCompare(Some(password), Some(s), sha512) == Returned(true)
    ensures Hex.ToUpperHex(s) == PwdEncrypt(Some(password), salt, sha512)
  {
    salt := AcceptedHasFields(password, s, sha512);
    var e := PwdEncrypt(Some(password), salt, sha512);
    EncryptParts(password, salt, sha512);
    Hex.PrintParse(s[6..14]);
    Hex.PrintParse(s[14..]);
    MarkerIsUpper();
    UpperFromFields(s, e);
  }

  /** What a true check has seen: the marker, 142 characters, and fields that
      decode to a salt and to that salt's digest. */
  lemma AcceptedHasFields(password: string, s: Utf16.JavaString, sha512: Sha512) returns (salt: Salt)
    requires PwdCompare(Some(password), Some(s), sha512) == Returned(true)
    ensures |s| == 142 && s[..6] == Marker
    ensures Hex.ParseHexBinary(s[6..14]) == Success(salt)
    ensures Hex.ParseHexBinary(s[14..]) == Success(sha512(DigestInput(password, salt)))
  {
    salt := Hex.ParseHexBinary(s[6..14]).value;
  }

  /** A string upper-cases to `e` when each of its three fields does. */
  lemma UpperFromFields(s: Utf16.JavaString, e: Utf16.JavaString)
    requires |s| == |e| == 142
    requires Hex.ToUpperHex(s[..6]) == e[..6]
    requires Hex.ToUpperHex(s[6..14]) == e[6..14]
    requires Hex.ToUpperHex(s[14..]) == e[14..]
    ensures Hex.ToUpperHex(s) == e
  {
    var u := Hex.ToUpperHex(s);
    Hex.ToUpperHexSlice(s, 0, 6);
    Hex.ToUpperHexSlice(s, 6, 14);
    Hex.ToUpperHexSlice(s, 14, |s|);
    assert u == u[..6] + u[6..14] + u[14..];
    assert e == e[..6] + e[6..14] + e[14..];
  }

  /** The three fields of a hash string. */
  lemma EncryptParts(password: string, salt: Salt, sha512: Sha512)
    ensures var e := PwdEncrypt(Some(password), salt, sha512);
      && e[..6] == Marker
      && e[6..14] == Hex.PrintHexBinary(salt)
      && e[14..] == Hex.PrintHexBinary(sha512(DigestInput(password, salt)))
  {
  }

  /** Upper-casing leaves the marker alone: it holds no letter a-f. */
  lemma MarkerIsUpper()
    ensures Hex.ToUpperHex(Marker) == Marker
  {
    var u := Hex.ToUpperHex(Marker);
    forall i | 0 <= i < |Marker| ensures u[i] == Marker[i] { }
  }

  /** A stored string whose upper-cased form is a hash of the password checks true. */
  lemma EncryptUpToCaseIsAccepted(password: string, s: Utf16.JavaString, salt: Salt, sha512: Sha512)
    requires Hex.ToUpperHex(s) == PwdEncrypt(Some(password), salt, sha512)
    ensures PwdCompare(Some(password), Some(s), sha512) == Returned(true)
  {
    var e := PwdEncrypt(Some(password), salt, sha512);
    EncryptParts(password, salt, sha512);
    FieldsOfUpper(s, e);
    UpperOfMarker(s[..6]);
    Hex.ParseIgnoresCase(s[6..14]);
    Hex.ParseIgnoresCase(s[14..]);
    Hex.ParsePrint(salt);
    Hex.ParsePrint(sha512(DigestInput(password, salt)));
    AcceptedFields(password, s, salt, sha512);
  }

  /** Upper-casing a stored string upper-cases each of its three fields. */
  lemma FieldsOfUpper(s: Utf16.JavaString, e: Utf16.JavaString)
    requires Hex.ToUpperHex(s) == e && |e| == 142
    ensures |s| == 142
    ensures Hex.ToUpperHex(s[..6]) == e[..6]
    ensures Hex.ToUpperHex(s[6..14]) == e[6..14]
    ensures Hex.ToUpperHex(s[14..]) == e[14..]
  {
    Hex.ToUpperHexSlice(s, 0, 6);
    Hex.ToUpperHexSlice(s, 6, 14);
    Hex.ToUpperHexSlice(s, 14, |s|);
  }

  /** Only the marker itself upper-cases to the marker. */
  lemma UpperOfMarker(t: Utf16.JavaString)
    requires Hex.ToUpperHex(t) == Marker
    ensures t == Marker
  {
    forall i | 0 <= i < |t| ensures t[i] == Marker[i] {
      assert Hex.ToUpperHexChar(t[i]) == Marker[i];
    }
  }

  /** The check succeeds once both fields decode to a salt and that salt's digest. */
  lemma AcceptedFields(password: string, s: Utf16.JavaString, salt: Salt, sha512: Sha512)
    requires |s| >= 14 && s[..6] == Marker
    requires Hex.ParseHexBinary(s[6..14]) == Success(salt)
    requires Hex.ParseHexBinary(s[14..]) == Success(sha512(DigestInput(password, salt)))
    ensures PwdCompare(Some(password), Some(s), sha512) == Returned(true)
  {
  }

  /** The digest input determines both the password and the salt: the
      concatenation without separator is unambiguous since the salt has a fixed
      length. */
  lemma DigestInputInjective(p: string, q: string, a: Salt, b: Salt)
    requires DigestInput(p, a) == DigestInput(q, b)
    ensures p == q && a == b
  {
    var m := DigestInput(p, a);
    assert Utf16.GetBytes(p) == m[..|m| - SaltLength] == Utf16.GetBytes(q);
    Utf16.GetBytesInjective(p, q);
  }

  /** The password of the class's example, "abcd", is fed to the digest as
      61 00 62 00 63 00 64 00, followed by the salt. */
  lemma AbcdDigestInput(salt: Salt)
    ensures DigestInput("abcd", salt) == [0x61, 0x00, 0x62, 0x00, 0x63, 0x00, 0x64, 0x00] + salt
  {
    AbcdBytes();
  }

  lemma AbcdBytes()
    ensures Utf16.GetBytes("abcd") == [0x61, 0x00, 0x62, 0x00, 0x63, 0x00, 0x64, 0x00]
  {
    Utf16.CodeUnitsBasic("abcd");
    assert Utf16.CodeUnits("abcd") == [0x61, 0x62, 0x63, 0x64];
    assert Utf16.Utf16LE([0x61, 0x62, 0x63, 0x64]) == [0x61, 0x00, 0x62, 0x00, 0x63, 0x00, 0x64, 0x00];
  }

  /** Positions count code units: a character above U+FFFF after the marker is
      two surrogates, which reach the hex parser and fail as illegal
      characters, not as a short string. The stored string here is
      "0x0200\U{1F600}000000": 13 characters, 14 code units. */
  lemma SurrogateInSaltField(password: string, sha512: Sha512)
    ensures Utf16.CharUnits('\U{1F600}') == [0xD83D, 0xDE00]
    ensures var s := Marker + Utf16.CharUnits('\U{1F600}') + ['0' as int, '0' as int, '0' as int, '0' as int, '0' as int, '0' as int];
      PwdCompare(Some(password), Some(s), sha512) == Raised(IllegalArgument(Hex.IllegalCharacter))
  {
    var s := Marker + [0xD83D, 0xDE00] + ['0' as int, '0' as int, '0' as int, '0' as int, '0' as int, '0' as int];
    assert Utf16.CharUnits('\U{1F600}') == [0xD83D, 0xDE00];
    assert s[..6] == Marker && |s| == 14;
    var saltField := s[6..14];
    assert saltField[0] == 0xD83D && !Hex.IsHexChar(0xD83D);
    assert !Hex.IsHexBinary(saltField);
    assert Hex.ParseHexBinary(saltField) == Failure(Hex.IllegalCharacter);
  }
}

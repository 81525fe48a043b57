# MssqlPassword in Dafny

This project models `com.imd.database.MssqlPassword`. The class creates and checks
password hashes in the legacy SQL Server `PWDENCRYPT` layout:

    "0x0200"  ++  hex(salt)  ++  hex(SHA-512(UTF-16LE(password) ++ salt))
    6 chars       8 chars        128 chars                          = 142 characters

- `pwdEncrypt` maps a null password to `""`. It draws a 4-byte salt, hashes the
  password's UTF-16LE bytes followed by the salt, and prints the marker and both
  byte strings as upper-case hex.
- `pwdCompare` returns `false` for a null password or for a stored string without
  the marker. Otherwise it cuts the stored string at 6 and 14, hex-decodes the two
  fields, recomputes the digest with the decoded salt and compares the bytes with
  `Arrays.equals`.

Once the salt is a parameter, both methods are pure. The model writes them as
functions, in five modules:

- `Wrappers`: `Option` (a Java `null` is `None`) and `Result`.
- `Bytes`: a byte is its unsigned value 0..255.
- `Utf16`: Java strings and `String.getBytes(UTF_16LE)`.
  - A Java string is a `JavaString`, the sequence of its UTF-16 code units. Any
    unit may occur in it, a lone surrogate included.
  - A Dafny `string` holds Unicode scalar values. `CodeUnits` expands it into the
    units a Java `String` holds, with surrogate pairs above U+FFFF. `DecodeUnits`
    reads them back. The two are inverse between Dafny strings and the
    well-formed Java strings.
  - `Utf16LE` writes each unit as two bytes, low byte first, with no byte-order
    mark.
- `Hex`: `DatatypeConverter.printHexBinary` and `parseHexBinary`, over Java
  strings, so lengths and positions count code units.
  - The parser accepts digits of either case.
  - It fails with `OddLength` on an odd number of code units before it looks at
    any unit.
  - Otherwise it fails with `IllegalCharacter` on the first pair that holds a
    non-digit unit. A surrogate counts as a non-digit.
- `MssqlPassword`: `PwdEncrypt`, `PwdCompare` and the lemmas that relate them.
  - The password is hashed, so it is a Dafny `string`.
  - The stored and the produced hash strings are `JavaString`s. Their length, the
    cuts at 6 and 14, and the hex fields are therefore measured in code units,
    as Java measures them.

Two inputs come from calls the model cannot see, so they are parameters:

- the salt, which `SecureRandom` fills;
- `sha512`, which may be any function that returns 64 bytes.

`PwdCompare` returns an `Outcome`: either `Returned(b)` or `Raised(cause)`. The
second stands for the `RuntimeException` that the method throws around its caught
exception. The cause records which exception was wrapped:

- `NullDereference`: the stored string is null;
- `StringIndexOutOfBounds`: the string has the marker but is shorter than 14 code
  units;
- `IllegalArgument`: a hex field is malformed.

A caller might expect more of `pwdCompare` than its code does. The model follows
the code:

- A null password makes `pwdCompare` return `false`. It is not read as `""`, even
  though `pwdEncrypt` hashes null as `""` (`NullPasswordNeverMatches`).
- There is no length-142 check. A well-formed hex digest field of the wrong length
  gives `false` (`CompareWrongLengthIsFalse`).
- A string that is too short, has an odd-length field or has a non-hex field makes
  the call throw rather than return `false` (`CompareRaisesIff`). So does a null
  stored string.
- The digests are compared with a plain `Arrays.equals`, not a constant-time
  comparison.

## Model

| member | source | states |
|---|---|---|
| `Hex.PrintHexBinary` | src/com/imd/database/MssqlPassword.java:47 | the hex of n bytes is a Java string of 2n code units, all upper-case hex digits |
| `Hex.HexDigit` | src/com/imd/database/MssqlPassword.java:47 | the digit written for a nibble is an upper-case hex digit whose value is that nibble |
| `Hex.ParseHexBinary` | src/com/imd/database/MssqlPassword.java:68-69 | decoding succeeds iff the number of code units is even and every unit is a hex digit of either case; it fails with OddLength iff that number is odd, otherwise with IllegalCharacter (a surrogate is a non-digit); on success there are half as many bytes as units, and byte k is 16 times the value of unit 2k plus the value of unit 2k+1 |
| `Hex.ParsePrint` | src/com/imd/database/MssqlPassword.java:47-69 | decoding the printed hex of any bytes gives those bytes back |
| `Hex.PrintParse` | src/com/imd/database/MssqlPassword.java:68-69 | printing the bytes decoded from a hex string gives that string with its letters upper-cased, so decoding loses only the letter case |
| `Hex.ParseIgnoresCase` | src/com/imd/database/MssqlPassword.java:68-69 | decoding gives the same result, success or failure, for a string and for its upper-cased form |
| `Hex.IsHexBinaryAppend` | src/com/imd/database/MssqlPassword.java:68-69 | after an even-length cut, a string is well-formed hex iff both of its parts are |
| `Utf16.CodeUnits` | src/com/imd/database/MssqlPassword.java:41 | a string's UTF-16 code units are well formed (every surrogate is in a high-low pair), and there are one or two units per character |
| `Utf16.DecodeUnits` | src/com/imd/database/MssqlPassword.java:41 | code units decode to a string iff they are well formed |
| `Utf16.DecodeCodeUnits` | src/com/imd/database/MssqlPassword.java:41 | decoding the code units of a string gives the string back |
| `Utf16.CodeUnitsDecode` | src/com/imd/database/MssqlPassword.java:41 | every well-formed code-unit sequence is the code units of the string it decodes to, so Dafny strings cover exactly the well-formed Java strings |
| `Utf16.Utf16LE` | src/com/imd/database/MssqlPassword.java:41 | UTF-16LE writes two bytes per code unit: byte 2i is the low byte of unit i and byte 2i+1 its high byte |
| `Utf16.GetBytes` | src/com/imd/database/MssqlPassword.java:73 | `password.getBytes(UTF_16LE)` has two bytes per code unit of the password, the low byte first |
| `Utf16.Utf16LERoundTrip` | src/com/imd/database/MssqlPassword.java:41 | reading the little-endian byte pairs back gives the code units |
| `Utf16.GetBytesInjective` | src/com/imd/database/MssqlPassword.java:41 | two strings with the same UTF-16LE bytes are equal |
| `Utf16.GetBytesBasic` | src/com/imd/database/MssqlPassword.java:41 | a string of characters below U+10000 becomes exactly two bytes per character, the low byte first |
| `MssqlPassword.OrEmpty` | src/com/imd/database/MssqlPassword.java:31 | a null password becomes "", any other is kept as it is |
| `MssqlPassword.StartsWith` | src/com/imd/database/MssqlPassword.java:65 | a Java string starts with a prefix iff it is at least as long and agrees with the prefix unit by unit |
| `MssqlPassword.DigestInput` | src/com/imd/database/MssqlPassword.java:40-43 | the digest is fed 2 bytes per code unit of the password, low byte first, then the 4 salt bytes, with no separator |
| `MssqlPassword.DigestInputInjective` | src/com/imd/database/MssqlPassword.java:41-43 | the digest input determines both the password and the salt |
| `MssqlPassword.AbcdDigestInput` | src/com/imd/database/MssqlPassword.java:88 | for the example password "abcd" the digest input is 61 00 62 00 63 00 64 00 followed by the salt |
| `MssqlPassword.PwdEncrypt` | src/com/imd/database/MssqlPassword.java:28-47 | the output is a Java string of 142 code units that starts with "0x0200" and has only upper-case hex digits after the marker; units [6,14) decode to the salt and units [14..) decode to the SHA-512 of UTF-16LE(password) followed by the salt, where a null password counts as "" |
| `MssqlPassword.EncryptNullIsEncryptEmpty` | src/com/imd/database/MssqlPassword.java:31 | with the same salt, a null password gives the same hash as "" |
| `MssqlPassword.PwdCompare` | src/com/imd/database/MssqlPassword.java:61-84 | a null password returns false; with a non-null password: a null stored string throws (NullDereference); a stored string without the marker returns false; a marker-prefixed string shorter than 14 code units throws (StringIndexOutOfBounds); one of 14 or more whose units after the marker are not an even number of hex digits throws (IllegalArgument); a true result implies a stored string of exactly 142 code units |
| `MssqlPassword.CompareAcceptsEncrypt` | src/com/imd/database/MssqlPassword.java:15-16 | the documented round trip: any non-null password checks true against its own hash, whatever the salt and the digest function |
| `MssqlPassword.NullPasswordNeverMatches` | src/com/imd/database/MssqlPassword.java:65 | the hash made from a null password checks true for "" but false for a null password |
| `MssqlPassword.CompareRaisesIff` | src/com/imd/database/MssqlPassword.java:65-82 | with non-null arguments, the call throws iff the stored string has the marker and either is shorter than 14 code units or is not an even number of hex digits after the marker |
| `MssqlPassword.CompareWrongLengthIsFalse` | src/com/imd/database/MssqlPassword.java:68-78 | a marker-prefixed stored string of well-formed hex whose length is not 142 returns false and does not throw |
| `MssqlPassword.CompareTrueIff` | src/com/imd/database/MssqlPassword.java:61-78 | the check returns true iff the stored string, with its hex letters upper-cased, equals the hash `pwdEncrypt` makes of the password under some salt |
| `MssqlPassword.CompareTrueGivesSalt` | src/com/imd/database/MssqlPassword.java:68-78 | from a true check: the upper-cased stored string is the hash of the password under the salt it carries |
| `MssqlPassword.EncryptUpToCaseIsAccepted` | src/com/imd/database/MssqlPassword.java:65-78 | a stored string that upper-cases to a hash of the password checks true, so lower-case hex digits are accepted too |
| `MssqlPassword.SurrogateInSaltField` | src/com/imd/database/MssqlPassword.java:65-69 | "0x0200\U{1F600}000000" has 13 characters but 14 code units: the salt field starts with a surrogate, and the call throws IllegalArgument(IllegalCharacter), not StringIndexOutOfBounds |

## Left out

- SHA-512 itself (`MessageDigest`): the model takes it as a parameter that may be any function returning 64 bytes. So the fixed reference hash for "abcd" in the class comment and in `main` (lines 16 and 91) cannot be checked.
- The model assumes the runtime provides SHA-512. The case where `MessageDigest.getInstance` throws, which both methods rethrow as a `RuntimeException`, is not modelled.
- `SecureRandom` (lines 35-36): the salt is a parameter that may be any 4 bytes. That salts differ from call to call is a probability, so the model cannot state it.
- Collision resistance, and the claim that a different password fails the check with overwhelming probability: these are assumptions about SHA-512, not behaviour of the code.
- Timing: `Arrays.equals` is modelled as equality of byte sequences, and the model says nothing about constant-time comparison.
- `e.printStackTrace()`, the text of the exception message, `main` and `System.out.println` are diagnostics and I/O, so they are not modelled. `Raised` records only the kind of the wrapped exception.
- Passwords with unpaired surrogates cannot be represented, because a password is a Dafny `string` of Unicode scalar values. For such strings `getBytes` writes replacement bytes, and the model does not cover that. Stored hash strings are not affected: they may hold any code units.
- `DatatypeConverter` is a library. The model keeps what its public behaviour fixes: two upper-case digits per byte with the high nibble first, digits of either case accepted, odd length rejected first, then the first bad pair rejected. Java's `byte` is signed; the model uses unsigned values, which print the same.

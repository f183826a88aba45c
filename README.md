# FIDO U2F server-side models in Dafny

This project models three small parts of a FIDO U2F relying-party library written in C#. FIDO U2F is the Universal 2nd Factor protocol.

- **Device registration** (`FidoDeviceRegistration`, `device_registration.dfy`). This is one enrolled authenticator: its key handle, public key, attestation certificate and an unsigned 32-bit usage counter. It is a class whose counter is mutable; the other three fields are constants, set by the constructor. `UpdateCounter` accepts only a strictly larger counter, and this is the library's replay protection. A ghost `history` records every counter value the object has held. `Valid()` says that history is strictly increasing and ends with the current counter. The pure functions `CounterAfter` and `Accepted` describe what a series of `UpdateCounter` calls does, and the lemmas about them state monotonicity, replay rejection and saturation at 2^32 - 1.
- **Signature data decoder** (`FidoSignatureData`, `signature_data.dfy`). This decodes the buffer a device returns when it authenticates. The layout follows section 5.4 of the FIDO U2F Raw Message Formats specification: 1 user-presence byte, a 4-byte big-endian counter, and then a signature that runs to the end of the buffer. `FromBytes` is imperative, like the source. It moves a position through an array, copies bytes the way `BinaryReader.ReadBytes` does, reverses the counter bytes in place on a little-endian host the way `Array.Reverse` does, and converts them in host byte order. It is proved equal to the pure function `Decode`. `Decode` round-trips with `Encode`, and the counter it produces does not depend on the host's byte order.
- **AppId validation** (`FidoAppId`, `app_id.dfy`). An AppId must be an absolute `http`/`https` URI whose scheme may be in any letter case and whose path holds only slashes. The stored text is the URI text with its trailing slashes removed. Both constructors are pure functions that return a `Result`. Each is proved to accept exactly the URIs described by an independent predicate, `Acceptable`, which is written without trimming or lower-casing.

`Primitives` (`primitives.dfy`) holds the `byte` and `uint32` newtypes and the `Option`/`Result`/`Outcome` types. .NET exceptions are modelled as `Err`/`Fail` values, and a null reference is modelled as `None`.

## Model

| member | source | states |
|---|---|---|
| `FidoDeviceRegistration.New` | FidoU2f/Models/FidoDeviceRegistration.cs:39-49 | Fails exactly when the key handle, public key or certificate is null, naming the first null parameter in declaration order. Otherwise it returns a fresh registration whose four fields hold exactly the arguments. |
| `FidoDeviceRegistration.DeviceRegistration.constructor` | FidoU2f/Models/FidoDeviceRegistration.cs:45-48 | The fields hold the arguments. The counter history is just the initial counter, so the invariant holds. |
| `FidoDeviceRegistration.Admits` | FidoU2f/Models/FidoDeviceRegistration.cs:53 | The guard accepts a client counter only when it is strictly above the stored one. So a stored counter of 2^32 - 1 admits nothing. |
| `FidoDeviceRegistration.DeviceRegistration.UpdateCounter` | FidoU2f/Models/FidoDeviceRegistration.cs:51-58 | Succeeds iff the client counter is strictly greater than the stored one, and then stores it. On failure (`CounterTooSmall`) the counter is unchanged. On success the new counter is above every value the registration has ever held. The key handle, public key and certificate are constants. The strictly increasing history invariant is preserved. |
| `FidoDeviceRegistration.DeviceRegistration.Equals` | FidoU2f/Models/FidoDeviceRegistration.cs:71-80 | False for null. Otherwise true iff the two registrations have equal counter, certificate, key handle and public key, i.e. equal values. |
| `FidoDeviceRegistration.EqualsIsEquivalence` | FidoU2f/Models/FidoDeviceRegistration.cs:71-80 | `Equals` is reflexive, symmetric and transitive. |
| `FidoDeviceRegistration.CounterAfter` | FidoU2f/Models/FidoDeviceRegistration.cs:51-58 | After any series of `UpdateCounter` calls the counter is never below where it started, and it is either the starting value or one of the attempted values. |
| `FidoDeviceRegistration.Accepted` | FidoU2f/Models/FidoDeviceRegistration.cs:51-58 | Every successful value in a series of calls was attempted and is above the starting counter. |
| `FidoDeviceRegistration.AcceptedStrictlyIncrease` | FidoU2f/Models/FidoDeviceRegistration.cs:37 | Across any series of calls the successful values form a strictly increasing sequence above the start, and the last of them is the counter left stored. |
| `FidoDeviceRegistration.CounterAfterConcat` | FidoU2f/Models/FidoDeviceRegistration.cs:51-58 | Two series of calls one after the other act like their concatenation. |
| `FidoDeviceRegistration.ReplayRejected` | FidoU2f/Models/FidoDeviceRegistration.cs:53-56 | After `UpdateCounter(c)` has succeeded, whatever calls follow, a later `UpdateCounter(d)` with `d <= c` fails and leaves the counter unchanged. This covers a replay of `c` and any older value. |
| `FidoDeviceRegistration.SaturatedCounterIsFinal` | FidoU2f/Models/FidoDeviceRegistration.cs:37 | A counter at 2^32 - 1 stays there and accepts no update, because unsigned comparison does not wrap around. |
| `FidoDeviceRegistration.ReplayScenario` | FidoU2f/Models/FidoDeviceRegistration.cs:51-58 | Starting from counter 0, `UpdateCounter(1)` succeeds. After it, `UpdateCounter(1)` and `UpdateCounter(0)` both fail, and the counter stays 1. |
| `FidoSignatureData.BigEndianBytes` | FidoU2f/Models/FidoSignatureData.cs:62-67 | The four wire bytes of a counter read back big-endian to the same counter. |
| `FidoSignatureData.BigEndianBytesOfValue` | FidoU2f/Models/FidoSignatureData.cs:62-67 | Any four bytes are recovered from their big-endian value, so the counter conversion loses nothing. |
| `FidoSignatureData.HostUInt32` | FidoU2f/Models/FidoSignatureData.cs:67 | `BitConverter.ToUInt32(bytes, 0)` fails (`CounterTooShort`) iff fewer than 4 bytes are given. Otherwise it reads the first four bytes in host order: big-endian on a big-endian host, and the big-endian value of their reversal on a little-endian host. |
| `FidoSignatureData.CounterIsHostIndependent` | FidoU2f/Models/FidoSignatureData.cs:64-67 | Reversing the four counter bytes only on a little-endian host, then converting in host order, gives the big-endian value `b1·2^24 + b2·2^16 + b3·2^8 + b4` on either kind of host. |
| `FidoSignatureData.Decode` | FidoU2f/Models/FidoSignatureData.cs:61-75 | Fails iff the buffer has fewer than 5 bytes. An empty buffer is the end-of-stream failure, and 1 to 4 bytes is the short-counter failure. On success the signature is `|input| - 5` bytes long. |
| `FidoSignatureData.Encode` | FidoU2f/Models/FidoSignatureData.cs:61-75 | The device's buffer is 5 bytes longer than the signature. |
| `FidoSignatureData.DecodeEncode` | FidoU2f/Models/FidoSignatureData.cs:61-75 | Decoding `[up] ++ BE32(counter) ++ sig` returns exactly `(up, counter, sig)` for every byte, counter and signature. An empty signature is included, so a 5-byte input gives an empty signature. |
| `FidoSignatureData.EncodeDecode` | FidoU2f/Models/FidoSignatureData.cs:69-70 | Every buffer that decodes is exactly the encoding of its result. Byte 0 is the user presence, bytes 1..4 are the counter, and the signature is `input[5..]`, read to the end. |
| `FidoSignatureData.ExampleDecodes` | FidoU2f/Models/FidoSignatureData.cs:61-75 | `01 00 00 00 05 AA BB` decodes to user presence 1, counter 5 and signature `AA BB`. |
| `FidoSignatureData.ReadBytes` | FidoU2f/Models/FidoSignatureData.cs:62 | `BinaryReader.ReadBytes(count)` at a position returns the next `count` bytes, or fewer at the end of the buffer, in a new array. The position advances by the number of bytes read. |
| `FidoSignatureData.Reverse` | FidoU2f/Models/FidoSignatureData.cs:64-65 | `Array.Reverse` leaves the array holding its old contents in reverse order. |
| `FidoSignatureData.FromBytes` | FidoU2f/Models/FidoSignatureData.cs:49-77 | The step-by-step reader produces exactly what `Decode` specifies, on either host byte order. |
| `FidoAppId.TrimEnd` | FidoU2f/Models/FidoAppId.cs:42 | `TrimEnd('/')` returns a prefix of its input that does not end with `/`, and everything it removed is `/`. |
| `FidoAppId.TrimStart` | FidoU2f/Models/FidoAppId.cs:62 | The leading half of `Trim('/')`: a suffix that does not start with `/`, and everything removed is `/`. |
| `FidoAppId.Trim` | FidoU2f/Models/FidoAppId.cs:62 | `Trim('/')` is empty exactly when the path holds nothing but slashes. So `/` alone, or an empty path, is accepted. |
| `FidoAppId.IsWebScheme` | FidoU2f/Models/FidoAppId.cs:58-60 | After `ToLowerInvariant`, the scheme test accepts exactly `http` and `https` spelled in any mixture of letter case, and nothing else. |
| `FidoAppId.ValidateUri` | FidoU2f/Models/FidoAppId.cs:56-64 | Passes iff the scheme is http or https in any case and the absolute path consists only of slashes (empty or `/` included). Every rejection is a `FormatError`. |
| `FidoAppId.AppId.ToString` | FidoU2f/Models/FidoAppId.cs:71-74 | Returns the stored canonical text. It never ends with `/`, and trimming it again changes nothing. |
| `FidoAppId.FromUri` | FidoU2f/Models/FidoAppId.cs:35-43 | A null `Uri` fails with a null reference and a relative one with `FormatError`. When an AppId is built, its text is the URI text with only slashes removed from its end. |
| `FidoAppId.FromString` | FidoU2f/Models/FidoAppId.cs:45-54 | Text that `Uri.TryCreate` rejects fails with `FormatError`, and every failure is a `FormatError`. When an AppId is built, its text is the URI text minus trailing slashes. |
| `FidoAppId.LowerEqualsIffMatches` | FidoU2f/Models/FidoAppId.cs:58 | Lower-casing a string gives a given lower-case word exactly when the string spells that word in any mixture of cases. |
| `FidoAppId.FromUriAcceptsExactly` | FidoU2f/Models/FidoAppId.cs:35-43 | The `Uri` constructor yields an AppId iff the URI is non-null and `Acceptable`. The AppId's `ToString` is then the trimmed URI text. No AppId exists after a failed check. |
| `FidoAppId.FromStringAcceptsExactly` | FidoU2f/Models/FidoAppId.cs:45-54 | The string constructor yields an AppId iff the text parses as an absolute URI that is `Acceptable`. |
| `FidoAppId.ConstructorsAgree` | FidoU2f/Models/FidoAppId.cs:35-54 | For an absolute URI the two constructors give the same result or the same error. |
| `FidoAppId.TrimEndIdempotent` | FidoU2f/Models/FidoAppId.cs:42 | Canonicalisation is idempotent: `TrimEnd('/')` of its own output is unchanged. |
| `FidoAppId.TrimEndIgnoresTrailing` | FidoU2f/Models/FidoAppId.cs:53 | Appending any run of slashes to a text does not change its trimmed form. |
| `FidoAppId.TrailingSlashesDoNotMatter` | FidoU2f/Models/FidoAppId.cs:53 | URIs whose texts differ only in trailing slashes give the same AppId. |
| `FidoAppId.LocalhostIsValid` | FidoU2f.Tests/TestUniversalTwoFactor.cs:35 | `http://localhost` is a valid AppId, stored as `http://localhost`. |
| `FidoAppId.OtherSchemesAndPathsRejected` | FidoU2f/Models/FidoAppId.cs:58-63 | An `ftp` URI is rejected, and so is an `HTTPS` URI with the path `/login`. |

## Left out

- JSON persistence (`ToJson`/`FromJson`) is a thin wrapper over a JSON library and is not modelled.
- `FromWebBase64` delegates to the web-safe Base64 converter. That converter is not part of this model, so only `FromBytes` is modelled.
- Parsing and normalisation by `System.Uri` (including `Uri.TryCreate`) belong to the .NET library. A parsed URI is an abstract record of `IsAbsoluteUri`, `Scheme`, `AbsolutePath` and its `ToString()` text. The outcome of `TryCreate` is a parameter.
- FidoAppId.LowerChar: `ToLowerInvariant` is modelled only for ASCII letters. No character outside ASCII lower-cases to a letter of `http`/`https`, so the scheme check is unaffected.
- `FidoKeyHandle`, `FidoPublicKey`, `FidoAttestationCertificate` and `FidoSignature` are not part of this model, and their `Equals` cannot be read. The model assumes that they compare their byte content and represents them as byte-sequence values. If they kept reference equality, `DeviceRegistration.Equals` would compare identities rather than contents. Any validation their constructors do is not modelled.
- FidoSignatureData.FromBytes: a null array (`ArgumentNullException` from `MemoryStream`) is not modelled, because Dafny arrays here are non-null. Stream disposal is not modelled either.
- FidoSignatureData.DecodeError: `BitConverter.ToUInt32` throws `ArgumentOutOfRangeException` for an empty array and `ArgumentException` for 1 to 3 bytes. Both are one error, `CounterTooShort` (the first exception type is a subclass of the second).
- Host byte order (`BitConverter.IsLittleEndian`) is a parameter of `FromBytes`, not a constant.
- The `UniversalTwoFactor` protocol engine, client-data validation, the registration-data decoder, signature verification, attestation and challenge generation are not part of this model.
- Concurrent `UpdateCounter` calls on one registration are not modelled, because the model is single-threaded.

# hose: a verified model of its trust-on-first-use key handling

hose exchanges public keys between two hosts. It then trusts a peer's keys once the
operator confirms them, which is trust on first use. This project models the program's
decision logic in Dafny and proves what that logic promises.

The model covers these parts:

- **Known-hosts store** (`hosts/hosts.go`). This is a list of
  `(address, box public key, signature public key)` triples, kept in `cmpHost` order. It is
  backed by a text file with one `addr hexbox hexsig` line per host. `cmpHost` compares the
  whole triple. So a new key for a known address becomes a second entry, not a replacement.
  The model follows the code here.
- **Keyrings** (`key/keyring.go`, `key/sig_keyring.go`). These are sorted in-memory lists
  with an idempotent sorted insert and a binary-search lookup. They are classes whose fields
  the methods update in place.
- **Key codecs** (`key/box.go`, `key/sig.go`, `key/key.go`, `key/encoding.go`). These are
  fixed-width base16 codecs (section 8 of RFC 4648) with exact length checks, plus the
  byte-order comparisons of the keys.
- **Key-file generation** (`key/boxgen.go`, `key/generate.go`, `key/siggen.go`,
  `key/keygen.go`, `key/file.go`). This covers the four-way decision on which key files
  exist, create-only files, the rollback of the public file, and the files' contents and
  modes.
- **The handshake.** This covers the operator prompt loop, the reject-by-default key check,
  the 32+32-byte wire layout, and the rule that the known-hosts store changes only after
  both keys are accepted. Two revisions are modelled: `handshake/` and the older
  `handshake.go`.
- **Interface selection** (`main.go`).

Each Go file is a Dafny module of its own, because several files are alternative
revisions whose declarations collide:

| Go file | Dafny module |
|---|---|
| hosts/hosts.go | `Hosts` |
| key/keyring.go | `Keyring` |
| key/sig_keyring.go | `SigKeyring` |
| key/box.go | `Box` |
| key/sig.go | `Sig` |
| key/key.go | `Key` |
| key/encoding.go | `Hex` |
| key/file.go | `KeyFile` |
| key/keygen.go | `KeyGen` |
| key/generate.go | `KeyGenerate` |
| key/boxgen.go | `BoxGen` |
| key/siggen.go | `SigGen` |
| handshake/receive.go | `HandshakeReceive` |
| handshake/send.go | `HandshakeSend` |
| handshake.go | `HandshakeMain` |
| main.go | `Interfaces` |

`Hex` also holds the `encoding/hex` decoder the key decoders call. The library behaviour
the source relies on lives in its own modules:

- `Bytes`: `bytes.Compare`.
- `Search`: `slices.BinarySearchFunc` and `slices.Insert`.
- `SortedKeys`: sorted lists keyed by bytes.
- `Ip`: `netip.Addr` for IPv4.
- `Text`: `bufio.ScanLines` and `bytes.Fields`.
- `Terminal`: `strings.TrimSpace` and the `scan` prompt loop.
- `HostPort`: `net.JoinHostPort`, `net.SplitHostPort` and `TCPAddr.String`.
- `Os`: the file system.
- `Wrappers`: `Option`, `Result` and the error values.

**How effects are modelled.**

- **The file system** is the class `Os.FileSystem`. Its state maps each path to its
  contents and mode, and it holds the set of existing directories. A fixed `Faults` value
  says which system calls fail on which paths.
- **Each operation that touches files** is a method on that object. Each such method is
  proved equal to a function from the old state to the error and the new state, the `...Spec`
  functions. The properties are proved about those functions.
- **Operator input** is a sequence of lines, with an optional read error at the end.
- **A connection** is the bytes the peer sends and its remote address. Dialing is a `Peer`
  value: the ports it listens on and how many writes it takes.
- **Generated key material** is a parameter of the generation methods, together with
  whether generation fails.

## Model

| member | source | states |
|---|---|---|
| Bytes.Compare | key/box.go:60-62 | bytes.Compare is -1, 0 or +1. It is 0 exactly for equal inputs, and swapping the arguments negates it. |
| Bytes.CompareIsTotalOrder | key/box.go:60-62 | The key comparison is a strict total order: 0 iff equal, antisymmetric and transitive. |
| Bytes.CompareConcat | hosts/hosts.go:128-136 | Byte strings made of fixed-width parts compare by the first part, and by the rest when the first parts are equal. This is what makes cmpHost one byte comparison. |
| Search.Insert | hosts/hosts.go:38 | slices.Insert places the element before index i and keeps every other element in order. |
| Search.BinarySearch | hosts/hosts.go:33 | On a list that is monotone under the comparison, the result is the first index comparing at or above the target. It reports found iff the element there compares equal. |
| SortedKeys.ImportSpec | key/keyring.go:19-33 | Import keeps the list strictly sorted and the key held. It is a no-op when the key was held. Otherwise it adds exactly the new entry and keeps every old one. |
| SortedKeys.Find | key/keyring.go:56-64 | The binary search by key identifier returns the position of the key, and found iff the key is held there. |
| SortedKeys.Sort | hosts/hosts.go:113 | slices.SortFunc gives a permutation of the input that is sorted by key. |
| SortedKeys.SortedUnique | hosts/hosts.go:113 | When no two entries share a key, there is only one sorted arrangement. So the model does not depend on the sort algorithm. |
| Hex.Encode | key/encoding.go:5-9 | The output is 2 × len bytes, all in 0-9a-f. Byte i becomes the digit of its high nibble, then the digit of its low nibble. |
| Hex.Decode | key/box.go:75 | hex.Decode succeeds iff the length is even and every character is a hex digit of either case. Output byte i is 16 × digit(2i) + digit(2i+1). |
| Hex.DecodeEncode | key/encoding.go:5-9 | Decoding what encode wrote gives back the bytes. |
| Hex.EncodeDecode | key/encoding.go:5-9 | Encoding what was decoded gives back the input with A-F lowered. |
| Hex.DecodeKey | key/box.go:69-79 | The shared key decoder shape: a "malformed" error when DecodedLen is not n. Success iff there are exactly 2n hex digits. The zero key on every error. |
| Hex.DecodeKeyEncode | key/box.go:69-79 | Every key decoder gives back the key that encode wrote, with no error. |
| Hex.EncodeDecodeKey | key/sig.go:70-92 | Whatever a key decoder accepts is the encoding of the key it returns, up to the case of the digits. |
| Ip.ParseString | hosts/hosts.go:93 | Printing an address and parsing it back gives the address. |
| Ip.ParseCanonical | hosts/hosts.go:93 | The only text that parses to an address is that address's dotted-decimal form. |
| Ip.ColonNeverParses | handshake.go:168 | In the IPv4-only model, no text holding a ':' parses as an address. |
| Ip.ParseAddr | hosts/hosts.go:93-96 | A failure is always the error naming the text that was parsed. |
| Ip.String | hosts/hosts.go:143 | Addr.String of an IPv4 address is non-empty text of decimal digits and dots. Ip.ParseString shows it parses back. |
| Text.Fields | hosts/hosts.go:88 | bytes.Fields: the maximal runs of non-space bytes. Every field is non-empty and space-free. |
| Text.FieldsThree | hosts/hosts.go:88 | Three space-free fields joined by single spaces split back into exactly those three. |
| Text.FieldsOfBlank | hosts/hosts.go:89-91 | A blank or all-space line has no fields. |
| Text.Lines | hosts/hosts.go:70-72 | bufio.ScanLines run to the end: no line holds a newline, and there are no lines exactly when the input is empty. |
| Text.LinesOfLine | hosts/hosts.go:71-72 | A line without newline or trailing CR, followed by a newline, is scanned back as that line. |
| Os.WriteEachAppends | hosts/hosts.go:121-123 | Writing chunk after chunk appends them all to the file, or nothing when writes to it fail. No other file changes. |
| Os.CreateThenWrite | hosts/hosts.go:115-123 | os.Create followed by the writes leaves exactly the chunks in the file, with the mode of the file it truncated or 0666. |
| Os.FileSystem.Create | hosts/hosts.go:115 | The method's outcome is CreateStep of the old state. A missing directory and a failing open are errors, and success truncates the file. |
| Os.FileSystem.Write | hosts/hosts.go:122 | The method's outcome is WriteStep: the bytes are appended, or nothing is written and an error is returned. |
| Os.FileSystem.Remove | key/keygen.go:37 | The method's outcome is RemoveStep: the file is gone, or an error is returned with no change. |
| Os.FileSystem.Chmod | key/keygen.go:75 | The method's outcome is ChmodStep: the mode is set, or an error is returned with no change. |
| Os.FileSystem.MkdirAll | key/file.go:43-47 | The method's outcome is MkdirAllStep: the directory exists afterwards, or an error is returned with no change. |
| KeyFile.FileExists | key/file.go:66-75 | fileExists: not-exist gives (false, nil), a successful stat gives (true, nil), and any other stat failure is returned as an error. |
| KeyFile.ErrFileExists | key/file.go:77-79 | errFileExists is the "file already exists" error naming the path. |
| KeyFile.CreateFileIfNotExistSpec | key/file.go:31-62 | An existing path is an error with no change. Success leaves a new empty file with the requested mode in a directory that exists. A failed chmod removes the new file. No other path changes. |
| KeyFile.CreateFileIfNotExist | key/file.go:31-62 | The method's outcome is CreateFileIfNotExistSpec of the old state. |
| KeyGen.CreateFileSpec | key/keygen.go:61-82 | createFile: an existing path is an error with no change. A failed chmod removes the new file. Success leaves an empty file with the mode. |
| KeyGen.CreateFile | key/keygen.go:61-82 | The method's outcome is CreateFileSpec of the old state. |
| KeyGen.GenerateSpec | key/keygen.go:25-57 | Generate never creates or removes a directory. |
| KeyGen.GenerateKeepsExisting | key/keygen.go:27-30 | An existing public key file makes Generate fail with nothing changed. |
| KeyGen.GenerateSucceeds | key/keygen.go:25-57 | Generate succeeds iff both files can be created, the keypair is generated and both writes go through. The files then hold the raw 32-byte keys with modes 0644 and 0600. |
| KeyGen.GenerateRollsBack | key/keygen.go:34-39 | When the private file cannot be created, the public file just created is removed again. |
| KeyGen.GeneratePublicFirst | key/keygen.go:49-54 | The public key is written first. When that write fails, the private file stays empty. |
| KeyGen.GenerateTouchesOnlyKeyFiles | key/keygen.go:25-57 | Generate changes no file but its two key files. |
| KeyGen.Generate | key/keygen.go:25-57 | The method's outcome is GenerateSpec of the old state. |
| KeyGenerate.GenerateWritesHex | key/generate.go:16-54 | This Generate behaves as key/keygen.go's does, with the hex text of the keys in place of the raw bytes. |
| KeyGenerate.GenerateSpec | key/generate.go:16-54 | Generate never creates or removes a directory. |
| KeyGenerate.GenerateSucceeds | key/generate.go:42-51 | On success the files hold the hex of the public key and of the private key, public first, with their modes. |
| KeyGenerate.GenerateRollsBack | key/generate.go:27-32 | A failed private-file creation removes the public file. An existing public file is an error with no change. |
| KeyGenerate.GenerateIfNoExistSpec | key/generate.go:57-77 | Both files exist: nil and no change. Exactly one exists: an error and no change. Neither exists: Generate. |
| KeyGenerate.GenerateIfNoExist | key/generate.go:57-77 | The method's outcome is GenerateIfNoExistSpec of the old state. |
| KeyGenerate.Generate | key/generate.go:16-54 | The method's outcome is GenerateSpec of the old state. |
| BoxGen.GenerateBoxKeypair | key/boxgen.go:17-55 | The method's outcome is GenerateBoxKeypairSpec of the old state. |
| BoxGen.GenerateBoxKeypairSucceeds | key/boxgen.go:43-51 | Success iff both files can be created, the keypair is generated and both writes go through. The files then hold 64 hex digits each, with modes 0644 and 0600. |
| BoxGen.GenerateBoxKeypairNeverOverwrites | key/boxgen.go:21-29 | An existing key file is never overwritten or removed. |
| BoxGen.GenerateBoxKeypairRollsBack | key/boxgen.go:28-33 | When the private file cannot be created, the public file is removed and the files are as before. A key directory MkdirAll created stays. |
| BoxGen.GenerateBoxKeypairPublicFirst | key/boxgen.go:43-51 | The public key is written first. A failed public write leaves the private file empty. |
| BoxGen.GenerateBoxKeypairTouchesOnlyKeyFiles | key/boxgen.go:17-55 | Generation changes no file but the two box key files. |
| BoxGen.GenerateBoxKeypairIfNotExistSpec | key/boxgen.go:58-78 | The four-way decision: both files exist gives nil and no change. Only one exists gives an error and no change. Neither exists gives generation. |
| BoxGen.GenerateBoxKeypairIfNotExist | key/boxgen.go:58-78 | The method's outcome is GenerateBoxKeypairIfNotExistSpec of the old state. |
| SigGen.GenerateSigKeypair | key/siggen.go:11-47 | The method's outcome is GenerateSigKeypairSpec of the old state. |
| SigGen.GenerateSigKeypairSucceeds | key/siggen.go:35-44 | On success the public file holds 64 hex digits and the private file 128, with their modes. |
| SigGen.GenerateSigKeypairLeavesPublicFile | key/siggen.go:15-25 | An existing public file fails with nothing created. A failed private-file creation leaves the new public file behind, with no rollback. |
| SigGen.GenerateSigKeypairPublicFirst | key/siggen.go:37-44 | A failed public write stops before the private write. |
| SigGen.GenerateSigKeypairTouchesOnlyKeyFiles | key/siggen.go:11-47 | Generation changes no file but the two signature key files. |
| SigGen.GenerateSigKeypairIfNotExistSpec | key/sig.go:26 | The same four-way decision, on the signature key files. |
| SigGen.GenerateSigKeypairIfNotExist | key/sig.go:26 | The method's outcome is GenerateSigKeypairIfNotExistSpec of the old state. |
| Box.DecodeBoxKey | key/box.go:69-79 | Exactly 64 hex digits of either case give the 32 bytes. A length whose half is not 32 is the "malformed box key" error, and a bad digit is hex.Decode's error. Both errors come with the zero key. |
| Box.DecodeBoxPublicKey | key/box.go:64-67 | It succeeds or fails exactly as decodeBoxKey does, with the same bytes. What it accepts is the encoding of its result, up to case. |
| Box.DecodeBoxKeyEncode | key/box.go:69-79 | decodeBoxKey(encode(k)) == k for every 32-byte key. |
| Box.Compare | key/box.go:60-62 | The result is 0 iff the keys are equal, and it is negated when they are swapped. |
| Box.CompareTransitive | key/box.go:60-62 | The order of box public keys is transitive. |
| Box.ToKID | key/box.go:81-83 | The identifier is exactly the 32 key bytes. |
| Box.ToRawBoxKeyPointer | key/box.go:89-92 | The raw key is exactly the key bytes. |
| Box.LoadBoxKey | key/box.go:56-58 | An open or read error is returned with the zero key. Otherwise the load succeeds iff the file holds exactly 64 hex digits, and the key re-encodes to the file's text lowered. Any error gives the zero key. |
| Box.HideIdentity | key/box.go:94-96 | The result is always false. |
| Box.LoadBoxKeyEncoded | key/box.go:56-58 | A readable file holding the encoding of a key loads as that key. |
| Box.LoadedBoxKeypair | key/box.go:25-42 | The generation error comes first, then the public load error, then the private one, each with the zero keypair. Otherwise both keys are read back. |
| Box.LoadBoxKeypair | key/box.go:25-42 | The method's outcome is generation, then LoadedBoxKeypair on the state generation left. |
| Box.LoadBoxPublicKey | key/box.go:46-53 | Generation runs first. Its error short-circuits with the zero key. Otherwise the public key is loaded. |
| Box.LoadedBoxPublicKey | key/box.go:46-53 | The generation error comes with the zero key. Otherwise the result is loadBoxKey of the public file. |
| Box.LoadBoxKeypairFirstRun | key/box.go:25-42 | On a first run with no failures, the keypair loaded is the one generated. |
| Box.LoadBoxKeypairLaterRun | key/box.go:25-42 | When both files hold the encodings of a keypair, that keypair is loaded and nothing changes. |
| Sig.DecodeSigPublicKey | key/sig.go:70-80 | Exactly 64 hex digits of either case give the 32 bytes, and re-encoding them gives the input lowered. A length whose half is not 32 is the "malformed signature verification key" error, and a bad digit is hex.Decode's error. Any error gives the zero key. |
| Sig.DecodeSigPrivateKey | key/sig.go:82-92 | Exactly 128 hex digits of either case give the 64 bytes, and re-encoding them gives the input lowered. A length whose half is not 64 is the "malformed signing key" error, and a bad digit is hex.Decode's error. Any error gives the zero key. |
| Sig.DecodeSigKeysEncode | key/sig.go:70-92 | Both decoders read back what encode wrote. |
| Sig.Compare | key/sig.go:66-68 | The result is 0 iff the keys are equal, and it is negated when they are swapped. |
| Sig.ToKID | key/sig.go:106-108 | The identifier is exactly the 32 key bytes. |
| Sig.LoadSigPublic | key/sig.go:46-53 | loadKey of the public file: an open or read error with the zero key. Otherwise success iff the file holds exactly 64 hex digits, and the key re-encodes to the file's text lowered. |
| Sig.LoadSigPrivate | key/sig.go:57-64 | loadKey of the private file: an open or read error with the zero key. Otherwise success iff the file holds exactly 128 hex digits, and the key re-encodes to the file's text lowered. |
| Sig.LoadSigEncoded | key/sig.go:46-64 | Readable files holding the encodings of a keypair load as that keypair. |
| Sig.LoadedSigKeypair | key/sig.go:25-42 | The generation error comes first, then the public load error, then the private one, each with the zero keypair. Otherwise both keys are read back. |
| Sig.LoadSigKeypair | key/sig.go:25-42 | The method's outcome is generation, then LoadedSigKeypair. |
| Sig.LoadSigPublicKey | key/sig.go:46-53 | Generation runs first. Its error short-circuits with the zero key. Otherwise the public key is loaded. |
| Sig.LoadedSigPublicKey | key/sig.go:46-53 | The generation error comes with the zero key. Otherwise the result is loadKey of the public file. |
| Sig.LoadSigPrivateKey | key/sig.go:57-64 | Generation runs first. Its error short-circuits with the zero key. Otherwise the private key is loaded. |
| Sig.LoadSigKeypairFirstRun | key/sig.go:25-42 | On a first run with no failures, the keypair loaded is the one generated. |
| Sig.LoadSigKeypairLaterRun | key/sig.go:25-42 | Existing encoded files load as their keypair, with nothing changed. |
| Key.DecodeBoxKey | key/key.go:65-75 | A length whose half is not 32 is the "malformed key" error. A bad digit is hex.Decode's error. Both come with the zero key. Success is the 32 decoded bytes. |
| Key.DecodeBoxKeyEncode | key/key.go:65-75 | The decode step reads back what encode wrote. |
| Key.LoadBoxKey | key/key.go:51-76 | An open or read error is returned with the zero key. Otherwise the load succeeds iff the file holds exactly 64 hex digits, and the key re-encodes to the file's text lowered. |
| Key.LoadedBoxKeypair | key/key.go:26-41 | The generation error has both keys zero. A public load error has both keys zero. Otherwise the public key is read, beside whatever the private load gives. |
| Key.LoadBoxKeypair | key/key.go:26-41 | The method's outcome is generation, then LoadedBoxKeypair. |
| Key.LoadBoxPublicKey | key/key.go:45-48 | It only reads the public file: nothing is generated and the state is unchanged. |
| Key.LoadBoxPublicKeyEncoded | key/key.go:45-48 | A readable public file holding an encoding loads as that key. |
| Key.BoxPublicKeyCompare | key/key.go:78-80 | This is bytes.Compare: 0 iff equal, and antisymmetric. |
| Key.SigPublicKeyCompare | key/key.go:82-84 | This is bytes.Compare: 0 iff equal, and antisymmetric. |
| Keyring.CmpBoxKeypairPubKey | key/keyring.go:93-95 | A keypair compares against a public key by its public half only. The result is 0 iff they are the same key. |
| Keyring.CmpSigPublicKey | key/keyring.go:97-99 | This is bytes.Compare on the key bytes. |
| Keyring.FirstHeld | key/keyring.go:39-52 | The index of the first identifier that has length 32 and is held, or -1. |
| Keyring.Keyring.constructor | key/keyring.go:15-17 | A new keyring is empty and valid. |
| Keyring.Keyring.ImportBoxKeypair | key/keyring.go:19-25 | boxKeys stays strictly sorted by public key. It is a no-op when that public key is held, whatever the private half. Otherwise it is the sorted insert. sigPubKeys is unchanged. |
| Keyring.Keyring.ImportSigPublicKey | key/keyring.go:27-33 | The key becomes held and the list stays strictly sorted. Re-importing is a no-op. boxKeys is unchanged. |
| Keyring.Keyring.LookupBoxSecretKey | key/keyring.go:39-52 | As written: it skips identifiers of the wrong length, and for the first held one returns the keypair and its index in boxKeys. It returns (-1, nil) when none is held. |
| Keyring.Keyring.LookupBoxSecretKeyByKid | key/keyring.go:39-52 | Corrected: the index is the position in kids of the identifier found. It is -1 iff nothing is found. |
| Keyring.LookupBoxSecretKeyWrongIndex | key/keyring.go:46-48 | A concrete keyring and identifier list where the two indices differ (1 versus 0). |
| Keyring.Keyring.LookupBoxPublicKey | key/keyring.go:54-65 | The result is nil for a wrong-length or unknown identifier. Otherwise it is a public key equal to the identifier. |
| Keyring.Keyring.GetAllBoxSecretKeys | key/keyring.go:67-73 | The same length and order as boxKeys, element by element. |
| Keyring.Keyring.ImportBoxEphemeralKey | key/keyring.go:75-79 | It never fails. It copies min(len(kid), 32) bytes and leaves the rest zero. |
| Keyring.Keyring.LookupSigningPublicKey | key/keyring.go:81-91 | The result is nil for a wrong-length or absent identifier. Otherwise it is the equal key held. |
| SigKeyring.CmpSigPublicKey | key/sig_keyring.go:31-33 | This is bytes.Compare: 0 iff equal, and negated when swapped. |
| SigKeyring.CmpSigPublicKeyTransitive | key/sig_keyring.go:31-33 | The comparison is transitive. |
| SigKeyring.SigKeyring.constructor | key/sig_keyring.go:9 | An empty ring is valid. |
| SigKeyring.SigKeyring.Import | key/sig_keyring.go:11-17 | The ring stays strictly sorted. A held key leaves it unchanged. A new key grows it by exactly one and keeps every prior key. |
| SigKeyring.SigKeyring.LookupSigningPublicKey | key/sig_keyring.go:19-29 | The result is nil for a wrong-length identifier or an absent key. Otherwise it is the equal key held. |
| Hosts.CmpHost | hosts/hosts.go:128-136 | Lexicographic over (address, box key, sig key). It is 0 exactly for equal hosts, and a different address decides alone. |
| Hosts.CmpHostIsKeyOrder | hosts/hosts.go:128-136 | cmpHost is bytes.Compare on the hosts' fixed-width bytes, so it is a total order. |
| Hosts.CmpHostAddr | hosts/hosts.go:138-140 | It agrees with the address component of cmpHost. |
| Hosts.SortedByAddress | hosts/hosts.go:51 | In a cmpHost-sorted list the addresses do not decrease. So the address binary search is valid on it. |
| Hosts.HostString | hosts/hosts.go:142-144 | "addr hexbox hexsig" in lower-case hex with single spaces. The text holds no newline or CR. |
| Hosts.ParseHost | hosts/hosts.go:87-109 | Other than exactly 3 fields is the field-count error. Then the address, box key and sig key are parsed, and the first failure is reported: the address error, else the box key's, else the sig key's. Three fields are accepted iff the address parses and each key is 64 hex digits of either case, whatever white space separates them. A host parsed has that address and re-encodes to the key fields lowered. |
| Hosts.ParseHostString | hosts/hosts.go:87-109 | A host's printed text parses back to the host. |
| Hosts.ParseBlankLine | hosts/hosts.go:88-91 | A blank or all-space line is the "expected 3 fields; got 0" error. |
| Hosts.LinesOfRender | hosts/hosts.go:121-123 | The file Store writes scans back as the hosts' texts, one per line. |
| Hosts.LoadLineSpec | hosts/hosts.go:73-81 | One iteration: a parse error is reported with its line number. A held host is a duplicate error. Any other host is inserted, keeping the list sorted. |
| Hosts.LoadLine | hosts/hosts.go:73-81 | A parse error becomes the error naming the line number. A duplicate error only ever names a host already in the list. Success adds exactly the parsed host to the multiset of hosts. |
| Hosts.LoadSpec | hosts/hosts.go:60-84 | A missing file is the empty list with no error. Any other open or read failure is returned as it is. The result is strictly increasing under cmpHost. |
| Hosts.Load | hosts/hosts.go:60-84 | The method's outcome is LoadSpec of the file system's state. |
| Hosts.LoadStopsAtBadLine | hosts/hosts.go:72-75 | Load stops at the first unparsable line and reports its 1-based number with the parser's error. |
| Hosts.LoadStopsAtDuplicate | hosts/hosts.go:77-80 | A line whose triple equals an earlier line's fails, naming that host. |
| Hosts.LoadAllLines | hosts/hosts.go:72-82 | Lines that all parse to distinct hosts load, whatever their order, into a strictly sorted list holding exactly those hosts. |
| Hosts.LoadKeepsSameAddress | hosts/hosts.go:77-80 | Two lines with the same address and different keys are both kept. |
| Hosts.SearchHost | hosts/hosts.go:33 | The binary search by cmpHost gives the insertion position, and found iff the identical host is held there. |
| Hosts.SortHosts | hosts/hosts.go:113 | Store's sort is a permutation of the hosts in cmpHost order. |
| Hosts.SortDistinctHosts | hosts/hosts.go:113 | Hosts none of which occurs twice sort into a strictly increasing list. |
| Hosts.SortSortedHosts | hosts/hosts.go:113 | Sorting a list already strictly increasing under cmpHost leaves it unchanged. |
| Hosts.SortHostsUnique | hosts/hosts.go:113 | Any permutation of the hosts in cmpHost order is the sorted list Store writes. |
| Hosts.StoreSpec | hosts/hosts.go:112-126 | The hosts are sorted and the file is created or truncated with one line per host. A create failure is returned with no change. A write to a path whose writes fail writes nothing, so the file stays empty, yet Store reports success. |
| Hosts.Store | hosts/hosts.go:112-126 | The method's outcome is StoreSpec of the old state. |
| Hosts.LoadAfterStore | hosts/hosts.go:112-126 | Where the file can be created, written and read, Load after Store gives the hosts in cmpHost order, for input without exact duplicates. |
| Hosts.LoadAfterStoreSorted | hosts/hosts.go:60-126 | When the file can be created, written and read, storing a strictly sorted list and loading it gives the same list. |
| Hosts.LoadRendered | hosts/hosts.go:70-82 | Load's line loop reads back exactly the strictly sorted list whose lines Store printed. |
| Hosts.AddToSpec | hosts/hosts.go:33-39 | The list stays strictly sorted. An identical triple leaves it unchanged. Any other host grows it by exactly one and keeps every earlier entry. |
| Hosts.AddTo | hosts/hosts.go:33-39 | The host is in the result. The result keeps every host of the input and adds at most the new one. |
| Hosts.AddSpec | hosts/hosts.go:27-42 | A failing load is returned before anything is written. Otherwise the added list is stored. |
| Hosts.Add | hosts/hosts.go:27-42 | The method's outcome is AddSpec of the old state. |
| Hosts.LoadAfterAdd | hosts/hosts.go:27-42 | After a successful Add, Load gives the updated list. It holds the host and every host known before. |
| Hosts.LookupIn | hosts/hosts.go:51-55 | Found iff some entry has the address. The entry found has that address. Otherwise the error is "no such host" naming it. |
| Hosts.LookupInFirst | hosts/hosts.go:51-55 | The entry found is the first with the address, which is the least in cmpHost order. |
| Hosts.LookupSpec | hosts/hosts.go:46-56 | A failing load is returned as it is. After a successful load, a host is found iff some loaded entry has the address, and the host found has it. A missing file is "no such host". |
| Hosts.SearchFindsFirst | hosts/hosts.go:51 | The binary search by cmpHostAddr ends at the first entry with the address, if there is one. |
| Hosts.Lookup | hosts/hosts.go:46-56 | The method's outcome is LookupSpec of the file system's state. |
| Terminal.TrimSpace | handshake/receive.go:129 | strings.TrimSpace: no leading or trailing space, and the result is a contiguous slice of the input. |
| Terminal.ReadLine | handshake/receive.go:125-129 | One Scan gives the next line, or "" at end of input, or the read error. |
| Terminal.ScanSpec | handshake/receive.go:123-139 | The result is an allowed response or a read error. |
| Terminal.ScanFirstAllowed | handshake/receive.go:130-137 | The answer is the first line whose trimmed text is allowed. The lines after it are left unread. |
| Terminal.ScanNoneAllowed | handshake/receive.go:130-137 | When no typed line is allowed, scan consumes every line and answers "" at the end, or the read error. |
| Terminal.Scan | handshake/receive.go:123-139 | The loop method's result and leftover input equal ScanSpec. |
| HostPort.JoinHostPort | handshake/send.go:34 | "host:port", with the host in brackets when it holds a colon. |
| HostPort.SplitHostPort | handshake/receive.go:43 | No colon is the "missing port" error. The port is what follows the last colon and holds no colon. An unbracketed text is host + ":" + port. |
| HostPort.SplitJoin | handshake/receive.go:43 | Splitting what JoinHostPort joined gives back the host and the port. |
| HostPort.SplitTcpString | handshake/receive.go:43-47 | A remote address's text splits into the address text and the port text, and the address text parses back to the address. |
| HostPort.TcpStringNeverParses | handshake.go:168 | The whole "ip:port" text never parses as an address. |
| HostPort.PortValue | handshake/send.go:36 | A port text is valid iff it is one or more decimal digits with a value below 65536. |
| HostPort.ItoaValue | handshake/receive.go:43 | The decimal text of a port number reads back as that number. |
| HandshakeReceive.ReadFull | handshake/receive.go:73 | io.ReadFull gives n bytes iff there are that many. Otherwise EOF on an empty stream, else ErrUnexpectedEOF. |
| HandshakeReceive.ReceiveKeys | handshake/receive.go:70-88 | Success iff 64 bytes arrive: box = bytes 0-31, sig = bytes 32-63. A short read gives an error with both keys zero. |
| HandshakeReceive.VerifyKeySpec | handshake/receive.go:103-120 | The key is accepted iff the answer is "yes". "no" and "" give errVerifyKey, and a read error is passed on. |
| HandshakeReceive.VerifyKey | handshake/receive.go:103-120 | The method's result equals VerifyKeySpec. |
| HandshakeReceive.VerifyKeyAnswer | handshake/receive.go:111-118 | The first allowed line decides. "yes" accepts, and "no" and a blank line reject. |
| HandshakeReceive.VerifyKeyNoAnswer | handshake/receive.go:107-110 | Input that ends without an answer rejects the key by default or reports the read error. It never accepts. |
| HandshakeReceive.VerifyKeysSpec | handshake/receive.go:92-99 | The box key is checked first. Rejecting it means the sig key is never prompted. |
| HandshakeReceive.VerifyKeys | handshake/receive.go:92-99 | The method's result equals VerifyKeysSpec. |
| HandshakeReceive.VerifyKeysAnswers | handshake/receive.go:92-99 | Both keys are accepted iff the first answer is "yes" and so is the next one after it. |
| HandshakeReceive.ReceiveSpec | handshake/receive.go:29-57 | The store changes only when 64 bytes arrived and both keys were accepted. An accept failure, a short read or a rejection leaves it untouched. |
| HandshakeReceive.Receive | handshake/receive.go:29-57 | The method's error, new file-system state and leftover input equal ReceiveSpec. |
| HandshakeReceive.ReceiveDecides | handshake/receive.go:43-56 | Once both keys arrived, a rejection is returned with the store untouched. Acceptance calls Add with exactly (remote address, box key, sig key). |
| HandshakeReceive.ReceiveRecordsPeer | handshake/receive.go:56 | When both keys are accepted and the file works, receive succeeds. Afterwards the peer is known beside every earlier host. |
| HandshakeSend.LoadKeysSpec | handshake/send.go:24-31 | A box-key error is returned with both keys zero, and the sig keypair is neither generated nor loaded. Otherwise the sig key load follows. |
| HandshakeSend.LoadKeys | handshake/send.go:24-31 | The method's keys, error and state equal LoadKeysSpec. |
| HandshakeSend.LoadKeysLaterRun | handshake/send.go:24-31 | When the four key files hold encodings, loadKeys returns both public keys and changes nothing. |
| HandshakeSend.SendKeysTo | handshake/send.go:36-48 | A failed dial sends nothing. A failed box write stops before the sig key. Success iff the peer is reached and takes both writes, and the wire is then box ‖ sig. |
| HandshakeSend.DialAddress | handshake/send.go:34 | Whenever the dialed text splits into host and port, its port is the bad-verb text "%!d(string=60322)", never "60322". |
| HandshakeSend.SendKeys | handshake/send.go:33-52 | As written: the box key and then the sig key reach the peer iff the dialed address reaches it and it takes both writes. Otherwise nothing or only the box key is sent. |
| HandshakeSend.SendThenReceive | handshake/send.go:43-48 | receiveKeys on the payload succeeds iff sending succeeded, and then yields the same (box, sig) pair. |
| HandshakeSend.SendKeysNeverConnects | handshake/send.go:34 | As written, sendKeys always fails to dial and sends nothing. |
| HandshakeSend.SprintfD | handshake/send.go:34 | Formatting a string with %d gives text starting with '%'. It holds no colon when the string has none, so it is never a port. |
| HandshakeSend.SendKeysFixedDelivers | handshake/send.go:34 | With the port text "60322", a reachable peer that takes both writes receives box ‖ sig. |
| HandshakeSend.SendSpec | handshake/send.go:14-22 | A load error is returned before anything is sent. The state is what loading left. |
| HandshakeSend.Send | handshake/send.go:14-22 | The method's result and state equal SendSpec. |
| HandshakeMain.AskSpec | handshake.go:177-194 | The key is accepted only on "yes". "no" and "" refuse without an error. A read error is passed on and never accepted. |
| HandshakeMain.VerifyKey | handshake.go:177-194 | The method's answer equals AskSpec. |
| HandshakeMain.AskAgreesWithVerifyKey | handshake.go:177-194 | The two revisions' verifyKey agree: same input left over, accepted iff there is no error in the later one, and a refusal without error is the later one's rejection error. |
| HandshakeMain.Recv | handshake.go:112-173 | An accept error and a short read are returned before any prompt. The store changes only after both keys are accepted. |
| HandshakeMain.HandshakeRecvSpec | handshake.go:112-173 | As written, handshakeRecv never changes the known-hosts file, and an accept error is returned with no input read. |
| HandshakeMain.HandshakeRecv | handshake.go:112-173 | The method's error, state and leftover input equal the as-written specification. |
| HandshakeMain.HandshakeRecvNeverStores | handshake.go:167-172 | As written, the store never changes. When both keys are accepted, the error is the bad-address error on "ip:port". |
| HandshakeMain.HandshakeRecvFixedIsReceive | handshake.go:112-173 | With the host part parsed, handshakeRecv equals receive of handshake/receive.go in every outcome. |
| HandshakeMain.HandshakeSendSpec | handshake.go:69-91 | Success iff the box key loads, the peer is reached and the write goes through. The wire is then exactly the 32-byte box key. |
| HandshakeMain.SendThenRecvStops | handshake.go:85-87 | handshakeRecv on what handshakeSend delivers fails with EOF at the sig key, before any prompt, with the store unchanged. |
| Interfaces.FirstSuitable | main.go:141-146 | The index of the first interface that is up, running and not loopback, with none before it. |
| Interfaces.SelectIfs | main.go:140-149 | The result has FlagUp and FlagRunning set and FlagLoopback clear. It is the first such interface in slice order. It is nil iff none qualifies. |

## Left out

- Cryptography is not modelled: saltpack/NaCl `Box`, `Unbox`, `Precompute`, `Sign`, `Verify`,
  `GetPublicKey`, `CreateEphemeralKey`, key generation itself, the SHA-256 fingerprint and
  `key/symmetric.go`. Generated key bytes, and whether generating fails, are parameters.
- `Handshake` in handshake/handshake.go and `handshake` in handshake.go are left out: they run
  the two sides in goroutines that race under a context. Sending and receiving are modelled
  one at a time.
- Listening, accepting and dialing are not modelled. The accepted connection, or the accept
  error, is a parameter. The dial is the `Peer` value, which says whether the address reaches
  the peer.
- `dialWithTimeout` is not modelled: its retry loop, clock and sleep are left out. A
  text that cannot reach the peer is a dial failure.
- Connections deliver their bytes whole: partial writes and read errors other than the end of
  the stream are not modelled.
- Logging (`util.Logf`), the process exit and the re-prompt message are not modelled.
- The `net/net.go` helpers are left out, as are `main`, `listen`, `send`, `parseHost`, `ip`
  and `addr` in main.go. This covers DNS lookup and enumerating the interfaces, whose list is
  a parameter of `SelectIfs`.
- Addresses are IPv4 only. IPv6 text, zones and the bracketed remote-address form do not
  occur. `netip.Addr.Compare` on IPv4 is the byte order of the four octets.
- The lookup of port numbers by service name is not modelled: a port text must be decimal
  digits.
- `scan` is modelled with one scanner across the re-prompts of one call. A line longer than
  `bufio.Scanner`'s 64 KiB limit is not modelled.
- HandshakeReceive.VerifyKeysAnswers, HandshakeReceive.VerifyKeysSpec, HandshakeReceive.ReceiveSpec
  and HandshakeMain.Recv assume that standard input hands over one line per read, as a
  terminal does. They pass the lines one `scan` call leaves unread on to the next call. In
  the source every call builds a new `bufio.Scanner` (handshake/receive.go:124,
  handshake.go:198). When standard input is a pipe or a file, the first scanner can buffer
  lines past its answer, and those lines are lost. With the input "yes\nyes\n" the second
  prompt can then read the end of input and reject the key, where the model accepts both.
  That loss is not modelled, because how much one read returns is not determined by the
  source.
- `TrimSpace` in `Terminal` works on characters, and `bytes.Fields` in `Text` on ASCII
  bytes. Multi-byte UTF-8 spaces in the known-hosts file are not modelled.
- Hosts.LoadSpec: on an error the source also returns the hosts read so far. The model
  returns only the error, and every caller discards the partial list.
- Hosts.Store: the caller's slice is sorted in place in the source. The model returns a new
  sorted list, so the caller-visible reordering of that slice is not modelled.
- Hosts.StoreSpec: write faults are per path, so every write to the file fails or every
  write succeeds. In the source one `fmt.Fprintf` can fail after earlier lines were written
  (hosts/hosts.go:121-123), and Store still returns nil. A partly written known-hosts file
  is not modelled.
- The process umask and real permission checks are not modelled. Modes are recorded as given,
  and `os.Create` gives 0666. Directory modes are not tracked. Open file handles and `Close`
  are not modelled, because the model writes by path.
- `generateSigKeypairIfNotExist`, which key/sig.go calls, is not part of this model's
  source. SigGen.GenerateSigKeypairIfNotExistSpec assumes it makes the same four-way
  decision as `generateBoxKeypairIfNotExist`.
- `key/load.go`'s `loadKey` is modelled only as its effect: read the whole file, then
  decode.
- The replace-by-address behaviour for a known host is not modelled, because the code does
  not do it: Add and Load compare the whole triple, so a new key for a known address is
  added as a second entry (Hosts.AddToSpec, Hosts.LoadKeepsSameAddress).
- handshake.go dials a port constant that is not part of this model's source. Its dial is
  the `reached` parameter of HandshakeMain.HandshakeSendSpec.

## Findings

| source | as written | input that shows it | evidently intended | confidence | as-written member | corrected member |
|---|---|---|---|---|---|---|
| handshake/send.go:34 | `fmt.Sprintf("%d", port)` formats the string constant `port = "60322"` (handshake/handshake.go:12). Go writes `%!d(string=60322)`, so the dialed address is `host:%!d(string=60322)`. | Any rhost and any peer: the port text is not a number, so every dial fails and no key is sent. | Dial `host:60322`. | high (not executed) | HandshakeSend.SendKeysNeverConnects | HandshakeSend.SendKeysFixedDelivers |
| handshake.go:168 | `netip.ParseAddr(conn.RemoteAddr().String())` parses the whole "a.b.c.d:port" text. | Any accepted connection from 10.0.0.1:5000 whose keys the operator accepts: the parse fails on "10.0.0.1:5000" and `hosts.Add` is never reached. | Parse the host part from `net.SplitHostPort`, as handshake/receive.go:43-47 does. | high (not executed) | HandshakeMain.HandshakeRecvNeverStores | HandshakeMain.HandshakeRecvFixedIsReceive |
| handshake.go:85-87 with 138-142 | handshakeSend writes only the 32-byte box key. handshakeRecv of the same revision reads a box key and then a sig key. | A successful handshakeSend: the receiver's second `io.ReadFull` sees the end of the stream and returns EOF before any prompt. | Send box key then sig key, as handshake/send.go:43-48 does. | medium (not executed) | HandshakeMain.SendThenRecvStops | HandshakeSend.SendThenReceive |
| key/keyring.go:46-48 | LookupBoxSecretKey returns `i`, the index in `ring.boxKeys`. saltpack's Keyring interface asks for the index in `kids` of the identifier found. | A ring holding one keypair with public key k, asked about [zero key, k]: it returns 0, where the identifier's index is 1. | Return `n`, the index into `kids`. | medium (not executed) | Keyring.LookupBoxSecretKeyWrongIndex | Keyring.Keyring.LookupBoxSecretKeyByKid |

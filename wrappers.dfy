/** Optional values, results and the error values the modelled Go code returns. */
module Wrappers {
  import opened Bytes

  datatype Option<+T> = None | Some(value: T)

  /** A result that carries either a value or an error. */
  datatype Result<+T> = Ok(value: T) | Err(error: Error)

  /** Go's `(T, error)` pair, for functions whose value is meaningful beside an error
      (the key decoders return the all-zero key together with the error). */
  datatype Ret<+T> = Ret(value: T, err: Option<Error>)

  /** The errors of the modelled code, one constructor per kind the source creates. */
  datatype Error =
    // key decoding
    | MalformedKey(what: string, expected: nat, got: nat)  // "malformed <what>: expected %d bytes; got %d"
    | InvalidByte(b: byte)                                    // hex.InvalidByteError
    | OddLength                                              // hex.ErrLength
    // known-hosts file
    | FieldCount(got: nat)                                   // "expected 3 fields; got %d"
    | BadAddr(text: seq<byte>)                                // netip.ParseAddr failure
    | BadLine(line: nat, cause: Error)                       // "error parsing known hosts file: %s:%d: %v"
    | DuplicateEntry(host: seq<byte>)                         // "duplicate entry in known hosts file: %s"
    | NoSuchHost(addr: seq<byte>)                             // "no such host: %s"
    // file system
    | NotExist(path: string)                                 // os.ErrNotExist
    | IoFailure(op: string, path: string)                    // any other failing system call
    | AlreadyExists(path: string)                            // errFileExists: "file already exists: <path>"
    | PubWithoutPriv                                         // "found public key file but not private key file"
    | PrivWithoutPub                                         // "found private key file but not public key file"
    | RandFailure                                            // box.GenerateKey / sign.GenerateKey failure
    // handshake
    | HostKeyRejected                                        // errVerifyKey / errHostKey
    | StdinFailure                                           // scanner.Err() != nil
    | Eof                                                    // io.EOF from io.ReadFull
    | UnexpectedEof                                          // io.ErrUnexpectedEOF from io.ReadFull
    | AcceptFailure                                          // net.Listen / Accept failure
    | DialFailure                                            // dialWithTimeout failure
    | WriteFailure                                           // conn.Write failure
    | AddrError(why: string, text: seq<byte>)                 // net.AddrError from net.SplitHostPort
}

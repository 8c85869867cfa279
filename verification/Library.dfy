/** The library functions the archive code calls, as parameters with the laws the proofs rest on. */
module Library {
  import opened Bytes
  import opened Chaining

  datatype Option<+T> = None | Some(value: T)

  /** Why an archive or an entry is refused. */
  datatype Error =
    | BadSignature | UnsupportedVersion | TooManyEntries | CorruptTable | CorruptKeyBlock | CorruptEntry
    | PaddingSizeMismatch | InvalidPadding | UnexpectedEnd

  datatype Result<+T> = Ok(value: T) | Err(error: Error)

  type u32 = n: nat | n < 0x1_0000_0000 witness 0

  /** What one `decompress` call reports: whether the stream ended, the output, and how much input it took. */
  datatype Inflated = Failed | Inflated(ended: bool, output: seq<byte>, consumed: nat)

  datatype Library = Library(
    aesEncrypt: Block16 -> Block16 -> Block16,
    aesDecrypt: Block16 -> Block16 -> Block16,
    xxh128: seq<byte> -> Block16,
    xxh128Seeded: (seq<byte>, nat) -> Block16,
    xxh32: seq<byte> -> u32,
    sha256: seq<byte> -> (Block16, Block16),
    deflate: seq<byte> -> seq<byte>,
    inflate: (seq<byte>, nat) -> Inflated,
    lz4Compress: seq<byte> -> seq<byte>,
    lz4Decompress: (seq<byte>, nat) -> Option<seq<byte>>
  ) {
    /** AES encryption and decryption under one key are mutually inverse. */
    ghost predicate AesLaw() {
      forall key :: Undoes(aesEncrypt(key), aesDecrypt(key)) && Undoes(aesDecrypt(key), aesEncrypt(key))
    }

    /** A deflated stream is not empty, and inflates to its source in any larger buffer, whatever follows it. */
    ghost predicate ZlibLaw() {
      && (forall data :: |deflate(data)| > 0)
      && (forall data, padding, capacity | capacity > |data| ::
            inflate(deflate(data) + padding, capacity) == Inflated(true, data, |deflate(data)|))
    }

    ghost predicate Lz4Law() {
      forall data :: lz4Decompress(lz4Compress(data), |data|) == Some(data)
    }
  }
}

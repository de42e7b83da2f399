/** Results and the error values of the archive format. */
module Format {

  const USIZE_MAX := 0xffff_ffff_ffff_ffff
  const U64_MAX := 0xffff_ffff_ffff_ffff
  const U32_MAX := 0xffff_ffff

  type byte = x: int | 0 <= x < 256

  datatype FormatError =
    | FecZeroDataShards
    | FecTooManyShards(total: nat)
    | FecOddShardSize
    | FecInconsistentShardSize
    | FecTooFewAvailableShards
    | FecSingularMatrix
    | ReaderResourceLimitExceeded(field: string, cap: nat, actual: nat)
    | InvalidMetadata(structure: string, reason: string)
    | InvalidArchive(reason: string)
    | WriterInvariant(reason: string)
    | WriterUnsupported(reason: string)
    | ReaderUnsupported(reason: string)
    | EmptyPaddedPlaintext
    | InvalidSuffixPadding
    | NonZeroPaddingBytes
    | PaddingOverflow
    | DomainTooLong
    | AeadFailure
    | InvalidNonceLength(expected: nat, found: nat)

  datatype Option<+T> = None | Some(value: T)

  datatype Result<+T> = Ok(value: T) | Err(error: FormatError)

  function Invalid<T>(structure: string, reason: string): Result<T> {
    Err(InvalidMetadata(structure, reason))
  }

  // More results in front of the ones to come, if those succeed.
  function Prepend<T>(head: seq<T>, rest: Result<seq<T>>): Result<seq<T>> {
    if rest.Err? then rest else Ok(head + rest.value)
  }

  lemma PrependNone<T>(rest: Result<seq<T>>)
    ensures Prepend([], rest) == rest
  {
    if rest.Ok? {
      assert [] + rest.value == rest.value;
    }
  }

  lemma PrependTwice<T>(a: seq<T>, b: seq<T>, rest: Result<seq<T>>)
    ensures Prepend(a, Prepend(b, rest)) == Prepend(a + b, rest)
  {
    if rest.Ok? {
      assert a + (b + rest.value) == a + b + rest.value;
    }
  }
}

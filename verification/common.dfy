/** Values shared by every part of the model: optional values, results that
    carry an error, byte strings, and the hex-token shapes of SHA-256 digests
    and version-4 UUIDs. */
module Common {

  /** A value that may be absent: SQL NULL, or a Python argument left as None. */
  datatype Option<+T> = None | Some(value: T) {
    function GetOr(default: T): T {
      match this
      case Some(v) => v
      case None => default
    }
  }

  /** The outcome of an operation that can raise. */
  datatype Result<+T, +E> = Ok(value: T) | Err(error: E)

  type Byte = bv8
  type Bytes = seq<Byte>

  predicate IsLowerHexDigit(c: char) {
    '0' <= c <= '9' || 'a' <= c <= 'f'
  }

  predicate IsLowerHex(s: string) {
    s == [] || (IsLowerHexDigit(s[0]) && IsLowerHex(s[1..]))
  }

  lemma {:induction false} LowerHexAt(s: string, i: nat)
    requires IsLowerHex(s) && i < |s|
    ensures IsLowerHexDigit(s[i])
  {
    if i > 0 {
      LowerHexAt(s[1..], i - 1);
    }
  }

  /** The shape of `uuid.uuid4().hex`: 32 lower-case hex digits, with the
      version nibble 4 and the variant bits 10xx (section 4.4 of RFC 4122). */
  predicate IsUuid4Hex(s: string) {
    |s| == 32 && IsLowerHex(s) && s[12] == '4' && s[16] in "89ab"
  }

  /** A SHA-256 `hexdigest()`: 64 lower-case hex digits (FIPS 180-4 digests
      are 256 bits). */
  type Digest = s: string | |s| == 64 && forall c :: c in s ==> IsLowerHexDigit(c)
    witness seq(64, _ => '0')
}

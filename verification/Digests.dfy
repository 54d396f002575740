/** Content digests: SHA-256 only, written `sha256:` and 64 lower-case hexadecimal digits. */
module Digests {
  import opened Common
  import opened Text

  datatype RawDigest = Digest(algorithm: string, encoded: string)

  const SHA256 := "sha256"

  predicate IsHex(c: char) {
    '0' <= c <= '9' || 'a' <= c <= 'f'
  }

  predicate ValidEncoding(encoded: string) {
    |encoded| == 64 && forall i :: 0 <= i < |encoded| ==> IsHex(encoded[i])
  }

  predicate Valid(d: RawDigest) {
    d.algorithm == SHA256 && ValidEncoding(d.encoded)
  }

  type Digest = d: RawDigest | Valid(d) witness Digest(SHA256, seq(64, _ => '0'))

  datatype DigestError = MissingSeparator | UnsupportedAlgorithm(name: string) | InvalidSha256

  function Parse(value: string): Result<Digest, DigestError> {
    match SplitOnce(value, ':')
    case None => Err(MissingSeparator)
    case Some((algorithm, encoded)) =>
      if algorithm != SHA256 then Err(UnsupportedAlgorithm(algorithm))
      else if !ValidEncoding(encoded) then Err(InvalidSha256)
      else Ok(RawDigest.Digest(algorithm, encoded))
  }

  function Print(d: Digest): string {
    d.algorithm + ":" + d.encoded
  }

  /** Parsing and printing are inverse, so the text of a digest can stand for it in any table. */
  lemma ParseIffPrint(value: string, d: Digest)
    ensures Parse(value) == Ok(d) <==> value == Print(d)
  {
    assert ':' !in SHA256;
    SplitOnceIs(d.algorithm, ':', d.encoded);
    assert [':'] == ":";
  }

  /** A digest's text holds one colon and nothing a path or a reference is split on. */
  lemma PrintAlphabet(d: Digest)
    ensures '/' !in Print(d) && '@' !in Print(d) && ':' in Print(d)
  {
    assert Print(d)[|SHA256|] == ':';
    forall i | 0 <= i < |Print(d)|
      ensures Print(d)[i] != '/' && Print(d)[i] != '@'
    {
      if i > |SHA256| {
        assert IsHex(d.encoded[i - |SHA256| - 1]);
      }
    }
  }
}

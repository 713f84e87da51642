/**
 * The hash stage: a candidate is narrowed to one byte per character (the
 * character's code point truncated to its low 8 bits, Rust's `c as u8`) and
 * the bytes are fed to an MD5 hasher. MD5 itself is a parameter: any function
 * from bytes to a 16-byte digest.
 */
module Hashing {

  newtype byte = x: int | 0 <= x < 256

  type Digest = d: seq<byte> | |d| == 16 witness seq(16, _ => 0 as byte)

  /** A hash record as written to storage: the digest and the plaintext it came from. */
  type HashRecord = (Digest, string)

  /** `c as u8`. */
  function Narrow(c: char): byte
  {
    (c as int % 256) as byte
  }

  /** `string.chars().map(|c| c as u8).collect_vec()`. */
  function HashInput(s: string): (r: seq<byte>)
    ensures |r| == |s|
    ensures forall i :: 0 <= i < |s| ==> r[i] as int == s[i] as int % 256
  {
    if s == [] then [] else [Narrow(s[0])] + HashInput(s[1..])
  }

  /** Characters whose code points fit in one byte. */
  predicate SingleByte(s: string)
  {
    forall i :: 0 <= i < |s| ==> (s[i] as int) < 256
  }

  /** Reading each byte back as the character with that code point. */
  function Widen(bytes: seq<byte>): (s: string)
    ensures |s| == |bytes|
    ensures forall i :: 0 <= i < |bytes| ==> s[i] as int == bytes[i] as int
  {
    seq(|bytes|, i requires 0 <= i < |bytes| => (bytes[i] as int) as char)
  }

  /** On single-byte characters the narrowing loses nothing: the digest input determines the string. */
  lemma NarrowingLossless(s: string)
    requires SingleByte(s)
    ensures Widen(HashInput(s)) == s
  {
    var w := Widen(HashInput(s));
    assert forall i :: 0 <= i < |s| ==> w[i] == s[i];
  }

  /** Beyond one byte it does lose information: U+0161 is hashed as if it were 'a'. */
  lemma NarrowingCollides()
    ensures "\U{0161}" != "a" && HashInput("\U{0161}") == HashInput("a")
  {
    assert HashInput("\U{0161}")[0] as int == 0x161 % 256 == 'a' as int;
  }

  /** The MD5 hasher: it remembers every byte fed to it so far. */
  class Hasher {
    var fed: seq<byte>

    /** `Md5::new()`. */
    constructor ()
      ensures fed == []
    {
      fed := [];
    }

    /** `hasher.update(data)`. */
    method Update(data: seq<byte>)
      modifies this
      ensures fed == old(fed) + data
    {
      fed := fed + data;
    }

    /** `hasher.finalize()`: the digest of everything fed. */
    function Finalize(md5: seq<byte> -> Digest): Digest
      reads this
    {
      md5(fed)
    }
  }

  /** The digest of a plaintext: MD5 of its narrowed bytes. */
  function HashOf(md5: seq<byte> -> Digest, s: string): Digest
  {
    md5(HashInput(s))
  }

  /** `hash_string`: a fresh hasher fed the narrowed characters once, then finalized. */
  method HashString(md5: seq<byte> -> Digest, s: string) returns (d: Digest)
    ensures d == md5(HashInput(s))
  {
    var hasher := new Hasher();
    hasher.Update(HashInput(s));
    assert hasher.fed == HashInput(s);
    d := hasher.Finalize(md5);
  }
}

/**
 The byte rule by which the updater reads the host firmware version out of
 the VERSION partition image: an image signed for secure boot starts with
 the container magic 17 08 20 11 and carries a 4096-byte container header
 before the version text; the text runs up to the first NUL byte or the end
 of the image (skiboot's libstb/container.h defines the magic).
 */
module VersionBlob {

  /** The secure-boot container magic, big-endian 0x17082011. */
  const Magic: seq<bv8> := [0x17, 0x08, 0x20, 0x11]
  const MagicSize: nat := 4
  /** Size of the container header that a signed image starts with. */
  const HeaderSize: nat := 4096

  /** The image starts with the container magic. */
  predicate Signed(blob: seq<bv8>)
  {
    |blob| >= MagicSize && blob[..MagicSize] == Magic
  }

  /** The bytes from the start of `s` up to the first NUL, or all of `s`
      when it holds none: what `getline(f, version, '\0')` extracts. */
  function UntilNul(s: seq<bv8>): (r: seq<bv8>)
    ensures r <= s
    ensures 0 !in r
    ensures |r| == |s| || s[|r|] == 0
  {
    if s == [] || s[0] == 0 then [] else [s[0]] + UntilNul(s[1..])
  }

  /** `text` is the NUL-terminated string stored at offset `start` of `blob`:
      it lies there, holds no NUL, and is followed by a NUL or the end. */
  ghost predicate CStringAt(blob: seq<bv8>, start: nat, text: seq<bv8>)
  {
    && start + |text| <= |blob|
    && blob[start..start + |text|] == text
    && 0 !in text
    && (start + |text| == |blob| || blob[start + |text|] == 0)
  }

  /** A NUL-terminated string at a given offset is unique. */
  lemma CStringAtUnique(blob: seq<bv8>, start: nat, t1: seq<bv8>, t2: seq<bv8>)
    requires CStringAt(blob, start, t1) && CStringAt(blob, start, t2)
    ensures t1 == t2
  {
    var n := if |t1| < |t2| then |t1| else |t2|;
    assert t1[..n] == blob[start..start + n] == t2[..n];
  }

  /** Where the version text of an image starts. */
  function TextOffset(blob: seq<bv8>): nat
  {
    if Signed(blob) then HeaderSize else 0
  }

  /** The version bytes of a VERSION partition image, following the stream
      operations of the updater: read four bytes and rewind, skip the
      4096-byte header when they are the magic, then read up to a NUL. An
      image shorter than four bytes fails the first read, which leaves the
      stream failed, so nothing is read; a signed image no longer than its
      header leaves nothing after the skip. */
  function DecodeVersion(blob: seq<bv8>): (r: seq<bv8>)
    ensures |blob| < MagicSize ==> r == []
    ensures Signed(blob) && |blob| <= HeaderSize ==> r == []
    ensures |blob| >= MagicSize && !(Signed(blob) && |blob| <= HeaderSize) ==>
      CStringAt(blob, TextOffset(blob), r)
  {
    if |blob| < MagicSize then []
    else if Signed(blob) then
      if |blob| <= HeaderSize then [] else UntilNul(blob[HeaderSize..])
    else UntilNul(blob)
  }

  /** A signed image: magic, the rest of the container header, the version
      text with its NUL, then whatever follows. */
  function EncodeSigned(header: seq<bv8>, text: seq<bv8>, tail: seq<bv8>): (blob: seq<bv8>)
    requires |header| == HeaderSize - MagicSize
  {
    Magic + header + text + [0] + tail
  }

  /** An unsigned image: the version text with its NUL, then whatever
      follows. */
  function EncodeUnsigned(text: seq<bv8>, tail: seq<bv8>): seq<bv8>
  {
    text + [0] + tail
  }

  /** Reading a signed image gives back its version text, however the
      header and the bytes after the NUL are filled. */
  lemma SignedRoundTrip(header: seq<bv8>, text: seq<bv8>, tail: seq<bv8>)
    requires |header| == HeaderSize - MagicSize
    requires 0 !in text
    ensures DecodeVersion(EncodeSigned(header, text, tail)) == text
  {
    var blob := EncodeSigned(header, text, tail);
    assert blob[..MagicSize] == Magic;
    assert |blob| > HeaderSize;
    var body := text + [0] + tail;
    assert blob[HeaderSize..] == body;
    UntilNulOfTerminated(text, tail);
  }

  /** Reading an unsigned image gives back its version text, provided the
      text is not so short that the image fails the four-byte read and does
      not itself start with the magic. */
  lemma UnsignedRoundTrip(text: seq<bv8>, tail: seq<bv8>)
    requires 0 !in text
    requires |text| + 1 + |tail| >= MagicSize
    requires !(|text| >= MagicSize && text[..MagicSize] == Magic)
    ensures DecodeVersion(EncodeUnsigned(text, tail)) == text
  {
    var blob := EncodeUnsigned(text, tail);
    if |text| >= MagicSize {
      assert blob[..MagicSize] == text[..MagicSize];
    } else {
      assert blob[|text|] == 0 != Magic[|text|];
    }
    assert !Signed(blob);
    UntilNulOfTerminated(text, tail);
  }

  /** The text before a NUL is what `UntilNul` reads. */
  lemma {:induction false} UntilNulOfTerminated(text: seq<bv8>, tail: seq<bv8>)
    requires 0 !in text
    ensures UntilNul(text + [0] + tail) == text
  {
    if text != [] {
      assert (text + [0] + tail)[1..] == text[1..] + [0] + tail;
      UntilNulOfTerminated(text[1..], tail);
    }
  }

  /** The version of an image shorter than four bytes is empty even when it
      holds text: the failed four-byte read is never cleared. */
  lemma ShortImageReadsNothing()
    ensures DecodeVersion([0x41, 0x42]) == []
    ensures UntilNul([0x41, 0x42]) == [0x41, 0x42]
  {
  }
}

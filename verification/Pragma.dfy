/**
 * `DecodePragmaVersion` reads the compiler version from the metadata trailer that solc appends to the
 * bytecode: the opcode `fe`, the metadata, and the metadata's length in two bytes, all in hexadecimal.
 */
module Pragma {
  import opened Common

  datatype Version = Version(major: nat, minor: nat, patch: nat)

  datatype DecodeError = BadLength | MetadataNotFound | NotCompiledWithSolc | BadVersion

  // Slicing outside the string stops a Go program; that outcome is modelled, not excluded.
  datatype Outcome = Decoded(version: Version) | Rejected(error: DecodeError) | Panics

  const MARKER := "fe"
  const SOLC := "736f6c63"

  function Digit(c: char): nat
    requires IsHexDigit(c)
  {
    if IsDigit(c) then c as nat - '0' as nat
    else if 'a' <= c <= 'f' then c as nat - 'a' as nat + 10
    else c as nat - 'A' as nat + 10
  }

  predicate IsHex(s: string) { forall i :: 0 <= i < |s| ==> IsHexDigit(s[i]) }

  function HexValue(s: string): nat
    requires IsHex(s)
  {
    if s == "" then 0 else 16 * HexValue(s[..|s| - 1]) + Digit(s[|s| - 1])
  }

  /** Digits and letters of either case have the values 0 to 15 in their usual order. */
  lemma DigitsAreNumbered(k: nat)
    requires k < 16
    ensures IsHexDigit("0123456789abcdef"[k]) && Digit("0123456789abcdef"[k]) == k
    ensures IsHexDigit("0123456789ABCDEF"[k]) && Digit("0123456789ABCDEF"[k]) == k
  {
  }

  /** A digit more makes the value sixteen times as large, plus the digit. */
  lemma ValueIsPositional(s: string, c: char)
    requires IsHex(s) && IsHexDigit(c)
    ensures HexValue([]) == 0 && HexValue(s + [c]) == 16 * HexValue(s) + Digit(c)
  {
    assert (s + [c])[..|s|] == s;
  }

  function DecodePragmaVersion(bytecode: string): Outcome {
    var end := |bytecode| - 4;
    if end < 0 then Panics else
    var lengthHex := bytecode[end..];
    if !IsHex(lengthHex) then Rejected(BadLength) else
    var length := 2 * HexValue(lengthHex);
    if length > |bytecode| then Rejected(MetadataNotFound) else
    var start := end - length;
    if start < 2 then Panics else
    var metadata := bytecode[start..end];
    if bytecode[start - 2..start] != MARKER then Rejected(MetadataNotFound)
    else if !Contains(metadata, SOLC) then Rejected(NotCompiledWithSolc)
    else if end < 6 then Panics else
    var pragma := bytecode[end - 6..end];
    if !IsHex(pragma) then Rejected(BadVersion)
    else Decoded(Version(HexValue(pragma[..2]), HexValue(pragma[2..4]), HexValue(pragma[4..])))
  }

  /* ---------- The trailer ---------- */

  /** The bytecode ends in well-formed metadata for this version. */
  ghost predicate HasTrailer(bytecode: string, prefix: string, metadata: string, lengthHex: string, v: Version) {
    && bytecode == prefix + MARKER + metadata + lengthHex
    && |lengthHex| == 4 && IsHex(lengthHex) && 2 * HexValue(lengthHex) == |metadata|
    && Contains(metadata, SOLC)
    && |metadata| >= 6
    && var pragma := metadata[|metadata| - 6..];
       && IsHex(pragma)
       && v == Version(HexValue(pragma[..2]), HexValue(pragma[2..4]), HexValue(pragma[4..]))
  }

  lemma ContainsFits(s: string, sub: string)
    requires Contains(s, sub)
    ensures |sub| <= |s|
  {
    var i: nat :| i <= |s| && OccursAt(s, sub, i);
  }

  lemma Pieces(prefix: string, marker: string, metadata: string, lengthHex: string)
    requires |marker| == 2 && |lengthHex| == 4
    ensures var b := prefix + marker + metadata + lengthHex;
            var end, start := |b| - 4, |b| - 4 - |metadata|;
            && b[end..] == lengthHex && b[start..end] == metadata && b[start - 2..start] == marker
            && (|metadata| >= 6 ==> b[end - 6..end] == metadata[|metadata| - 6..])
  {
    var b := prefix + marker + metadata + lengthHex;
    var end, start := |b| - 4, |b| - 4 - |metadata|;
    assert b == prefix + (marker + (metadata + lengthHex));
    assert b[start..] == metadata + lengthHex;
    assert b[start - 2..] == marker + (metadata + lengthHex);
    assert b[start..end] == b[start..][..|metadata|];
    assert b[start - 2..start] == b[start - 2..][..2];
    if |metadata| >= 6 {
      assert b[end - 6..end] == b[start..end][|metadata| - 6..];
    }
  }

  /** Well-formed metadata is always read back. */
  lemma TrailerIsRead(bytecode: string, prefix: string, metadata: string, lengthHex: string, v: Version)
    requires HasTrailer(bytecode, prefix, metadata, lengthHex, v)
    ensures DecodePragmaVersion(bytecode) == Decoded(v)
  {
    Pieces(prefix, MARKER, metadata, lengthHex);
    ContainsFits(metadata, SOLC);
  }

  /** Nothing else is ever read: success means the trailer is there and the version lies inside it. */
  lemma ReadMeansTrailer(bytecode: string, v: Version) returns (prefix: string, metadata: string, lengthHex: string)
    requires DecodePragmaVersion(bytecode) == Decoded(v)
    ensures HasTrailer(bytecode, prefix, metadata, lengthHex, v)
  {
    var end := |bytecode| - 4;
    lengthHex := bytecode[end..];
    var start := end - 2 * HexValue(lengthHex);
    metadata, prefix := bytecode[start..end], bytecode[..start - 2];
    ContainsFits(metadata, SOLC);
    assert bytecode[start - 2..start] == MARKER;
    assert bytecode == prefix + bytecode[start - 2..start] + metadata + lengthHex;
    assert bytecode[end - 6..end] == metadata[|metadata| - 6..];
  }

  /** Decoding succeeds with a version if and only if the bytecode ends in metadata for it. */
  lemma DecodesExactlyTrailers(bytecode: string, v: Version)
    ensures DecodePragmaVersion(bytecode) == Decoded(v)
            <==> exists prefix, metadata, lengthHex :: HasTrailer(bytecode, prefix, metadata, lengthHex, v)
  {
    if DecodePragmaVersion(bytecode) == Decoded(v) {
      var prefix, metadata, lengthHex := ReadMeansTrailer(bytecode, v);
    }
    forall prefix, metadata, lengthHex | HasTrailer(bytecode, prefix, metadata, lengthHex, v)
      ensures DecodePragmaVersion(bytecode) == Decoded(v)
    {
      TrailerIsRead(bytecode, prefix, metadata, lengthHex, v);
    }
  }

  /** Which rejection an input ends with: the length first, then the marker, then the compiler, then the digits. */
  lemma RejectsExactly(bytecode: string, before: string, marker: string, metadata: string, lengthHex: string)
    requires bytecode == before + marker + metadata + lengthHex && |marker| == 2 && |lengthHex| == 4
    requires IsHex(lengthHex) ==> 2 * HexValue(lengthHex) == |metadata|
    ensures var r := DecodePragmaVersion(bytecode);
            && (r == Rejected(BadLength) <==> !IsHex(lengthHex))
            && (r == Rejected(MetadataNotFound) <==> IsHex(lengthHex) && marker != "fe")
            && (r == Rejected(NotCompiledWithSolc) <==>
                 IsHex(lengthHex) && marker == "fe" && !Contains(metadata, "736f6c63"))
            && (r == Rejected(BadVersion) <==>
                 IsHex(lengthHex) && marker == "fe" && Contains(metadata, "736f6c63") && !IsHex(metadata[|metadata| - 6..]))
  {
    Pieces(before, marker, metadata, lengthHex);
    if Contains(metadata, SOLC) {
      ContainsFits(metadata, SOLC);
    }
  }

  /** A length that points before the beginning is reported as missing metadata. */
  lemma RejectsLongLength(bytecode: string)
    requires |bytecode| >= 4 && IsHex(bytecode[|bytecode| - 4..]) && 2 * HexValue(bytecode[|bytecode| - 4..]) > |bytecode|
    ensures DecodePragmaVersion(bytecode) == Rejected(MetadataNotFound)
  {
  }

  /** The exact inputs on which slicing leaves the string: too short, or a length that almost fits. */
  lemma PanicsExactly(bytecode: string)
    ensures DecodePragmaVersion(bytecode).Panics? <==>
            |bytecode| < 4 ||
            (IsHex(bytecode[|bytecode| - 4..]) &&
             |bytecode| - 6 < 2 * HexValue(bytecode[|bytecode| - 4..]) <= |bytecode|)
  {
    var end := |bytecode| - 4;
    if end >= 0 && IsHex(bytecode[end..]) {
      var start := end - 2 * HexValue(bytecode[end..]);
      if 2 <= start && Contains(bytecode[start..end], SOLC) {
        ContainsFits(bytecode[start..end], SOLC);
      }
    }
  }

  /* ---------- What the compiler writes ---------- */

  function HexDigit(n: nat): (c: char)
    requires n < 16
    ensures IsLowerHexDigit(c) && IsHexDigit(c) && Digit(c) == n
  {
    if n < 10 then (n + '0' as nat) as char else (n - 10 + 'a' as nat) as char
  }

  /** n in hexadecimal, padded to the given width. */
  function Hex(n: nat, width: nat): (s: string)
    ensures |s| == width && IsHex(s)
  {
    if width == 0 then "" else Hex(n / 16, width - 1) + [HexDigit(n % 16)]
  }

  function Pow16(k: nat): nat { if k == 0 then 1 else 16 * Pow16(k - 1) }

  lemma {:induction false} HexRoundTrip(n: nat, width: nat)
    requires n < Pow16(width)
    ensures HexValue(Hex(n, width)) == n
  {
    if width > 0 {
      HexRoundTrip(n / 16, width - 1);
      var s := Hex(n, width);
      assert s[..width - 1] == Hex(n / 16, width - 1);
    }
  }

  /** The trailer of the compiler: contents that mention solc, the version, the length. */
  function Encode(prefix: string, contents: string, v: Version): string
    requires v.major < 256 && v.minor < 256 && v.patch < 256
  {
    var metadata := contents + VersionHex(v);
    prefix + MARKER + metadata + Hex(|metadata| / 2, 4)
  }

  lemma ContainsExtends(s: string, more: string, sub: string)
    requires Contains(s, sub)
    ensures Contains(s + more, sub)
  {
    var i: nat :| i <= |s| && OccursAt(s, sub, i);
    assert OccursAt(s + more, sub, i) by {
      assert (s + more)[i..i + |sub|] == s[i..i + |sub|];
    }
  }

  function VersionHex(v: Version): (s: string)
    ensures |s| == 6 && IsHex(s)
  {
    Hex(v.major, 2) + Hex(v.minor, 2) + Hex(v.patch, 2)
  }

  lemma VersionRoundTrip(v: Version)
    requires v.major < 256 && v.minor < 256 && v.patch < 256
    ensures var s := VersionHex(v); v == Version(HexValue(s[..2]), HexValue(s[2..4]), HexValue(s[4..]))
  {
    assert Pow16(2) == 256;
    HexRoundTrip(v.major, 2);
    HexRoundTrip(v.minor, 2);
    HexRoundTrip(v.patch, 2);
    var s := VersionHex(v);
    assert s[..2] == Hex(v.major, 2) && s[2..4] == Hex(v.minor, 2) && s[4..] == Hex(v.patch, 2);
  }

  /** Round trip: whatever version the compiler wrote is the version that is read. */
  lemma DecodeUndoesEncode(prefix: string, contents: string, v: Version)
    requires v.major < 256 && v.minor < 256 && v.patch < 256
    requires Contains(contents, SOLC) && |contents| % 2 == 0 && |contents| / 2 + 3 < 65536
    ensures DecodePragmaVersion(Encode(prefix, contents, v)) == Decoded(v)
  {
    var metadata := contents + VersionHex(v);
    assert Pow16(4) == 16 * 16 * Pow16(2) == 65536;
    HexRoundTrip(|metadata| / 2, 4);
    VersionRoundTrip(v);
    ContainsExtends(contents, VersionHex(v), SOLC);
    assert metadata[|metadata| - 6..] == VersionHex(v);
    TrailerIsRead(Encode(prefix, contents, v), prefix, metadata, Hex(|metadata| / 2, 4), v);
  }
}

/**
 What the compiler-version extractor promises: how the `0x` is handled,
 which pattern decides, what the decoded fields look like, and when the
 result is "Unknown".
 */
module BytecodeFacts {
  import opened Wrappers
  import opened Text
  import opened Bytecode

  // ---------------------------------------------------------------------
  // The `0x` prefix
  // ---------------------------------------------------------------------

  /** Exactly one `0x` is removed, even when the rest starts with `0x` again. */
  lemma StripRemovesOnePrefix(b: string)
    ensures StripHexPrefix("0x" + b) == b
  {
    var t := "0x" + b;
    assert t[..2] == "0x";
    assert t[2..] == b;
  }

  /** Writing `0x` in front of text that does not start with `0x` changes nothing. */
  lemma PrefixIsOptional(b: string)
    requires !StartsWithHexPrefix(b)
    ensures GetCompilerVersion("0x" + b) == GetCompilerVersion(b)
  {
    StripRemovesOnePrefix(b);
  }

  // ---------------------------------------------------------------------
  // The bracket pattern is the bare pattern
  // ---------------------------------------------------------------------

  lemma MarkerStartsWithSix(s: string, i: nat)
    requires OccursAt(s, SolcMarker, i)
    ensures s[i] == '6'
  {
    assert s[i] == s[i..i + |SolcMarker|][0];
  }

  /** From any start, the bracket search finds the same group as the bare search. */
  lemma {:induction false} BracketSearchIsBare(s: string, from: nat)
    requires from <= |s|
    ensures BracketSearch(s, from) == GroupAfter(FindCapture(s, SolcMarker, from))
    decreases |s| - from
  {
    if OccursAt(s, BracketOpen, from) && CaptureAt(s, SolcMarker, from + |BracketOpen|) {
      assert s[from] == s[from..from + 2][0] == '5';
      assert s[from + 1] == s[from..from + 2][1] == 'b';
      if CaptureAt(s, SolcMarker, from) { MarkerStartsWithSix(s, from); }
      if CaptureAt(s, SolcMarker, from + 1) { MarkerStartsWithSix(s, from + 1); }
      assert FindCapture(s, SolcMarker, from + 2) == Some(from + 2);
      assert FindCapture(s, SolcMarker, from + 1) == Some(from + 2);
    } else if CaptureAt(s, SolcMarker, from) {
    } else if from == |s| {
    } else {
      BracketSearchIsBare(s, from + 1);
    }
  }

  /** `(?:5b)?64736f6c6343(\w{6})(?:5d)?` matches exactly when `64736f6c6343(\w{6})` does, with the same group. */
  lemma BracketMatchesIffBare(s: string)
    ensures MatchPattern(BracketedSolc, s) == MatchPattern(BareSolc, s)
  {
    BracketSearchIsBare(s, 0);
  }

  /** Since the bare pattern is tried first, dropping the bracket pattern never changes the outcome. */
  lemma ThirdPatternNeverDecides(s: string)
    ensures PatternGroup(s)
            == if MatchPattern(IpfsThenSolc, s).Some? then MatchPattern(IpfsThenSolc, s) else MatchPattern(BareSolc, s)
  {
    BracketMatchesIffBare(s);
  }

  // ---------------------------------------------------------------------
  // Which marker decides
  // ---------------------------------------------------------------------

  /** The version is decoded from the six characters after the marker whose group the patterns chose. */
  lemma GroupDecides(s: string, m: nat)
    requires PatternGroup(s) == Some(m + |SolcMarker|)
    ensures VersionFromHex(s) == ThreeFieldVersion(CapturedAfter(s, SolcMarker, m))
  {
  }

  /**
   When the IPFS prefix first occurs at `i` and `j` is the first full marker
   at or after its end, with no line terminator in between, the version is
   decoded from the bytes after `j`, whatever markers occur before `i`.
   */
  lemma IpfsPriority(s: string, i: nat, j: nat)
    requires OccursAt(s, IpfsPrefix, i)
    requires forall k :: 0 <= k < i ==> !OccursAt(s, IpfsPrefix, k)
    requires i + |IpfsPrefix| <= j && CaptureAt(s, SolcMarker, j)
    requires forall k :: i + |IpfsPrefix| <= k < j ==> !CaptureAt(s, SolcMarker, k)
    requires DotRun(s, i + |IpfsPrefix|, j)
    ensures VersionFromHex(s) == ThreeFieldVersion(CapturedAfter(s, SolcMarker, j))
  {
    LazyReaches(s, i + |IpfsPrefix|, j);
    IpfsSearchFindsFirstPrefix(s, i);
    IpfsGroup(s, i, j);
    GroupDecides(s, j);
  }

  /** The first pattern, starting at `i`, chooses the group after the full marker at `j`. */
  lemma IpfsGroup(s: string, i: nat, j: nat)
    requires IpfsSearch(s, 0) == Some(i) && LazyMarker(s, i + |IpfsPrefix|) == Some(j)
    ensures PatternGroup(s) == Some(j + |SolcMarker|)
  {
    IpfsPatternMatches(s, i, j);
    FirstPatternDecides(s);
  }

  lemma IpfsPatternMatches(s: string, i: nat, j: nat)
    requires IpfsSearch(s, 0) == Some(i) && LazyMarker(s, i + |IpfsPrefix|) == Some(j)
    ensures MatchPattern(IpfsThenSolc, s) == Some(j + |SolcMarker|)
  {
  }

  /** Whenever the first pattern matches, it decides. */
  lemma FirstPatternDecides(s: string)
    requires MatchPattern(IpfsThenSolc, s).Some?
    ensures PatternGroup(s) == MatchPattern(IpfsThenSolc, s)
  {
  }

  /** The lazy tail from `from` stops at the first reachable full marker. */
  lemma LazyReaches(s: string, from: nat, j: nat)
    requires from <= j && CaptureAt(s, SolcMarker, j) && DotRun(s, from, j)
    requires forall k :: from <= k < j ==> !CaptureAt(s, SolcMarker, k)
    ensures LazyMarker(s, from) == Some(j)
  {
  }

  /** When the lazy tail succeeds after the first IPFS prefix, the first pattern starts there. */
  lemma IpfsSearchFindsFirstPrefix(s: string, i: nat)
    requires IpfsAnchor(s, i)
    requires forall k :: 0 <= k < i ==> !OccursAt(s, IpfsPrefix, k)
    ensures IpfsSearch(s, 0) == Some(i)
  {
  }

  /** When the first pattern finds nothing, the leftmost full marker decides. */
  lemma BareDecides(s: string, m: nat)
    requires !IpfsMatches(s)
    requires FirstCapture(s, SolcMarker, m)
    ensures VersionFromHex(s) == ThreeFieldVersion(CapturedAfter(s, SolcMarker, m))
  {
    assert IpfsSearch(s, 0).None?;
    assert FindCapture(s, SolcMarker, 0) == Some(m);
    assert MatchPattern(IpfsThenSolc, s).None?;
    assert MatchPattern(BareSolc, s) == Some(m + |SolcMarker|);
    GroupDecides(s, m);
  }

  /**
   Whenever a full marker occurs, the loop chooses the group after some
   full marker `m`, and the version is decoded from the six characters there.
   */
  lemma FullMatchUsesAMarker(s: string)
    requires HasCapture(s, SolcMarker)
    ensures exists m: nat :: CaptureAt(s, SolcMarker, m) && PatternGroup(s) == Some(m + |SolcMarker|)
                        && VersionFromHex(s) == ThreeFieldVersion(CapturedAfter(s, SolcMarker, m))
  {
    var m0 :| CaptureAt(s, SolcMarker, m0);
    assert FindCapture(s, SolcMarker, 0).Some?;
    assert MatchPattern(BareSolc, s).Some?;
    var m := PatternGroup(s).value - |SolcMarker|;
    GroupDecides(s, m);
  }

  // ---------------------------------------------------------------------
  // The decoded fields
  // ---------------------------------------------------------------------

  predicate LowerHexText(t: string) {
    forall k :: 0 <= k < |t| ==> IsLowerHex(t[k])
  }

  /** Byte `i` of a lowercase-hex capture: the base-16 value of its pair `2i, 2i+1`. */
  function ByteValue(cap: string, i: nat): (v: nat)
    requires |cap| == CaptureLength && i < 3 && LowerHexText(cap)
    ensures v < 256
  {
    16 * HexDigitValue(cap[2 * i]) + HexDigitValue(cap[2 * i + 1])
  }

  /** Every three-field version has four dot-separated fields, whatever characters were captured. */
  lemma ThreeFieldShape(cap: string)
    requires |cap| == CaptureLength
    ensures SplitDots(ThreeFieldVersion(cap))
            == ["0", NumberText(CaptureField(cap, 0)), NumberText(CaptureField(cap, 1)), NumberText(CaptureField(cap, 2))]
  {
    var a, b, c := NumberText(CaptureField(cap, 0)), NumberText(CaptureField(cap, 1)), NumberText(CaptureField(cap, 2));
    assert ThreeFieldVersion(cap) == "0" + "." + a + "." + b + "." + c;
    SplitJoinFour("0", a, b, c);
  }

  /** Every two-field version has three dot-separated fields. */
  lemma TwoFieldShape(cap: string)
    requires |cap| == CaptureLength
    ensures SplitDots(TwoFieldVersion(cap))
            == ["0", NumberText(CaptureField(cap, 0)), NumberText(CaptureField(cap, 1))]
  {
    var a, b := NumberText(CaptureField(cap, 0)), NumberText(CaptureField(cap, 1));
    assert TwoFieldVersion(cap) == "0" + "." + a + "." + b;
    SplitJoinThree("0", a, b);
  }

  /** A lowercase-hex pair prints as the decimal text of its byte value. */
  lemma LowerHexFieldText(cap: string, i: nat)
    requires |cap| == CaptureLength && i < 3 && LowerHexText(cap)
    ensures NumberText(CaptureField(cap, i)) == Decimal(ByteValue(cap, i))
    ensures AllDigits(NumberText(CaptureField(cap, i)))
    ensures DigitsValue(NumberText(CaptureField(cap, i))) == ByteValue(cap, i)
  {
    assert IsLowerHex(cap[2 * i]) && IsLowerHex(cap[2 * i + 1]);
    DecimalRoundTrip(ByteValue(cap, i));
  }

  /** The four fields of a three-field version are "0" and the three bytes of a lowercase-hex capture, in decimal. */
  lemma ThreeFieldDecodes(cap: string)
    requires |cap| == CaptureLength && LowerHexText(cap)
    ensures SplitDots(ThreeFieldVersion(cap))
            == ["0", Decimal(ByteValue(cap, 0)), Decimal(ByteValue(cap, 1)), Decimal(ByteValue(cap, 2))]
  {
    ThreeFieldShape(cap);
    LowerHexFieldText(cap, 0);
    LowerHexFieldText(cap, 1);
    LowerHexFieldText(cap, 2);
  }

  /** The three fields of a two-field version are "0" and the first two bytes of a lowercase-hex capture, in decimal. */
  lemma TwoFieldDecodes(cap: string)
    requires |cap| == CaptureLength && LowerHexText(cap)
    ensures SplitDots(TwoFieldVersion(cap)) == ["0", Decimal(ByteValue(cap, 0)), Decimal(ByteValue(cap, 1))]
  {
    TwoFieldShape(cap);
    LowerHexFieldText(cap, 0);
    LowerHexFieldText(cap, 1);
  }

  /**
   When the loop chooses the group after the marker at `m` and those six
   characters are lowercase hex, the version has four dot-separated fields:
   "0", then the three captured bytes in decimal (each below 256, by
   `ByteValue`).
   */
  lemma FullMatchFields(s: string, m: nat)
    requires PatternGroup(s) == Some(m + |SolcMarker|)
    requires LowerHexText(CapturedAfter(s, SolcMarker, m))
    ensures SplitDots(VersionFromHex(s))
            == ["0", Decimal(ByteValue(CapturedAfter(s, SolcMarker, m), 0)),
                Decimal(ByteValue(CapturedAfter(s, SolcMarker, m), 1)),
                Decimal(ByteValue(CapturedAfter(s, SolcMarker, m), 2))]
  {
    var cap := CapturedAfter(s, SolcMarker, m);
    GroupDecides(s, m);
    ThreeFieldDecodes(cap);
  }

  /**
   With no full marker anywhere, the leftmost `64736f6c63(\w{6})` decides and
   the version has three dot-separated fields; for a lowercase-hex capture they
   are "0" and the first two captured bytes in decimal.
   */
  lemma TwoFieldFallback(s: string, m: nat)
    requires !HasCapture(s, SolcMarker)
    requires FirstCapture(s, LooseMarker, m)
    ensures VersionFromHex(s) == TwoFieldVersion(CapturedAfter(s, LooseMarker, m))
    ensures |SplitDots(VersionFromHex(s))| == 3
    ensures LowerHexText(CapturedAfter(s, LooseMarker, m))
            ==> SplitDots(VersionFromHex(s))
                == ["0", Decimal(ByteValue(CapturedAfter(s, LooseMarker, m), 0)),
                    Decimal(ByteValue(CapturedAfter(s, LooseMarker, m), 1))]
  {
    assert PatternGroup(s).None?;
    assert FindCapture(s, LooseMarker, 0) == Some(m);
    var cap := CapturedAfter(s, LooseMarker, m);
    TwoFieldShape(cap);
    if LowerHexText(cap) {
      TwoFieldDecodes(cap);
    }
  }

  // ---------------------------------------------------------------------
  // Case sensitivity
  // ---------------------------------------------------------------------

  function AsciiUpper(c: char): (u: char)
    ensures u != 'f'
  {
    if 'a' <= c <= 'z' then (c as int - 32) as char else c
  }

  /** The text with every ASCII letter in upper case. */
  function UpperCased(b: string): (u: string)
    ensures |u| == |b|
    ensures forall k :: 0 <= k < |b| ==> u[k] == AsciiUpper(b[k])
  {
    seq(|b|, k requires 0 <= k < |b| => AsciiUpper(b[k]))
  }

  /** Without a lowercase `f` there is no `64736f6c63(\w{6})`. */
  lemma NoLowercaseFNoMarker(s: string)
    requires forall k :: 0 <= k < |s| ==> s[k] != 'f'
    ensures !HasCapture(s, LooseMarker)
    ensures VersionFromHex(s) == Unknown
  {
    forall i: nat
      ensures !CaptureAt(s, LooseMarker, i)
    {
      if i + |LooseMarker| <= |s| {
        assert s[i..i + |LooseMarker|][5] == s[i + 5] != 'f';
      }
    }
  }

  /** The markers are matched case-sensitively: upper-cased bytecode is never recognised. */
  lemma UppercaseNotRecognised(b: string)
    ensures GetCompilerVersion(UpperCased(b)) == Unknown
  {
    var u := UpperCased(b);
    var s := StripHexPrefix(u);
    if StartsWithHexPrefix(u) {
      assert forall k :: 0 <= k < |s| ==> s[k] == u[k + 2];
    }
    NoLowercaseFNoMarker(s);
  }

  // ---------------------------------------------------------------------
  // Round trip through a minimal trailer
  // ---------------------------------------------------------------------

  function HexDigitChar(d: nat): (c: char)
    requires d < 16
    ensures IsLowerHex(c) && HexDigitValue(c) == d
  {
    if d < 10 then ('0' as int + d) as char else ('a' as int + d - 10) as char
  }

  /** The six lowercase hex characters of bytes `x y z`. */
  function HexBytes(x: nat, y: nat, z: nat): (t: string)
    requires x < 256 && y < 256 && z < 256
    ensures |t| == CaptureLength && LowerHexText(t)
  {
    [HexDigitChar(x / 16), HexDigitChar(x % 16), HexDigitChar(y / 16),
     HexDigitChar(y % 16), HexDigitChar(z / 16), HexDigitChar(z % 16)]
  }

  /** Each byte written in hex parses back to itself. */
  lemma HexBytesParse(x: nat, y: nat, z: nat)
    requires x < 256 && y < 256 && z < 256
    ensures CaptureField(HexBytes(x, y, z), 0) == Finite(x)
    ensures CaptureField(HexBytes(x, y, z), 1) == Finite(y)
    ensures CaptureField(HexBytes(x, y, z), 2) == Finite(z)
  {
  }

  /** The marker followed by six word characters and nothing else is decided by the bare pattern. */
  lemma MarkerAloneDecides(cap: string)
    requires |cap| == CaptureLength && forall k :: 0 <= k < |cap| ==> IsWordChar(cap[k])
    ensures VersionFromHex(SolcMarker + cap) == ThreeFieldVersion(cap)
  {
    var s := SolcMarker + cap;
    assert s[..|SolcMarker|] == SolcMarker;
    assert forall k :: 0 <= k < |cap| ==> s[|SolcMarker| + k] == cap[k];
    assert CaptureAt(s, SolcMarker, 0);
    assert s[|SolcMarker|..] == cap;
    assert CapturedAfter(s, SolcMarker, 0) == cap;
    forall i: nat
      ensures !IpfsAnchor(s, i)
    {
      if i + |IpfsPrefix| <= |s| {
        assert i < |SolcMarker| && s[i] == SolcMarker[i];
        assert s[i..i + |IpfsPrefix|][0] == s[i] != 'a';
      }
    }
    BareDecides(s, 0);
  }

  /** Three bytes written as lowercase hex print as `0.x.y.z`. */
  lemma HexBytesPrint(x: nat, y: nat, z: nat)
    requires x < 256 && y < 256 && z < 256
    ensures ThreeFieldVersion(HexBytes(x, y, z)) == "0." + Decimal(x) + "." + Decimal(y) + "." + Decimal(z)
  {
    HexBytesParse(x, y, z);
  }

  /**
   The marker followed by the hex of bytes `x y z` decodes to
   `0.x.y.z`: the extractor prints a `0.` before the three bytes.
   */
  lemma MinimalTrailerRoundTrip(x: nat, y: nat, z: nat)
    requires x < 256 && y < 256 && z < 256
    ensures VersionFromHex(SolcMarker + HexBytes(x, y, z)) == "0." + Decimal(x) + "." + Decimal(y) + "." + Decimal(z)
  {
    MarkerAloneDecides(HexBytes(x, y, z));
    HexBytesPrint(x, y, z);
  }

  /** Bytes `00 08 13` give "0.0.8.19", with four fields rather than three. */
  lemma SolcBytes000813()
    ensures GetCompilerVersion("0x64736f6c6343000813") == "0.0.8.19"
  {
    TrailerText000813();
    MinimalTrailerRoundTrip(0, 8, 19);
    DecimalTexts0819();
  }

  /** Without its `0x`, the bytecode is the marker followed by the hex of `00 08 13`. */
  lemma TrailerText000813()
    ensures StripHexPrefix("0x64736f6c6343000813") == SolcMarker + HexBytes(0, 8, 19)
  {
    var bytecode := "0x64736f6c6343000813";
    assert bytecode == "0x" + "64736f6c6343000813";
    StripRemovesOnePrefix("64736f6c6343000813");
    assert HexBytes(0, 8, 19) == "000813";
  }

  lemma DecimalTexts0819()
    ensures "0." + Decimal(0) + "." + Decimal(8) + "." + Decimal(19) == "0.0.8.19"
  {
    assert Decimal(0) == "0";
    assert Decimal(8) == "8";
    assert Decimal(19) == "19";
  }
}

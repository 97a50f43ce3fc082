/**
 Compiler-version extraction from deployed contract bytecode.

 The Solidity compiler appends a CBOR-encoded metadata map to the code
 (section 3.1 of RFC 8949): `a2` opens a map of two entries, `64 69706673`
 is the text "ipfs", `58 22` announces a 34-byte byte string (the hash), and
 `64 736f6c63` is the text "solc" followed by `43`, a 3-byte byte string
 holding the compiler's major, minor and patch numbers.

 The extractor scans the hex text for those markers with regular
 expressions. Each expression is modelled here as a search for the first
 index where it matches, over the characters of the hex text.
 */
module Bytecode {
  import opened Wrappers
  import Text

  /** `a2 64 "ipfs" 58 22`: the head of the metadata map up to the hash bytes. */
  const IpfsPrefix: string := "a264697066735822"
  /** `64 "solc" 43`: the "solc" key and the header of its 3-byte value. */
  const SolcMarker: string := "64736f6c6343"
  /** `64 "solc"`: the key alone, used by the looser fallback. */
  const LooseMarker: string := "64736f6c63"
  /** The optional `5b` that the third expression allows before the marker. */
  const BracketOpen: string := "5b"
  /** Every expression captures `\w{6}`. */
  const CaptureLength: nat := 6
  /** The result when nothing matches. */
  const Unknown: string := "Unknown"

  /** The characters `\w` matches. */
  predicate IsWordChar(c: char) {
    'a' <= c <= 'z' || 'A' <= c <= 'Z' || '0' <= c <= '9' || c == '_'
  }

  /** The characters `.` does not match (JavaScript line terminators). */
  predicate IsLineTerminator(c: char) {
    c == '\n' || c == '\r' || c == '\U{2028}' || c == '\U{2029}'
  }

  predicate IsLowerHex(c: char) {
    '0' <= c <= '9' || 'a' <= c <= 'f'
  }

  /** The digits `parseInt(_, 16)` accepts, in either case. */
  predicate IsHexDigit(c: char) {
    IsLowerHex(c) || 'A' <= c <= 'F'
  }

  function HexDigitValue(c: char): (v: nat)
    requires IsHexDigit(c)
    ensures v < 16
  {
    if '0' <= c <= '9' then c as int - '0' as int
    else if 'a' <= c <= 'f' then c as int - 'a' as int + 10
    else c as int - 'A' as int + 10
  }

  // ---------------------------------------------------------------------
  // Occurrences
  // ---------------------------------------------------------------------

  /** `p` occurs in `s` starting at index `i`. */
  predicate OccursAt(s: string, p: string, i: nat) {
    i + |p| <= |s| && s[i..i + |p|] == p
  }

  /** The `n` characters of `s` from `from` on are all word characters. */
  predicate WordRun(s: string, from: nat, n: nat) {
    from + n <= |s| && forall k :: from <= k < from + n ==> IsWordChar(s[k])
  }

  /** `marker(\w{6})` matches at index `i`. */
  predicate CaptureAt(s: string, marker: string, i: nat) {
    OccursAt(s, marker, i) && WordRun(s, i + |marker|, CaptureLength)
  }

  /** `marker(\w{6})` matches somewhere in `s`. */
  ghost predicate HasCapture(s: string, marker: string) {
    exists i :: CaptureAt(s, marker, i)
  }

  /** `i` is the leftmost index where `marker(\w{6})` matches. */
  ghost predicate FirstCapture(s: string, marker: string, i: nat) {
    CaptureAt(s, marker, i) && forall k :: 0 <= k < i ==> !CaptureAt(s, marker, k)
  }

  /** No character of `s[from..to]` is a line terminator, so `.*?` can consume that stretch. */
  predicate DotRun(s: string, from: nat, to: nat) {
    from <= to <= |s| && forall k :: from <= k < to ==> !IsLineTerminator(s[k])
  }

  /** The six captured characters that follow the marker matched at `m`. */
  function CapturedAfter(s: string, marker: string, m: nat): (cap: string)
    requires CaptureAt(s, marker, m)
    ensures |cap| == CaptureLength
  {
    s[m + |marker|..m + |marker| + CaptureLength]
  }

  // ---------------------------------------------------------------------
  // The four regular expressions
  // ---------------------------------------------------------------------

  /** Leftmost match of `marker(\w{6})` at or after `from`; the result is the marker's index. */
  function FindCapture(s: string, marker: string, from: nat): (r: Option<nat>)
    requires from <= |s|
    ensures r.Some? ==> from <= r.value && CaptureAt(s, marker, r.value)
    ensures r.Some? ==> forall k :: from <= k < r.value ==> !CaptureAt(s, marker, k)
    ensures r.None? ==> forall k :: from <= k ==> !CaptureAt(s, marker, k)
    decreases |s| - from
  {
    if CaptureAt(s, marker, from) then Some(from)
    else if from == |s| then None
    else FindCapture(s, marker, from + 1)
  }

  /**
   The lazy `.*?64736f6c6343(\w{6})` tried from index `j`: the first marker
   match at or after `j` that `.*?` reaches without crossing a line terminator.
   */
  function LazyMarker(s: string, j: nat): (r: Option<nat>)
    requires j <= |s|
    ensures r.Some? ==> j <= r.value && CaptureAt(s, SolcMarker, r.value) && DotRun(s, j, r.value)
    ensures r.Some? ==> forall k :: j <= k < r.value ==> !CaptureAt(s, SolcMarker, k)
    ensures r.None? ==> forall k :: j <= k && DotRun(s, j, k) ==> !CaptureAt(s, SolcMarker, k)
    decreases |s| - j
  {
    if CaptureAt(s, SolcMarker, j) then Some(j)
    else if j < |s| && !IsLineTerminator(s[j]) then LazyMarker(s, j + 1)
    else None
  }

  /** The first expression can start at index `i`: the IPFS prefix is there and the lazy tail succeeds after it. */
  predicate IpfsAnchor(s: string, i: nat) {
    OccursAt(s, IpfsPrefix, i) && LazyMarker(s, i + |IpfsPrefix|).Some?
  }

  /** The first expression matches somewhere in `s`. */
  ghost predicate IpfsMatches(s: string) {
    exists i :: IpfsAnchor(s, i)
  }

  /** Leftmost start of `a264697066735822.*?64736f6c6343(\w{6})` at or after `from`. */
  function IpfsSearch(s: string, from: nat): (r: Option<nat>)
    requires from <= |s|
    ensures r.Some? ==> from <= r.value && IpfsAnchor(s, r.value)
    ensures r.Some? ==> forall k :: from <= k < r.value ==> !IpfsAnchor(s, k)
    ensures r.None? ==> forall k :: from <= k ==> !IpfsAnchor(s, k)
    decreases |s| - from
  {
    if IpfsAnchor(s, from) then Some(from)
    else if from == |s| then None
    else IpfsSearch(s, from + 1)
  }

  /**
   Leftmost match of `(?:5b)?64736f6c6343(\w{6})(?:5d)?` at or after `from`;
   the result is the index of the captured group. At each start the greedy
   `(?:5b)?` is tried with the `5b` first; the trailing `(?:5d)?` never fails
   and does not move the group.
   */
  function BracketSearch(s: string, from: nat): (r: Option<nat>)
    requires from <= |s|
    ensures r.Some? ==> |SolcMarker| <= r.value && CaptureAt(s, SolcMarker, r.value - |SolcMarker|)
    ensures r.None? ==> forall k :: from <= k ==> !CaptureAt(s, SolcMarker, k)
    decreases |s| - from
  {
    if OccursAt(s, BracketOpen, from) && CaptureAt(s, SolcMarker, from + |BracketOpen|) then
      Some(from + |BracketOpen| + |SolcMarker|)
    else if CaptureAt(s, SolcMarker, from) then Some(from + |SolcMarker|)
    else if from == |s| then None
    else BracketSearch(s, from + 1)
  }

  /** The index of the group that follows a full marker found at `m`, if one was found. */
  function GroupAfter(m: Option<nat>): Option<nat> {
    match m
    case Some(i) => Some(i + |SolcMarker|)
    case None => None
  }

  /** The three expressions the extractor tries first, in their order of priority. */
  datatype Pattern = IpfsThenSolc | BareSolc | BracketedSolc

  /** Index of the group `(\w{6})` when pattern `p` matches `s`. */
  function MatchPattern(p: Pattern, s: string): (r: Option<nat>)
    ensures r.Some? ==> |SolcMarker| <= r.value && CaptureAt(s, SolcMarker, r.value - |SolcMarker|)
  {
    match p
    case IpfsThenSolc =>
      (match IpfsSearch(s, 0)
       case Some(i) => Some(LazyMarker(s, i + |IpfsPrefix|).value + |SolcMarker|)
       case None => None)
    case BareSolc => GroupAfter(FindCapture(s, SolcMarker, 0))
    case BracketedSolc => BracketSearch(s, 0)
  }

  /**
   The group chosen by the extractor's `for` loop over its three patterns:
   the first pattern that matches decides.
   */
  function PatternGroup(s: string): (r: Option<nat>)
    ensures r.Some? ==> |SolcMarker| <= r.value && CaptureAt(s, SolcMarker, r.value - |SolcMarker|)
    ensures r.None? <==> MatchPattern(IpfsThenSolc, s).None? && MatchPattern(BareSolc, s).None?
                         && MatchPattern(BracketedSolc, s).None?
  {
    var ipfs := MatchPattern(IpfsThenSolc, s);
    if ipfs.Some? then ipfs
    else
      var bare := MatchPattern(BareSolc, s);
      if bare.Some? then bare else MatchPattern(BracketedSolc, s)
  }

  // ---------------------------------------------------------------------
  // Decoding the captured bytes
  // ---------------------------------------------------------------------

  /** The values `parseInt` can return for two word characters. */
  datatype JsNumber = Finite(n: nat) | NaN

  /**
   `parseInt(c0c1, 16)` for two word characters, the only characters the
   capture `(\w{6})` hands it: a leading `0x`/`0X` is dropped (leaving no
   digits), then the longest run of hexadecimal digits is read; none gives
   NaN. Word characters hold no whitespace or sign, which `parseInt` would
   otherwise skip or read.
   */
  function ParseHexPair(c0: char, c1: char): (v: JsNumber)
    ensures v.Finite? ==> v.n < 256
    ensures IsHexDigit(c0) && IsHexDigit(c1) ==> v == Finite(16 * HexDigitValue(c0) + HexDigitValue(c1))
    ensures IsHexDigit(c0) && !IsHexDigit(c1) && !(c0 == '0' && c1 in "xX") ==> v == Finite(HexDigitValue(c0))
    ensures c0 == '0' && c1 in "xX" ==> v == NaN
    ensures !IsHexDigit(c0) ==> v == NaN
  {
    if c0 == '0' && (c1 == 'x' || c1 == 'X') then NaN
    else if !IsHexDigit(c0) then NaN
    else if !IsHexDigit(c1) then Finite(HexDigitValue(c0))
    else Finite(16 * HexDigitValue(c0) + HexDigitValue(c1))
  }

  /** How a template literal prints a `parseInt` result. */
  function NumberText(v: JsNumber): (t: string)
    ensures Text.NoDot(t) && 1 <= |t|
  {
    match v
    case Finite(n) => Text.Decimal(n)
    case NaN => "NaN"
  }

  /** Field `i` (0, 1 or 2) of a capture: `parseInt(cap.slice(2i, 2i + 2), 16)`. */
  function CaptureField(cap: string, i: nat): JsNumber
    requires |cap| == CaptureLength && i < 3
  {
    ParseHexPair(cap[2 * i], cap[2 * i + 1])
  }

  /** `0.${major}.${minor}.${patch}`: the text after a full match, with its leading `0.`. */
  function ThreeFieldVersion(cap: string): (version: string)
    requires |cap| == CaptureLength
    ensures 1 <= |version| && version[0] == '0'
  {
    "0." + NumberText(CaptureField(cap, 0)) + "." + NumberText(CaptureField(cap, 1))
      + "." + NumberText(CaptureField(cap, 2))
  }

  /** `0.${a}.${b}` from the first four captured characters: the fallback's text. */
  function TwoFieldVersion(cap: string): (version: string)
    requires |cap| == CaptureLength
    ensures 1 <= |version| && version[0] == '0'
  {
    "0." + NumberText(CaptureField(cap, 0)) + "." + NumberText(CaptureField(cap, 1))
  }

  // ---------------------------------------------------------------------
  // The extractor
  // ---------------------------------------------------------------------

  predicate StartsWithHexPrefix(b: string) {
    |b| >= 2 && b[..2] == "0x"
  }

  /** Removes one leading `0x`, if there is one. */
  function StripHexPrefix(bytecode: string): (s: string)
    ensures StartsWithHexPrefix(bytecode) ==> bytecode == "0x" + s
    ensures !StartsWithHexPrefix(bytecode) ==> s == bytecode
  {
    if StartsWithHexPrefix(bytecode) then bytecode[2..] else bytecode
  }

  /** A full marker match is also a match of the looser fallback at the same index. */
  lemma MarkerImpliesLoose(s: string, i: nat)
    requires CaptureAt(s, SolcMarker, i)
    ensures CaptureAt(s, LooseMarker, i)
  {
    assert s[i..i + |LooseMarker|] == s[i..i + |SolcMarker|][..|LooseMarker|];
    assert s[i + 10] == s[i..i + |SolcMarker|][10];
    assert s[i + 11] == s[i..i + |SolcMarker|][11];
  }

  /**
   The version named by the metadata trailer in hex text `s` (already
   without its `0x`): the first of the three patterns that matches gives
   three fields, else the looser fallback gives two, else "Unknown". It is
   "Unknown" exactly when `64736f6c63` followed by six word characters
   occurs nowhere in `s`.
   */
  function VersionFromHex(s: string): (version: string)
    ensures version == Unknown <==> !HasCapture(s, LooseMarker)
  {
    var g := PatternGroup(s);
    if g.Some? then FullVersion(s, g.value) else FallbackVersion(s)
  }

  /** The three-field text for the group at `c`, which follows a full marker. */
  function FullVersion(s: string, c: nat): (version: string)
    requires |SolcMarker| <= c && CaptureAt(s, SolcMarker, c - |SolcMarker|)
    ensures version != Unknown && HasCapture(s, LooseMarker)
  {
    MarkerImpliesLoose(s, c - |SolcMarker|);
    var v := ThreeFieldVersion(s[c..c + CaptureLength]);
    assert v[0] != Unknown[0];
    v
  }

  /** `0.${a}.${b}` after the leftmost `64736f6c63(\w{6})`, or "Unknown" when there is none. */
  function FallbackVersion(s: string): (version: string)
    ensures version == Unknown <==> !HasCapture(s, LooseMarker)
  {
    match FindCapture(s, LooseMarker, 0)
    case Some(m) =>
      var v := TwoFieldVersion(CapturedAfter(s, LooseMarker, m));
      assert v[0] != Unknown[0];
      v
    case None => Unknown
  }

  /** The compiler version named by `bytecode`, with or without its `0x`, or "Unknown". */
  function GetCompilerVersion(bytecode: string): (version: string)
    ensures version == Unknown <==> !HasCapture(StripHexPrefix(bytecode), LooseMarker)
  {
    VersionFromHex(StripHexPrefix(bytecode))
  }
}

/**
 The matcher's `normalize`: a string is lower-cased and then trimmed.
 Lower-casing covers the ASCII letters A-Z; trimming removes exactly the
 code points that JavaScript's String.prototype.trim removes (the
 WhiteSpace and LineTerminator productions of ECMAScript).
 */
module Text {

  /** The code points removed by String.prototype.trim. */
  predicate IsSpace(c: char) {
    var n := c as int;
    n == 0x09 || n == 0x0A || n == 0x0B || n == 0x0C || n == 0x0D || n == 0x20
    || n == 0xA0 || n == 0x1680 || (0x2000 <= n <= 0x200A) || n == 0x2028
    || n == 0x2029 || n == 0x202F || n == 0x205F || n == 0x3000 || n == 0xFEFF
  }

  predicate IsUpper(c: char) {
    'A' <= c <= 'Z'
  }

  function LowerChar(c: char): (d: char)
    ensures !IsUpper(d)
    ensures IsSpace(d) <==> IsSpace(c)
    ensures !IsUpper(c) ==> d == c
  {
    if IsUpper(c) then (c as int + 32) as char else c
  }

  function Lower(s: string): (r: string)
    ensures |r| == |s|
    ensures forall i :: 0 <= i < |s| ==> r[i] == LowerChar(s[i])
  {
    seq(|s|, i requires 0 <= i < |s| => LowerChar(s[i]))
  }

  predicate AllSpace(s: string) {
    forall i :: 0 <= i < |s| ==> IsSpace(s[i])
  }

  /** The length of the longest all-whitespace prefix of `s`. */
  function LeadingSpace(s: string): (k: nat)
    ensures k <= |s|
    ensures AllSpace(s[..k])
    ensures k < |s| ==> !IsSpace(s[k])
  {
    if |s| > 0 && IsSpace(s[0]) then
      var k := 1 + LeadingSpace(s[1..]);
      assert s[..k] == [s[0]] + s[1..][..k - 1];
      k
    else 0
  }

  /** The start of the longest all-whitespace suffix of `s`. */
  function TrailingStart(s: string): (k: nat)
    ensures k <= |s|
    ensures AllSpace(s[k..])
    ensures 0 < k ==> !IsSpace(s[k - 1])
  {
    if |s| > 0 && IsSpace(s[|s| - 1]) then
      var k := TrailingStart(s[..|s| - 1]);
      assert s[k..] == s[..|s| - 1][k..] + [s[|s| - 1]];
      k
    else |s|
  }

  /** `r` is `s` with leading and trailing whitespace removed. */
  ghost predicate IsTrimOf(r: string, s: string) {
    exists a: nat, b: nat {:trigger s[a..b]} ::
      && a <= b <= |s|
      && r == s[a..b]
      && AllSpace(s[..a])
      && AllSpace(s[b..])
  }

  predicate HasNoOuterSpace(r: string) {
    |r| > 0 ==> !IsSpace(r[0]) && !IsSpace(r[|r| - 1])
  }

  function Trim(s: string): (r: string)
    ensures IsTrimOf(r, s)
    ensures HasNoOuterSpace(r)
  {
    var a := LeadingSpace(s);
    var t := s[a..];
    var b := TrailingStart(t);
    assert t[..b] == s[a..a + b];
    assert t[b..] == s[a + b..];
    assert b > 0 ==> !IsSpace(t[0]);
    t[..b]
  }

  /** A string that `Normalize` leaves alone: no upper-case letter, no outer whitespace. */
  predicate IsNormal(s: string) {
    && (forall i :: 0 <= i < |s| ==> !IsUpper(s[i]))
    && HasNoOuterSpace(s)
  }

  /** The source's `normalize` (lib/recipeMatcher.js:3): lower-case, then trim. */
  function Normalize(s: string): (r: string)
    ensures IsNormal(r)
    ensures IsTrimOf(r, Lower(s))
  {
    var r := Trim(Lower(s));
    assert forall i :: 0 <= i < |r| ==> !IsUpper(r[i]) by {
      var a: nat, b: nat :| a <= b <= |Lower(s)| && r == Lower(s)[a..b];
    }
    r
  }

  /** `Normalize` fixes exactly the normal strings. */
  lemma NormalizeFixes(s: string)
    ensures Normalize(s) == s <==> IsNormal(s)
  {
    if IsNormal(s) {
      assert Lower(s) == s;
      assert LeadingSpace(s) == 0;
      assert TrailingStart(s) == |s|;
    }
  }

  lemma NormalizeIdempotent(s: string)
    ensures Normalize(Normalize(s)) == Normalize(s)
  {
    NormalizeFixes(Normalize(s));
  }

  function NormalizeAll(ss: seq<string>): (r: seq<string>)
    ensures |r| == |ss|
    ensures forall i :: 0 <= i < |ss| ==> r[i] == Normalize(ss[i])
  {
    seq(|ss|, i requires 0 <= i < |ss| => Normalize(ss[i]))
  }

  /** Normalising a list keeps every normalised entry: appending to the list only adds entries. */
  lemma NormalizeAllAppend(ss: seq<string>, extra: seq<string>)
    ensures NormalizeAll(ss + extra) == NormalizeAll(ss) + NormalizeAll(extra)
  {
  }

  /** A list of normal strings is its own normalisation. */
  lemma NormalizeAllFixes(ss: seq<string>)
    requires forall i :: 0 <= i < |ss| ==> IsNormal(ss[i])
    ensures NormalizeAll(ss) == ss
  {
    forall i | 0 <= i < |ss|
      ensures Normalize(ss[i]) == ss[i]
    {
      NormalizeFixes(ss[i]);
    }
  }

}

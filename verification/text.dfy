/** Character classes and trimming as JavaScript defines them.

    The contact-form rules of script.js see a field value through
    `String.prototype.trim` and through the regular-expression classes `\s`,
    `\d` and `.`.  This module states those classes as explicit character
    predicates (section 12.2 "White Space" and section 12.3 "Line Terminators"
    of ECMA-262), so that no regular-expression engine is modelled.
 */
module Text {

  /** The characters the regular-expression `.` refuses to match. */
  predicate IsLineTerminator(c: char) {
    c == '\n' || c == '\r' || c == '\U{2028}' || c == '\U{2029}'
  }

  /** The class `\s`, which is also the set `trim` strips: WhiteSpace
      (tab, vertical tab, form feed, space, no-break space, byte-order mark
      and the space separators of Unicode category Zs) or LineTerminator. */
  predicate IsSpace(c: char) {
    || c == '\t' || c == '\U{000B}' || c == '\U{000C}' || c == ' '
    || c == '\U{00A0}' || c == '\U{FEFF}' || c == '\U{1680}'
    || ('\U{2000}' <= c <= '\U{200A}')
    || c == '\U{202F}' || c == '\U{205F}' || c == '\U{3000}'
    || IsLineTerminator(c)
  }

  /** The class `\d`: ASCII digits only. */
  predicate IsDigit(c: char) {
    '0' <= c <= '9'
  }

  predicate AllSpace(s: string) {
    forall i :: 0 <= i < |s| ==> IsSpace(s[i])
  }

  predicate NoSpace(s: string) {
    forall i :: 0 <= i < |s| ==> !IsSpace(s[i])
  }

  predicate AllDigits(s: string) {
    forall i :: 0 <= i < |s| ==> IsDigit(s[i])
  }

  /** Neither end of `s` is white space. */
  predicate Unpadded(s: string) {
    s == [] || (!IsSpace(s[0]) && !IsSpace(s[|s| - 1]))
  }

  /** `s` is `r` surrounded by nothing but white space, with `r` starting at `lo`. */
  predicate Pads(s: string, lo: int, r: string) {
    && 0 <= lo && lo + |r| <= |s|
    && s[lo..lo + |r|] == r
    && AllSpace(s[..lo])
    && AllSpace(s[lo + |r|..])
  }

  /** The number of white-space characters at the front of `s`. */
  function Lead(s: string): (n: nat)
    ensures n <= |s|
    ensures AllSpace(s[..n])
    ensures n < |s| ==> !IsSpace(s[n])
  {
    if s != [] && IsSpace(s[0]) then 1 + Lead(s[1..]) else 0
  }

  /** The number of white-space characters at the back of `s`. */
  function Trail(s: string): (n: nat)
    ensures n <= |s|
    ensures AllSpace(s[|s| - n..])
    ensures n < |s| ==> !IsSpace(s[|s| - 1 - n])
  {
    if s != [] && IsSpace(s[|s| - 1]) then 1 + Trail(s[..|s| - 1]) else 0
  }

  /** `String.prototype.trim`: the part of `s` between its leading and its
      trailing white space.  The three properties below determine `r`. */
  function Trim(s: string): (r: string)
    ensures Pads(s, Lead(s), r)
    ensures Unpadded(r)
    ensures r == [] <==> AllSpace(s)
  {
    var lo := Lead(s);
    var t := s[lo..];
    var r := t[..|t| - Trail(t)];
    TrimParts(s, lo, Trail(t), r);
    r
  }

  /** Cutting `lo` white-space characters from the front and `n` from the
      back of `s` leaves `r` padded by them. */
  lemma TrimParts(s: string, lo: nat, n: nat, r: string)
    requires lo + n <= |s| && r == s[lo..|s| - n]
    requires AllSpace(s[..lo]) && (lo < |s| ==> !IsSpace(s[lo]))
    requires AllSpace(s[|s| - n..]) && (n < |s| - lo ==> !IsSpace(s[|s| - 1 - n]))
    ensures Pads(s, lo, r)
    ensures Unpadded(r)
    ensures r == [] <==> AllSpace(s)
  {
    if r == [] {
      assert s == s[..lo];
    } else {
      assert r[0] == s[lo];
    }
  }

  /** A value that is already trimmed is left alone, so trimming twice is
      trimming once. */
  lemma {:induction false} TrimUnpadded(s: string)
    requires Unpadded(s)
    ensures Trim(s) == s
  {
    if s != [] {
      assert Lead(s) == 0;
      assert Trail(s) == 0;
    }
  }

  lemma TrimIdempotent(s: string)
    ensures Trim(Trim(s)) == Trim(s)
  {
    TrimUnpadded(Trim(s));
  }
}

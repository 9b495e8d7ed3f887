/** The three format rules of `validateField` (script.js:144-166).

    Each rule has two definitions.  The first reads the regular expression as a
    grammar: it says how the value splits into the pieces the pattern names.
    The second is a direct check, the way one would describe the rule in words,
    and it is what the validator computes.  A lemma shows that the two agree on
    every string.
 */
module Rules {
  import opened Text

  /* ---------------------------------------------------------------- email */

  /** One run of `[^\s@]+`. */
  predicate IsAtom(t: string) {
    |t| > 0 && forall i :: 0 <= i < |t| ==> !IsSpace(t[i]) && t[i] != '@'
  }

  /** `s` matches `^[^\s@]+@[^\s@]+\.[^\s@]+$` with the `@` at index `at`
      and the literal `.` at index `dot`. */
  predicate EmailSplit(s: string, at: int, dot: int) {
    && 0 <= at < dot < |s|
    && s[at] == '@' && s[dot] == '.'
    && IsAtom(s[..at]) && IsAtom(s[at + 1..dot]) && IsAtom(s[dot + 1..])
  }

  ghost predicate MatchesEmail(s: string) {
    exists at, dot :: EmailSplit(s, at, dot)
  }

  /** Index of the first `c` in `s`, or `|s|` when there is none. */
  function IndexOf(s: string, c: char): (k: nat)
    ensures k <= |s|
    ensures k < |s| ==> s[k] == c
    ensures c !in s[..k]
  {
    if s == [] then 0
    else if s[0] == c then 0
    else
      var k := 1 + IndexOf(s[1..], c);
      assert s[..k] == [s[0]] + s[1..][..k - 1];
      k
  }

  lemma IndexOfUnique(s: string, c: char, k: nat)
    requires k < |s| && s[k] == c && c !in s[..k]
    ensures IndexOf(s, c) == k
  {
  }

  /** The email check in words: no white space; exactly one `@`, with
      something before it; and after it a `.` that has a character on each
      side. */
  predicate IsValidEmail(s: string) {
    var at := IndexOf(s, '@');
    && NoSpace(s)
    && 0 < at < |s| && '@' !in s[at + 1..]
    && exists dot | at + 1 < dot < |s| - 1 :: s[dot] == '.'
  }

  lemma EmailIff(s: string)
    ensures IsValidEmail(s) <==> MatchesEmail(s)
  {
    if IsValidEmail(s) {
      var at := IndexOf(s, '@');
      var dot :| at + 1 < dot < |s| - 1 && s[dot] == '.';
      assert forall i :: at + 1 <= i < |s| ==> s[i] == s[at + 1..][i - at - 1];
      assert EmailSplit(s, at, dot);
    }
    if at, dot :| EmailSplit(s, at, dot) {
      assert s[..at][..at] == s[..at];
      IndexOfUnique(s, '@', at);
      forall i | 0 <= i < |s|
        ensures !IsSpace(s[i])
      {
        if i < at {
          assert s[..at][i] == s[i];
        } else if at < i < dot {
          assert s[at + 1..dot][i - at - 1] == s[i];
        } else if dot < i {
          assert s[dot + 1..][i - dot - 1] == s[i];
        }
      }
      forall i | at + 1 <= i < |s|
        ensures s[i] != '@'
      {
        if i < dot {
          assert s[at + 1..dot][i - at - 1] == s[i];
        } else if dot < i {
          assert s[dot + 1..][i - dot - 1] == s[i];
        }
      }
      assert '@' !in s[at + 1..];
    }
  }

  /* ---------------------------------------------------------------- phone */

  /** The characters `value.replace(/[\s\-\(\)]/g, '')` deletes. */
  predicate IsPhoneFiller(c: char) {
    IsSpace(c) || c == '-' || c == '(' || c == ')'
  }

  /** Deletes every filler character and keeps the rest in order. */
  function StripPhone(s: string): (r: string)
    ensures |r| <= |s|
    ensures forall i :: 0 <= i < |r| ==> !IsPhoneFiller(r[i])
  {
    if s == [] then []
    else
      (if IsPhoneFiller(s[0]) then [] else [s[0]]) + StripPhone(s[1..])
  }

  /** Stripping distributes over concatenation, so it keeps the order of
      what it does not delete. */
  lemma {:induction false} StripPhoneAppend(a: string, b: string)
    ensures StripPhone(a + b) == StripPhone(a) + StripPhone(b)
  {
    if a == [] {
      assert a + b == b;
    } else {
      var head := if IsPhoneFiller(a[0]) then [] else [a[0]];
      assert (a + b)[0] == a[0];
      assert (a + b)[1..] == a[1..] + b;
      calc {
        StripPhone(a + b);
        head + StripPhone(a[1..] + b);
        { StripPhoneAppend(a[1..], b); }
        head + (StripPhone(a[1..]) + StripPhone(b));
        (head + StripPhone(a[1..])) + StripPhone(b);
        StripPhone(a) + StripPhone(b);
      }
    }
  }

  /** Stripping deletes only fillers: every other character occurs in the
      result as often as in the input. */
  lemma {:induction false} StripPhoneCounts(s: string, c: char)
    requires !IsPhoneFiller(c)
    ensures multiset(StripPhone(s))[c] == multiset(s)[c]
  {
    if s != [] {
      assert s == [s[0]] + s[1..];
      StripPhoneCounts(s[1..], c);
    }
  }

  lemma {:induction false} StripPhoneKeepsPlain(s: string)
    requires forall i :: 0 <= i < |s| ==> !IsPhoneFiller(s[i])
    ensures StripPhone(s) == s
  {
    if s != [] {
      StripPhoneKeepsPlain(s[1..]);
    }
  }

  /** `s` matches `^[\+]?[1-9][\d]{0,15}$`, with `sign` the length (0 or 1)
      of the optional `+`. */
  predicate PhoneSplit(s: string, sign: int) {
    && (sign == 0 || sign == 1) && sign < |s|
    && (sign == 1 ==> s[0] == '+')
    && '1' <= s[sign] <= '9'
    && |s| - sign - 1 <= 15
    && forall i :: sign < i < |s| ==> IsDigit(s[i])
  }

  ghost predicate MatchesPhone(s: string) {
    exists sign :: PhoneSplit(s, sign)
  }

  /** The phone check in words: after an optional `+`, between 1 and 16
      digits, the first of them not `0`. */
  predicate IsValidPhone(s: string) {
    var digits := if s != [] && s[0] == '+' then s[1..] else s;
    1 <= |digits| <= 16 && '1' <= digits[0] <= '9' && AllDigits(digits)
  }

  lemma PhoneIff(s: string)
    ensures IsValidPhone(s) <==> MatchesPhone(s)
  {
    if IsValidPhone(s) {
      var sign := if s != [] && s[0] == '+' then 1 else 0;
      assert forall i :: sign <= i < |s| ==> s[i] == s[sign..][i - sign];
      assert PhoneSplit(s, sign);
    }
    if sign :| PhoneSplit(s, sign) {
      var digits := if s != [] && s[0] == '+' then s[1..] else s;
      // '+' is not in [1-9], so the sign is present exactly when s starts with '+'
      assert digits == s[sign..];
      assert forall i :: 0 <= i < |digits| ==> digits[i] == s[i + sign];
    }
  }

  /* -------------------------------------------------------------- website */

  /** `s` matches `^https?:\/\/.+` with `tls` the length (0 or 1) of the
      optional `s`: `http`, the optional `s`, `://`, then one character that
      is not a line terminator.  The pattern has no `$`, so whatever follows
      that character is not looked at. */
  predicate UrlSplit(s: string, tls: int) {
    && (tls == 0 || tls == 1) && 7 + tls < |s|
    && s[..4] == "http"
    && (tls == 1 ==> s[4] == 's')
    && s[4 + tls..7 + tls] == "://"
    && !IsLineTerminator(s[7 + tls])
  }

  ghost predicate MatchesUrl(s: string) {
    exists tls :: UrlSplit(s, tls)
  }

  /** `p` is a prefix of `s`. */
  predicate StartsWith(s: string, p: string) {
    |p| <= |s| && s[..|p|] == p
  }

  /** The URL check in words: the value starts with `http://` or
      `https://`, and the character after that exists and is not a line
      terminator. */
  predicate IsValidUrl(s: string) {
    var rest :=
      if StartsWith(s, "https://") then s[8..]
      else if StartsWith(s, "http://") then s[7..]
      else [];
    rest != [] && !IsLineTerminator(rest[0])
  }

  lemma UrlIff(s: string)
    ensures IsValidUrl(s) <==> MatchesUrl(s)
  {
    if StartsWith(s, "https://") {
      assert s[..4] == s[..8][..4] && s[4] == s[..8][4] && s[5..8] == s[..8][5..8];
      if |s| > 8 {
        assert s[8..][0] == s[8];
        assert IsValidUrl(s) ==> UrlSplit(s, 1);
      }
      assert !UrlSplit(s, 0) by {
        assert s[4..7][0] == s[4];
      }
    } else if StartsWith(s, "http://") {
      assert s[..4] == s[..7][..4] && s[4..7] == s[..7][4..7];
      if |s| > 7 {
        assert s[7..][0] == s[7];
        assert IsValidUrl(s) ==> UrlSplit(s, 0);
      }
    }
  }

  /** Because the pattern is anchored only at the start, anything may be
      appended to a matching value. */
  lemma UrlOpenEnded(s: string, t: string)
    requires MatchesUrl(s)
    ensures MatchesUrl(s + t)
  {
    var tls :| UrlSplit(s, tls);
    assert (s + t)[..4] == s[..4];
    assert (s + t)[4 + tls..7 + tls] == s[4 + tls..7 + tls];
    assert (s + t)[7 + tls] == s[7 + tls];
    assert UrlSplit(s + t, tls);
  }
}

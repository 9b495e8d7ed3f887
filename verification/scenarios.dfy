/** The concrete accept and reject cases of the contact-form rules. */
module Scenarios {
  import opened Text
  import opened Rules
  import opened Validation

  lemma EmailWithoutDotRejected(required: bool)
    ensures Check("email", "a@b", required) == Invalid(InvalidEmail)
  {
    var s := "a@b";
    TrimUnpadded(s);
    assert !MatchesEmail(s);
    CheckMeaning("email", s, required);
  }

  lemma EmailAccepted(required: bool)
    ensures Check("email", "a@b.com", required) == Valid
  {
    var s := "a@b.com";
    TrimUnpadded(s);
    assert EmailSplit(s, 1, 3) by {
      assert s[..1] == "a" && s[2..3] == "b" && s[4..] == "com";
    }
    CheckMeaning("email", s, required);
  }

  /** A number written `(area) exchange-line` strips to its digits. */
  lemma {:induction false} StripPunctuatedPhone(area: string, exchange: string, line: string)
    requires AllDigits(area) && AllDigits(exchange) && AllDigits(line)
    ensures StripPhone("(" + area + ") " + exchange + "-" + line) == area + exchange + line
  {
    forall t: string | AllDigits(t) ensures StripPhone(t) == t {
      StripPhoneKeepsPlain(t);
    }
    calc {
      StripPhone("(" + area + ") " + exchange + "-" + line);
      { StripPhoneAppend("(" + area + ") " + exchange + "-", line);
        StripPhoneAppend("(" + area + ") " + exchange, "-");
        StripPhoneAppend("(" + area + ") ", exchange);
        StripPhoneAppend("(" + area, ") ");
        StripPhoneAppend("(", area); }
      StripPhone("(") + StripPhone(area) + StripPhone(") ") + StripPhone(exchange) + StripPhone("-") + StripPhone(line);
      area + exchange + line;
    }
  }

  /** Any number written `(area) exchange-line` with at most 16 digits,
      the first not `0`, passes the phone rule. */
  lemma PunctuatedPhoneAccepted(area: string, exchange: string, line: string, required: bool)
    requires AllDigits(area) && AllDigits(exchange) && AllDigits(line)
    requires area != [] && area[0] != '0'
    requires |area| + |exchange| + |line| <= 16
    ensures Check("phone", "(" + area + ") " + exchange + "-" + line, required) == Valid
  {
    var s := "(" + area + ") " + exchange + "-" + line;
    var digits := area + exchange + line;
    assert s[0] == '(' && s[|s| - 1] != ' ' by {
      if line == [] { assert s[|s| - 1] == '-'; } else { assert s[|s| - 1] == line[|line| - 1]; }
    }
    TrimUnpadded(s);
    StripPunctuatedPhone(area, exchange, line);
    assert digits[0] == area[0];
    assert PhoneSplit(digits, 0);
    CheckMeaning("phone", s, required);
  }

  lemma PhoneWithPunctuationAccepted(required: bool)
    ensures Check("phone", "(555) 123-4567", required) == Valid
  {
    assert "(555) 123-4567" == "(" + "555" + ") " + "123" + "-" + "4567";
    PunctuatedPhoneAccepted("555", "123", "4567", required);
  }

  lemma PhoneWithLeadingZeroRejected(required: bool)
    ensures Check("phone", "0123", required) == Invalid(InvalidPhone)
  {
    var s := "0123";
    TrimUnpadded(s);
    StripPhoneKeepsPlain(s);
    assert !MatchesPhone(s);
    CheckMeaning("phone", s, required);
  }

  /** A non-blank value that does not start with `h` has no scheme. */
  lemma SchemelessUrlRejected(s: string, required: bool)
    requires s != [] && Unpadded(s) && s[0] != 'h'
    ensures Check("website", s, required) == Invalid(InvalidUrl)
  {
    TrimUnpadded(s);
    assert !MatchesUrl(s);
    CheckMeaning("website", s, required);
  }

  lemma UrlWithoutSchemeRejected(required: bool)
    ensures Check("website", "example.com", required) == Invalid(InvalidUrl)
  {
    SchemelessUrlRejected("example.com", required);
  }

  /** A scheme with nothing after it is not a URL. */
  lemma BareSchemeRejected(s: string, required: bool)
    requires s == "http://" || s == "https://"
    ensures Check("website", s, required) == Invalid(InvalidUrl)
  {
    assert s[0] == 'h' && s[|s| - 1] == '/';
    TrimUnpadded(s);
    if |s| == 8 {
      assert s[4] != "http://"[4];
    }
    CheckMeaning("website", s, required);
  }

  /** Anything after `https://` that neither starts nor ends with white
      space makes an acceptable website. */
  lemma HttpsUrlAccepted(host: string, required: bool)
    requires host != [] && Unpadded(host)
    ensures Check("website", "https://" + host, required) == Valid
  {
    var s := "https://" + host;
    assert s[..8] == "https://";
    assert s[8] == host[0] && s[|s| - 1] == host[|host| - 1];
    TrimUnpadded(s);
    CheckMeaning("website", s, required);
  }

  lemma UrlAccepted(required: bool)
    ensures Check("website", "https://example.com", required) == Valid
  {
    assert "https://example.com" == "https://" + "example.com";
    HttpsUrlAccepted("example.com", required);
  }

  /** A blank required value gets the required message whatever its field;
      a blank optional value is always accepted. */
  lemma BlankValues(name: string, raw: string)
    requires AllSpace(raw)
    ensures Check(name, raw, true) == Invalid(RequiredFieldEmpty)
    ensures Check(name, raw, false) == Valid
  {
    CheckMeaning(name, raw, true);
    CheckMeaning(name, raw, false);
  }

  /** Annotations are kept per parent node: two invalid required controls
      under one parent leave a single annotation, the second control's. */
  lemma SharedParentShowsOneError(f: Form)
    requires |f.controls| == 2 && |f.annotations| == 1 && f.annotations[0] == []
    requires forall j :: 0 <= j < 2 ==> f.controls[j].parent == 0 && f.controls[j].required
    requires forall j :: 0 <= j < 2 ==> !Judge(f.controls[j]).Valid?
    ensures !ValidateForm(f).1
    ensures ValidateForm(f).0.annotations[0] == [Message(Judge(f.controls[1]).error)]
  {
    var first := ValidateFieldAt(f, 0);
    SameDataJudge(f, first.0);
    var second := ValidateFieldAt(first.0, 1);
    assert first.0.annotations[0] == [Message(Judge(f.controls[0]).error)];
    assert ValidateFrom(second.0, 2) == (second.0, true);
    assert ValidateFrom(first.0, 1).0 == second.0;
  }
}

/**
  Concrete inputs and the statuses the rules give them: the rule order of the
  password check, the accepted and rejected email shapes, and the
  confirmation comparison.
 */
module Scenarios {
  import opened Text
  import opened Validators
  import EmailPattern

  /** "short" fails the length check before any character-class check. */
  lemma ShortPasswordFailsOnLength()
    ensures ValidatePassword("short").status == Error(PasswordTooShort)
  {
  }

  /** Thirteen characters with a digit but no capital fail on the capital check. */
  lemma LowercasePasswordFailsOnCapital()
    ensures ValidatePassword("alllowercase1").status == Error(PasswordNeedsCapital)
  {
    var p := "alllowercase1";
    assert IsDigit(p[12]);
    assert forall k | 0 <= k < |p| :: !IsUpper(p[k]);
  }

  /** Eight characters with a digit, a capital, a lowercase letter and a special character pass. */
  lemma MinimalStrongPassword()
    ensures ValidatePassword("Aa1!aaaa").valid
  {
    var p := "Aa1!aaaa";
    assert IsDigit(p[2]) && IsUpper(p[0]) && IsLower(p[1]) && IsSpecial(p[3]);
  }

  /** A backtick is not one of the special characters. */
  lemma BacktickIsNotSpecial()
    ensures ValidatePassword("Aa1aaaa`").status == Error(PasswordNeedsSpecial)
  {
    var p := "Aa1aaaa`";
    assert IsDigit(p[2]) && IsUpper(p[0]) && IsLower(p[1]);
    NoSpecialAmong(p);
  }

  lemma NoSpecialAmong(p: string)
    requires forall k | 0 <= k < |p| :: p[k] == 'A' || p[k] == 'a' || p[k] == '1' || p[k] == '`'
    ensures !HasSpecial(p)
  {
    forall k | 0 <= k < |p| ensures !IsSpecial(p[k]) {
      NotSpecial(p[k]);
    }
  }

  lemma NotSpecial(c: char)
    requires c == 'A' || c == 'a' || c == '1' || c == '`'
    ensures !IsSpecial(c)
  {
    forall k | 0 <= k < |SpecialChars| ensures SpecialChars[k] != c {
    }
  }

  /** The confirmation must repeat the password exactly. */
  lemma ConfirmationComparesExactly()
    ensures ValidateConfirmPassword("Aa1!aaab", "Aa1!aaaa").status == Error(PasswordsDiffer)
    ensures ValidateConfirmPassword("Aa1!aaaa", "Aa1!aaaa").valid
    ensures ValidateConfirmPassword("aa1!aaaa", "Aa1!aaaa").status == Error(PasswordsDiffer)
  {
    assert "Aa1!aaab"[7] != "Aa1!aaaa"[7];
    assert "aa1!aaaa"[0] != "Aa1!aaaa"[0];
  }

  /** Each rule reports its own message on the empty value. */
  lemma EmptyValuesAreRequired(password: string)
    ensures ValidateUsername("").status == Error(UsernameRequired)
    ensures ValidateEmail("").status == Error(EmailRequired)
    ensures ValidatePassword("").status == Error(PasswordRequired)
    ensures ValidateConfirmPassword("", password).status == Error(ConfirmRequired)
  {
  }

  // ---------------------------------------------------------------------------
  // Email shapes
  // ---------------------------------------------------------------------------

  lemma ExampleComIsDomain()
    ensures EmailPattern.Domain("example.com")
  {
    assert EmailPattern.LabelsSplit("example.", 7);
    var d := "example.com";
    assert d[..8] == "example." && d[8..] == "com";
    assert EmailPattern.HostNameSplit(d, 8);
  }

  lemma PlainAddressMatches()
    ensures EmailPattern.Matches("user@example.com")
  {
    var s := "user@example.com";
    ExampleComIsDomain();
    assert EmailPattern.Atom("user");
    assert s[..4] == "user" && s[5..] == "example.com";
    assert EmailPattern.MatchSplit(s, 4);
  }

  lemma PlainAddressIsLowerCase()
    ensures LowerAscii("user@example.com") == "user@example.com"
  {
    LowerAsciiKeepsLowercase("user@example.com");
  }

  lemma PlainAddressIsValid()
    ensures ValidateEmail("user@example.com").valid
  {
    PlainAddressMatches();
    PlainAddressIsLowerCase();
  }

  lemma LowerCaseOfMixedAddress()
    ensures LowerAscii("USER@Example.COM") == "user@example.com"
  {
    var u := "USER@Example.COM";
    var l := LowerAscii(u);
    forall k | 0 <= k < |u| ensures l[k] == "user@example.com"[k] {
      assert l[k] == LowerChar(u[k]);
    }
  }

  /** Matching is done on the lower-cased value, so case does not matter. */
  lemma UpperCaseAddressIsValid()
    ensures ValidateEmail("USER@Example.COM").valid
  {
    LowerCaseOfMixedAddress();
    PlainAddressMatches();
  }

  lemma NoAtIsInvalid()
    ensures ValidateEmail("abc").status == Error(EmailInvalid)
  {
    EmailWithoutAtIsInvalid("abc");
  }

  lemma BareHostDoesNotMatch()
    ensures !EmailPattern.Recognise("a@b")
  {
    var s := "a@b";
    EmailPattern.LastSeparator(s, '@', 1);
    assert s[2..] == "b";
    assert !EmailPattern.IsDomain("b");
  }

  /** A domain needs a dot and a top label: "a@b" is rejected. */
  lemma BareHostIsInvalid()
    ensures ValidateEmail("a@b").status == Error(EmailInvalid)
  {
    BareHostDoesNotMatch();
    LowerAsciiKeepsLowercase("a@b");
    EmailPattern.MatchesCorrect("a@b");
  }

  lemma DoubleAtDoesNotMatch()
    ensures !EmailPattern.Recognise("x@@y.com")
  {
    var t := "x@@y.com";
    EmailPattern.LastSeparator(t, '@', 2);
    var local := t[..2];
    assert local == "x@";
    assert !EmailPattern.IsAtomChar(local[1]);
    assert !EmailPattern.IsLocalPart(local);
  }

  /** "x@@y.com" is rejected: neither '@' splits it into a local part and a domain. */
  lemma DoubleAtIsInvalid()
    ensures ValidateEmail("x@@y.com").status == Error(EmailInvalid)
  {
    DoubleAtDoesNotMatch();
    LowerAsciiKeepsLowercase("x@@y.com");
    EmailPattern.MatchesCorrect("x@@y.com");
  }

  lemma QuotedAddressMatches()
    ensures EmailPattern.Matches("\"a@b\"@x.io")
  {
    var s := "\"a@b\"@x.io";
    assert EmailPattern.LabelsSplit("x.", 1);
    var d := "x.io";
    assert d[..2] == "x." && d[2..] == "io";
    assert EmailPattern.HostNameSplit(d, 2);
    assert s[..5] == "\"a@b\"" && s[6..] == d;
    assert EmailPattern.QuotedString(s[..5]);
    assert EmailPattern.MatchSplit(s, 5);
  }

  /** A quoted local part may itself contain an '@'; the split is at the last one. */
  lemma QuotedLocalPartWithAt()
    ensures ValidateEmail("\"a@b\"@x.io").valid
  {
    QuotedAddressMatches();
    QuotedAddressIsLowerCase();
  }

  lemma QuotedAddressIsLowerCase()
    ensures LowerAscii("\"a@b\"@x.io") == "\"a@b\"@x.io"
  {
    LowerAsciiKeepsLowercase("\"a@b\"@x.io");
  }

  lemma TwoGroups()
    ensures EmailPattern.Octets("0.255", 2)
  {
    var g := "0.255";
    assert g[..1] == "0" && g[2..] == "255";
    assert EmailPattern.Octets("255", 1);
    assert EmailPattern.OctetsSplit(g, 2, 1);
  }

  lemma ThreeGroups()
    ensures EmailPattern.Octets("0.0.255", 3)
  {
    var g := "0.0.255";
    assert g[..1] == "0" && g[2..] == "0.255";
    TwoGroups();
    assert EmailPattern.OctetsSplit(g, 3, 1);
  }

  lemma FourGroups()
    ensures EmailPattern.Octets("10.0.0.255", 4)
  {
    var g := "10.0.0.255";
    assert g[..2] == "10" && g[3..] == "0.0.255";
    assert EmailPattern.OctetDigits(g[..2]);
    ThreeGroups();
    assert EmailPattern.OctetsSplit(g, 4, 2);
  }

  lemma DottedQuadIsIpLiteral()
    ensures EmailPattern.IpLiteral("[10.0.0.255]")
  {
    var d := "[10.0.0.255]";
    assert d[1..|d| - 1] == "10.0.0.255";
    FourGroups();
  }

  lemma IpLiteralAddressMatches()
    ensures EmailPattern.Matches("u@[10.0.0.255]")
  {
    var s := "u@[10.0.0.255]";
    DottedQuadIsIpLiteral();
    assert s[..1] == "u" && s[2..] == "[10.0.0.255]";
    assert EmailPattern.Atom("u");
    assert EmailPattern.MatchSplit(s, 1);
  }

  lemma IpLiteralDomainIsValid()
    ensures ValidateEmail("u@[10.0.0.255]").valid
  {
    IpLiteralAddressMatches();
    IpLiteralAddressIsLowerCase();
  }

  lemma IpLiteralAddressIsLowerCase()
    ensures LowerAscii("u@[10.0.0.255]") == "u@[10.0.0.255]"
  {
    LowerAsciiKeepsLowercase("u@[10.0.0.255]");
  }

  lemma LongOctetIsNotDomain()
    ensures !EmailPattern.IsDomain("[1234.0.0.1]")
  {
    var d := "[1234.0.0.1]";
    var inner := d[1..|d| - 1];
    assert inner == "1234.0.0.1";
    EmailPattern.FirstSeparator(inner, '.', 4);
    assert !EmailPattern.OctetDigits(inner[..4]);
    assert !EmailPattern.IsIpLiteral(d);
    EmailPattern.LastSeparator(d, '.', 9);
    assert d[10..] == "1]";
    assert !EmailPattern.IsHostName(d);
  }

  /** A group of four digits is not an address octet. */
  lemma LongOctetIsInvalid()
    ensures ValidateEmail("u@[1234.0.0.1]").status == Error(EmailInvalid)
  {
    var t := "u@[1234.0.0.1]";
    EmailPattern.LastSeparator(t, '@', 1);
    assert t[2..] == "[1234.0.0.1]";
    LongOctetIsNotDomain();
    assert !EmailPattern.Recognise(t);
    LowerAsciiKeepsLowercase(t);
    EmailPattern.MatchesCorrect(t);
  }
}

/**
  The anchored email pattern of `validateEmail`, as a language.

  The ghost predicates follow the structure of the regular expression
  piece by piece; the split points the expression leaves open are
  existentials. The compiled predicates decide the same language by a
  deterministic parse: the domain never contains an '@', so the split is at
  the last '@'; a dot-separated run of pieces splits at its first '.'; and a
  host name's top label starts after its last '.'. The `...Correct` lemmas
  prove the two agree on every string.
 */
module EmailPattern {
  import opened Wrappers
  import opened Text

  // ---------------------------------------------------------------------------
  // Character classes and single pieces
  // ---------------------------------------------------------------------------

  /** `[^<>()[\]\\.,;:\s@"]`: a character allowed in an unquoted local atom. */
  predicate IsAtomChar(c: char) {
    c !in "<>()[]\\.,;:@\"" && !IsWhitespace(c)
  }

  /** `[a-zA-Z\-0-9]`: a character allowed in a domain label. */
  predicate IsLabelChar(c: char) {
    IsAsciiLetter(c) || IsDigit(c) || c == '-'
  }

  /** One or more atom characters. */
  predicate Atom(s: string) {
    |s| > 0 && forall k | 0 <= k < |s| :: IsAtomChar(s[k])
  }

  /** `".+"`: a quote, one or more non-line-terminators, a quote. */
  predicate QuotedString(s: string) {
    && |s| >= 3 && s[0] == '"' && s[|s| - 1] == '"'
    && forall k | 0 < k < |s| - 1 :: !IsLineTerminator(s[k])
  }

  /** `[0-9]{1,3}` */
  predicate OctetDigits(s: string) {
    1 <= |s| <= 3 && forall k | 0 <= k < |s| :: IsDigit(s[k])
  }

  /** `[a-zA-Z\-0-9]+` */
  predicate Label(s: string) {
    |s| > 0 && forall k | 0 <= k < |s| :: IsLabelChar(s[k])
  }

  /** `[a-zA-Z]{2,}` */
  predicate TopLabel(s: string) {
    |s| >= 2 && forall k | 0 <= k < |s| :: IsAsciiLetter(s[k])
  }

  // ---------------------------------------------------------------------------
  // The pattern, piece by piece
  // ---------------------------------------------------------------------------

  /** `A(\.A)*` with `A` an atom. */
  ghost predicate DotAtom(s: string)
    decreases |s|, 1
  {
    Atom(s) || exists i :: DotAtomSplit(s, i)
  }

  /** `s` is an atom, a '.' at `i`, then a dot-atom. */
  ghost predicate DotAtomSplit(s: string, i: int)
    decreases |s|, 0
  {
    0 < i < |s| && s[i] == '.' && Atom(s[..i]) && DotAtom(s[i + 1..])
  }

  /** The part before the '@': a dot-atom or a quoted string. */
  ghost predicate LocalPart(s: string) {
    DotAtom(s) || QuotedString(s)
  }

  /** `n` groups of one to three digits separated by dots. */
  ghost predicate Octets(s: string, n: nat)
    decreases n, 1
  {
    if n <= 1 then n == 1 && OctetDigits(s) else exists i :: OctetsSplit(s, n, i)
  }

  /** `s` is a digit group, a '.' at `i`, then `n - 1` more groups. */
  ghost predicate OctetsSplit(s: string, n: nat, i: int)
    requires n > 1
    decreases n, 0
  {
    0 < i < |s| && s[i] == '.' && OctetDigits(s[..i]) && Octets(s[i + 1..], n - 1)
  }

  /** `\[d{1,3}\.d{1,3}\.d{1,3}\.d{1,3}\]` */
  ghost predicate IpLiteral(s: string) {
    |s| >= 2 && s[0] == '[' && s[|s| - 1] == ']' && Octets(s[1..|s| - 1], 4)
  }

  /** `(L\.)+` with `L` a label. */
  ghost predicate Labels(s: string)
    decreases |s|, 1
  {
    exists i :: LabelsSplit(s, i)
  }

  /** `s` is a label, a '.' at `i`, then nothing or more `(L\.)+`. */
  ghost predicate LabelsSplit(s: string, i: int)
    decreases |s|, 0
  {
    0 < i < |s| && s[i] == '.' && Label(s[..i]) && (i + 1 == |s| || Labels(s[i + 1..]))
  }

  /** `(L\.)+[a-zA-Z]{2,}` */
  ghost predicate HostName(s: string) {
    exists j :: HostNameSplit(s, j)
  }

  /** `s[..j]` is `(L\.)+` and `s[j..]` the top label. */
  ghost predicate HostNameSplit(s: string, j: int) {
    0 < j < |s| && Labels(s[..j]) && TopLabel(s[j..])
  }

  /** The part after the '@'. */
  ghost predicate Domain(s: string) {
    IpLiteral(s) || HostName(s)
  }

  /** The whole string matches the anchored pattern `^local@domain$`. */
  ghost predicate Matches(s: string)
  {
    exists i :: MatchSplit(s, i)
  }

  /** The local part ends at the '@' at `i`; the domain follows it. */
  ghost predicate MatchSplit(s: string, i: int) {
    0 <= i < |s| && s[i] == '@' && LocalPart(s[..i]) && Domain(s[i + 1..])
  }

  /**
    Every match holds an '@' and ends with a letter or a ']': nothing, not
    even a line terminator, may follow the domain.
   */
  lemma MatchShape(s: string)
    requires Matches(s)
    ensures '@' in s
    ensures IsAsciiLetter(s[|s| - 1]) || s[|s| - 1] == ']'
  {
  }

  // ---------------------------------------------------------------------------
  // Deterministic recogniser
  // ---------------------------------------------------------------------------

  predicate IsDotAtom(s: string)
    decreases |s|
  {
    match IndexOf(s, '.')
    case None => Atom(s)
    case Some(i) => 0 < i && Atom(s[..i]) && IsDotAtom(s[i + 1..])
  }

  predicate IsLocalPart(s: string) {
    IsDotAtom(s) || QuotedString(s)
  }

  predicate IsOctets(s: string, n: nat)
    decreases n
  {
    if n <= 1 then n == 1 && OctetDigits(s)
    else match IndexOf(s, '.')
      case None => false
      case Some(i) => OctetDigits(s[..i]) && IsOctets(s[i + 1..], n - 1)
  }

  predicate IsIpLiteral(s: string) {
    |s| >= 2 && s[0] == '[' && s[|s| - 1] == ']' && IsOctets(s[1..|s| - 1], 4)
  }

  predicate IsLabels(s: string)
    decreases |s|
  {
    match IndexOf(s, '.')
    case None => false
    case Some(i) => Label(s[..i]) && (i + 1 == |s| || IsLabels(s[i + 1..]))
  }

  predicate IsHostName(s: string) {
    match LastIndexOf(s, '.')
    case None => false
    case Some(d) => IsLabels(s[..d + 1]) && TopLabel(s[d + 1..])
  }

  predicate IsDomain(s: string) {
    IsIpLiteral(s) || IsHostName(s)
  }

  /** Decides the anchored pattern by parsing at the last '@'. */
  predicate Recognise(s: string) {
    match LastIndexOf(s, '@')
    case None => false
    case Some(i) => IsLocalPart(s[..i]) && IsDomain(s[i + 1..])
  }

  // ---------------------------------------------------------------------------
  // The recogniser decides the pattern
  // ---------------------------------------------------------------------------

  predicate Lacks(s: string, c: char) {
    forall k | 0 <= k < |s| :: s[k] != c
  }

  /**
    A separator at `j` with none before it is the first one: the witness of
    an existential split is the position the recogniser picks.
   */
  lemma FirstSeparator(s: string, c: char, j: int)
    requires 0 <= j < |s| && s[j] == c
    requires forall k | 0 <= k < j :: s[..j][k] != c
    ensures IndexOf(s, c) == Some(j)
  {
    assert forall k | 0 <= k < j :: s[k] == s[..j][k];
  }

  /** Likewise, a separator at `j` with none after it is the last one. */
  lemma LastSeparator(s: string, c: char, j: int)
    requires 0 <= j < |s| && s[j] == c
    requires Lacks(s[j + 1..], c)
    ensures LastIndexOf(s, c) == Some(j)
  {
    assert forall k | j < k < |s| :: s[k] == s[j + 1..][k - j - 1];
  }

  /** A dot-atom with a '.' in it splits at its first '.'. */
  lemma DotAtomSplitsAtFirstDot(s: string, i: int)
    requires IndexOf(s, '.') == Some(i)
    requires DotAtom(s)
    ensures DotAtomSplit(s, i)
  {
    assert !IsAtomChar(s[i]);
    var j :| DotAtomSplit(s, j);
    FirstSeparator(s, '.', j);
  }

  /** Digit groups split at their first '.'. */
  lemma OctetsSplitAtFirstDot(s: string, n: nat, i: int)
    requires n > 1
    requires IndexOf(s, '.') == Some(i)
    requires Octets(s, n)
    ensures OctetsSplit(s, n, i)
  {
    var j :| OctetsSplit(s, n, j);
    FirstSeparator(s, '.', j);
  }

  /** `(L\.)+` splits at its first '.'. */
  lemma LabelsSplitAtFirstDot(s: string, i: int)
    requires IndexOf(s, '.') == Some(i)
    requires Labels(s)
    ensures LabelsSplit(s, i)
  {
    var j :| LabelsSplit(s, j);
    FirstSeparator(s, '.', j);
  }

  lemma {:induction false} DotAtomCorrect(s: string)
    ensures IsDotAtom(s) <==> DotAtom(s)
    decreases |s|
  {
    match IndexOf(s, '.')
    case None =>
    case Some(i) =>
      DotAtomCorrect(s[i + 1..]);
      assert !Atom(s) by { assert !IsAtomChar(s[i]); }
      if IsDotAtom(s) {
        assert DotAtomSplit(s, i);
      }
      if DotAtom(s) {
        DotAtomSplitsAtFirstDot(s, i);
      }
  }

  lemma LocalPartCorrect(s: string)
    ensures IsLocalPart(s) <==> LocalPart(s)
  {
    DotAtomCorrect(s);
  }

  lemma {:induction false} OctetsCorrect(s: string, n: nat)
    ensures IsOctets(s, n) <==> Octets(s, n)
    decreases n
  {
    if n > 1 {
      match IndexOf(s, '.')
      case None =>
      case Some(i) =>
        OctetsCorrect(s[i + 1..], n - 1);
        if IsOctets(s, n) {
          assert OctetsSplit(s, n, i);
        }
        if Octets(s, n) {
          OctetsSplitAtFirstDot(s, n, i);
        }
    }
  }

  lemma IpLiteralCorrect(s: string)
    ensures IsIpLiteral(s) <==> IpLiteral(s)
  {
    if |s| >= 2 {
      OctetsCorrect(s[1..|s| - 1], 4);
    }
  }

  lemma {:induction false} LabelsCorrect(s: string)
    ensures IsLabels(s) <==> Labels(s)
    decreases |s|
  {
    match IndexOf(s, '.')
    case None =>
    case Some(i) =>
      if i + 1 < |s| {
        LabelsCorrect(s[i + 1..]);
      }
      if IsLabels(s) {
        assert LabelsSplit(s, i);
      }
      if Labels(s) {
        LabelsSplitAtFirstDot(s, i);
      }
  }

  /** Every `(L\.)+` string ends with its separator and uses only label characters and dots. */
  lemma {:induction false} LabelsShape(s: string)
    requires Labels(s)
    ensures |s| > 0 && s[|s| - 1] == '.'
    ensures forall k | 0 <= k < |s| :: s[k] == '.' || IsLabelChar(s[k])
    decreases |s|
  {
    var i :| LabelsSplit(s, i);
    if i + 1 < |s| {
      var t := s[i + 1..];
      LabelsShape(t);
      forall k | i < k < |s| ensures s[k] == '.' || IsLabelChar(s[k]) {
        assert s[k] == t[k - i - 1];
      }
    }
    forall k | 0 <= k < i ensures IsLabelChar(s[k]) {
      assert s[k] == s[..i][k];
    }
  }

  lemma HostNameCorrect(s: string)
    ensures IsHostName(s) <==> HostName(s)
  {
    match LastIndexOf(s, '.')
    case None =>
      forall j | HostNameSplit(s, j) ensures false {
        LabelsShape(s[..j]);
      }
    case Some(d) =>
      LabelsCorrect(s[..d + 1]);
      if IsHostName(s) {
        assert HostNameSplit(s, d + 1);
      }
      if HostName(s) {
        var j :| HostNameSplit(s, j);
        LabelsShape(s[..j]);
        LastSeparator(s, '.', j - 1);
      }
  }

  lemma DomainCorrect(s: string)
    ensures IsDomain(s) <==> Domain(s)
  {
    IpLiteralCorrect(s);
    HostNameCorrect(s);
  }

  /** Digit groups use only digits and dots. */
  lemma {:induction false} OctetsShape(s: string, n: nat)
    requires Octets(s, n)
    ensures forall k | 0 <= k < |s| :: s[k] == '.' || IsDigit(s[k])
    decreases n
  {
    if n > 1 {
      var i :| OctetsSplit(s, n, i);
      var t := s[i + 1..];
      OctetsShape(t, n - 1);
      forall k | 0 <= k < |s| ensures s[k] == '.' || IsDigit(s[k]) {
        if k < i { assert s[k] == s[..i][k]; }
        else if k > i { assert s[k] == t[k - i - 1]; }
      }
    }
  }

  /** No domain contains an '@'. */
  lemma DomainHasNoAt(s: string)
    requires Domain(s)
    ensures Lacks(s, '@')
  {
    if IpLiteral(s) {
      var inner := s[1..|s| - 1];
      OctetsShape(inner, 4);
      forall k | 0 <= k < |s| ensures s[k] != '@' {
        if 0 < k < |s| - 1 { assert s[k] == inner[k - 1]; }
      }
    } else {
      var j :| HostNameSplit(s, j);
      LabelsShape(s[..j]);
      forall k | 0 <= k < |s| ensures s[k] != '@' {
        if k < j { assert s[k] == s[..j][k]; }
        else { assert s[k] == s[j..][k - j]; }
      }
    }
  }

  /**
    The deterministic recogniser decides exactly the anchored pattern, and
    the only '@' that can separate local part from domain is the last one.
   */
  lemma MatchesCorrect(s: string)
    ensures Recognise(s) <==> Matches(s)
    ensures forall i :: MatchSplit(s, i) ==> LastIndexOf(s, '@') == Some(i)
  {
    forall i | MatchSplit(s, i) ensures LastIndexOf(s, '@') == Some(i) {
      DomainHasNoAt(s[i + 1..]);
      LastSeparator(s, '@', i);
    }
    match LastIndexOf(s, '@')
    case None =>
    case Some(i) =>
      LocalPartCorrect(s[..i]);
      DomainCorrect(s[i + 1..]);
      if Recognise(s) {
        assert MatchSplit(s, i);
      }
  }

  /** `regex.test`: true exactly when the anchored pattern matches. */
  function IsEmail(s: string): (b: bool)
    ensures b <==> Matches(s)
  {
    MatchesCorrect(s);
    Recognise(s)
  }
}

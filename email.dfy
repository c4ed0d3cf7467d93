/** The e-mail address check of the user schema (`validateEmail`): the address is lower-cased
    and then matched, as a whole, against the grammar

      local  ::= atom ("." atom)*  |  '"' any+ '"'
      domain ::= "[" d{1,3} "." d{1,3} "." d{1,3} "." d{1,3} "]"  |  (label ".")+ top
      email  ::= local "@" domain

    where an atom avoids `<>()[]\.,;:`, white space, `@` and `"`, `any` is anything but a line
    terminator, a label is letters, digits and `-`, and the top label is two or more letters.
    The recognisers below follow the grammar (a split point for every concatenation); the
    `...Form` predicates say the same thing without split points, and the lemmas connect them. */
module Email {

  // ---------------------------------------------------------------------------------------
  // Character classes

  /** What `.` in a JavaScript regular expression (no `s` flag) refuses. */
  predicate IsLineTerminator(c: char) {
    c == '\n' || c == '\r' || c == '\U{2028}' || c == '\U{2029}'
  }

  /** JavaScript's `\s`: the ECMAScript WhiteSpace and LineTerminator code points. */
  predicate IsWhitespace(c: char) {
    IsLineTerminator(c) || c == '\t' || c == '\U{000B}' || c == '\U{000C}' || c == ' '
    || c == '\U{00A0}' || c == '\U{1680}' || ('\U{2000}' <= c <= '\U{200A}')
    || c == '\U{202F}' || c == '\U{205F}' || c == '\U{3000}' || c == '\U{FEFF}'
  }

  predicate IsDigit(c: char) { '0' <= c <= '9' }

  predicate IsLetter(c: char) { 'a' <= c <= 'z' || 'A' <= c <= 'Z' }

  /** `[^<>()\[\]\\.,;:\s@"]` */
  predicate IsAtomChar(c: char) {
    && c != '<' && c != '>' && c != '(' && c != ')' && c != '[' && c != ']' && c != '\\'
    && c != '.' && c != ',' && c != ';' && c != ':' && c != '@' && c != '"'
    && !IsWhitespace(c)
  }

  /** `[a-zA-Z\-0-9]` */
  predicate IsLabelChar(c: char) { IsLetter(c) || IsDigit(c) || c == '-' }

  // ---------------------------------------------------------------------------------------
  // Lower-casing

  /** `toLowerCase` on one character: the ASCII capitals, and KELVIN SIGN, whose lower case is
      the ASCII letter `k`; every other character is left as it is. */
  function LowerChar(c: char): (r: char)
    ensures IsLetter(c) || c == '\U{212A}' ==> 'a' <= r <= 'z'
    ensures !IsLetter(c) && c != '\U{212A}' ==> r == c
  {
    if 'A' <= c <= 'Z' then (c as int + 32) as char
    else if c == '\U{212A}' then 'k'
    else c
  }

  function ToLower(s: string): (r: string)
    ensures |r| == |s| && forall i :: 0 <= i < |s| ==> r[i] == LowerChar(s[i])
  {
    seq(|s|, i requires 0 <= i < |s| => LowerChar(s[i]))
  }

  lemma ToLowerAppend(a: string, b: string)
    ensures ToLower(a + b) == ToLower(a) + ToLower(b)
  {
    assert forall i :: 0 <= i < |a + b| ==> ToLower(a + b)[i] == (ToLower(a) + ToLower(b))[i];
  }

  // ---------------------------------------------------------------------------------------
  // Position helpers

  /** Position of the first `c` in `s`, or -1. */
  function IndexOf(s: string, c: char): (r: int)
    ensures -1 <= r < |s|
    ensures r == -1 ==> forall i :: 0 <= i < |s| ==> s[i] != c
    ensures r >= 0 ==> s[r] == c && forall i :: 0 <= i < r ==> s[i] != c
  {
    if |s| == 0 then -1
    else if s[0] == c then 0
    else
      var r := IndexOf(s[1..], c);
      if r == -1 then -1 else r + 1
  }

  /** Position of the last `c` in `s`, or -1. */
  function LastIndexOf(s: string, c: char): (r: int)
    ensures -1 <= r < |s|
    ensures r == -1 ==> forall i :: 0 <= i < |s| ==> s[i] != c
    ensures r >= 0 ==> s[r] == c && forall i :: r < i < |s| ==> s[i] != c
  {
    if |s| == 0 then -1
    else if s[|s| - 1] == c then |s| - 1
    else LastIndexOf(s[..|s| - 1], c)
  }

  /** A `c` with none before it is the first one. */
  lemma FirstOccurrence(s: string, c: char, k: int)
    requires 0 <= k < |s| && s[k] == c && forall x :: 0 <= x < k ==> s[x] != c
    ensures IndexOf(s, c) == k
  {
  }

  /** A `c` with none after it is the last one. */
  lemma LastOccurrence(s: string, c: char, k: int)
    requires 0 <= k < |s| && s[k] == c && forall x :: k < x < |s| ==> s[x] != c
    ensures LastIndexOf(s, c) == k
  {
  }

  // ---------------------------------------------------------------------------------------
  // The grammar, one recogniser per part of the pattern

  /** `atom+`: one run of atom characters. */
  predicate IsAtom(s: string) {
    |s| >= 1 && forall i :: 0 <= i < |s| ==> IsAtomChar(s[i])
  }

  /** `atom+(\.atom+)*`: the first atom, then a dot and the rest. */
  predicate IsDotAtom(s: string)
    decreases |s|
  {
    IsAtom(s)
    || exists k :: 0 < k < |s| && s[k] == '.' && IsAtom(s[..k]) && IsDotAtom(s[k + 1..])
  }

  /** `".+"`: a quote, one or more characters that are not line terminators, a quote. */
  predicate IsQuoted(s: string) {
    |s| >= 3 && s[0] == '"' && s[|s| - 1] == '"'
    && forall i :: 1 <= i < |s| - 1 ==> !IsLineTerminator(s[i])
  }

  predicate IsLocalPart(s: string) {
    IsDotAtom(s) || IsQuoted(s)
  }

  /** `[0-9]{1,3}`: no range check on the value. */
  predicate IsOctet(s: string) {
    1 <= |s| <= 3 && forall i :: 0 <= i < |s| ==> IsDigit(s[i])
  }

  /** `[0-9]{1,3}\.[0-9]{1,3}`. An octet holds no dot, so the pattern's `\.` can only be the
      first dot of the text: the split point is `IndexOf`, not a choice. */
  predicate IsTwoOctets(s: string) {
    var i := IndexOf(s, '.');
    0 < i && IsOctet(s[..i]) && IsOctet(s[i + 1..])
  }

  /** `[0-9]{1,3}\.[0-9]{1,3}\.[0-9]{1,3}` */
  predicate IsThreeOctets(s: string) {
    var i := IndexOf(s, '.');
    0 < i && IsOctet(s[..i]) && IsTwoOctets(s[i + 1..])
  }

  /** `[0-9]{1,3}\.[0-9]{1,3}\.[0-9]{1,3}\.[0-9]{1,3}` */
  predicate IsFourOctets(s: string) {
    var i := IndexOf(s, '.');
    0 < i && IsOctet(s[..i]) && IsThreeOctets(s[i + 1..])
  }

  /** `\[...\]` around four octets. */
  predicate IsAddressLiteral(s: string) {
    |s| >= 2 && s[0] == '[' && s[|s| - 1] == ']' && IsFourOctets(s[1..|s| - 1])
  }

  /** `[a-zA-Z\-0-9]+` */
  predicate IsLabel(s: string) {
    |s| >= 1 && forall i :: 0 <= i < |s| ==> IsLabelChar(s[i])
  }

  /** `([a-zA-Z\-0-9]+\.)+`: a label and a dot, then possibly more of them. */
  predicate IsLabels(s: string)
    decreases |s|
  {
    exists k :: 0 < k < |s| && s[k] == '.' && IsLabel(s[..k])
      && (k == |s| - 1 || IsLabels(s[k + 1..]))
  }

  /** `[a-zA-Z]{2,}` */
  predicate IsTopLabel(s: string) {
    |s| >= 2 && forall i :: 0 <= i < |s| ==> IsLetter(s[i])
  }

  predicate IsHostName(s: string) {
    exists k :: 0 < k < |s| && IsLabels(s[..k]) && IsTopLabel(s[k..])
  }

  predicate IsDomain(s: string) {
    IsAddressLiteral(s) || IsHostName(s)
  }

  /** The whole pattern, anchored at both ends: some `@` splits the text into a local part and
      a domain. */
  predicate MatchesEmailPattern(s: string) {
    exists i :: 0 <= i < |s| && s[i] == '@' && IsLocalPart(s[..i]) && IsDomain(s[i + 1..])
  }

  /** `validateEmail(email)`: the pattern tested on the lower-cased address. */
  predicate ValidateEmail(email: string) {
    MatchesEmailPattern(ToLower(email))
  }

  // ---------------------------------------------------------------------------------------
  // The same languages without split points

  /** Atom characters and dots, neither first nor last a dot, never two dots in a row. */
  predicate DotAtomForm(s: string) {
    && |s| >= 1 && s[0] != '.' && s[|s| - 1] != '.'
    && (forall i :: 0 <= i < |s| ==> s[i] == '.' || IsAtomChar(s[i]))
    && (forall i :: 0 <= i < |s| - 1 ==> s[i] != '.' || s[i + 1] != '.')
  }

  /** Label characters and dots, not starting with a dot, ending with one, never two in a row. */
  predicate LabelsForm(s: string) {
    && |s| >= 2 && s[0] != '.' && s[|s| - 1] == '.'
    && (forall i :: 0 <= i < |s| ==> s[i] == '.' || IsLabelChar(s[i]))
    && (forall i :: 0 <= i < |s| - 1 ==> s[i] != '.' || s[i + 1] != '.')
  }

  /** Everything up to and including the last dot is `LabelsForm`, the rest is the top label. */
  predicate HostNameForm(s: string) {
    var d := LastIndexOf(s, '.');
    d >= 1 && LabelsForm(s[..d + 1]) && IsTopLabel(s[d + 1..])
  }

  /** A local part without split points. */
  predicate LocalForm(s: string) {
    DotAtomForm(s) || IsQuoted(s)
  }

  /** A domain without split points. */
  predicate DomainForm(s: string) {
    IsAddressLiteral(s) || HostNameForm(s)
  }

  /** The address without split points: the domain is what follows the LAST `@`. */
  predicate EmailForm(s: string) {
    var a := LastIndexOf(s, '@');
    a >= 0 && LocalForm(s[..a]) && DomainForm(s[a + 1..])
  }

  // ---------------------------------------------------------------------------------------
  // Dotted local parts

  /** An atom, a dot and a dotted atom make a dotted atom. */
  lemma DotAtomJoin(s: string, k: int)
    requires 0 < k < |s| && s[k] == '.' && IsAtom(s[..k]) && DotAtomForm(s[k + 1..])
    ensures DotAtomForm(s)
  {
    var rest := s[k + 1..];
    assert s[|s| - 1] == rest[|rest| - 1];
    forall i | 0 <= i < |s| ensures s[i] == '.' || IsAtomChar(s[i]) {
      if i < k { assert s[i] == s[..k][i]; }
      else if i > k { assert s[i] == rest[i - k - 1]; }
    }
    forall i | 0 <= i < |s| - 1 ensures s[i] != '.' || s[i + 1] != '.' {
      if i < k { assert s[i] == s[..k][i]; }
      else if i == k { assert s[i + 1] == rest[0]; }
      else { assert s[i] == rest[i - k - 1] && s[i + 1] == rest[i - k]; }
    }
  }

  /** A dotted atom splits at its first dot into an atom and a dotted atom. */
  lemma DotAtomSplit(s: string) returns (k: int)
    requires DotAtomForm(s) && !IsAtom(s)
    ensures 0 < k < |s| && s[k] == '.' && IsAtom(s[..k]) && DotAtomForm(s[k + 1..])
  {
    k := IndexOf(s, '.');
    assert 0 < k < |s| - 1;
    var rest := s[k + 1..];
    assert rest[0] == s[k + 1];
    assert rest[|rest| - 1] == s[|s| - 1];
    assert forall i :: 0 <= i < |rest| ==> rest[i] == s[i + k + 1];
  }

  lemma {:induction false} DotAtomSound(s: string)
    requires IsDotAtom(s)
    ensures DotAtomForm(s)
    decreases |s|
  {
    if !IsAtom(s) {
      var k :| 0 < k < |s| && s[k] == '.' && IsAtom(s[..k]) && IsDotAtom(s[k + 1..]);
      DotAtomSound(s[k + 1..]);
      DotAtomJoin(s, k);
    }
  }

  lemma {:induction false} DotAtomComplete(s: string)
    requires DotAtomForm(s)
    ensures IsDotAtom(s)
    decreases |s|
  {
    if !IsAtom(s) {
      var k := DotAtomSplit(s);
      DotAtomComplete(s[k + 1..]);
      assert 0 < k < |s| && s[k] == '.' && IsAtom(s[..k]) && IsDotAtom(s[k + 1..]);
    }
  }

  /** The grammar `atom(.atom)*` is the set of strings without a leading, trailing or doubled
      dot whose other characters are atom characters. */
  lemma DotAtomIff(s: string)
    ensures IsDotAtom(s) <==> DotAtomForm(s)
  {
    if IsDotAtom(s) { DotAtomSound(s); }
    if DotAtomForm(s) { DotAtomComplete(s); }
  }

  // ---------------------------------------------------------------------------------------
  // Host names

  /** A label and a dot, then either nothing or more dot-terminated labels. */
  lemma LabelsJoin(s: string, k: int)
    requires 0 < k < |s| && s[k] == '.' && IsLabel(s[..k])
    requires k == |s| - 1 || LabelsForm(s[k + 1..])
    ensures LabelsForm(s)
  {
    var rest := s[k + 1..];
    forall i | 0 <= i < |s| ensures s[i] == '.' || IsLabelChar(s[i]) {
      if i < k { assert s[i] == s[..k][i]; }
      else if i > k { assert s[i] == rest[i - k - 1]; }
    }
    forall i | 0 <= i < |s| - 1 ensures s[i] != '.' || s[i + 1] != '.' {
      if i < k { assert s[i] == s[..k][i]; }
      else if i == k { assert s[i + 1] == rest[0]; }
      else { assert s[i] == rest[i - k - 1] && s[i + 1] == rest[i - k]; }
    }
  }

  /** Dot-terminated labels split at their first dot. */
  lemma LabelsSplit(s: string) returns (k: int)
    requires LabelsForm(s)
    ensures 0 < k < |s| && s[k] == '.' && IsLabel(s[..k])
    ensures k == |s| - 1 || LabelsForm(s[k + 1..])
  {
    k := IndexOf(s, '.');
    assert 0 < k;
    if k < |s| - 1 {
      var rest := s[k + 1..];
      assert rest[0] == s[k + 1];
      assert rest[|rest| - 1] == s[|s| - 1];
      assert forall i :: 0 <= i < |rest| ==> rest[i] == s[i + k + 1];
    }
  }

  lemma {:induction false} LabelsSound(s: string)
    requires IsLabels(s)
    ensures LabelsForm(s)
    decreases |s|
  {
    var k :| 0 < k < |s| && s[k] == '.' && IsLabel(s[..k]) && (k == |s| - 1 || IsLabels(s[k + 1..]));
    if k < |s| - 1 {
      LabelsSound(s[k + 1..]);
    }
    LabelsJoin(s, k);
  }

  lemma {:induction false} LabelsComplete(s: string)
    requires LabelsForm(s)
    ensures IsLabels(s)
    decreases |s|
  {
    var k := LabelsSplit(s);
    if k < |s| - 1 {
      LabelsComplete(s[k + 1..]);
    }
    assert 0 < k < |s| && s[k] == '.' && IsLabel(s[..k]) && (k == |s| - 1 || IsLabels(s[k + 1..]));
  }

  lemma HostNameSound(s: string)
    requires IsHostName(s)
    ensures HostNameForm(s)
  {
    var k :| 0 < k < |s| && IsLabels(s[..k]) && IsTopLabel(s[k..]);
    LabelsSound(s[..k]);
    assert s[k - 1] == s[..k][k - 1];
    assert forall i :: k <= i < |s| ==> s[i] == s[k..][i - k];
    LastOccurrence(s, '.', k - 1);
    assert s[..k - 1 + 1] == s[..k];
  }

  lemma HostNameComplete(s: string)
    requires HostNameForm(s)
    ensures IsHostName(s)
  {
    var d := LastIndexOf(s, '.');
    LabelsComplete(s[..d + 1]);
    assert 0 < d + 1 < |s| && IsLabels(s[..d + 1]) && IsTopLabel(s[d + 1..]);
  }

  /** `(label.)+top` is: up to the last dot, dot-terminated labels; after it, the top label. */
  lemma HostNameIff(s: string)
    ensures IsHostName(s) <==> HostNameForm(s)
  {
    if IsHostName(s) { HostNameSound(s); }
    if HostNameForm(s) { HostNameComplete(s); }
  }

  // ---------------------------------------------------------------------------------------
  // Address literals

  /** Every character of an octet run is a digit or a dot. */
  predicate DigitsAndDots(s: string) {
    forall x :: 0 <= x < |s| ==> s[x] == '.' || IsDigit(s[x])
  }

  lemma JoinDigitsAndDots(s: string, i: int)
    requires 0 < i < |s| && s[i] == '.' && IsOctet(s[..i]) && DigitsAndDots(s[i + 1..])
    ensures DigitsAndDots(s)
  {
    forall x | 0 <= x < |s| ensures s[x] == '.' || IsDigit(s[x]) {
      if x < i { assert s[x] == s[..i][x]; }
      else if x > i { assert s[x] == s[i + 1..][x - i - 1]; }
    }
  }

  lemma OctetChars(s: string)
    requires IsOctet(s)
    ensures DigitsAndDots(s)
  {
  }

  lemma TwoOctetsChars(s: string)
    requires IsTwoOctets(s)
    ensures DigitsAndDots(s)
  {
    var i := IndexOf(s, '.');
    OctetChars(s[i + 1..]);
    JoinDigitsAndDots(s, i);
  }

  lemma ThreeOctetsChars(s: string)
    requires IsThreeOctets(s)
    ensures DigitsAndDots(s)
  {
    var i := IndexOf(s, '.');
    TwoOctetsChars(s[i + 1..]);
    JoinDigitsAndDots(s, i);
  }

  lemma FourOctetsChars(s: string)
    requires IsFourOctets(s)
    ensures DigitsAndDots(s)
  {
    var i := IndexOf(s, '.');
    ThreeOctetsChars(s[i + 1..]);
    JoinDigitsAndDots(s, i);
  }

  lemma OctetJoin(a: string, rest: string) returns (s: string)
    requires IsOctet(a)
    ensures s == a + "." + rest && IndexOf(s, '.') == |a| && s[..|a|] == a && s[|a| + 1..] == rest
  {
    s := a + "." + rest;
    assert s[..|a|] == a && s[|a| + 1..] == rest;
    assert forall x :: 0 <= x < |a| ==> s[x] == a[x];
    FirstOccurrence(s, '.', |a|);
  }


  lemma AddressLiteralChars(s: string)
    requires IsAddressLiteral(s)
    ensures forall x :: 0 <= x < |s| ==> s[x] == '[' || s[x] == ']' || s[x] == '.' || IsDigit(s[x])
  {
    var q := s[1..|s| - 1];
    FourOctetsChars(q);
    assert forall x :: 1 <= x < |s| - 1 ==> s[x] == q[x - 1];
  }

  /** An address literal holds dots, so a domain without one is not an address literal. */
  lemma NoDotNotAddressLiteral(s: string)
    requires forall x :: 0 <= x < |s| ==> s[x] != '.'
    ensures !IsAddressLiteral(s)
  {
    if |s| >= 2 {
      var q := s[1..|s| - 1];
      assert forall x :: 0 <= x < |q| ==> q[x] == s[x + 1];
    }
  }

  // ---------------------------------------------------------------------------------------
  // The domain never holds an `@`, so the split is at the last one

  lemma DomainHasNoAt(s: string)
    requires IsDomain(s)
    ensures forall x :: 0 <= x < |s| ==> s[x] != '@'
  {
    if IsAddressLiteral(s) {
      AddressLiteralChars(s);
    } else {
      HostNameIff(s);
      var d := LastIndexOf(s, '.');
      var p := s[..d + 1];
      forall x | 0 <= x < |s| ensures s[x] != '@' {
        if x <= d { assert s[x] == p[x]; } else { assert s[x] == s[d + 1..][x - d - 1]; }
      }
    }
  }

  lemma LocalIff(s: string)
    ensures IsLocalPart(s) <==> LocalForm(s)
  {
    DotAtomIff(s);
  }

  lemma DomainIff(s: string)
    ensures IsDomain(s) <==> DomainForm(s)
  {
    HostNameIff(s);
  }


  /** The `@` in front of a domain is the last one. */
  lemma DomainAfterLastAt(s: string, i: int)
    requires 0 <= i < |s| && s[i] == '@' && IsDomain(s[i + 1..])
    ensures LastIndexOf(s, '@') == i
  {
    DomainHasNoAt(s[i + 1..]);
    assert forall x :: i < x < |s| ==> s[x] == s[i + 1..][x - i - 1];
    LastOccurrence(s, '@', i);
  }

  lemma EmailSound(s: string)
    requires MatchesEmailPattern(s)
    ensures EmailForm(s)
  {
    var i :| 0 <= i < |s| && s[i] == '@' && IsLocalPart(s[..i]) && IsDomain(s[i + 1..]);
    DomainAfterLastAt(s, i);
    LocalIff(s[..i]);
    DomainIff(s[i + 1..]);
  }

  lemma EmailComplete(s: string)
    requires EmailForm(s)
    ensures MatchesEmailPattern(s)
  {
    var a := LastIndexOf(s, '@');
    LocalIff(s[..a]);
    DomainIff(s[a + 1..]);
    assert 0 <= a < |s| && s[a] == '@' && IsLocalPart(s[..a]) && IsDomain(s[a + 1..]);
  }

  /** The pattern can only split at the last `@` (a quoted local part may itself hold one);
      with the two lemmas above this states the whole check without split points. */
  lemma EmailIff(s: string)
    ensures MatchesEmailPattern(s) <==> EmailForm(s)
  {
    if MatchesEmailPattern(s) { EmailSound(s); }
    if EmailForm(s) { EmailComplete(s); }
  }

  // ---------------------------------------------------------------------------------------
  // Consequences for `validateEmail`

  /** Lower-casing `local@domain` lower-cases the two halves, and the `@` between them is the
      last one. */
  lemma LowerSplit(local: string, domain: string) returns (s: string)
    requires forall i :: 0 <= i < |domain| ==> domain[i] != '@'
    ensures s == ToLower(local + "@" + domain)
    ensures LastIndexOf(s, '@') == |local|
    ensures s[..|local|] == ToLower(local) && s[|local| + 1..] == ToLower(domain)
  {
    s := ToLower(local + "@" + domain);
    var n := |local|;
    ToLowerAppend(local + "@", domain);
    ToLowerAppend(local, "@");
    var l, d := ToLower(local), ToLower(domain);
    assert s == l + "@" + d;
    assert s[..n] == l && s[n + 1..] == d;
    assert forall x :: n < x < |s| ==> s[x] == LowerChar(domain[x - n - 1]);
    LastOccurrence(s, '@', n);
  }

  /** For `local@domain` with no `@` in the domain, the check is decided by the lower-cased
      local part and domain separately. */
  lemma ValidateSplit(local: string, domain: string)
    requires forall i :: 0 <= i < |domain| ==> domain[i] != '@'
    ensures ValidateEmail(local + "@" + domain) <==>
      LocalForm(ToLower(local)) && DomainForm(ToLower(domain))
  {
    var s := LowerSplit(local, domain);
    EmailIff(s);
    EmailFormAt(s, |local|);
  }

  lemma EmailFormAt(s: string, n: int)
    requires 0 <= n < |s| && LastIndexOf(s, '@') == n
    ensures EmailForm(s) <==> LocalForm(s[..n]) && DomainForm(s[n + 1..])
  {
  }

  /** Letter case does not matter: two addresses that lower-case alike are judged alike. */
  lemma ValidateEmailIgnoresCase(a: string, b: string)
    requires |a| == |b| && forall i :: 0 <= i < |a| ==> LowerChar(a[i]) == LowerChar(b[i])
    ensures ValidateEmail(a) == ValidateEmail(b)
  {
    assert ToLower(a) == ToLower(b);
  }

  /** A domain without a dot is refused (so `x@localhost`). */
  lemma HostWithoutDotRejected(local: string, host: string)
    requires forall i :: 0 <= i < |host| ==> host[i] != '@' && host[i] != '.'
    ensures !ValidateEmail(local + "@" + host)
  {
    ValidateSplit(local, host);
    var d := ToLower(host);
    assert forall x :: 0 <= x < |d| ==> d[x] != '.';
    assert LastIndexOf(d, '.') == -1;
    NoDotNotAddressLiteral(d);
  }

  lemma LocalhostRejected()
    ensures !ValidateEmail("x@localhost")
  {
    HostWithoutDotRejected("x", "localhost");
    assert "x" + "@" + "localhost" == "x@localhost";
  }

  /** A top label holding a digit is refused (so `a@b.c0m`); the exception would be an address
      literal, which ends in `]`. */
  lemma DigitInTopLabelRejected(local: string, host: string, top: string, n: int)
    requires forall i :: 0 <= i < |host| ==> host[i] != '@'
    requires forall i :: 0 <= i < |top| ==> top[i] != '@' && top[i] != '.'
    requires 0 <= n < |top| && IsDigit(top[n]) && top[|top| - 1] != ']'
    ensures !ValidateEmail(local + "@" + host + "." + top)
  {
    var domain := host + "." + top;
    assert local + "@" + host + "." + top == local + "@" + domain;
    assert forall i :: 0 <= i < |domain| ==> domain[i] != '@';
    ValidateSplit(local, domain);
    TopLabelDigit(host, top, n);
  }

  lemma TopLabelDigit(host: string, top: string, n: int)
    requires forall i :: 0 <= i < |top| ==> top[i] != '.'
    requires 0 <= n < |top| && IsDigit(top[n]) && top[|top| - 1] != ']'
    ensures !DomainForm(ToLower(host + "." + top))
  {
    var d := ToLower(host + "." + top);
    var t := |host|;
    assert d[t] == '.';
    assert forall x :: t < x < |d| ==> d[x] == LowerChar(top[x - t - 1]);
    LastOccurrence(d, '.', t);
    assert d[t + 1..][n] == top[n];
    assert d[|d| - 1] != ']';
  }

  lemma DigitTopLabelExample()
    ensures !ValidateEmail("a@b.c0m")
  {
    DigitInTopLabelRejected("a", "b", "c0m", 1);
    assert "a" + "@" + "b" + "." + "c0m" == "a@b.c0m";
  }

  /** An unquoted local part with a leading, trailing or doubled dot is refused. */
  lemma BadDotsRejected(local: string, domain: string)
    requires forall i :: 0 <= i < |domain| ==> domain[i] != '@'
    requires |local| >= 1 && local[0] != '"'
    requires local[0] == '.' || local[|local| - 1] == '.'
      || exists i :: 0 <= i < |local| - 1 && local[i] == '.' && local[i + 1] == '.'
    ensures !ValidateEmail(local + "@" + domain)
  {
    ValidateSplit(local, domain);
    var l := ToLower(local);
    assert l[0] == LowerChar(local[0]);
    if local[0] == '.' {
      assert l[0] == '.';
    } else if local[|local| - 1] == '.' {
      assert l[|l| - 1] == '.';
    } else {
      var i :| 0 <= i < |local| - 1 && local[i] == '.' && local[i + 1] == '.';
      assert l[i] == '.' && l[i + 1] == '.';
    }
    assert !IsQuoted(l);
    assert !DotAtomForm(l);
  }

  lemma LowerQuoted(inner: string)
    requires |inner| >= 1 && forall i :: 0 <= i < |inner| ==> !IsLineTerminator(inner[i])
    ensures IsQuoted(ToLower("\"" + inner + "\""))
  {
    var local := "\"" + inner + "\"";
    var l := ToLower(local);
    assert l[0] == LowerChar('"') == '"';
    assert l[|l| - 1] == LowerChar('"') == '"';
    forall x | 1 <= x < |l| - 1 ensures !IsLineTerminator(l[x]) {
      assert local[x] == inner[x - 1];
      assert l[x] == LowerChar(inner[x - 1]);
    }
  }

  lemma LowerHostName(host: string, top: string)
    requires IsLabel(host) && IsTopLabel(top)
    ensures HostNameForm(ToLower(host + "." + top))
    ensures forall i :: 0 <= i < |host + "." + top| ==> (host + "." + top)[i] != '@'
  {
    var domain := host + "." + top;
    var d := ToLower(domain);
    var h := |host|;
    var p := d[..h + 1];
    forall x | 0 <= x < h ensures IsLabelChar(p[x]) && p[x] != '.' {
      assert p[x] == d[x] == LowerChar(domain[x]);
      assert domain[x] == host[x];
    }
    assert p[h] == '.';
    assert LabelsForm(p);
    forall x | h < x < |d| ensures IsLetter(d[x]) {
      assert domain[x] == top[x - h - 1];
    }
    LastOccurrence(d, '.', h);
    assert IsTopLabel(d[h + 1..]);
  }

  /** A quoted local part may contain `@` and anything else but a line terminator. */
  lemma QuotedLocalAccepted(inner: string, host: string, top: string)
    requires |inner| >= 1 && forall i :: 0 <= i < |inner| ==> !IsLineTerminator(inner[i])
    requires IsLabel(host) && IsTopLabel(top)
    ensures ValidateEmail("\"" + inner + "\"" + "@" + host + "." + top)
  {
    var local := "\"" + inner + "\"";
    var domain := host + "." + top;
    assert "\"" + inner + "\"" + "@" + host + "." + top == local + "@" + domain;
    LowerQuoted(inner);
    LowerHostName(host, top);
    ValidateSplit(local, domain);
  }

  lemma LowerAtom(local: string)
    requires IsAtom(local)
    ensures DotAtomForm(ToLower(local))
  {
    var l := ToLower(local);
    forall x | 0 <= x < |l| ensures IsAtomChar(l[x]) {
      assert l[x] == LowerChar(local[x]);
    }
  }

  lemma TwoOctetsOf(c: string, d: string)
    requires IsOctet(c) && IsOctet(d)
    ensures IsTwoOctets(c + "." + d)
  {
    var s := OctetJoin(c, d);
  }

  lemma ThreeOctetsOf(b: string, t: string)
    requires IsOctet(b) && IsTwoOctets(t)
    ensures IsThreeOctets(b + "." + t)
  {
    var s := OctetJoin(b, t);
  }

  lemma FourOctetsOf(a: string, t: string)
    requires IsOctet(a) && IsThreeOctets(t)
    ensures IsFourOctets(a + "." + t)
  {
    var s := OctetJoin(a, t);
  }

  lemma QuadOf(a: string, b: string, c: string, d: string)
    requires IsOctet(a) && IsOctet(b) && IsOctet(c) && IsOctet(d)
    ensures IsFourOctets(a + "." + b + "." + c + "." + d)
  {
    TwoOctetsOf(c, d);
    ThreeOctetsOf(b, c + "." + d);
    FourOctetsOf(a, b + "." + (c + "." + d));
    DottedAssoc(a, b, c, d);
  }

  lemma DottedAssoc(a: string, b: string, c: string, d: string)
    ensures a + "." + (b + "." + (c + "." + d)) == a + "." + b + "." + c + "." + d
  {
  }

  lemma BracketLiteral(q: string)
    requires IsFourOctets(q)
    ensures var lit := "[" + q + "]";
      && IsAddressLiteral(lit) && ToLower(lit) == lit
      && forall i :: 0 <= i < |lit| ==> lit[i] != '@'
  {
    var lit := "[" + q + "]";
    assert lit[1..|lit| - 1] == q;
    BracketChars(q);
  }

  lemma BracketChars(q: string)
    requires IsFourOctets(q)
    ensures var lit := "[" + q + "]";
      && ToLower(lit) == lit && forall i :: 0 <= i < |lit| ==> lit[i] != '@'
  {
    FourOctetsChars(q);
    var lit := "[" + q + "]";
    forall x | 0 <= x < |lit|
      ensures lit[x] == '[' || lit[x] == ']' || lit[x] == '.' || IsDigit(lit[x])
    {
      if 1 <= x < |lit| - 1 { assert lit[x] == q[x - 1]; }
    }
    assert forall x :: 0 <= x < |lit| ==> ToLower(lit)[x] == lit[x];
  }

  /** The address literal checks the number of digits, not their value (`[999.999.999.999]`). */
  lemma AddressLiteralAccepted(local: string, a: string, b: string, c: string, d: string)
    requires IsAtom(local)
    requires IsOctet(a) && IsOctet(b) && IsOctet(c) && IsOctet(d)
    ensures ValidateEmail(local + "@[" + a + "." + b + "." + c + "." + d + "]")
  {
    var q := a + "." + b + "." + c + "." + d;
    QuadOf(a, b, c, d);
    BracketLiteral(q);
    LowerAtom(local);
    ValidateSplit(local, "[" + q + "]");
    LiteralAddressAssoc(local, a, b, c, d);
  }

  lemma LiteralAddressAssoc(local: string, a: string, b: string, c: string, d: string)
    ensures local + "@[" + a + "." + b + "." + c + "." + d + "]"
         == local + "@" + ("[" + (a + "." + b + "." + c + "." + d) + "]")
  {
  }
}

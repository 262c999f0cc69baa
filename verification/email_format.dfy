/** The institutional address rule of the User schema (backend/models/User.js:18): the value,
    after the schema's `trim` and `lowercase` setters, must match
    `^[a-zA-Z]+(\.[a-zA-Z]+)?[0-9]{4}@vitstudent\.ac\.in$`. */
module EmailFormat {
  import opened Text

  const Domain: string := "@vitstudent.ac.in"

  /** What the schema stores for a submitted email: trimmed, then lower-cased. */
  function NormalizeEmail(s: string): string
  {
    ToLower(Trim(s))
  }

  /** A stored email neither starts nor ends with whitespace and holds no upper-case ASCII letter
      and no Kelvin sign. */
  lemma NormalizedShape(s: string)
    ensures var r := NormalizeEmail(s);
      && (r == [] || (!IsWhitespace(r[0]) && !IsWhitespace(r[|r| - 1])))
      && forall i :: 0 <= i < |r| ==> !LowersToAscii(r[i])
  {
    TrimShape(s);
    ToLowerChars(Trim(s));
  }

  /** A stored email is already in stored form. */
  lemma NormalizeIdempotent(s: string)
    ensures NormalizeEmail(NormalizeEmail(s)) == NormalizeEmail(s)
  {
    var r := NormalizeEmail(s);
    NormalizedShape(s);
    TrimOfTrimmed(r);
    ToLowerOfLower(r);
  }

  /** An address spelt with the Kelvin sign for its first letter is stored, and looked up, as the
      same address spelt with an ASCII 'k': the two are one account, and the rule sees only ASCII. */
  lemma KelvinSignFolds(rest: string)
    requires rest != [] && !IsWhitespace(rest[|rest| - 1])
    requires forall i :: 0 <= i < |rest| ==> !LowersToAscii(rest[i])
    ensures NormalizeEmail([KelvinSign] + rest) == NormalizeEmail(['k'] + rest) == ['k'] + rest
  {
    var s := [KelvinSign] + rest;
    TrimOfTrimmed(s);
    TrimOfTrimmed(['k'] + rest);
    assert s[1..] == rest && (['k'] + rest)[1..] == rest;
    ToLowerOfLower(rest);
  }

  /** The message of the validator when the rule fails. */
  function Rejection(s: string): string
  {
    s + " is not a valid VIT student email! Please use format: name.lastnameYYYY@vitstudent.ac.in (where YYYY is your batch year)"
  }

  // ----- the regular language, stated declaratively -----

  /** The three parts before the domain: a run of letters, an optional '.' and a run of letters, four digits. */
  ghost predicate Parts(name: string, ext: string, year: string)
  {
    && |name| >= 1 && AllLetters(name)
    && (ext == [] || (|ext| >= 2 && ext[0] == '.' && AllLetters(ext[1..])))
    && |year| == 4 && AllDigits(year)
  }

  ghost predicate MatchesPattern(s: string)
  {
    exists name, ext, year :: Parts(name, ext, year) && s == name + ext + year + Domain
  }

  // ----- the hand-written recognizer -----

  /** The end of the longest run of letters starting at i. */
  function LetterRun(s: string, i: nat): (j: nat)
    requires i <= |s|
    ensures i <= j <= |s|
    ensures forall k :: i <= k < j ==> IsAsciiLetter(s[k])
    ensures j < |s| ==> !IsAsciiLetter(s[j])
    decreases |s| - i
  {
    if i < |s| && IsAsciiLetter(s[i]) then LetterRun(s, i + 1) else i
  }

  /** The end of `[a-zA-Z]+(\.[a-zA-Z]+)?` when the first run ends at a: the optional group is taken
      only when a '.' is followed by at least one letter. */
  function NameEnd(s: string, a: nat): (b: nat)
    requires a <= |s|
    ensures a <= b <= |s|
  {
    if a < |s| && s[a] == '.' then
      var e := LetterRun(s, a + 1);
      if e > a + 1 then e else a
    else a
  }

  /** The regular expression's test, scanning left to right. Letters, '.', digits and '@' are
      disjoint classes, so the greedy scan never has to backtrack. */
  predicate IsStudentEmail(s: string)
  {
    var a := LetterRun(s, 0);
    var b := NameEnd(s, a);
    && a >= 1
    && b + 4 + |Domain| == |s|
    && AllDigits(s[b..b + 4])
    && s[b + 4..] == Domain
  }

  /** The letter run starting at i ends at j when s[i..j] are letters and s[j] is not. */
  lemma {:induction false} LetterRunAt(s: string, i: nat, j: nat)
    requires i <= j <= |s|
    requires forall k :: i <= k < j ==> IsAsciiLetter(s[k])
    requires j < |s| ==> !IsAsciiLetter(s[j])
    ensures LetterRun(s, i) == j
    decreases j - i
  {
    if i < j {
      LetterRunAt(s, i + 1, j);
    }
  }

  /** The recognizer accepts exactly the strings of the regular language. */
  lemma RecognizerMatchesPattern(s: string)
    ensures IsStudentEmail(s) <==> MatchesPattern(s)
  {
    if IsStudentEmail(s) {
      RecognizerSound(s);
    }
    if MatchesPattern(s) {
      var name, ext, year :| Parts(name, ext, year) && s == name + ext + year + Domain;
      RecognizerComplete(name, ext, year);
    }
  }

  /** Every accepted string splits into the parts of the pattern. */
  lemma RecognizerSound(s: string)
    requires IsStudentEmail(s)
    ensures MatchesPattern(s)
  {
    var a := LetterRun(s, 0);
    var b := NameEnd(s, a);
    var name, ext, year := s[..a], s[a..b], s[b..b + 4];
    assert s == name + ext + year + s[b + 4..];
    forall k | 0 <= k < |name| ensures IsAsciiLetter(name[k]) {
      assert name[k] == s[k];
    }
    if b > a {
      var e := LetterRun(s, a + 1);
      assert b == e;
      forall k | 0 <= k < |ext[1..]| ensures IsAsciiLetter(ext[1..][k]) {
        assert ext[1..][k] == s[a + 1 + k];
      }
    }
    assert Parts(name, ext, year);
  }

  /** Where the scan of the name ends when a name and an optional '.'-segment are followed by a
      character that is neither a letter nor a '.': exactly after the segment. */
  lemma ScanOverName(name: string, ext: string, rest: string)
    requires |name| >= 1 && AllLetters(name)
    requires ext == [] || (|ext| >= 2 && ext[0] == '.' && AllLetters(ext[1..]))
    requires rest != [] && !IsAsciiLetter(rest[0]) && rest[0] != '.'
    ensures var s := name + ext + rest;
      LetterRun(s, 0) == |name| && NameEnd(s, |name|) == |name| + |ext|
  {
    var s := name + ext + rest;
    var a, b := |name|, |name| + |ext|;
    assert s[a] == (if ext == [] then rest[0] else '.');
    assert forall k :: 0 <= k < a ==> s[k] == name[k];
    LetterRunAt(s, 0, a);
    if ext != [] {
      assert s[b] == rest[0];
      assert forall k :: a + 1 <= k < b ==> s[k] == ext[1..][k - a - 1];
      LetterRunAt(s, a + 1, b);
    }
  }

  /** Every string built from the parts of the pattern is accepted. */
  lemma RecognizerComplete(name: string, ext: string, year: string)
    requires Parts(name, ext, year)
    ensures IsStudentEmail(name + ext + year + Domain)
  {
    var s := name + ext + year + Domain;
    var b := |name| + |ext|;
    assert name + ext + (year + Domain) == s;
    ScanOverName(name, ext, year + Domain);
    assert s[b..b + 4] == year;
    assert s[b + 4..] == Domain;
  }

  /** An address with a second '.'-segment before the year is refused. */
  lemma SecondDotRejected(name: string, first: string, second: string, year: string)
    requires |name| >= 1 && AllLetters(name) && |first| >= 1 && AllLetters(first)
    requires |second| >= 1 && AllLetters(second) && |year| == 4 && AllDigits(year)
    ensures !IsStudentEmail(name + "." + first + "." + second + year + Domain)
  {
    var s := name + "." + first + "." + second + year + Domain;
    var a := |name|;
    var e := a + 1 + |first|;
    assert s[a] == '.' && s[e] == '.';
    LetterRunAt(s, 0, a);
    LetterRunAt(s, a + 1, e);
    assert NameEnd(s, a) == e;
    assert !IsDigit(s[e]);
  }

  /** A name, with or without its '.'-segment, followed by a digit run of any length other than
      four and then the domain, is refused. */
  lemma YearMustHaveFourDigits(name: string, ext: string, year: string)
    requires |name| >= 1 && AllLetters(name)
    requires ext == [] || (|ext| >= 2 && ext[0] == '.' && AllLetters(ext[1..]))
    requires AllDigits(year) && |year| != 4
    ensures !IsStudentEmail(name + ext + year + Domain)
  {
    var rest := year + Domain;
    assert rest[0] == (if year == [] then '@' else year[0]);
    assert name + ext + rest == name + ext + year + Domain;
    ScanOverName(name, ext, rest);
  }

  /** Whatever precedes it, an accepted address ends with the institutional domain. */
  lemma AcceptedEndsWithDomain(s: string)
    requires IsStudentEmail(s)
    ensures |s| > |Domain| && s[|s| - |Domain|..] == Domain
  {
  }

  /** A name with a last-name segment and a batch year is accepted. */
  lemma ExampleAccepted()
    ensures IsStudentEmail("john.doe2023@vitstudent.ac.in")
  {
    ExampleParts();
    RecognizerComplete("john", ".doe", "2023");
    ExampleSpelling();
  }

  lemma ExampleParts()
    ensures Parts("john", ".doe", "2023")
  {
    assert AllLetters(".doe"[1..]);
  }

  lemma ExampleSpelling()
    ensures "john" + ".doe" + "2023" + Domain == "john.doe2023@vitstudent.ac.in"
  {
    assert "john" + ".doe" + "2023" == "john.doe2023";
  }

  /** After the name, segment and year of the pattern, anything but exactly the institutional
      domain is refused: another domain, and the domain followed by more text. */
  lemma OtherDomainRejected(name: string, ext: string, year: string, domain: string)
    requires Parts(name, ext, year) && domain != Domain
    ensures !IsStudentEmail(name + ext + year + domain)
  {
    var s := name + ext + year + domain;
    var b := |name| + |ext|;
    assert name + ext + (year + domain) == s;
    assert (year + domain)[0] == year[0];
    ScanOverName(name, ext, year + domain);
    if b + 4 + |Domain| == |s| {
      assert s[b + 4..] == domain;
    }
  }
}

/** The e-mail shape accepted by `EmailValidator`, the anchored pattern
      ^[a-zA-Z0-9._%+-]+@[a-zA-Z0-9.-]+\.[a-zA-Z]{2,}$
    of lines/domain/validators.go. Go's regexp anchors `$` at the very end of
    the text (no multi-line flag) and its bracket classes are ASCII-only, so a
    string matches exactly when it splits as below. `MatchesEmailPattern` is
    the pattern read as a specification; `IsEmail` is an executable,
    backtracking-free decision procedure, and `IsEmailMatchesPattern` proves
    the two agree on every string. */
module EmailPattern {
  import Strings

  predicate IsAsciiLetter(c: char) {
    'a' <= c <= 'z' || 'A' <= c <= 'Z'
  }

  predicate IsAsciiDigit(c: char) {
    '0' <= c <= '9'
  }

  /** The class `[a-zA-Z0-9._%+-]` of the local part. */
  predicate IsLocalChar(c: char) {
    IsAsciiLetter(c) || IsAsciiDigit(c) || c == '.' || c == '_' || c == '%' || c == '+' || c == '-'
  }

  /** The class `[a-zA-Z0-9.-]` of the domain part. */
  predicate IsDomainChar(c: char) {
    IsAsciiLetter(c) || IsAsciiDigit(c) || c == '.' || c == '-'
  }

  predicate AllLocal(s: string) {
    forall i :: 0 <= i < |s| ==> IsLocalChar(s[i])
  }

  predicate AllDomain(s: string) {
    forall i :: 0 <= i < |s| ==> IsDomainChar(s[i])
  }

  predicate AllLetters(s: string) {
    forall i :: 0 <= i < |s| ==> IsAsciiLetter(s[i])
  }

  /** `s` is `local @ domain . tld` with the `@` at `at` and the final `.` at
      `dot`: a non-empty local part, a non-empty domain part and a top-level
      domain of at least two letters. */
  ghost predicate SplitsAt(s: string, at: nat, dot: nat) {
    && 0 < at && at + 1 < dot && dot + 2 < |s|
    && s[at] == '@' && s[dot] == '.'
    && AllLocal(s[..at])
    && AllDomain(s[at + 1..dot])
    && AllLetters(s[dot + 1..])
  }

  /** The pattern matches the whole of `s`. */
  ghost predicate MatchesEmailPattern(s: string) {
    exists at: nat, dot: nat :: SplitsAt(s, at, dot)
  }

  /** Length of the longest suffix of `r` made of ASCII letters. */
  function LetterSuffix(r: string): (n: nat)
    ensures n <= |r|
    ensures AllLetters(r[|r| - n..])
    ensures n < |r| ==> !IsAsciiLetter(r[|r| - n - 1])
  {
    if r == [] then
      0
    else if IsAsciiLetter(r[|r| - 1]) then
      var n := LetterSuffix(r[..|r| - 1]);
      assert r[..|r| - 1][|r| - 1 - n..] + [r[|r| - 1]] == r[|r| - n - 1..];
      n + 1
    else
      0
  }

  /** What follows the `@`: a non-empty domain, a dot, and a top-level domain
      which, since it is made of letters only, must be the letter suffix. */
  predicate DomainMatches(r: string) {
    var n := LetterSuffix(r);
    n >= 2 && |r| >= n + 2 && r[|r| - n - 1] == '.' && AllDomain(r[..|r| - n - 1])
  }

  /** Executable matcher: neither character class contains `@`, so the only
      possible split is at the first `@`. */
  function IsEmail(s: string): bool {
    match Strings.IndexOf(s, "@")
    case None => false
    case Some(at) => at > 0 && AllLocal(s[..at]) && DomainMatches(s[at + 1..])
  }

  lemma IsEmailSound(s: string)
    requires IsEmail(s)
    ensures MatchesEmailPattern(s)
  {
    var at := Strings.IndexOf(s, "@").value;
    Strings.OccursAtChar(s, '@', at);
    var r := s[at + 1..];
    var n := LetterSuffix(r);
    var dot := |s| - n - 1;
    assert s[dot] == r[|r| - n - 1];
    assert s[at + 1..dot] == r[..|r| - n - 1];
    assert s[dot + 1..] == r[|r| - n..];
    assert SplitsAt(s, at, dot);
  }

  lemma IsEmailComplete(s: string)
    requires MatchesEmailPattern(s)
    ensures IsEmail(s)
  {
    var at: nat, dot: nat :| SplitsAt(s, at, dot);
    FirstAtIsSplit(s, at, dot);
    var r := s[at + 1..];
    var k := |s| - dot - 1;
    forall j | |r| - k <= j < |r| ensures IsAsciiLetter(r[j]) {
      assert s[dot + 1..][j - (|r| - k)] == r[j];
    }
    assert r[|r| - k - 1] == s[dot];
    LetterSuffixExact(r, k);
    assert r[..|r| - k - 1] == s[at + 1..dot];
    assert DomainMatches(r);
  }

  /** The first `@` is the one the split uses: the local part has none. */
  lemma FirstAtIsSplit(s: string, at: nat, dot: nat)
    requires SplitsAt(s, at, dot)
    ensures Strings.IndexOf(s, "@").Some? && Strings.IndexOf(s, "@").value == at
  {
    Strings.OccursAtChar(s, '@', at);
    assert Strings.Contains(s, "@");
    var i := Strings.IndexOf(s, "@").value;
    Strings.OccursAtChar(s, '@', i);
    assert forall j :: 0 <= j < at ==> s[j] != '@' by {
      forall j | 0 <= j < at ensures s[j] != '@' {
        assert s[..at][j] == s[j];
      }
    }
  }

  /** A run of `k` letters preceded by a dot at the end of `r` is its whole
      letter suffix. */
  lemma {:induction false} LetterSuffixExact(r: string, k: nat)
    requires k + 1 <= |r|
    requires forall j :: |r| - k <= j < |r| ==> IsAsciiLetter(r[j])
    requires r[|r| - k - 1] == '.'
    ensures LetterSuffix(r) == k
    decreases k
  {
    if k > 0 {
      var p := r[..|r| - 1];
      assert IsAsciiLetter(r[|r| - 1]);
      assert forall j :: |p| - (k - 1) <= j < |p| ==> IsAsciiLetter(p[j]);
      assert p[|p| - (k - 1) - 1] == '.';
      LetterSuffixExact(p, k - 1);
    }
  }

  /** The executable matcher decides exactly the pattern. */
  lemma IsEmailMatchesPattern(s: string)
    ensures IsEmail(s) <==> MatchesEmailPattern(s)
  {
    if IsEmail(s) {
      IsEmailSound(s);
    }
    if MatchesEmailPattern(s) {
      IsEmailComplete(s);
    }
  }

  /** The empty string is never an e-mail address. */
  lemma EmptyIsNotEmail()
    ensures !MatchesEmailPattern("")
  {
  }
}

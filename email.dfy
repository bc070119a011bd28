/**
 * The e-mail check of the submissions endpoint: a non-empty string that the
 * regular expression /^[^@\s]+@[^@\s]+\.[^@\s]+$/ accepts.
 *
 * `MatchesPattern` reads the expression as "there are split points"; the
 * check itself, `IsValidEmail`, finds the '@' and looks for a usable '.'
 * after it. The two are proved to agree, and `ValidEmailShape` restates the
 * accepted strings in plain terms.
 */
module Email {

  /** The characters of the JavaScript class `\s` (WhiteSpace and LineTerminator). */
  predicate IsJsSpace(c: char) {
    || c == ' ' || c == '\t' || c == '\n' || c == '\r'
    || c == '\U{000B}' || c == '\U{000C}' || c == '\U{00A0}' || c == '\U{1680}'
    || ('\U{2000}' <= c <= '\U{200A}')
    || c == '\U{2028}' || c == '\U{2029}' || c == '\U{202F}' || c == '\U{205F}'
    || c == '\U{3000}' || c == '\U{FEFF}'
  }

  /** A character the class `[^@\s]` accepts. */
  predicate IsAtom(c: char) {
    c != '@' && !IsJsSpace(c)
  }

  predicate AllAtoms(s: string) {
    forall k | 0 <= k < |s| :: IsAtom(s[k])
  }

  /**
   * The whole string is local part, '@', domain label(s), '.', final part,
   * each of the three parts non-empty and made of `[^@\s]` characters.
   */
  ghost predicate MatchesPattern(s: string): (matched: bool)
    ensures matched ==> 5 <= |s| && '@' in s && '.' in s
  {
    exists i, j | 0 < i && i + 1 < j && j + 1 < |s| ::
      && s[i] == '@' && s[j] == '.'
      && AllAtoms(s[..i]) && AllAtoms(s[i + 1..j]) && AllAtoms(s[j + 1..])
  }

  /** The position of the first `c` in `s`, or `|s|` when there is none. */
  function IndexOf(s: string, c: char): (k: nat)
    ensures k <= |s|
    ensures k < |s| ==> s[k] == c
    ensures forall j | 0 <= j < k :: s[j] != c
  {
    if s == [] then 0
    else if s[0] == c then 0
    else 1 + IndexOf(s[1..], c)
  }

  /** The part after the '@': `[^@\s]` characters with a '.' neither first nor last. */
  predicate IsValidDomain(d: string) {
    AllAtoms(d) && HasInnerDot(d)
  }

  /** Some '.' of `d` is neither its first nor its last character. */
  predicate HasInnerDot(d: string) {
    exists j | 0 < j < |d| - 1 :: d[j] == '.'
  }

  /** `isValidEmail`: the empty string is refused before the expression is tried. */
  function IsValidEmail(email: string): (valid: bool)
    ensures email == "" ==> !valid
  {
    if email == "" then false
    else
      var at := IndexOf(email, '@');
      0 < at < |email| && AllAtoms(email[..at]) && IsValidDomain(email[at + 1..])
  }

  /** Every slice of a run of `[^@\s]` characters is one too. */
  lemma AtomsSlice(s: string, i: nat, j: nat)
    requires AllAtoms(s) && i <= j <= |s|
    ensures AllAtoms(s[i..j])
  {
    forall k | 0 <= k < j - i ensures IsAtom(s[i..j][k]) {
      assert s[i..j][k] == s[i + k];
    }
  }

  /** A concatenation is a run of `[^@\s]` characters iff both parts are. */
  lemma AtomsConcat(a: string, b: string)
    ensures AllAtoms(a + b) <==> AllAtoms(a) && AllAtoms(b)
  {
    if AllAtoms(a) && AllAtoms(b) {
      forall k | 0 <= k < |a + b| ensures IsAtom((a + b)[k]) {
        if k >= |a| { assert (a + b)[k] == b[k - |a|]; }
      }
    }
    if AllAtoms(a + b) {
      AtomsSlice(a + b, 0, |a|);
      AtomsSlice(a + b, |a|, |a + b|);
      assert (a + b)[0..|a|] == a;
      assert (a + b)[|a|..|a + b|] == b;
    }
  }

  /** A string the check accepts matches the regular expression. */
  lemma ValidMatchesPattern(email: string)
    requires IsValidEmail(email)
    ensures MatchesPattern(email)
  {
    var i := IndexOf(email, '@');
    var d := email[i + 1..];
    var jd :| 0 < jd < |d| - 1 && d[jd] == '.';
    var j := i + 1 + jd;
    AtomsSlice(d, 0, jd);
    AtomsSlice(d, jd + 1, |d|);
    assert email[i + 1..j] == d[0..jd];
    assert email[j + 1..] == d[jd + 1..|d|];
  }

  /** No '@' in a run of `[^@\s]` characters. */
  lemma AtomsHaveNoAt(s: string)
    requires AllAtoms(s)
    ensures forall k | 0 <= k < |s| :: s[k] != '@'
  {
  }

  /** Split points `i` ('@') and `j` ('.') as in the pattern make the check accept. */
  lemma SplitIsValid(email: string, i: nat, j: nat)
    requires 0 < i && i + 1 < j && j + 1 < |email|
    requires email[i] == '@' && email[j] == '.'
    requires AllAtoms(email[..i]) && AllAtoms(email[i + 1..j]) && AllAtoms(email[j + 1..])
    ensures IsValidEmail(email)
  {
    AtomsHaveNoAt(email[..i]);
    assert forall k | 0 <= k < i :: email[k] == email[..i][k];
    assert IndexOf(email, '@') == i;
    var d := email[i + 1..];
    assert d == email[i + 1..j] + [email[j]] + email[j + 1..];
    AtomsConcat(email[i + 1..j], [email[j]]);
    AtomsConcat(email[i + 1..j] + [email[j]], email[j + 1..]);
    assert d[j - i - 1] == '.';
  }

  /** A string the regular expression matches is accepted by the check. */
  lemma PatternMatchesValid(email: string)
    requires MatchesPattern(email)
    ensures IsValidEmail(email)
  {
    var i, j :| && 0 < i && i + 1 < j && j + 1 < |email|
                && email[i] == '@' && email[j] == '.'
                && AllAtoms(email[..i]) && AllAtoms(email[i + 1..j]) && AllAtoms(email[j + 1..]);
    SplitIsValid(email, i, j);
  }

  /** The check accepts exactly the strings the regular expression matches. */
  lemma IsValidEmailMatchesPattern(email: string)
    ensures IsValidEmail(email) <==> MatchesPattern(email)
  {
    if IsValidEmail(email) {
      ValidMatchesPattern(email);
    }
    if MatchesPattern(email) {
      PatternMatchesValid(email);
    }
  }

  /** How many times `c` occurs in `s`. */
  function Occurrences(s: string, c: char): (n: nat)
    ensures n <= |s|
    ensures n == 0 <==> forall k | 0 <= k < |s| :: s[k] != c
  {
    if s == [] then 0
    else (if s[0] == c then 1 else 0) + Occurrences(s[1..], c)
  }

  /** Occurrences splits over a cut of the string. */
  lemma {:induction false} OccurrencesSplit(s: string, c: char, k: nat)
    requires k <= |s|
    ensures Occurrences(s, c) == Occurrences(s[..k], c) + Occurrences(s[k..], c)
  {
    if k > 0 {
      var head := if s[0] == c then 1 else 0;
      OccurrencesSplit(s[1..], c, k - 1);
      assert s[1..][k - 1..] == s[k..];
      assert s[..k][1..] == s[1..][..k - 1];
      assert Occurrences(s[..k], c) == head + Occurrences(s[1..][..k - 1], c);
    }
  }

  predicate NoJsSpace(s: string) {
    forall k | 0 <= k < |s| :: !IsJsSpace(s[k])
  }

  /** With the first '@' at `at`, the string has exactly one '@' iff the rest has none. */
  lemma OneAtSplit(email: string, at: nat)
    requires at < |email| && email[at] == '@'
    requires forall j | 0 <= j < at :: email[j] != '@'
    ensures Occurrences(email, '@') == 1 <==> Occurrences(email[at + 1..], '@') == 0
  {
    OccurrencesSplit(email, '@', at + 1);
    OccurrencesSplit(email[..at + 1], '@', at);
    assert email[..at + 1][..at] == email[..at];
    assert email[..at + 1][at..] == [email[at]];
  }

  /** Around the '@' at `at`, `[^@\s]` on both sides means no space and no other '@'. */
  lemma AtomsAroundAt(email: string, at: nat)
    requires at < |email| && email[at] == '@'
    ensures (AllAtoms(email[..at]) && AllAtoms(email[at + 1..])) <==>
            (NoJsSpace(email) && Occurrences(email[..at], '@') == 0 && Occurrences(email[at + 1..], '@') == 0)
  {
    var d := email[at + 1..];
    if AllAtoms(email[..at]) && AllAtoms(d) {
      forall k | 0 <= k < |email| ensures !IsJsSpace(email[k]) {
        if k < at { assert email[k] == email[..at][k]; }
        else if k > at { assert email[k] == d[k - at - 1]; }
      }
    }
    if NoJsSpace(email) && Occurrences(email[..at], '@') == 0 && Occurrences(d, '@') == 0 {
      forall k | 0 <= k < at ensures IsAtom(email[..at][k]) {
        assert email[..at][k] == email[k];
      }
      forall k | 0 <= k < |d| ensures IsAtom(d[k]) {
        assert d[k] == email[at + 1 + k];
      }
    }
  }

  /** A '.' inside the domain part is a '.' of the whole string, shifted by `at + 1`. */
  lemma DotShift(email: string, at: nat)
    requires at < |email|
    ensures HasInnerDot(email[at + 1..]) <==>
            (exists j | at + 1 < j < |email| - 1 :: email[j] == '.')
  {
    var d := email[at + 1..];
    if exists j | 0 < j < |d| - 1 :: d[j] == '.' {
      var j :| 0 < j < |d| - 1 && d[j] == '.';
      assert email[at + 1 + j] == '.';
    }
    if exists j | at + 1 < j < |email| - 1 :: email[j] == '.' {
      var j :| at + 1 < j < |email| - 1 && email[j] == '.';
      assert d[j - at - 1] == '.';
    }
  }

  /**
   * The accepted strings in plain terms: no whitespace, exactly one '@' with
   * something before it, and after it a '.' that is neither the first nor the
   * last character of the domain part.
   */
  lemma ValidEmailShape(email: string)
    ensures IsValidEmail(email) <==>
      && NoJsSpace(email)
      && Occurrences(email, '@') == 1
      && 0 < IndexOf(email, '@')
      && (exists j | IndexOf(email, '@') + 1 < j < |email| - 1 :: email[j] == '.')
  {
    var at := IndexOf(email, '@');
    if at < |email| {
      OneAtSplit(email, at);
      AtomsAroundAt(email, at);
      DotShift(email, at);
      assert Occurrences(email[..at], '@') == 0;
    } else {
      assert Occurrences(email, '@') == 0;
    }
  }
}

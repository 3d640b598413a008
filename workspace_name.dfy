/**
 * Derivation of a workspace name from an application profile name
 * (vcworkspace.py, get_workspace_name).
 *
 * The derivation has three steps: prepend 'A' when the name does not start
 * with a letter, delete every character outside [A-Za-z0-9 _-], and keep at
 * most the first 20 characters.
 *
 * The letter test is Python's str.isalpha, which accepts every Unicode
 * letter. It is a parameter `isAlpha` of the model; lemmas that need it to
 * behave like Python on ASCII characters require AsciiAlpha(isAlpha).
 */
module WorkspaceName {

  /** Longest workspace name the derivation produces. */
  const MaxLength: nat := 20

  /** Letter forced in front of a name that does not start with a letter. */
  const Prefix: char := 'A'

  predicate IsAsciiLetter(c: char) {
    'a' <= c <= 'z' || 'A' <= c <= 'Z'
  }

  predicate IsAsciiDigit(c: char) {
    '0' <= c <= '9'
  }

  /** Membership in string.ascii_letters + string.digits + ' -_'. */
  predicate IsValidChar(c: char) {
    IsAsciiLetter(c) || IsAsciiDigit(c) || c == ' ' || c == '-' || c == '_'
  }

  predicate AllValid(s: string) {
    forall i :: 0 <= i < |s| ==> IsValidChar(s[i])
  }

  /**
   * The letter test agrees with Python's str.isalpha on ASCII characters:
   * there it accepts exactly the letters. Outside ASCII it is unconstrained,
   * standing for the Unicode letter categories.
   */
  ghost predicate AsciiAlpha(isAlpha: char -> bool) {
    forall c: char :: (c as int) < 128 ==> (isAlpha(c) <==> IsAsciiLetter(c))
  }

  /** `not name[:1].isalpha()`: the name is empty or its first character is no letter. */
  predicate NeedsPrefix(isAlpha: char -> bool, name: string) {
    |name| == 0 || !isAlpha(name[0])
  }

  /** The name after the first step, with the forced letter when one is needed. */
  function Prefixed(isAlpha: char -> bool, name: string): string {
    if NeedsPrefix(isAlpha, name) then [Prefix] + name else name
  }

  /** The characters of `s` that are valid in a workspace name, in their original order. */
  function KeepValid(s: string): (r: string)
    ensures |r| <= |s|
    ensures AllValid(r)
  {
    if s == [] then []
    else if IsValidChar(s[0]) then [s[0]] + KeepValid(s[1..])
    else KeepValid(s[1..])
  }

  /** Python's `s[0:20]`. */
  function Truncate(s: string): string {
    if |s| <= MaxLength then s else s[..MaxLength]
  }

  /** The workspace name derived from an application name. */
  function DeriveName(isAlpha: char -> bool, name: string): (r: string)
    ensures |r| <= MaxLength
    ensures AllValid(r)
  {
    Truncate(KeepValid(Prefixed(isAlpha, name)))
  }

  /** `a` is obtained from `b` by deleting characters, without replacing or reordering any. */
  ghost predicate IsSubsequence(a: string, b: string)
    decreases |b|
  {
    if a == [] then true
    else if b == [] then false
    else (a[0] == b[0] && IsSubsequence(a[1..], b[1..])) || IsSubsequence(a, b[1..])
  }

  // ---------------------------------------------------------------------------
  // The filtering step

  /** Filtering only deletes characters. */
  lemma {:induction false} KeepValidIsSubsequence(s: string)
    ensures IsSubsequence(KeepValid(s), s)
  {
    if s != [] {
      KeepValidIsSubsequence(s[1..]);
      if !IsValidChar(s[0]) && KeepValid(s[1..]) != [] {
        assert IsSubsequence(KeepValid(s), s[1..]);
      }
    }
  }

  /** Filtering deletes exactly the invalid characters: every valid character keeps its multiplicity. */
  lemma {:induction false} KeepValidCounts(s: string, c: char)
    ensures multiset(KeepValid(s))[c] == if IsValidChar(c) then multiset(s)[c] else 0
  {
    if s != [] {
      KeepValidCounts(s[1..], c);
      assert s == [s[0]] + s[1..];
    }
  }

  /** A string is left unchanged by the filter if and only if all its characters are valid. */
  lemma {:induction false} KeepValidFixedPoints(s: string)
    ensures KeepValid(s) == s <==> AllValid(s)
  {
    if s != [] {
      KeepValidFixedPoints(s[1..]);
      if !IsValidChar(s[0]) {
        assert |KeepValid(s[1..])| < |s|;
      } else if AllValid(s) {
        assert AllValid(s[1..]) by {
          forall i | 0 <= i < |s[1..]| ensures IsValidChar(s[1..][i]) {
            assert s[1..][i] == s[i + 1];
          }
        }
      }
    }
  }

  /** Filtering twice is filtering once. */
  lemma KeepValidIdempotent(s: string)
    ensures KeepValid(KeepValid(s)) == KeepValid(s)
  {
    KeepValidFixedPoints(KeepValid(s));
  }

  /** Filtering distributes over concatenation. */
  lemma {:induction false} KeepValidAppend(a: string, b: string)
    ensures KeepValid(a + b) == KeepValid(a) + KeepValid(b)
  {
    if a != [] {
      assert (a + b)[1..] == a[1..] + b;
      KeepValidAppend(a[1..], b);
    } else {
      assert a + b == b;
    }
  }

  /** A run of valid characters passes the filter unchanged, whatever follows it. */
  lemma KeepValidAfterValid(a: string, b: string)
    requires AllValid(a)
    ensures KeepValid(a + b) == a + KeepValid(b)
  {
    KeepValidAppend(a, b);
    KeepValidFixedPoints(a);
  }

  // ---------------------------------------------------------------------------
  // The whole derivation

  /** A prefix of a subsequence is a subsequence. */
  lemma {:induction false} SubsequenceOfPrefix(a: string, b: string, n: nat)
    requires IsSubsequence(a, b)
    requires n <= |a|
    ensures IsSubsequence(a[..n], b)
    decreases |b|
  {
    if n > 0 && b != [] {
      if a[0] == b[0] && IsSubsequence(a[1..], b[1..]) {
        SubsequenceOfPrefix(a[1..], b[1..], n - 1);
        assert a[..n][1..] == a[1..][..n - 1];
      } else {
        SubsequenceOfPrefix(a, b[1..], n);
      }
    }
  }

  /**
   * The derived name is the first min(20, len) characters of the filtered,
   * possibly prefixed name, so it only deletes characters from it.
   */
  lemma DeriveNameStructure(isAlpha: char -> bool, name: string)
    ensures var f := KeepValid(Prefixed(isAlpha, name));
            var r := DeriveName(isAlpha, name);
            |r| == (if |f| < MaxLength then |f| else MaxLength) &&
            r == f[..|r|] &&
            IsSubsequence(r, Prefixed(isAlpha, name))
  {
    var p := Prefixed(isAlpha, name);
    var f := KeepValid(p);
    KeepValidIsSubsequence(p);
    SubsequenceOfPrefix(f, p, |DeriveName(isAlpha, name)|);
    assert f[..|f|] == f;
  }

  /** A name that fails the letter test (the empty name included) gets a leading 'A'. */
  lemma PrefixRule(isAlpha: char -> bool, name: string)
    requires NeedsPrefix(isAlpha, name)
    ensures var r := DeriveName(isAlpha, name); |r| > 0 && r[0] == Prefix
  {
    assert Prefixed(isAlpha, name) == [Prefix] + name;
  }

  /** The empty application name gives the one-letter name "A". */
  lemma EmptyNameGivesPrefix(isAlpha: char -> bool)
    ensures DeriveName(isAlpha, "") == [Prefix]
  {
    assert Prefixed(isAlpha, "") == [Prefix] + "";
    assert KeepValid([Prefix]) == [Prefix] + KeepValid([]);
  }

  /** A name that starts with an ASCII letter keeps that letter in front. */
  lemma LeadingLetterKept(isAlpha: char -> bool, name: string)
    requires AsciiAlpha(isAlpha)
    requires |name| > 0 && IsAsciiLetter(name[0])
    ensures var r := DeriveName(isAlpha, name); |r| > 0 && r[0] == name[0]
    ensures DeriveName(isAlpha, name) == Truncate(KeepValid(name))
  {
    assert (name[0] as int) < 128;
    assert isAlpha(name[0]);
  }

  /**
   * A leading letter that is not ASCII passes the letter test, so no 'A' is
   * added, and is then deleted by the filter: the result is derived from the
   * rest of the name alone and need not start with a letter.
   */
  lemma LeadingNonAsciiLetterDropped(isAlpha: char -> bool, name: string)
    requires |name| > 0 && isAlpha(name[0]) && !IsValidChar(name[0])
    ensures DeriveName(isAlpha, name) == Truncate(KeepValid(name[1..]))
  {
  }

  /** A concrete case: a name starting with a non-ASCII letter gives a name starting with a digit. */
  lemma NonAsciiLetterExample()
    ensures DeriveName(c => IsAsciiLetter(c) || c == 'é', "é1x") == "1x"
  {
    var isAlpha := c => IsAsciiLetter(c) || c == 'é';
    assert Prefixed(isAlpha, "é1x") == "é1x";
    assert KeepValid("é1x") == KeepValid("1x");
    assert KeepValid("1x") == "1" + KeepValid("x");
    assert KeepValid("x") == "x" + KeepValid("");
  }

  /**
   * The names the derivation leaves unchanged are exactly the non-empty
   * names of at most 20 valid characters that start with an ASCII letter.
   */
  lemma DeriveNameFixedPoints(isAlpha: char -> bool, s: string)
    requires AsciiAlpha(isAlpha)
    ensures DeriveName(isAlpha, s) == s <==>
            |s| > 0 && |s| <= MaxLength && AllValid(s) && IsAsciiLetter(s[0])
  {
    if |s| > 0 && |s| <= MaxLength && AllValid(s) && IsAsciiLetter(s[0]) {
      assert (s[0] as int) < 128;
      assert !NeedsPrefix(isAlpha, s);
      KeepValidFixedPoints(s);
    } else if |s| == 0 {
      EmptyNameGivesPrefix(isAlpha);
    } else if AllValid(s) && |s| <= MaxLength {
      // the first character is valid but no letter, so it is a digit, ' ', '-' or '_'
      assert (s[0] as int) < 128;
      PrefixRule(isAlpha, s);
    }
  }

  /** Conditional idempotence: re-deriving a name that starts with an ASCII letter changes nothing. */
  lemma DeriveNameIdempotent(isAlpha: char -> bool, name: string)
    requires AsciiAlpha(isAlpha)
    requires var r := DeriveName(isAlpha, name); |r| > 0 && IsAsciiLetter(r[0])
    ensures DeriveName(isAlpha, DeriveName(isAlpha, name)) == DeriveName(isAlpha, name)
  {
    DeriveNameFixedPoints(isAlpha, DeriveName(isAlpha, name));
  }

  /** "3Com Router Firmware!": 'A' is forced, '!' is deleted and the 21 survivors are cut to 20. */
  lemma LeadingDigitExample(isAlpha: char -> bool)
    requires AsciiAlpha(isAlpha)
    ensures DeriveName(isAlpha, "3Com Router Firmware!") == "A3Com Router Firmwar"
  {
    ExamplePrefixed(isAlpha);
    ExampleFiltered();
  }

  /** First step of the example: the leading digit forces the 'A'. */
  lemma ExamplePrefixed(isAlpha: char -> bool)
    requires AsciiAlpha(isAlpha)
    ensures Prefixed(isAlpha, "3Com Router Firmware!") == "A3Com Router Firmware" + ['!']
  {
    assert ('3' as int) < 128;
  }

  /** Second step of the example: the filter deletes only the '!'. */
  lemma ExampleFiltered()
    ensures KeepValid("A3Com Router Firmware" + ['!']) == "A3Com Router Firmware"
  {
    ValidRunThenInvalid("A3Com Router Firmware", '!');
  }

  /** A run of valid characters followed by one invalid character filters to the run. */
  lemma ValidRunThenInvalid(a: string, c: char)
    requires AllValid(a) && !IsValidChar(c)
    ensures KeepValid(a + [c]) == a
  {
    KeepValidAfterValid(a, [c]);
    assert KeepValid([c]) == KeepValid([]);
  }

  /** "My App" is already a valid name and is kept as it is. */
  lemma PlainNameExample(isAlpha: char -> bool)
    requires AsciiAlpha(isAlpha)
    ensures DeriveName(isAlpha, "My App") == "My App"
  {
    DeriveNameFixedPoints(isAlpha, "My App");
  }
}

/**
 * The email check of UserSchema.validate_email: a regular-expression *search*
 * (not a full match) for
 *     [a-zA-Z0-9._]+ @+ [a-zA-Z0-9]+ \. [a-zA-Z]{2,4}
 * The pattern is written out twice: `Matches` says what the search looks for
 * (some substring splits into the five parts), and `EmailValid` is a direct
 * scan that looks only at the dots of the string. `EmailValidIffMatches`
 * shows the two agree on every string.
 */
module Email {
  import Text

  /** The character classes the pattern uses. */
  datatype Class = Local | At | Alnum | Letter

  predicate IsLetter(c: char)
  {
    'a' <= c <= 'z' || 'A' <= c <= 'Z'
  }

  predicate InClass(c: char, k: Class)
  {
    match k
    case Local => IsLetter(c) || Text.IsDigit(c) || c == '.' || c == '_'
    case At => c == '@'
    case Alnum => IsLetter(c) || Text.IsDigit(c)
    case Letter => IsLetter(c)
  }

  /** Every character of s[lo..hi] is in class k. */
  predicate Run(s: string, lo: int, hi: int, k: Class)
  {
    0 <= lo <= hi <= |s| && forall i | lo <= i < hi :: InClass(s[i], k)
  }

  /**
   * s[i..j] matches the pattern, split as local part s[i..a], at-signs s[a..b],
   * domain s[b..c], the dot s[c] and the top-level domain s[c+1..j].
   */
  predicate MatchAt(s: string, i: int, a: int, b: int, c: int, j: int)
  {
    && i < a < b < c
    && Run(s, i, a, Local)
    && Run(s, a, b, At)
    && Run(s, b, c, Alnum)
    && c < |s| && s[c] == '.'
    && c + 3 <= j <= c + 5
    && Run(s, c + 1, j, Letter)
  }

  /** What `re.search` accepts: some substring matches the pattern. */
  ghost predicate Matches(s: string)
  {
    exists i, a, b, c, j :: MatchAt(s, i, a, b, c, j)
  }

  /** Where the longest run of class k that ends at hi begins. */
  function RunStart(s: string, hi: int, k: Class): (lo: int)
    requires 0 <= hi <= |s|
    ensures Run(s, lo, hi, k)
    ensures lo == 0 || !InClass(s[lo - 1], k)
    decreases hi
  {
    if hi > 0 && InClass(s[hi - 1], k) then RunStart(s, hi - 1, k) else hi
  }

  /**
   * The dot at c ends a match: two letters follow it, and going left from it
   * there is a non-empty run of letters and digits, then a non-empty run of
   * '@', then one local-part character.
   */
  predicate DotCandidate(s: string, c: int)
    requires 0 <= c < |s|
  {
    && c + 2 < |s| && s[c] == '.' && IsLetter(s[c + 1]) && IsLetter(s[c + 2])
    && (var b := RunStart(s, c, Alnum);
        b < c && (var a := RunStart(s, b, At);
                  0 < a < b && InClass(s[a - 1], Local)))
  }

  /** The email check: some dot of the string ends a match. */
  predicate EmailValid(s: string)
  {
    exists c | 0 <= c < |s| :: DotCandidate(s, c)
  }

  /** A run that cannot be extended to the left is the one RunStart finds. */
  lemma {:induction false} RunStartOf(s: string, lo: int, hi: int, k: Class)
    requires Run(s, lo, hi, k)
    requires lo == 0 || !InClass(s[lo - 1], k)
    ensures RunStart(s, hi, k) == lo
    decreases hi - lo
  {
    if lo < hi {
      RunStartOf(s, lo, hi - 1, k);
    }
  }

  /** The scan accepts exactly the strings in which the pattern can be found. */
  lemma EmailValidIffMatches(s: string)
    ensures EmailValid(s) <==> Matches(s)
  {
    if EmailValid(s) {
      var c :| 0 <= c < |s| && DotCandidate(s, c);
      var b := RunStart(s, c, Alnum);
      var a := RunStart(s, b, At);
      assert MatchAt(s, a - 1, a, b, c, c + 3);
    }
    if Matches(s) {
      var i, a, b, c, j :| MatchAt(s, i, a, b, c, j);
      assert InClass(s[b - 1], At);
      RunStartOf(s, b, c, Alnum);
      assert InClass(s[a - 1], Local);
      RunStartOf(s, a, b, At);
      assert DotCandidate(s, c);
    }
  }

  lemma {:induction false} RunShift(s: string, p: string, q: string, lo: int, hi: int, k: Class)
    requires Run(s, lo, hi, k)
    ensures Run(p + s + q, lo + |p|, hi + |p|, k)
  {
    var t := p + s + q;
    forall i | lo + |p| <= i < hi + |p|
      ensures InClass(t[i], k)
    {
      assert t[i] == s[i - |p|];
    }
  }

  /** Because the check is a search, text added before or after an accepted email keeps it accepted. */
  lemma EmailValidExtends(p: string, s: string, q: string)
    requires EmailValid(s)
    ensures EmailValid(p + s + q)
  {
    EmailValidIffMatches(s);
    var i, a, b, c, j :| MatchAt(s, i, a, b, c, j);
    var n := |p|;
    var t := p + s + q;
    RunShift(s, p, q, i, a, Local);
    RunShift(s, p, q, a, b, At);
    RunShift(s, p, q, b, c, Alnum);
    RunShift(s, p, q, c + 1, j, Letter);
    assert t[c + n] == s[c];
    assert MatchAt(t, i + n, a + n, b + n, c + n, j + n);
    EmailValidIffMatches(t);
  }

  /** An accepted email contains both an '@' and a '.'. */
  lemma EmailValidNeedsAtAndDot(s: string)
    ensures EmailValid(s) ==> '@' in s && '.' in s
  {
    if EmailValid(s) {
      var c :| 0 <= c < |s| && DotCandidate(s, c);
      var b := RunStart(s, c, Alnum);
      assert s[b - 1] == '@';
    }
  }

  /** `john@demo.com` is accepted. */
  lemma ExampleAddressAccepted()
    ensures EmailValid("john@demo.com")
  {
    var s := "john@demo.com";
    assert s[4] == '@' && s[9] == '.';
    assert Run(s, 0, 4, Local) by {
      assert s[0] == 'j' && s[1] == 'o' && s[2] == 'h' && s[3] == 'n';
    }
    assert Run(s, 5, 9, Alnum) by {
      assert s[5] == 'd' && s[6] == 'e' && s[7] == 'm' && s[8] == 'o';
    }
    assert Run(s, 10, 13, Letter) by {
      assert s[10] == 'c' && s[11] == 'o' && s[12] == 'm';
    }
    assert MatchAt(s, 0, 4, 5, 9, 13);
    EmailValidIffMatches(s);
  }
}

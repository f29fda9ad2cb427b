/**
 * The password check of the registration form: the JavaScript regular expression
 *   ^(?=.*[A-Za-z])(?=.*\d)(?=.*[@$!%*#?&])[A-Za-z\d@$!%*#?&]{8,}$
 * (no flags). Each lookahead `(?=.*X)` asks, from the start of the string, for
 * an `X` that `.*` can reach; without the `s` flag `.` does not match a line
 * terminator, so the reach stops at the first one. Without the `u` flag `\d` is
 * the ASCII class [0-9].
 *
 * MatchesPassword follows the expression; ValidPassword states the accept set
 * in plain terms; PasswordAcceptSet proves the two equal.
 */
module PasswordPattern {

  /** The three things the lookaheads ask for. */
  datatype Requirement = Letter | Digit | Symbol

  /** `[A-Za-z]` */
  predicate IsAsciiLetter(c: char) {
    ('A' <= c <= 'Z') || ('a' <= c <= 'z')
  }

  /** `\d` without the `u` flag. */
  predicate IsDigit(c: char) {
    '0' <= c <= '9'
  }

  /** `[@$!%*#?&]` */
  predicate IsSymbol(c: char) {
    c == '@' || c == '$' || c == '!' || c == '%' || c == '*' || c == '#' || c == '?' || c == '&'
  }

  /** `[A-Za-z\d@$!%*#?&]`, the only characters a password may consist of. */
  predicate IsPasswordChar(c: char) {
    IsAsciiLetter(c) || IsDigit(c) || IsSymbol(c)
  }

  predicate Satisfies(c: char, r: Requirement) {
    match r
    case Letter => IsAsciiLetter(c)
    case Digit => IsDigit(c)
    case Symbol => IsSymbol(c)
  }

  /** The characters `.` does not match when the `s` flag is absent. */
  predicate IsLineTerminator(c: char) {
    c == '\n' || c == '\r' || c == '\U{2028}' || c == '\U{2029}'
  }

  // ---------------------------------------------------------------------------
  // The regular expression, piece by piece

  /** `(?=.*X)` at the start: an `X` with no line terminator in front of it. */
  predicate Lookahead(s: string, r: Requirement) {
    exists k | 0 <= k < |s| ::
      Satisfies(s[k], r) && forall j | 0 <= j < k :: !IsLineTerminator(s[j])
  }

  /** `[A-Za-z\d@$!%*#?&]{8,}` followed by the end of input. */
  predicate Body(s: string) {
    |s| >= 8 && forall i | 0 <= i < |s| :: IsPasswordChar(s[i])
  }

  /** The whole anchored expression. */
  predicate MatchesPassword(s: string)
    ensures MatchesPassword(s) ==> |s| >= 8
  {
    && Lookahead(s, Letter)
    && Lookahead(s, Digit)
    && Lookahead(s, Symbol)
    && Body(s)
  }

  // ---------------------------------------------------------------------------
  // The accept set in plain terms

  predicate Contains(s: string, r: Requirement) {
    exists i | 0 <= i < |s| :: Satisfies(s[i], r)
  }

  /**
   * At least eight characters, every one of them in `[A-Za-z0-9@$!%*#?&]`,
   * with at least one ASCII letter, one digit and one of `@$!%*#?&`.
   */
  predicate ValidPassword(s: string)
    ensures ValidPassword(s) ==> Contains(s, Letter) && Contains(s, Digit) && Contains(s, Symbol)
  {
    && |s| >= 8
    && (forall i | 0 <= i < |s| :: IsPasswordChar(s[i]))
    && Contains(s, Letter)
    && Contains(s, Digit)
    && Contains(s, Symbol)
  }

  // ---------------------------------------------------------------------------
  // Proofs

  /** Once the body has matched, a lookahead is just "somewhere in the string". */
  lemma LookaheadInBody(s: string, r: Requirement)
    requires Body(s)
    ensures Lookahead(s, r) <==> Contains(s, r)
  {
    if Contains(s, r) {
      var i :| 0 <= i < |s| && Satisfies(s[i], r);
      forall j | 0 <= j < i ensures !IsLineTerminator(s[j]) {
        assert IsPasswordChar(s[j]);
      }
    }
  }

  /** The regular expression accepts exactly the strings ValidPassword describes. */
  lemma PasswordAcceptSet(s: string)
    ensures MatchesPassword(s) <==> ValidPassword(s)
  {
    if Body(s) {
      LookaheadInBody(s, Letter);
      LookaheadInBody(s, Digit);
      LookaheadInBody(s, Symbol);
    }
  }

  /**
   * A character outside `[A-Za-z0-9@$!%*#?&]` (a space, `^`, a non-ASCII
   * letter) rejects the password whatever else it contains.
   */
  lemma ForeignCharRejected(s: string, i: int)
    requires 0 <= i < |s| && !IsPasswordChar(s[i])
    ensures !MatchesPassword(s)
  {
  }

  /**
   * A lookahead on its own does not see past a line break. This only documents
   * how `.` is modelled: the whole expression rejects such a string anyway, and
   * LookaheadInBody shows that line terminators never matter once Body holds.
   */
  lemma LookaheadStopsAtLineBreak(s: string)
    requires s == "\n1"
    ensures Contains(s, Digit) && !Lookahead(s, Digit)
  {
    assert Satisfies(s[1], Digit);
    assert IsLineTerminator(s[0]) && !Satisfies(s[0], Digit);
  }

  // ---------------------------------------------------------------------------
  // Examples

  /** The empty string (the form's initial value) is rejected. */
  lemma EmptyPasswordRejected()
    ensures !MatchesPassword("")
  {
  }

  /** Eight characters with a letter, a digit and a symbol are accepted. */
  lemma ExamplePasswordAccepted(s: string)
    requires s == "Passw0rd!"
    ensures MatchesPassword(s)
  {
    assert Satisfies(s[0], Letter) && Satisfies(s[5], Digit) && Satisfies(s[8], Symbol);
    PasswordAcceptSet(s);
  }

  /** The same password with a space in it is rejected. */
  lemma ExamplePasswordWithSpaceRejected(s: string)
    requires s == "Pass w0rd!"
    ensures Contains(s, Letter) && Contains(s, Digit) && Contains(s, Symbol) && |s| >= 8
    ensures !MatchesPassword(s)
  {
    assert Satisfies(s[0], Letter) && Satisfies(s[6], Digit) && Satisfies(s[9], Symbol);
    ForeignCharRejected(s, 4);
  }
}

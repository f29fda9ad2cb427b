/**
 * The e-mail check of the registration form: the JavaScript regular expression
 *   ^[\w-\.]+@([\w-]+\.)+[\w-]{2,4}$
 * (no flags). Without the `u` flag `\w` is the ASCII class [A-Za-z0-9_], and
 * `[\w-\.]` is read as "word character, `-` or `.`".
 *
 * MatchesEmail follows the structure of the expression piece by piece (a split
 * point for every concatenation, one unfolding per `+`); ValidEmail states the
 * same set of strings in plain terms (exactly one `@`, a local part, and a domain
 * that splits on `.` into labels); EmailAcceptSet proves the two equal.
 */
module EmailPattern {

  /** `\w` without the `u` flag. */
  predicate IsWordChar(c: char) {
    ('A' <= c <= 'Z') || ('a' <= c <= 'z') || ('0' <= c <= '9') || c == '_'
  }

  /** `[\w-\.]`, the characters of the part before the `@`. */
  predicate IsLocalChar(c: char) {
    IsWordChar(c) || c == '-' || c == '.'
  }

  /** `[\w-]`, the characters of a domain label. */
  predicate IsLabelChar(c: char) {
    IsWordChar(c) || c == '-'
  }

  predicate AllLocalChars(s: string) {
    forall i | 0 <= i < |s| :: IsLocalChar(s[i])
  }

  predicate AllLabelChars(s: string) {
    forall i | 0 <= i < |s| :: IsLabelChar(s[i])
  }

  // ---------------------------------------------------------------------------
  // The regular expression, piece by piece

  /** `[\w-\.]+` */
  predicate LocalPart(s: string) {
    |s| >= 1 && AllLocalChars(s)
  }

  /** `[\w-]+` */
  predicate Label(s: string) {
    |s| >= 1 && AllLabelChars(s)
  }

  /** `[\w-]{2,4}` */
  predicate TopLabel(s: string) {
    2 <= |s| <= 4 && AllLabelChars(s)
  }

  /** `([\w-]+\.)+`: a label and a dot, then the end or another repetition. */
  predicate DottedLabels(s: string)
    decreases |s|
  {
    exists k | 1 <= k < |s| ::
      Label(s[..k]) && s[k] == '.' && (k + 1 == |s| || DottedLabels(s[k + 1..]))
  }

  /** `([\w-]+\.)+[\w-]{2,4}` */
  predicate Domain(s: string) {
    exists j | 0 <= j <= |s| :: DottedLabels(s[..j]) && TopLabel(s[j..])
  }

  /** The whole anchored expression `^[\w-\.]+@([\w-]+\.)+[\w-]{2,4}$`. */
  predicate MatchesEmail(s: string)
    ensures MatchesEmail(s) ==> '@' in s
  {
    exists i | 0 <= i < |s| :: LocalPart(s[..i]) && s[i] == '@' && Domain(s[i + 1..])
  }

  // ---------------------------------------------------------------------------
  // The accept set in plain terms

  /** Position of the first occurrence of `c` in `s`. */
  function IndexOf(s: string, c: char): (k: nat)
    requires c in s
    ensures k < |s| && s[k] == c
    ensures forall j | 0 <= j < k :: s[j] != c
  {
    if s[0] == c then 0 else 1 + IndexOf(s[1..], c)
  }

  /** `s.split(sep)` for a one-character separator. */
  function Split(s: string, sep: char): (parts: seq<string>)
    ensures |parts| == multiset(s)[sep] + 1
    ensures forall i | 0 <= i < |parts| :: sep !in parts[i]
    decreases |s|
  {
    if sep !in s then [s]
    else
      var k := IndexOf(s, sep);
      assert s == s[..k] + [sep] + s[k + 1..];
      [s[..k]] + Split(s[k + 1..], sep)
  }

  /** `parts.join(sep)`: the inverse of Split. */
  function Join(parts: seq<string>, sep: char): string
    requires |parts| >= 1
  {
    if |parts| == 1 then parts[0] else parts[0] + [sep] + Join(parts[1..], sep)
  }

  /** Splitting on a character and joining back with it gives the string back. */
  lemma {:induction false} SplitJoin(s: string, sep: char)
    ensures Join(Split(s, sep), sep) == s
    decreases |s|
  {
    if sep in s {
      var k := IndexOf(s, sep);
      SplitJoin(s[k + 1..], sep);
      assert s == s[..k] + [sep] + s[k + 1..];
    }
  }

  /** Segments that are all labels, the last one of two to four characters. */
  predicate LabelsEndingInTopLabel(parts: seq<string>) {
    && |parts| >= 1
    && (forall i | 0 <= i < |parts| :: Label(parts[i]))
    && 2 <= |parts[|parts| - 1]| <= 4
  }

  /** The part after the `@` splits on `.` into at least two such segments. */
  predicate DomainSegmentsOk(d: string) {
    var parts := Split(d, '.');
    |parts| >= 2 && LabelsEndingInTopLabel(parts)
  }

  /**
   * Exactly one `@`; before it a non-empty run of `[A-Za-z0-9_.-]`; after it
   * at least two `.`-separated non-empty segments of `[A-Za-z0-9_-]`, the last
   * of length 2 to 4.
   */
  predicate ValidEmail(s: string)
    ensures ValidEmail(s) ==> '@' in s
  {
    && multiset(s)['@'] == 1
    && var i := IndexOf(s, '@');
    && LocalPart(s[..i])
    && DomainSegmentsOk(s[i + 1..])
  }

  // ---------------------------------------------------------------------------
  // Proof that the two agree

  /** A run of label characters never holds a character outside the class. */
  lemma LabelHasNo(s: string, c: char)
    requires AllLabelChars(s) && !IsLabelChar(c)
    ensures c !in s
  {
    forall i | 0 <= i < |s| ensures s[i] != c {
      assert IsLabelChar(s[i]);
    }
  }

  /** Everything matched by `([\w-]+\.)+` is made of label characters and dots. */
  lemma {:induction false} DottedLabelsChars(s: string)
    requires DottedLabels(s)
    ensures forall i | 0 <= i < |s| :: IsLabelChar(s[i]) || s[i] == '.'
    decreases |s|
  {
    var k :| 1 <= k < |s| && Label(s[..k]) && s[k] == '.' && (k + 1 == |s| || DottedLabels(s[k + 1..]));
    if k + 1 < |s| {
      DottedLabelsChars(s[k + 1..]);
      forall i | k + 1 <= i < |s| ensures IsLabelChar(s[i]) || s[i] == '.' {
        assert s[i] == s[k + 1..][i - (k + 1)];
      }
    }
    forall i | 0 <= i < k ensures IsLabelChar(s[i]) {
      assert s[i] == s[..k][i];
    }
  }

  /** Everything matched by the domain part is made of label characters and dots. */
  lemma DomainChars(d: string)
    requires Domain(d)
    ensures forall i | 0 <= i < |d| :: IsLabelChar(d[i]) || d[i] == '.'
  {
    var j :| 0 <= j <= |d| && DottedLabels(d[..j]) && TopLabel(d[j..]);
    DottedLabelsChars(d[..j]);
    forall i | 0 <= i < |d| ensures IsLabelChar(d[i]) || d[i] == '.' {
      if i < j {
        assert d[i] == d[..j][i];
      } else {
        assert d[i] == d[j..][i - j];
      }
    }
  }

  /**
   * The domain part read one label at a time: a label, a dot, and then either
   * the top label or again a domain.
   */
  predicate DomainStep(d: string, k: int) {
    && 1 <= k < |d|
    && Label(d[..k]) && d[k] == '.'
    && (TopLabel(d[k + 1..]) || Domain(d[k + 1..]))
  }

  lemma DomainUnfoldForward(d: string)
    requires Domain(d)
    ensures exists k :: DomainStep(d, k)
  {
    var j :| 0 <= j <= |d| && DottedLabels(d[..j]) && TopLabel(d[j..]);
    var x := d[..j];
    var k :| 1 <= k < |x| && Label(x[..k]) && x[k] == '.' && (k + 1 == |x| || DottedLabels(x[k + 1..]));
    assert d[..k] == x[..k];
    if k + 1 == |x| {
      assert d[k + 1..] == d[j..];
      assert DomainStep(d, k);
    } else {
      var r := d[k + 1..];
      assert r[..j - (k + 1)] == x[k + 1..];
      assert r[j - (k + 1)..] == d[j..];
      assert Domain(r);
      assert DomainStep(d, k);
    }
  }

  lemma DomainUnfoldBackward(d: string, k: int)
    requires DomainStep(d, k)
    ensures Domain(d)
  {
    var r := d[k + 1..];
    if TopLabel(r) {
      var x := d[..k + 1];
      assert x[..k] == d[..k];
      assert DottedLabels(x);
      assert d[k + 1..] == r;
    } else {
      var j' :| 0 <= j' <= |r| && DottedLabels(r[..j']) && TopLabel(r[j'..]);
      var j := k + 1 + j';
      var x := d[..j];
      assert |r[..j']| >= 2;
      assert x[..k] == d[..k];
      assert x[k + 1..] == r[..j'];
      assert DottedLabels(x);
      assert d[j..] == r[j'..];
    }
  }

  /** A label followed by a dot ends at the first dot of the string. */
  lemma LabelEndsAtFirstDot(d: string, k: int)
    requires 1 <= k < |d| && Label(d[..k]) && d[k] == '.'
    ensures '.' in d && k == IndexOf(d, '.')
  {
    var k0 := IndexOf(d, '.');
    forall j | 0 <= j < k ensures d[j] != '.' {
      assert IsLabelChar(d[..k][j]);
    }
  }

  /** The domain part, unfolded at the first dot. */
  lemma DomainAtFirstDot(d: string)
    ensures Domain(d) <==>
      '.' in d && var k := IndexOf(d, '.'); DomainStep(d, k)
  {
    if Domain(d) {
      DomainUnfoldForward(d);
      var k :| DomainStep(d, k);
      LabelEndsAtFirstDot(d, k);
    }
    if '.' in d && DomainStep(d, IndexOf(d, '.')) {
      DomainUnfoldBackward(d, IndexOf(d, '.'));
    }
  }

  /** A string without the separator is a single segment. */
  lemma SplitNoSep(s: string, sep: char)
    requires sep !in s
    ensures Split(s, sep) == [s]
  {
  }

  /** The segments after the first dot: either the top label alone or again a domain. */
  lemma TailSegments(r: string)
    ensures LabelsEndingInTopLabel(Split(r, '.')) <==> TopLabel(r) || DomainSegmentsOk(r)
  {
    if '.' !in r {
      SplitNoSep(r, '.');
    } else if TopLabel(r) {
      LabelHasNo(r, '.');
    }
  }

  /** The segment condition, unfolded at the first dot. */
  lemma SegmentsAtFirstDot(d: string)
    requires '.' in d
    ensures var k := IndexOf(d, '.');
      DomainSegmentsOk(d) <==>
      Label(d[..k]) && (TopLabel(d[k + 1..]) || DomainSegmentsOk(d[k + 1..]))
  {
    var k := IndexOf(d, '.');
    var r := d[k + 1..];
    var parts := Split(d, '.');
    var rest := Split(r, '.');
    assert parts == [d[..k]] + rest;
    TailSegments(r);
    if DomainSegmentsOk(d) {
      assert Label(parts[0]);
      forall i | 0 <= i < |rest| ensures Label(rest[i]) {
        assert rest[i] == parts[i + 1];
      }
    }
    if Label(d[..k]) && LabelsEndingInTopLabel(rest) {
      forall i | 0 <= i < |parts| ensures Label(parts[i]) {
        if i > 0 {
          assert parts[i] == rest[i - 1];
        }
      }
    }
  }

  /**
   * The domain part of the expression accepts exactly the strings that split
   * on `.` into at least two labels, the last of two to four characters.
   */
  lemma {:induction false} DomainIffSegments(d: string)
    ensures Domain(d) <==> DomainSegmentsOk(d)
    decreases |d|
  {
    DomainAtFirstDot(d);
    if '.' !in d {
      SplitNoSep(d, '.');
    } else {
      var k := IndexOf(d, '.');
      DomainIffSegments(d[k + 1..]);
      SegmentsAtFirstDot(d);
    }
  }

  /** The characters of the part before the `@` are never `@`. */
  lemma LocalHasNoAt(s: string)
    requires AllLocalChars(s)
    ensures '@' !in s
  {
    forall i | 0 <= i < |s| ensures s[i] != '@' {
      assert IsLocalChar(s[i]);
    }
  }

  /** The characters of the domain part are never `@`. */
  lemma DomainHasNoAt(d: string)
    requires Domain(d)
    ensures '@' !in d
  {
    DomainChars(d);
    forall i | 0 <= i < |d| ensures d[i] != '@' {
      assert IsLabelChar(d[i]) || d[i] == '.';
    }
  }

  /** A match splits at the one and only `@`. */
  lemma MatchSplitsAtOnlyAt(s: string, i: int)
    requires 0 <= i < |s| && LocalPart(s[..i]) && s[i] == '@' && Domain(s[i + 1..])
    ensures multiset(s)['@'] == 1 && i == IndexOf(s, '@')
  {
    var local, d := s[..i], s[i + 1..];
    assert s == local + ['@'] + d;
    LocalHasNoAt(local);
    DomainHasNoAt(d);
    assert multiset(s) == multiset(local) + multiset{'@'} + multiset(d);
    forall j | 0 <= j < i ensures s[j] != '@' {
      assert s[j] == local[j];
    }
  }

  /** Every match lies in the accept set. */
  lemma MatchIsValid(s: string)
    requires MatchesEmail(s)
    ensures ValidEmail(s)
  {
    var i :| 0 <= i < |s| && LocalPart(s[..i]) && s[i] == '@' && Domain(s[i + 1..]);
    MatchSplitsAtOnlyAt(s, i);
    DomainIffSegments(s[i + 1..]);
  }

  /** Every string of the accept set matches, split at its `@`. */
  lemma ValidMatches(s: string)
    requires ValidEmail(s)
    ensures MatchesEmail(s)
  {
    var i := IndexOf(s, '@');
    DomainIffSegments(s[i + 1..]);
    assert LocalPart(s[..i]) && s[i] == '@' && Domain(s[i + 1..]);
  }

  /** The regular expression accepts exactly the strings ValidEmail describes. */
  lemma EmailAcceptSet(s: string)
    ensures MatchesEmail(s) <==> ValidEmail(s)
  {
    if MatchesEmail(s) {
      MatchIsValid(s);
    }
    if ValidEmail(s) {
      ValidMatches(s);
    }
  }

  // ---------------------------------------------------------------------------
  // Examples

  /** The empty string (the form's initial value) is rejected. */
  lemma EmptyEmailRejected()
    ensures !MatchesEmail("")
  {
  }

  /** A plain address is accepted, with the `@` at index 1 and the dot at index 3. */
  lemma ShortAddressAccepted()
    ensures MatchesEmail("a@b.com")
  {
    var s := "a@b.com";
    var d := s[2..];
    assert d[..2] == "b.";
    assert d[..2][..1] == "b";
    assert DottedLabels(d[..2]);
    assert TopLabel(d[2..]);
    assert Domain(d);
    assert s[..1] == "a";
  }
}

/**
 * `insert_spaces` (unzyp.py:19-20): three `re.sub` passes, each inserting one space at every
 * place where its pattern matches, run in the order digit/letter, acronym end, lower/upper.
 *
 * Each pattern matches two or three characters and puts the space after the first of them.
 * A match never consumes a character that could start the next match (the character after
 * the space is always a letter or an upper-case letter, the character that would start a
 * new match is a digit, an upper-case letter or a lower-case letter followed by something
 * the consumed character cannot be), so `re.sub`'s left-to-right scan inserts a space at
 * exactly the positions where the pattern matches the input. `Split` scans for those
 * positions directly.
 */
module Spacing {
  import opened Text

  datatype Rule =
    | DigitThenLetter  // `([0-9]+)([a-zA-Z])`
    | AcronymEnd       // `([A-Z])([A-Z][a-z])`
    | LowerThenUpper   // `([a-z])([A-Z])`

  /** The rule's pattern matches at the start of `s`, so a space goes after `s[0]`. */
  predicate CutAfterFirst(rule: Rule, s: string) {
    match rule
    case DigitThenLetter => |s| >= 2 && IsDigit(s[0]) && IsAsciiLetter(s[1])
    case AcronymEnd => |s| >= 3 && IsUpper(s[0]) && IsUpper(s[1]) && IsLower(s[2])
    case LowerThenUpper => |s| >= 2 && IsLower(s[0]) && IsUpper(s[1])
  }

  /** One substitution pass: a space after every character where the rule matches. */
  function Split(rule: Rule, s: string): (r: string)
    ensures |r| >= |s|
    ensures |s| > 0 ==> |r| > 0 && r[0] == s[0]
    ensures |s| > 1 ==> |r| > 1 && (r[1] == s[1] || r[1] == ' ')
    decreases |s|
  {
    if |s| == 0 then []
    else if CutAfterFirst(rule, s) then [s[0], ' '] + Split(rule, s[1..])
    else [s[0]] + Split(rule, s[1..])
  }

  /** `insert_spaces(text)`. */
  function InsertSpaces(s: string): string {
    Split(LowerThenUpper, Split(AcronymEnd, Split(DigitThenLetter, s)))
  }

  /** No position of `s` where the rule would insert a space. */
  predicate Uncut(rule: Rule, s: string) {
    forall i | 0 <= i < |s| :: !CutAfterFirst(rule, s[i..])
  }

  /** No position of `s` where any of the three passes would insert a space. */
  predicate Spaced(s: string) {
    Uncut(DigitThenLetter, s) && Uncut(AcronymEnd, s) && Uncut(LowerThenUpper, s)
  }

  /** `r` is `s` with zero or more ' ' characters inserted: dropping those spaces from `r`
      gives `s` back. */
  predicate SpacesInserted(s: string, r: string)
    decreases |r|
  {
    if |r| == 0 then |s| == 0
    else (|s| > 0 && r[0] == s[0] && SpacesInserted(s[1..], r[1..]))
         || (r[0] == ' ' && SpacesInserted(s, r[1..]))
  }

  // ---------------------------------------------------------------------------
  // "Only spaces are inserted"

  lemma {:induction false} SpacesInsertedReflexive(s: string)
    ensures SpacesInserted(s, s)
    decreases |s|
  {
    if |s| > 0 {
      SpacesInsertedReflexive(s[1..]);
    }
  }

  lemma {:induction false} SpacesInsertedTransitive(a: string, b: string, c: string)
    requires SpacesInserted(a, b) && SpacesInserted(b, c)
    ensures SpacesInserted(a, c)
    decreases |c|, |b|
  {
    if |c| == 0 {
    } else if |b| > 0 && c[0] == b[0] && SpacesInserted(b[1..], c[1..]) {
      if |a| > 0 && b[0] == a[0] && SpacesInserted(a[1..], b[1..]) {
        SpacesInsertedTransitive(a[1..], b[1..], c[1..]);
      } else {
        SpacesInsertedTransitive(a, b[1..], c[1..]);
      }
    } else {
      SpacesInsertedTransitive(a, b, c[1..]);
    }
  }

  /** A pass only inserts spaces. */
  lemma {:induction false} SplitInsertsSpaces(rule: Rule, s: string)
    ensures SpacesInserted(s, Split(rule, s))
    decreases |s|
  {
    if |s| > 0 {
      SplitInsertsSpaces(rule, s[1..]);
      var t := Split(rule, s[1..]);
      if CutAfterFirst(rule, s) {
        var r := [s[0], ' '] + t;
        assert r[1..][1..] == t;
        assert SpacesInserted(s[1..], r[1..]);
      } else {
        assert ([s[0]] + t)[1..] == t;
      }
    }
  }

  /** `insert_spaces` only inserts ' ' characters: deleting them gives back its input. */
  lemma InsertSpacesOnlyInsertsSpaces(s: string)
    ensures SpacesInserted(s, InsertSpaces(s))
  {
    var s1 := Split(DigitThenLetter, s);
    var s2 := Split(AcronymEnd, s1);
    SplitInsertsSpaces(DigitThenLetter, s);
    SplitInsertsSpaces(AcronymEnd, s1);
    SplitInsertsSpaces(LowerThenUpper, s2);
    SpacesInsertedTransitive(s, s1, s2);
    SpacesInsertedTransitive(s, s2, InsertSpaces(s));
  }

  /** Inserting spaces adds no character other than ' '. */
  lemma {:induction false} SpacesInsertedKeepsAbsent(s: string, r: string, c: char)
    requires SpacesInserted(s, r) && c != ' ' && c !in s
    ensures c !in r
    decreases |r|
  {
    if |r| > 0 {
      if |s| > 0 && r[0] == s[0] && SpacesInserted(s[1..], r[1..]) {
        SpacesInsertedKeepsAbsent(s[1..], r[1..], c);
      } else {
        SpacesInsertedKeepsAbsent(s, r[1..], c);
      }
      assert r == [r[0]] + r[1..];
    }
  }

  // ---------------------------------------------------------------------------
  // Idempotence

  lemma {:induction false} UncutTail(rule: Rule, s: string)
    requires |s| > 0 && Uncut(rule, s)
    ensures !CutAfterFirst(rule, s) && Uncut(rule, s[1..])
  {
    assert s[0..] == s;
    forall i | 0 <= i < |s| - 1
      ensures !CutAfterFirst(rule, s[1..][i..])
    {
      assert s[1..][i..] == s[i + 1..];
    }
  }

  /** A pass leaves a string where its rule never matches unchanged. */
  lemma {:induction false} SplitUnchanged(rule: Rule, s: string)
    requires Uncut(rule, s)
    ensures Split(rule, s) == s
    decreases |s|
  {
    if |s| > 0 {
      UncutTail(rule, s);
      SplitUnchanged(rule, s[1..]);
      assert [s[0]] + s[1..] == s;
    }
  }

  /** Every rule needs its second character to be a letter, so a space never starts or
      ends a match. */
  lemma NoCutAtSpace(rule: Rule, s: string)
    requires |s| > 0 && (s[0] == ' ' || (|s| > 1 && s[1] == ' '))
    ensures !CutAfterFirst(rule, s)
  {
  }

  /** A match in `[c] + t` that only reads `c`, `s[1]` and `s[2]` or a space is a match in
      `s`. */
  lemma CutOnlyReadsWindow(rule: Rule, s: string, t: string)
    requires |s| > 0 && (|s| <= 2 ==> |t| == |s| - 1) && |t| >= |s| - 1
    requires |s| > 1 ==> t[0] == s[1]
    requires |s| > 2 ==> t[1] == s[2] || t[1] == ' '
    requires CutAfterFirst(rule, [s[0]] + t)
    ensures CutAfterFirst(rule, s)
  {
  }

  /** After a pass of `rule`, no rule that did not match before matches, and `rule` no
      longer matches anywhere. */
  lemma {:induction false} SplitLeavesUncut(rule: Rule, other: Rule, s: string)
    requires other == rule || Uncut(other, s)
    ensures Uncut(other, Split(rule, s))
    decreases |s|
  {
    if |s| > 0 {
      var t := Split(rule, s[1..]);
      if other != rule {
        UncutTail(other, s);
      }
      SplitLeavesUncut(rule, other, s[1..]);
      if CutAfterFirst(rule, s) {
        var r := [s[0], ' '] + t;
        forall i | 0 <= i < |r|
          ensures !CutAfterFirst(other, r[i..])
        {
          if i == 0 {
            NoCutAtSpace(other, r);
          } else if i == 1 {
            NoCutAtSpace(other, r[1..]);
          } else {
            assert r[i..] == t[i - 2..];
          }
        }
      } else {
        var r := [s[0]] + t;
        assert !CutAfterFirst(other, s) by {
          if other != rule {
            assert s[0..] == s;
          }
        }
        forall i | 0 <= i < |r|
          ensures !CutAfterFirst(other, r[i..])
        {
          if i == 0 {
            assert r[0..] == r;
            if |s| > 1 {
              assert |t| > 0 && t[0] == s[1];
            }
            if |s| == 2 {
              assert !CutAfterFirst(rule, s[1..]);
              assert t == [s[1]] + Split(rule, s[1..][1..]);
            }
            if CutAfterFirst(other, r) {
              CutOnlyReadsWindow(other, s, t);
            }
          } else {
            assert r[i..] == t[i - 1..];
          }
        }
      }
    }
  }

  /** The result of `insert_spaces` offers none of the three passes anything to do. */
  lemma InsertSpacesSpaced(s: string)
    ensures Spaced(InsertSpaces(s))
  {
    var s1 := Split(DigitThenLetter, s);
    var s2 := Split(AcronymEnd, s1);
    SplitLeavesUncut(DigitThenLetter, DigitThenLetter, s);
    SplitLeavesUncut(AcronymEnd, DigitThenLetter, s1);
    SplitLeavesUncut(AcronymEnd, AcronymEnd, s1);
    SplitLeavesUncut(LowerThenUpper, DigitThenLetter, s2);
    SplitLeavesUncut(LowerThenUpper, AcronymEnd, s2);
    SplitLeavesUncut(LowerThenUpper, LowerThenUpper, s2);
  }

  /** `insert_spaces` leaves a string with nothing to split unchanged. */
  lemma InsertSpacesUnchanged(s: string)
    requires Spaced(s)
    ensures InsertSpaces(s) == s
  {
    SplitUnchanged(DigitThenLetter, s);
    SplitUnchanged(AcronymEnd, s);
    SplitUnchanged(LowerThenUpper, s);
  }

  /** Applying `insert_spaces` a second time changes nothing. */
  lemma InsertSpacesIdempotent(s: string)
    ensures InsertSpaces(InsertSpaces(s)) == InsertSpaces(s)
  {
    InsertSpacesSpaced(s);
    InsertSpacesUnchanged(InsertSpaces(s));
  }

  // ---------------------------------------------------------------------------
  // The fixed points of `insert_spaces`

  /** A pass that does not lengthen its input found nothing to split. */
  lemma {:induction false} SplitSameLength(rule: Rule, s: string)
    requires |Split(rule, s)| == |s|
    ensures Uncut(rule, s)
    decreases |s|
  {
    if |s| > 0 {
      assert !CutAfterFirst(rule, s);
      SplitSameLength(rule, s[1..]);
      forall i | 0 <= i < |s|
        ensures !CutAfterFirst(rule, s[i..])
      {
        if i > 0 {
          assert s[i..] == s[1..][i - 1..];
        }
      }
    }
  }

  /** `insert_spaces` returns its input exactly when none of its passes matches anywhere. */
  lemma InsertSpacesFixedPoints(s: string)
    ensures InsertSpaces(s) == s <==> Spaced(s)
  {
    if InsertSpaces(s) == s {
      var s1 := Split(DigitThenLetter, s);
      var s2 := Split(AcronymEnd, s1);
      SplitSameLength(DigitThenLetter, s);
      SplitUnchanged(DigitThenLetter, s);
      SplitSameLength(AcronymEnd, s);
      SplitUnchanged(AcronymEnd, s);
      SplitSameLength(LowerThenUpper, s);
    }
    if Spaced(s) {
      InsertSpacesUnchanged(s);
    }
  }
}

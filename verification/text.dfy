/**
 * The pieces of Python's `str`, `re` and `pathlib` behaviour that unzyp.py relies on,
 * each written out as a scan over `seq<char>` and restricted to the way the script calls it.
 */
module Text {

  predicate IsDigit(c: char) { '0' <= c <= '9' }
  predicate IsUpper(c: char) { 'A' <= c <= 'Z' }
  predicate IsLower(c: char) { 'a' <= c <= 'z' }
  predicate IsAsciiLetter(c: char) { IsUpper(c) || IsLower(c) }

  predicate AllDigits(s: string) { forall i | 0 <= i < |s| :: IsDigit(s[i]) }

  /** The characters for which Python's `str.isspace()` holds: what `str.strip()` removes. */
  predicate IsSpace(c: char) {
    var n := c as int;
    (9 <= n <= 13) || (28 <= n <= 32) || n == 0x85 || n == 0xA0 || n == 0x1680
    || (0x2000 <= n <= 0x200A) || n == 0x2028 || n == 0x2029 || n == 0x202F
    || n == 0x205F || n == 0x3000
  }

  // ---------------------------------------------------------------------------
  // Substrings: Python's `needle in hay`

  predicate Contains(needle: string, hay: string)
    decreases |hay|
  {
    needle <= hay || (|hay| > 0 && Contains(needle, hay[1..]))
  }

  /** The reference meaning of `Contains`: some slice of `hay` equals `needle`. */
  ghost predicate OccursAt(needle: string, hay: string, i: int) {
    0 <= i && i + |needle| <= |hay| && hay[i..i + |needle|] == needle
  }

  /** An occurrence at `i` is `needle` being a prefix of what starts at `i`. */
  lemma OccursAtPrefix(needle: string, hay: string, i: int)
    requires 0 <= i <= |hay|
    ensures OccursAt(needle, hay, i) <==> needle <= hay[i..]
  {
    if i + |needle| <= |hay| {
      assert hay[i..][..|needle|] == hay[i..i + |needle|];
    }
  }

  lemma {:induction false} ContainsAt(needle: string, hay: string, i: int)
    requires OccursAt(needle, hay, i)
    ensures Contains(needle, hay)
    decreases i
  {
    if i == 0 {
      assert hay[..|needle|] == needle;
    } else {
      assert hay[1..][i - 1..i - 1 + |needle|] == hay[i..i + |needle|];
      ContainsAt(needle, hay[1..], i - 1);
    }
  }

  lemma {:induction false} ContainsHasWitness(needle: string, hay: string)
    requires Contains(needle, hay)
    ensures exists i :: OccursAt(needle, hay, i)
    decreases |hay|
  {
    if needle <= hay {
      assert OccursAt(needle, hay, 0);
    } else {
      ContainsHasWitness(needle, hay[1..]);
      var j :| OccursAt(needle, hay[1..], j);
      assert hay[1..][j..j + |needle|] == hay[j + 1..j + 1 + |needle|];
      assert OccursAt(needle, hay, j + 1);
    }
  }

  /** A text shorter than `needle` cannot contain it. */
  lemma {:induction false} ShortHay(needle: string, hay: string)
    requires |hay| < |needle|
    ensures !Contains(needle, hay)
    decreases |hay|
  {
    if |hay| > 0 {
      ShortHay(needle, hay[1..]);
    }
  }

  /** `Contains` agrees with the slice definition in both directions. */
  lemma ContainsIff(needle: string, hay: string)
    ensures Contains(needle, hay) <==> exists i :: OccursAt(needle, hay, i)
  {
    if Contains(needle, hay) {
      ContainsHasWitness(needle, hay);
    }
    if exists i :: OccursAt(needle, hay, i) {
      var i :| OccursAt(needle, hay, i);
      ContainsAt(needle, hay, i);
    }
  }

  /** A prefix of a contained string is contained too. */
  /** In `p + " " + w`, with no space in `p` or `w`, the word `w` occurs, and `w` followed by a
      space occurs only if `p` ends with `w`. */
  lemma LastWordAfterSpace(p: string, w: string)
    requires ' ' !in p && ' ' !in w
    ensures Contains(w, p + " " + w)
    ensures (|p| < |w| || p[|p| - |w|..] != w) ==> !Contains(w + " ", p + " " + w)
  {
    var h, pat := p + " " + w, w + " ";
    assert h[|p| + 1..] == w;
    assert OccursAt(w, h, |p| + 1);
    ContainsIff(w, h);
    if |p| < |w| || p[|p| - |w|..] != w {
      forall i
        ensures !OccursAt(pat, h, i)
      {
        NoWordSpaceAt(p, w, i);
      }
      ContainsIff(pat, h);
    }
  }

  lemma NoWordSpaceAt(p: string, w: string, i: int)
    requires ' ' !in p && ' ' !in w && (|p| < |w| || p[|p| - |w|..] != w)
    ensures !OccursAt(w + " ", p + " " + w, i)
  {
    var h, pat := p + " " + w, w + " ";
    if 0 <= i && i + |pat| <= |h| {
      var j := i + |w|;
      assert pat[|w|] == ' ';
      if j < |p| {
        assert h[j] == p[j] && p[j] in p;
        assert h[i..i + |pat|][|w|] != pat[|w|];
      } else if j > |p| {
        assert h[j] == w[j - |p| - 1] && w[j - |p| - 1] in w;
        assert h[i..i + |pat|][|w|] != pat[|w|];
      } else {
        assert h[i..j] == p[|p| - |w|..];
        assert h[i..i + |pat|][..|w|] != pat[..|w|];
      }
    }
  }

  /** A text without `w + " "` has no `w + " " + w` either. */
  lemma NoDoubledWord(w: string, hay: string)
    requires !Contains(w + " ", hay)
    ensures !Contains(w + " " + w, hay)
  {
    if Contains(w + " " + w, hay) {
      ContainsPrefix(w + " ", w + " " + w, hay);
    }
  }

  lemma ContainsPrefix(a: string, b: string, hay: string)
    requires a <= b && Contains(b, hay)
    ensures Contains(a, hay)
  {
    ContainsHasWitness(b, hay);
    var i :| OccursAt(b, hay, i);
    assert hay[i..i + |a|] == b[..|a|];
    ContainsAt(a, hay, i);
  }

  // ---------------------------------------------------------------------------
  // Slicing, digits, `int()` and `str.zfill`

  /** `s[:n]`: the first `n` characters, or all of a shorter string. */
  function Take(s: string, n: nat): (r: string)
    ensures r <= s && |r| == (if |s| < n then |s| else n)
  {
    if |s| < n then s else s[..n]
  }

  /** The longest prefix of ASCII digits: what `[0-9]+` matches greedily, or "" when it fails. */
  function LeadingDigits(s: string): (d: string)
    ensures d <= s && AllDigits(d)
    ensures |d| < |s| ==> !IsDigit(s[|d|])
    decreases |s|
  {
    if |s| > 0 && IsDigit(s[0]) then [s[0]] + LeadingDigits(s[1..]) else []
  }

  function DigitValue(c: char): nat
    requires IsDigit(c)
  {
    (c as int) - ('0' as int)
  }

  /** `int(ds)` for a string of ASCII digits. */
  function Value(ds: string): nat
    requires AllDigits(ds)
    decreases |ds|
  {
    if |ds| == 0 then 0 else 10 * Value(ds[..|ds| - 1]) + DigitValue(ds[|ds| - 1])
  }

  /** Leading zeros do not change the value of a digit string. */
  lemma {:induction false} ValueLeadingZero(ds: string)
    requires AllDigits(ds)
    ensures AllDigits(['0'] + ds) && Value(['0'] + ds) == Value(ds)
    decreases |ds|
  {
    var z := ['0'] + ds;
    assert AllDigits(z);
    if |ds| > 0 {
      assert z[..|z| - 1] == ['0'] + ds[..|ds| - 1];
      ValueLeadingZero(ds[..|ds| - 1]);
    }
  }

  function Zeros(n: nat): (r: string)
    ensures |r| == n && forall i | 0 <= i < n :: r[i] == '0'
  {
    seq(n, _ => '0')
  }

  lemma {:induction false} ValueZerosPrefix(n: nat, ds: string)
    requires AllDigits(ds)
    ensures AllDigits(Zeros(n) + ds) && Value(Zeros(n) + ds) == Value(ds)
    decreases n
  {
    if n > 0 {
      ValueZerosPrefix(n - 1, ds);
      assert Zeros(n) + ds == ['0'] + (Zeros(n - 1) + ds);
      ValueLeadingZero(Zeros(n - 1) + ds);
    } else {
      assert Zeros(n) + ds == ds;
    }
  }

  /** `s.zfill(width)`: left-pads with '0' to `width`, keeping a leading sign in front. */
  function ZFill(s: string, width: nat): string
  {
    if width <= |s| then s
    else if |s| > 0 && (s[0] == '+' || s[0] == '-') then [s[0]] + Zeros(width - |s|) + s[1..]
    else Zeros(width - |s|) + s
  }

  /** On a digit string, `zfill` pads to the width with zeros and keeps the number it denotes. */
  lemma ZFillDigits(d: string, width: nat)
    requires AllDigits(d)
    ensures |ZFill(d, width)| == (if |d| < width then width else |d|)
    ensures AllDigits(ZFill(d, width)) && Value(ZFill(d, width)) == Value(d)
    ensures ZFill(d, width)[|ZFill(d, width)| - |d|..] == d
    ensures forall i | 0 <= i < |ZFill(d, width)| - |d| :: ZFill(d, width)[i] == '0'
  {
    if |d| < width {
      assert |d| > 0 ==> IsDigit(d[0]);
      ValueZerosPrefix(width - |d|, d);
    }
  }

  // ---------------------------------------------------------------------------
  // `str.strip()`

  predicate AllSpace(s: string) { forall k | 0 <= k < |s| :: IsSpace(s[k]) }

  /** `s` is some whitespace, then `r`, then some whitespace. */
  ghost predicate SpaceAround(s: string, r: string, i: int) {
    0 <= i && i + |r| <= |s| && r == s[i..i + |r|]
    && AllSpace(s[..i]) && AllSpace(s[i + |r|..])
  }

  /** `s.strip()`: `s` without the whitespace at either end. */
  function Strip(s: string): (r: string)
    ensures |r| > 0 ==> !IsSpace(r[0]) && !IsSpace(r[|r| - 1])
    ensures exists i :: SpaceAround(s, r, i)
    decreases |s|
  {
    if |s| > 0 && IsSpace(s[0]) then
      var r := Strip(s[1..]);
      SpaceInFront(s, r);
      r
    else if |s| > 0 && IsSpace(s[|s| - 1]) then
      var r := Strip(s[..|s| - 1]);
      SpaceBehind(s, s[..|s| - 1], r);
      r
    else
      NoSpaceAround(s);
      s
  }

  lemma NoSpaceAround(s: string)
    ensures SpaceAround(s, s, 0)
  {
    assert s[..0] == [] && s[|s|..] == [] && s[0..|s|] == s;
  }

  /** One more whitespace character in front of the whitespace before `r`. */
  lemma SpaceInFront(s: string, r: string)
    requires |s| > 0 && IsSpace(s[0]) && exists i :: SpaceAround(s[1..], r, i)
    ensures exists i :: SpaceAround(s, r, i)
  {
    var i :| SpaceAround(s[1..], r, i);
    assert s[..i + 1] == [s[0]] + s[1..][..i];
    assert s[i + 1 + |r|..] == s[1..][i + |r|..];
    assert SpaceAround(s, r, i + 1);
  }

  /** One more whitespace character after the whitespace following `r`. */
  lemma SpaceBehind(s: string, front: string, r: string)
    requires |s| > 0 && IsSpace(s[|s| - 1]) && front == s[..|s| - 1]
    requires exists i :: SpaceAround(front, r, i)
    ensures exists i :: SpaceAround(s, r, i)
  {
    var i :| SpaceAround(front, r, i);
    assert s[..i] == front[..i] && s[i..i + |r|] == front[i..i + |r|];
    assert s[i + |r|..] == front[i + |r|..] + [s[|s| - 1]];
    assert SpaceAround(s, r, i);
  }

  /** A string without surrounding whitespace is left alone by `strip`. */
  lemma StripUnchanged(s: string)
    requires |s| > 0 ==> !IsSpace(s[0]) && !IsSpace(s[|s| - 1])
    ensures Strip(s) == s
  {
  }

  /** One trailing space is all `strip` removes from a string that does not otherwise begin
      or end with whitespace. */
  lemma StripTrailingSpace(s: string)
    requires |s| > 0 && !IsSpace(s[0]) && !IsSpace(s[|s| - 1])
    ensures Strip(s + " ") == s
  {
    var t := s + " ";
    assert t[..|t| - 1] == s;
    StripUnchanged(s);
  }

  // ---------------------------------------------------------------------------
  // `str.replace(pat, "")`

  /** `s.replace(pat, "")`: deletes the occurrences of `pat` found scanning left to right,
      without overlap; an empty `pat` leaves `s` as it is. */
  function RemoveAll(s: string, pat: string): (r: string)
    ensures |r| <= |s|
    decreases |s|
  {
    if pat == [] || |s| == 0 then s
    else if pat <= s then RemoveAll(s[|pat|..], pat)
    else [s[0]] + RemoveAll(s[1..], pat)
  }

  /** The string shrinks exactly when `pat` is non-empty and occurs in it. */
  lemma {:induction false} RemoveAllShrinks(s: string, pat: string)
    ensures |RemoveAll(s, pat)| == |s| <==> (pat == [] || !Contains(pat, s))
    decreases |s|
  {
    if pat != [] && |s| > 0 {
      RemoveAllShrinks(s[1..], pat);
    }
  }

  /** Without an occurrence of `pat`, `replace` leaves the string alone. */
  lemma {:induction false} RemoveAllAbsent(s: string, pat: string)
    requires !Contains(pat, s)
    ensures RemoveAll(s, pat) == s
    decreases |s|
  {
    if pat != [] && |s| > 0 {
      RemoveAllAbsent(s[1..], pat);
      assert [s[0]] + s[1..] == s;
    }
  }

  /** When the first occurrence of `pat` in `s` starts at `k`, the scan keeps `s[..k]`,
      deletes that occurrence and goes on after it. */
  lemma {:induction false} RemoveAllSkips(s: string, pat: string, k: nat)
    requires pat != [] && k + |pat| <= |s| && s[k..k + |pat|] == pat
    requires forall i | 0 <= i < k :: !OccursAt(pat, s, i)
    ensures RemoveAll(s, pat) == s[..k] + RemoveAll(s[k + |pat|..], pat)
    decreases k
  {
    if k == 0 {
      RemoveAllAtPat(s, pat);
    } else {
      NoPatShift(s, pat, k);
      var t, rest := s[1..], RemoveAll(s[k + |pat|..], pat);
      RemoveAllSkips(t, pat, k - 1);
      SliceShift(s, pat, k);
      calc {
        RemoveAll(s, pat);
        { RemoveAllStep(s, pat); }
        [s[0]] + RemoveAll(t, pat);
        [s[0]] + (t[..k - 1] + rest);
        { AppendAssoc([s[0]], t[..k - 1], rest); }
        ([s[0]] + t[..k - 1]) + rest;
        s[..k] + rest;
      }
    }
  }

  /** One step of the scan where `pat` does not start the string. */
  lemma RemoveAllStep(s: string, pat: string)
    requires pat != [] && |s| > 0 && !(pat <= s)
    ensures RemoveAll(s, pat) == [s[0]] + RemoveAll(s[1..], pat)
  {
  }

  /** One step of the scan where `pat` starts the string. */
  lemma RemoveAllAtPat(s: string, pat: string)
    requires pat != [] && |pat| <= |s| && s[..|pat|] == pat
    ensures RemoveAll(s, pat) == RemoveAll(s[|pat|..], pat)
  {
    assert pat <= s;
  }

  lemma PrefixParts(s: string, a: string, pat: string)
    requires a + pat <= s
    ensures |a| + |pat| <= |s| && s[..|a|] == a && s[|a|..|a| + |pat|] == pat
  {
    assert s[..|a|] == (a + pat)[..|a|];
    assert s[|a|..|a| + |pat|] == (a + pat)[|a|..];
  }

  lemma AppendAssoc(a: string, b: string, c: string)
    ensures a + (b + c) == (a + b) + c
  {
  }

  lemma SliceShift(s: string, pat: string, k: nat)
    requires 0 < k && k + |pat| <= |s|
    ensures RemoveAll(s[1..][k - 1 + |pat|..], pat) == RemoveAll(s[k + |pat|..], pat)
    ensures s[..k] == [s[0]] + s[1..][..k - 1]
  {
    assert s[1..][k - 1 + |pat|..] == s[k + |pat|..];
    assert s[1..][..k - 1] == s[1..k];
    assert s[..k] == [s[0]] + s[1..k];
  }

  lemma NoPatShift(s: string, pat: string, k: nat)
    requires 0 < k && k + |pat| <= |s| && s[k..k + |pat|] == pat
    requires forall i | 0 <= i < k :: !OccursAt(pat, s, i)
    ensures !(pat <= s) && s[1..][k - 1..k - 1 + |pat|] == pat
    ensures forall i | 0 <= i < k - 1 :: !OccursAt(pat, s[1..], i)
  {
    OccursAtPrefix(pat, s, 0);
    assert s[0..] == s;
    forall i | 0 <= i < k - 1
      ensures !OccursAt(pat, s[1..], i)
    {
      assert !OccursAt(pat, s, i + 1);
      assert s[1..][i..i + |pat|] == s[i + 1..i + 1 + |pat|];
    }
  }

  /** `replace(pat, "")` scans left to right: the text before the first `pat` is kept, that
      occurrence is deleted, and the scan goes on after it; without an occurrence the string
      is left alone. */
  lemma RemoveAllFirst(s: string, pat: string)
    requires pat != []
    ensures var a := BeforeFirst(s, pat);
            RemoveAll(s, pat) == if a == s then s else a + RemoveAll(s[|a| + |pat|..], pat)
  {
    if BeforeFirst(s, pat) == s {
      RemoveAllAbsent(s, pat);
    } else {
      RemoveAllAfterFirst(s, pat);
    }
  }

  /** Where `pat` occurs, the removal keeps the text before its first occurrence. */
  lemma RemoveAllAfterFirst(s: string, pat: string)
    requires pat != [] && BeforeFirst(s, pat) != s
    ensures var a := BeforeFirst(s, pat);
            RemoveAll(s, pat) == a + RemoveAll(s[|a| + |pat|..], pat)
  {
    RemoveAllAfter(s, pat, BeforeFirst(s, pat));
  }

  /** `a` followed by an occurrence of `pat` that is the first in `s`: the removal keeps `a`
      and goes on after that occurrence. */
  lemma RemoveAllAfter(s: string, pat: string, a: string)
    requires pat != [] && a + pat <= s
    requires forall i | 0 <= i < |a| :: !OccursAt(pat, s, i)
    ensures RemoveAll(s, pat) == a + RemoveAll(s[|a| + |pat|..], pat)
  {
    var k := |a|;
    PrefixParts(s, a, pat);
    RemoveAllSkips(s, pat, k);
    var rest := RemoveAll(s[k + |pat|..], pat);
    calc {
      RemoveAll(s, pat);
      s[..k] + rest;
      { assert s[..k] == a; }
      a + rest;
    }
  }

  // ---------------------------------------------------------------------------
  // `str.split(" ")`, `" ".join(...)` and `str.split(sep)[0]`

  /** `s.split(" ")`: the pieces between single spaces, empty pieces included. */
  function Fields(s: string): (r: seq<string>)
    ensures |r| > 0
    ensures forall i | 0 <= i < |r| :: ' ' !in r[i]
    decreases |s|
  {
    if |s| == 0 then [""]
    else
      var rest := Fields(s[1..]);
      if s[0] == ' ' then [""] + rest
      else [[s[0]] + rest[0]] + rest[1..]
  }

  /** `sep.join(ws)`. */
  function Join(ws: seq<string>, sep: string): string
    decreases |ws|
  {
    if |ws| == 0 then ""
    else if |ws| == 1 then ws[0]
    else ws[0] + sep + Join(ws[1..], sep)
  }

  /** Joining one more word at the end adds the separator and the word. */
  lemma {:induction false} JoinSnoc(ws: seq<string>, w: string, sep: string)
    requires |ws| > 0
    ensures Join(ws + [w], sep) == Join(ws, sep) + sep + w
    decreases |ws|
  {
    if |ws| > 1 {
      JoinSnoc(ws[1..], w, sep);
      assert (ws + [w])[1..] == ws[1..] + [w];
    } else {
      assert (ws + [w])[1..] == [w];
    }
  }

  /** Splitting on " " and joining with " " gives the string back. */
  lemma {:induction false} FieldsJoin(s: string)
    ensures Join(Fields(s), " ") == s
    decreases |s|
  {
    if |s| > 0 {
      var rest := Fields(s[1..]);
      FieldsJoin(s[1..]);
      if s[0] == ' ' {
        assert Fields(s) == [""] + rest;
        assert Join(Fields(s), " ") == "" + " " + Join(rest, " ");
        assert s == [' '] + s[1..];
      } else {
        assert Fields(s) == [[s[0]] + rest[0]] + rest[1..];
        if |rest| == 1 {
          assert Join(Fields(s), " ") == [s[0]] + rest[0];
        } else {
          assert Join(Fields(s), " ") == [s[0]] + rest[0] + " " + Join(rest[1..], " ");
          assert Join(rest, " ") == rest[0] + " " + Join(rest[1..], " ");
        }
        assert s == [s[0]] + s[1..];
      }
    }
  }

  function NonEmpty(ws: seq<string>): (r: seq<string>)
    ensures |r| <= |ws|
    ensures forall i | 0 <= i < |r| :: r[i] != [] && r[i] in ws
  {
    if |ws| == 0 then []
    else if ws[0] == [] then NonEmpty(ws[1..])
    else [ws[0]] + NonEmpty(ws[1..])
  }

  /** `[w for w in s.split(" ") if w != ""]`: the words of `s` between runs of spaces. */
  function Words(s: string): (r: seq<string>)
    ensures forall i | 0 <= i < |r| :: r[i] != [] && ' ' !in r[i]
  {
    NonEmpty(Fields(s))
  }

  lemma {:induction false} FieldsOfJoin(ws: seq<string>)
    requires |ws| > 0 && forall i | 0 <= i < |ws| :: ' ' !in ws[i]
    ensures Fields(Join(ws, " ")) == ws
    decreases |ws|
  {
    if |ws| == 1 {
      FieldsOfWord(ws[0]);
    } else {
      FieldsOfJoin(ws[1..]);
      FieldsOfWordThenSpace(ws[0], Join(ws[1..], " "));
      assert Join(ws, " ") == ws[0] + " " + Join(ws[1..], " ");
      assert [ws[0]] + ws[1..] == ws;
    }
  }

  lemma {:induction false} FieldsOfWord(w: string)
    requires ' ' !in w
    ensures Fields(w) == [w]
    decreases |w|
  {
    if |w| > 0 {
      FieldsOfWord(w[1..]);
      assert [w[0]] + w[1..] == w;
    }
  }

  lemma {:induction false} FieldsOfWordThenSpace(w: string, rest: string)
    requires ' ' !in w
    ensures Fields(w + " " + rest) == [w] + Fields(rest)
    decreases |w|
  {
    var s := w + " " + rest;
    if |w| == 0 {
      assert s[1..] == rest;
    } else {
      assert s[1..] == w[1..] + " " + rest;
      FieldsOfWordThenSpace(w[1..], rest);
      assert [w[0]] + w[1..] == w;
    }
  }

  /** Words separated by single spaces are split back into the same words. */
  lemma WordsOfJoin(ws: seq<string>)
    requires |ws| > 0 && forall i | 0 <= i < |ws| :: ws[i] != [] && ' ' !in ws[i]
    ensures Words(Join(ws, " ")) == ws
  {
    FieldsOfJoin(ws);
    NonEmptyKeeps(ws);
  }

  /** Two words with one space between them split back into the two words. */
  lemma TwoWords(a: string, w: string)
    requires a != [] && w != [] && ' ' !in a && ' ' !in w
    ensures Words(a + " " + w) == [a, w]
  {
    var ws := [a, w];
    assert ws[1..] == [w];
    assert Join(ws, " ") == a + " " + w;
    WordsOfJoin(ws);
  }

  lemma {:induction false} NonEmptyKeeps(ws: seq<string>)
    requires forall i | 0 <= i < |ws| :: ws[i] != []
    ensures NonEmpty(ws) == ws
    decreases |ws|
  {
    if |ws| > 0 {
      NonEmptyKeeps(ws[1..]);
    }
  }

  /** Putting `c` in front of both keeps the prefix facts `BeforeFirst` promises. */
  lemma PrefixCons(c: char, r: string, t: string, sep: string)
    requires r <= t && (r == t || r + sep <= t)
    ensures [c] + r <= [c] + t && ([c] + r == [c] + t || [c] + r + sep <= [c] + t)
  {
    if r != t {
      assert [c] + r + sep == [c] + (r + sep);
    }
  }

  /** No occurrence of `sep` starts in the first `n + 1` characters of `s` when none starts
      at `s[0]` or in the first `n` characters of `s[1..]`. */
  lemma NoSepBefore(s: string, n: nat, sep: string)
    requires 0 < |s| && n < |s| && !(sep <= s)
    requires forall i | 0 <= i < n :: !OccursAt(sep, s[1..], i)
    ensures forall i | 0 <= i < n + 1 :: !OccursAt(sep, s, i)
  {
    OccursAtPrefix(sep, s, 0);
    assert s[0..] == s;
    forall i | 0 < i < n + 1
      ensures !OccursAt(sep, s, i)
    {
      assert !OccursAt(sep, s[1..], i - 1);
      if i + |sep| <= |s| {
        assert s[1..][i - 1..i - 1 + |sep|] == s[i..i + |sep|];
      }
    }
  }

  /** `s.split(sep)[0]` for a non-empty `sep`: the text before the first occurrence of `sep`,
      or all of `s` when there is none. */
  function BeforeFirst(s: string, sep: string): (r: string)
    requires sep != []
    ensures r <= s && !Contains(sep, r)
    ensures r == s || r + sep <= s
    ensures forall i | 0 <= i < |r| :: !OccursAt(sep, s, i)
    decreases |s|
  {
    if sep <= s || |s| == 0 then []
    else
      var r' := BeforeFirst(s[1..], sep);
      var r := [s[0]] + r';
      assert r[1..] == r';
      PrefixCons(s[0], r', s[1..], sep);
      NoSepBefore(s, |r'|, sep);
      assert [s[0]] + s[1..] == s;
      r
  }

  // ---------------------------------------------------------------------------
  // `pathlib.PurePath(p).name` and `.stem`

  /** Index of the last `c` in `s`, or -1: Python's `s.rfind(c)`. */
  function LastIndexOf(s: string, c: char): (i: int)
    ensures -1 <= i < |s|
    ensures i >= 0 ==> s[i] == c
    ensures forall k | i < k < |s| :: s[k] != c
    decreases |s|
  {
    if |s| == 0 then -1
    else if s[|s| - 1] == c then |s| - 1
    else LastIndexOf(s[..|s| - 1], c)
  }

  /** `PurePath(p).name`: the text after the last '/'. */
  function Name(p: string): (r: string)
    ensures '/' !in r && |r| <= |p| && r == p[|p| - |r|..]
    ensures |r| < |p| ==> p[|p| - |r| - 1] == '/'
  {
    p[LastIndexOf(p, '/') + 1..]
  }

  /** `PurePath(name).stem`: the name without its last suffix; a name whose only dot is its
      first or its last character keeps it. */
  function Stem(name: string): (r: string)
    ensures r <= name
    ensures r != name ==> 0 < |r| && |r| + 1 < |name| && name[|r|] == '.' && '.' !in name[|r| + 1..]
    ensures r == name ==> forall i | 0 < i < |name| - 1 && name[i] == '.' :: '.' in name[i + 1..]
  {
    var i := LastIndexOf(name, '.');
    if 0 < i < |name| - 1 then
      name[..i]
    else
      assert forall j | 0 < j < |name| - 1 && name[j] == '.' :: name[|name| - 1] == '.' && name[|name| - 1] in name[j + 1..];
      name
  }

  /** A name ends a path that has a '/' just before it. */
  lemma NameAfterSlash(dir: string, name: string)
    requires |dir| > 0 && dir[|dir| - 1] == '/' && '/' !in name
    ensures Name(dir + name) == name
  {
    var p := dir + name;
    assert p[|dir| - 1] == '/';
    assert forall k | |dir| <= k < |p| :: p[k] == name[k - |dir|];
  }

  /** The text before the first `sep` is `a` when `a` cannot even start an occurrence. */
  lemma {:induction false} BeforeFirstStopsAtSep(a: string, sep: string, b: string)
    requires sep != [] && sep[0] !in a
    ensures BeforeFirst(a + sep + b, sep) == a
    decreases |a|
  {
    var s := a + sep + b;
    if |a| == 0 {
      assert s == sep + b;
      assert sep <= s;
    } else {
      assert s[0] == a[0] != sep[0];
      assert !(sep <= s);
      assert s[1..] == a[1..] + sep + b;
      BeforeFirstStopsAtSep(a[1..], sep, b);
      assert [s[0]] + a[1..] == a;
    }
  }

  lemma StemOfPdf(base: string)
    requires |base| > 0
    ensures Stem(base + ".pdf") == base
  {
    var name := base + ".pdf";
    assert name[|base|] == '.';
    assert LastIndexOf(name, '.') == |base|;
  }
}

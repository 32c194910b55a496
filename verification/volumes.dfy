/**
 * The first half of `process_adventure_paths` (unzyp.py:125-148): every adventure-path
 * archive becomes one volume record, read off its content id with two regular-expression
 * searches, one substitution and four deletions.
 */
module Volumes {
  import opened Wrappers
  import opened Text
  import opened Spacing
  import opened FilePaths

  /** The record `bp` built at lines 139-147. */
  datatype Volume = Volume(
    bpName: string,
    bookNumber: nat,
    totalBooks: nat,
    apNumber: nat,
    contentId: string,
    system: string,
    apName: Option<string>)

  datatype ParseError =
    | NoApNumber  // `re.search(r'AdventurePath(\d+)', ...)` found nothing, so `.group` raised
    | NoBookInfo  // `re.search(r'(\d+of\d+)', ...)` found nothing, so `.group` raised

  const AdventurePathWord := "AdventurePath"

  /** The two patterns of line 133, which are also the patterns searched at lines 131-132. */
  datatype Token =
    | ApToken    // `AdventurePath\d+`
    | BookToken  // `\d+of\d+`

  /** The length of the token's match at the start of `s`, or 0 when it does not match there.
      `\d+` is greedy and a shorter run would be followed by a digit, so both patterns match
      the longest digit runs or not at all. */
  function TokenLength(t: Token, s: string): (n: nat)
    ensures n <= |s|
  {
    match t
    case ApToken =>
      if AdventurePathWord <= s then
        var digits := LeadingDigits(s[|AdventurePathWord|..]);
        if |digits| > 0 then |AdventurePathWord| + |digits| else 0
      else 0
    case BookToken =>
      var d := LeadingDigits(s);
      if 0 < |d| && |d| + 2 <= |s| && s[|d|..|d| + 2] == "of" then
        var e := LeadingDigits(s[|d| + 2..]);
        if |e| > 0 then |d| + 2 + |e| else 0
      else 0
  }

  /** What a match of each token is made of. */
  lemma TokenShape(t: Token, s: string)
    requires TokenLength(t, s) > 0
    ensures t == ApToken ==>
              var digits := LeadingDigits(s[|AdventurePathWord|..]);
              && AdventurePathWord <= s && |digits| > 0
              && TokenLength(t, s) == |AdventurePathWord| + |digits|
    ensures t == BookToken ==>
              var d := LeadingDigits(s);
              && 0 < |d| && |d| + 2 <= |s| && s[|d|..|d| + 2] == "of"
              && 0 < |LeadingDigits(s[|d| + 2..])|
              && TokenLength(t, s) == |d| + 2 + |LeadingDigits(s[|d| + 2..])|
  {
  }

  predicate TokenAt(t: Token, s: string, k: int) {
    0 <= k <= |s| && TokenLength(t, s[k..]) > 0
  }

  /** The first position at or after `i` where the token matches, or -1: `re.search`. */
  function FirstToken(t: Token, s: string, i: nat): (k: int)
    requires i <= |s|
    ensures k == -1 || (i <= k <= |s| && TokenAt(t, s, k))
    ensures forall j | i <= j <= |s| && (k == -1 || j < k) :: !TokenAt(t, s, j)
    decreases |s| - i
  {
    if TokenAt(t, s, i) then i
    else if i == |s| then -1
    else FirstToken(t, s, i + 1)
  }

  /** `re.search(r'AdventurePath(\d+)', s).group(1)`. */
  function ApNumber(s: string): (r: Option<string>)
    ensures r.Some? ==> |r.value| > 0 && AllDigits(r.value)
  {
    var k := FirstToken(ApToken, s, 0);
    if k < 0 then None
    else
      TokenShape(ApToken, s[k..]);
      assert s[k..][|AdventurePathWord|..] == s[k + |AdventurePathWord|..];
      Some(LeadingDigits(s[k + |AdventurePathWord|..]))
  }

  /** The adventure-path number is the whole digit run after the first "AdventurePath" that
      is followed by a digit, and it is missing exactly when no "AdventurePath" is. */
  lemma ApNumberFirstMatch(s: string)
    ensures ApNumber(s).None? <==> forall k | 0 <= k <= |s| :: !TokenAt(ApToken, s, k)
    ensures ApNumber(s).Some? ==>
              exists k | 0 <= k <= |s| ::
                && TokenAt(ApToken, s, k)
                && (forall j | 0 <= j < k :: !TokenAt(ApToken, s, j))
                && AdventurePathWord + ApNumber(s).value <= s[k..]
                && ApNumber(s).value == LeadingDigits(s[k + |AdventurePathWord|..])
  {
    var k := FirstToken(ApToken, s, 0);
    if k >= 0 {
      TokenShape(ApToken, s[k..]);
      var digits := LeadingDigits(s[k + |AdventurePathWord|..]);
      assert s[k..][|AdventurePathWord|..] == s[k + |AdventurePathWord|..];
      assert AdventurePathWord + digits <= s[k..];
    }
  }

  /** `re.search(r'(\d+of\d+)', s).group(1).split('of')`. */
  function BookInfo(s: string): (r: Option<(string, string)>)
    ensures r.Some? ==> |r.value.0| > 0 && AllDigits(r.value.0) && |r.value.1| > 0 && AllDigits(r.value.1)
  {
    var k := FirstToken(BookToken, s, 0);
    if k < 0 then None
    else
      TokenShape(BookToken, s[k..]);
      Some(BookNumbers(s[k..]))
  }

  /** The digit runs either side of the "of" of a match at the start of `t`. */
  function BookNumbers(t: string): (string, string) {
    var d := LeadingDigits(t);
    (d, if |d| + 2 <= |t| then LeadingDigits(t[|d| + 2..]) else "")
  }

  /** The book number and the number of books are the whole digit runs either side of the
      first "of" that has digits on both sides; they are missing exactly when no such "of"
      is there. */
  lemma BookInfoFirstMatch(s: string)
    ensures BookInfo(s).None? <==> forall k | 0 <= k <= |s| :: !TokenAt(BookToken, s, k)
    ensures BookInfo(s).Some? ==>
              var numbers := BookInfo(s).value;
              exists k | 0 <= k <= |s| ::
                && TokenAt(BookToken, s, k)
                && (forall j | 0 <= j < k :: !TokenAt(BookToken, s, j))
                && numbers.0 + "of" + numbers.1 <= s[k..]
                && numbers.0 == LeadingDigits(s[k..])
                && numbers.1 == LeadingDigits(s[k..][|numbers.0| + 2..])
  {
    var k := FirstToken(BookToken, s, 0);
    if k >= 0 {
      BookTokenShape(s[k..]);
    }
  }

  /** Where the book pattern matches, it reads two digit runs either side of "of". */
  lemma BookTokenShape(t: string)
    requires TokenLength(BookToken, t) > 0
    ensures var d := LeadingDigits(t);
            && |d| + 2 <= |t|
            && d + "of" + BookNumbers(t).1 <= t
  {
    TokenShape(BookToken, t);
    var d := LeadingDigits(t);
    var m := |d| + 2;
    assert t[..m] == d + "of" by {
      assert t[..m] == t[..|d|] + t[|d|..m];
    }
    PrefixAfter(t, m, BookNumbers(t).1);
  }

  /** A prefix of what follows position `m`, put after the first `m` characters. */
  lemma PrefixAfter(s: string, m: nat, e: string)
    requires m <= |s| && e <= s[m..]
    ensures s[..m] + e <= s
  {
    assert s[..m] + e == s[..m + |e|];
  }

  /** `re.sub(r'AdventurePath\d+|(\d+of\d+)', '', s)`: scanning left to right, delete a match
      of the first pattern, else of the second, else keep the character. */
  function RemoveTokens(s: string): (r: string)
    ensures |r| <= |s|
    decreases |s|
  {
    if |s| == 0 then []
    else if TokenLength(ApToken, s) > 0 then RemoveTokens(s[TokenLength(ApToken, s)..])
    else if TokenLength(BookToken, s) > 0 then RemoveTokens(s[TokenLength(BookToken, s)..])
    else [s[0]] + RemoveTokens(s[1..])
  }

  predicate NoTokens(s: string) {
    forall k | 0 <= k < |s| :: !TokenAt(ApToken, s, k) && !TokenAt(BookToken, s, k)
  }

  /** The substitution changes `s` exactly when one of its patterns matches somewhere. */
  lemma {:induction false} RemoveTokensUnchanged(s: string)
    ensures RemoveTokens(s) == s <==> NoTokens(s)
    decreases |s|
  {
    if |s| > 0 {
      assert s[0..] == s;
      if TokenLength(ApToken, s) > 0 || TokenLength(BookToken, s) > 0 {
        assert |RemoveTokens(s)| < |s| by {
          RemoveTokensShrinks(s);
        }
        assert !NoTokens(s) by {
          assert TokenAt(ApToken, s, 0) || TokenAt(BookToken, s, 0);
        }
      } else {
        RemoveTokensUnchanged(s[1..]);
        NoTokensTail(s);
        assert RemoveTokens(s) == [s[0]] + RemoveTokens(s[1..]);
        assert RemoveTokens(s[1..]) == s[1..] <==> RemoveTokens(s) == s;
      }
    }
  }

  lemma RemoveTokensShrinks(s: string)
    requires |s| > 0 && (TokenLength(ApToken, s) > 0 || TokenLength(BookToken, s) > 0)
    ensures |RemoveTokens(s)| < |s|
  {
  }

  /** Without a match at the front, `s` is free of matches exactly when its tail is. */
  lemma NoTokensTail(s: string)
    requires |s| > 0 && TokenLength(ApToken, s) == 0 && TokenLength(BookToken, s) == 0
    ensures NoTokens(s) <==> NoTokens(s[1..])
  {
    assert s[0..] == s;
    assert forall k | 0 <= k < |s| - 1 :: s[1..][k..] == s[k + 1..];
    if NoTokens(s[1..]) {
      forall k | 0 <= k < |s|
        ensures !TokenAt(ApToken, s, k) && !TokenAt(BookToken, s, k)
      {
        if k > 0 {
          assert !TokenAt(ApToken, s[1..], k - 1) && !TokenAt(BookToken, s[1..], k - 1);
        }
      }
    }
    if NoTokens(s) {
      forall k | 0 <= k < |s| - 1
        ensures !TokenAt(ApToken, s[1..], k) && !TokenAt(BookToken, s[1..], k)
      {
        assert !TokenAt(ApToken, s, k + 1) && !TokenAt(BookToken, s, k + 1);
      }
    }
  }

  /** Lines 135-138: delete, in order, every occurrence of the product-line slug, the
      adventure-path number, the book info and the remainder, split lower/upper-case pairs
      and strip. */
  function BookPathName(contentId: string, apDigits: string, bookInfo: string): string {
    var slug := Root(contentId) + "finderAdventurePath";
    var remainder := RemoveTokens(contentId);
    var cut := RemoveAll(RemoveAll(RemoveAll(RemoveAll(contentId, slug), apDigits), bookInfo), remainder);
    Strip(Split(LowerThenUpper, cut))
  }

  /** One pass of the loop at lines 126-148. */
  function ParseVolume(zipPath: string): Result<Volume, ParseError> {
    var id := ContentId(zipPath);
    match ApNumber(id)
    case None => Err(NoApNumber)
    case Some(apDigits) =>
      match BookInfo(id)
      case None => Err(NoBookInfo)
      case Some((book, total)) =>
        Ok(Volume(
          bpName := BookPathName(id, apDigits, book + "of" + total),
          bookNumber := Value(book),
          totalBooks := Value(total),
          apNumber := Value(apDigits),
          contentId := id,
          system := Root(id) + "finder 2e",
          apName := None))
  }

  /** What a parsed volume holds: the numbers of the first matches, the game system from
      the id's first four characters, no series name yet, and a name with no white space at
      either end; the parse fails exactly when a pattern is missing, the adventure-path
      number being looked up first. */
  lemma ParseVolumeOutcome(zipPath: string)
    ensures var id := ContentId(zipPath);
            ParseVolume(zipPath) == Err(NoApNumber) <==> ApNumber(id).None?
    ensures var id := ContentId(zipPath);
            ParseVolume(zipPath) == Err(NoBookInfo) <==> ApNumber(id).Some? && BookInfo(id).None?
    ensures var id := ContentId(zipPath);
            ParseVolume(zipPath).Ok? ==>
              var v := ParseVolume(zipPath).value;
              var (book, total) := BookInfo(id).value;
              && v.apNumber == Value(ApNumber(id).value)
              && v.bookNumber == Value(book) && v.totalBooks == Value(total)
              && v.contentId == id && '/' !in v.contentId
              && v.system == Take(id, 4) + "finder 2e"
              && v.apName == None
              && (|v.bpName| > 0 ==> !IsSpace(v.bpName[0]) && !IsSpace(v.bpName[|v.bpName| - 1]))
  {
  }

  /** The outcome of parsing every archive of the list, in order. */
  function Parsed(apList: seq<string>): (r: seq<Result<Volume, ParseError>>)
    ensures |r| == |apList|
  {
    seq(|apList|, k requires 0 <= k < |apList| => ParseVolume(apList[k]))
  }

  /** The volumes of the outcomes in order, or the error of the first outcome that failed. */
  function Collect(results: seq<Result<Volume, ParseError>>): Result<seq<Volume>, ParseError>
    decreases |results|
  {
    if |results| == 0 then Ok([])
    else if results[0].Err? then Err(results[0].error)
    else
      var rest := Collect(results[1..]);
      if rest.Err? then rest else Ok([results[0].value] + rest.value)
  }

  /** Collecting succeeds exactly when every outcome is a volume, and then yields them in
      order; otherwise it fails with the first error. */
  lemma {:induction false} CollectMeaning(results: seq<Result<Volume, ParseError>>)
    ensures Collect(results).Ok? <==> forall k | 0 <= k < |results| :: results[k].Ok?
    ensures Collect(results).Ok? ==>
              && |Collect(results).value| == |results|
              && forall k | 0 <= k < |results| :: Collect(results).value[k] == results[k].value
    ensures Collect(results).Err? ==>
              exists k | 0 <= k < |results| ::
                && results[k] == Err(Collect(results).error)
                && forall j | 0 <= j < k :: results[j].Ok?
    decreases |results|
  {
    if |results| > 0 {
      var tail := results[1..];
      CollectMeaning(tail);
      assert forall k | 1 <= k < |results| :: results[k] == tail[k - 1];
      if results[0].Ok? && Collect(tail).Err? {
        var k :| 0 <= k < |tail| && tail[k] == Err(Collect(tail).error)
                 && forall j | 0 <= j < k :: tail[j].Ok?;
        assert results[k + 1] == Err(Collect(results).error);
        assert forall j | 0 <= j < k + 1 :: results[j].Ok? by {
          forall j | 0 <= j < k + 1
            ensures results[j].Ok?
          {
            if j > 0 {
              assert tail[j - 1].Ok?;
            }
          }
        }
      } else if results[0].Err? {
        assert results[0] == Err(Collect(results).error);
      }
    }
  }

  /** Parsed volumes prefixed to the outcome of parsing the rest. */
  function After(done: seq<Volume>, rest: Result<seq<Volume>, ParseError>): Result<seq<Volume>, ParseError> {
    if rest.Err? then rest else Ok(done + rest.value)
  }

  /** One step of collecting: an outcome that is a volume moves to the done part, one that is
      an error is the result. */
  lemma CollectStep(results: seq<Result<Volume, ParseError>>, i: nat, done: seq<Volume>)
    requires i < |results| && Collect(results) == After(done, Collect(results[i..]))
    ensures results[i].Err? ==> Collect(results) == Err(results[i].error)
    ensures results[i].Ok? ==> Collect(results) == After(done + [results[i].value], Collect(results[i + 1..]))
  {
    var now := results[i..];
    assert now[0] == results[i] && now[1..] == results[i + 1..];
    var rest := Collect(results[i + 1..]);
    if results[i].Err? {
      assert Collect(now) == Err(results[i].error);
    } else if rest.Err? {
      assert Collect(now) == rest;
    } else {
      var v := results[i].value;
      assert Collect(now) == Ok([v] + rest.value);
      assert done + ([v] + rest.value) == (done + [v]) + rest.value;
    }
  }

  /** The loop at lines 126-148, appending each archive's volume to `bookpaths`: the result
      is every volume in order, or the error of the first archive that lacks a pattern. */
  method ParseVolumes(apList: seq<string>) returns (r: Result<seq<Volume>, ParseError>)
    ensures r == Collect(Parsed(apList))
  {
    ghost var results := Parsed(apList);
    var bookpaths: seq<Volume> := [];
    assert results[0..] == results;
    assert Collect(results).Ok? ==> [] + Collect(results).value == Collect(results).value;
    for i := 0 to |apList|
      invariant Collect(results) == After(bookpaths, Collect(results[i..]))
    {
      var parsed := ParseVolume(apList[i]);
      assert parsed == results[i];
      CollectStep(results, i, bookpaths);
      if parsed.Err? {
        return Err(parsed.error);
      }
      bookpaths := bookpaths + [parsed.value];
    }
    assert results[|apList|..] == [] && bookpaths + [] == bookpaths;
    return Ok(bookpaths);
  }
}

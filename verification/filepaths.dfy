/**
 * `get_filepath` (unzyp.py:17-55): the destination path of a product's PDF, built from the
 * product's content id and the product-line slug found in it.
 *
 * The branch for "finderQuestSeries2" (lines 24-29) is an `if` of its own, not the head of
 * the `if/elif/else` chain that starts at line 30, so after it runs the chain still reaches
 * the `raise ValueError` at line 53. The Flip-Mat branch (lines 47-49) never assigns
 * `pl_dir`, so line 55 fails. The Quest, Bounty and Society branches glue the numbering
 * prefix straight onto the folder, without a '/'.
 */
module FilePaths {
  import opened Wrappers
  import opened Text
  import opened Spacing

  const QuestSeries2Slug := "finderQuestSeries2"
  const QuestSlug := "finderQuest"
  const BountySlug := "finderBounty"
  const SocietySlug := "finderSocietyScenario"
  const FlipMatSlug := "PathfinderFlip-Mat"
  const FlipTilesSlug := "PathfinderFlip-Tiles"
  const AdventurePathSlug := "finderAdventurePath"

  datatype PathError =
    | NoNumberMatch             // `re.match(...)` found nothing, so `.group` raised AttributeError
    | UnknownSlug(slug: string) // the ValueError raised at line 53
    | PlDirUnbound              // UnboundLocalError: line 55 reads `pl_dir`, never assigned

  /** `Path(zip).stem`: the content id of a product is its archive's file name without its
      last suffix (lines 66 and 128), so it never holds a '/'. A name whose last '.' is its
      first or last character has no suffix and is kept whole. */
  function ContentId(zipPath: string): (r: string)
    ensures '/' !in r
    ensures var name := Name(zipPath);
            && r <= name
            && (r != name ==> 0 < |r| && |r| + 1 < |name| && name[|r|] == '.' && '.' !in name[|r| + 1..])
            && (r == name ==> forall i | 0 < i < |name| - 1 && name[i] == '.' :: '.' in name[i + 1..])
  {
    Stem(Name(zipPath))
  }

  /** `content_id[:4]`. */
  function Root(contentId: string): string {
    Take(contentId, 4)
  }

  /** `root_dir`: the game-system folder. */
  function RootDir(contentId: string): string {
    Root(contentId) + "finder 2e/"
  }

  function QuestFolder(contentId: string): string {
    if Root(contentId) == "Path" then "Quests S1" else "Quests"
  }

  /** `re.match(r'([0-9]+)-([0-9]+)', s)`: the season and scenario numbers that open `s`.
      A shorter first group is always followed by a digit, never by '-', so only the
      longest leading digit run can match. */
  function SeasonScenario(s: string): (r: Option<(string, string)>)
    ensures r.Some? <==> var a := LeadingDigits(s);
                         0 < |a| && |a| + 1 < |s| && s[|a|] == '-' && IsDigit(s[|a| + 1])
    ensures r.Some? ==> var (a, b) := r.value;
                        a == LeadingDigits(s) && |a| > 0 && |b| > 0 && AllDigits(b)
                        && a + "-" + b <= s
                        && (|a| + 1 + |b| < |s| ==> !IsDigit(s[|a| + 1 + |b|]))
  {
    var a := LeadingDigits(s);
    if |a| == 0 || |a| + 1 >= |s| || s[|a|] != '-' then None
    else
      var rest := s[|a| + 1..];
      var b := LeadingDigits(rest);
      if |b| == 0 then None
      else
        assert s == a + "-" + rest && b <= rest;
        assert a + "-" + b <= s;
        Some((a, b))
  }

  /** The Quest and Bounty branches: `<folder><letter><n> - <title>.pdf`, where `<n>` is the
      leading run of digits and the title is the rest of the id, spaced out. */
  function NumberedPath(contentId: string, folder: string, letter: string): Result<string, PathError> {
    var n := LeadingDigits(contentId);
    if |n| == 0 then Err(NoNumberMatch)
    else Ok(folder + letter + n + " - " + InsertSpaces(contentId[|n|..]) + ".pdf")
  }

  /** A numbered branch succeeds exactly when the id opens with a digit. */
  lemma NumberedPathOk(contentId: string, folder: string, letter: string)
    ensures NumberedPath(contentId, folder, letter).Ok? <==> |contentId| > 0 && IsDigit(contentId[0])
  {
  }

  /** The Society branch: the season folder `S<season padded to 2 digits>`, then
      `<season>-<scenario> - <title>.pdf`. */
  function SocietyPath(contentId: string): Result<string, PathError> {
    match SeasonScenario(contentId)
    case None => Err(NoNumberMatch)
    case Some((season, scenario)) =>
      var folder := RootDir(contentId) + Root(contentId) + "finder Society/S" + ZFill(season, 2);
      var title := InsertSpaces(contentId[|season| + 1 + |scenario|..]);
      Ok(folder + season + "-" + scenario + " - " + title + ".pdf")
  }

  /** `get_filepath(content_id, product_line_slug)`. */
  function GetFilepath(contentId: string, slug: string): Result<string, PathError> {
    if slug == QuestSeries2Slug then
      // Line 27 looks the number up (and fails without one); the chain then raises.
      if |LeadingDigits(contentId)| == 0 then Err(NoNumberMatch) else Err(UnknownSlug(slug))
    else if slug == QuestSlug then NumberedPath(contentId, RootDir(contentId) + QuestFolder(contentId), "Q")
    else if slug == BountySlug then NumberedPath(contentId, RootDir(contentId) + "Bounties", "B")
    else if slug == SocietySlug then SocietyPath(contentId)
    else if slug == FlipMatSlug || slug == FlipTilesSlug then Err(PlDirUnbound)
    else if slug == AdventurePathSlug then Ok("AP")
    else Err(UnknownSlug(slug))
  }

  // ---------------------------------------------------------------------------
  // The error paths

  /** "finderQuestSeries2" never yields a path: without a leading number the lookup at line 27
      fails, otherwise the chain falls through to the ValueError at line 53. */
  lemma QuestSeries2AlwaysFails(contentId: string)
    ensures GetFilepath(contentId, QuestSeries2Slug).Err?
    ensures GetFilepath(contentId, QuestSeries2Slug).error == NoNumberMatch
            <==> |contentId| == 0 || !IsDigit(contentId[0])
  {
  }

  /** The Flip-Mat and Flip-Tiles branches fail on the unassigned `pl_dir`. */
  lemma FlipProductsFail(contentId: string, slug: string)
    requires slug == FlipMatSlug || slug == FlipTilesSlug
    ensures GetFilepath(contentId, slug) == Err(PlDirUnbound)
  {
  }

  /** The adventure-path branch returns the literal "AP", and a slug outside the chain
      raises the ValueError. */
  lemma OtherSlugs(contentId: string, slug: string)
    ensures slug == AdventurePathSlug ==> GetFilepath(contentId, slug) == Ok("AP")
    ensures slug !in {QuestSeries2Slug, QuestSlug, BountySlug, SocietySlug, FlipMatSlug,
                      FlipTilesSlug, AdventurePathSlug}
            ==> GetFilepath(contentId, slug) == Err(UnknownSlug(slug))
  {
  }

  // ---------------------------------------------------------------------------
  // The numbered branches

  /** The result of the Quest branch: it fails exactly when the id does not start with a
      digit; otherwise it is the Quest folder, "Q", the leading number and the rest of the id
      with spaces inserted. The folder is "Quests S1" exactly when the id starts with "Path",
      which a numbered id never does, so a Quest path that succeeds is always in "Quests". */
  lemma QuestPath(contentId: string)
    ensures QuestFolder(contentId) == "Quests S1" <==> |contentId| >= 4 && contentId[..4] == "Path"
    ensures GetFilepath(contentId, QuestSlug).Err?
            <==> |contentId| == 0 || !IsDigit(contentId[0])
    ensures GetFilepath(contentId, QuestSlug).Err? ==> GetFilepath(contentId, QuestSlug).error == NoNumberMatch
    ensures GetFilepath(contentId, QuestSlug).Ok? ==>
              var n := LeadingDigits(contentId);
              && QuestFolder(contentId) == "Quests"
              && exists title ::
                   && GetFilepath(contentId, QuestSlug).value
                      == RootDir(contentId) + "Quests" + "Q" + n + " - " + title + ".pdf"
                   && title == InsertSpaces(contentId[|n|..])
                   && SpacesInserted(contentId[|n|..], title) && Spaced(title)
  {
    var n := LeadingDigits(contentId);
    if |n| > 0 {
      var title := InsertSpaces(contentId[|n|..]);
      InsertSpacesOnlyInsertsSpaces(contentId[|n|..]);
      InsertSpacesSpaced(contentId[|n|..]);
      assert Root(contentId)[0] == contentId[0];
    }
  }

  /** The result of the Bounty branch: it fails exactly when the id does not start with a
      digit; otherwise it is "Bounties", "B", the leading number and the rest of the id with
      spaces inserted. */
  lemma BountyPath(contentId: string)
    ensures GetFilepath(contentId, BountySlug).Err?
            <==> |contentId| == 0 || !IsDigit(contentId[0])
    ensures GetFilepath(contentId, BountySlug).Err? ==> GetFilepath(contentId, BountySlug).error == NoNumberMatch
    ensures GetFilepath(contentId, BountySlug).Ok? ==>
              var n := LeadingDigits(contentId);
              exists title ::
                && GetFilepath(contentId, BountySlug).value
                   == RootDir(contentId) + "Bounties" + "B" + n + " - " + title + ".pdf"
                && title == InsertSpaces(contentId[|n|..])
                && SpacesInserted(contentId[|n|..], title) && Spaced(title)
  {
    var n := LeadingDigits(contentId);
    if |n| > 0 {
      InsertSpacesOnlyInsertsSpaces(contentId[|n|..]);
      InsertSpacesSpaced(contentId[|n|..]);
    }
  }

  /** The result of the Society branch: it fails exactly when the id does not open with
      `<digits>-<digit>`; otherwise the season folder is "S" and the season zero-padded to at
      least two digits (same number), followed directly by `<season>-<scenario> - ` and the
      rest of the id with spaces inserted. */
  lemma SocietyScenarioPath(contentId: string)
    ensures GetFilepath(contentId, SocietySlug).Err? <==> SeasonScenario(contentId).None?
    ensures GetFilepath(contentId, SocietySlug).Err? ==> GetFilepath(contentId, SocietySlug).error == NoNumberMatch
    ensures GetFilepath(contentId, SocietySlug).Ok? ==>
              var (season, scenario) := SeasonScenario(contentId).value;
              var rest := contentId[|season| + 1 + |scenario|..];
              && contentId == season + "-" + scenario + rest
              && exists padded, title ::
                   && GetFilepath(contentId, SocietySlug).value
                      == RootDir(contentId) + Root(contentId) + "finder Society/S" + padded
                         + season + "-" + scenario + " - " + title + ".pdf"
                   && |padded| == (if |season| < 2 then 2 else |season|)
                   && padded == ZFill(season, 2)
                   && AllDigits(padded) && Value(padded) == Value(season)
                   && title == InsertSpaces(rest)
                   && SpacesInserted(rest, title) && Spaced(title)
  {
    if SeasonScenario(contentId).Some? {
      var (season, scenario) := SeasonScenario(contentId).value;
      var rest := contentId[|season| + 1 + |scenario|..];
      assert contentId == season + "-" + scenario + rest;
      ZFillDigits(season, 2);
      InsertSpacesOnlyInsertsSpaces(rest);
      InsertSpacesSpaced(rest);
    }
  }

  /** An id opening with "1-05" is filed as season 1, scenario 05: in the folder "S01", with
      the prefix "1-05 - ". The game-system folder is then "1-05finder 2e/", because it is
      made from the id's first four characters whatever they are. */
  lemma SocietyExample(rest: string)
    requires |rest| == 0 || !IsDigit(rest[0])
    ensures GetFilepath("1-05" + rest, SocietySlug)
            == Ok("1-05finder 2e/1-05finder Society/S01" + "1-05 - " + InsertSpaces(rest) + ".pdf")
  {
    var id := "1-05" + rest;
    SocietyPathExample(rest);
    var prefix := SocietyPrefixExample(rest);
    assert GetFilepath(id, SocietySlug) == Ok(prefix + InsertSpaces(rest) + ".pdf");
  }

  lemma SocietyPathExample(rest: string)
    requires |rest| == 0 || !IsDigit(rest[0])
    ensures var id := "1-05" + rest;
            SocietyPath(id)
            == Ok(RootDir(id) + Root(id) + "finder Society/S" + ZFill("1", 2) + "1" + "-" + "05" + " - "
                  + InsertSpaces(rest) + ".pdf")
  {
    var id := "1-05" + rest;
    SeasonScenarioExample(rest);
    assert id[4..] == rest;
  }

  lemma SocietyPrefixExample(rest: string) returns (prefix: string)
    ensures var id := "1-05" + rest;
            prefix == RootDir(id) + Root(id) + "finder Society/S" + ZFill("1", 2) + "1" + "-" + "05" + " - "
    ensures prefix == "1-05finder 2e/1-05finder Society/S01" + "1-05 - "
  {
    var id := "1-05" + rest;
    RootExample(rest);
    ZFillExample();
    FolderExample();
    NumberingExample();
    prefix := "1-05finder 2e/1-05finder Society/S01" + "1-05 - ";
  }

  lemma RootExample(rest: string)
    ensures Root("1-05" + rest) == "1-05" && RootDir("1-05" + rest) == "1-05" + "finder 2e/"
  {
    assert ("1-05" + rest)[..4] == "1-05";
  }

  lemma ZFillExample()
    ensures ZFill("1", 2) == "01"
  {
    assert Zeros(1) == "0";
  }

  lemma FolderExample()
    ensures "1-05" + "finder 2e/" + "1-05" + "finder Society/S" + "01" == "1-05finder 2e/1-05finder Society/S01"
  {
  }

  lemma NumberingExample()
    ensures "1" + "-" + "05" + " - " == "1-05 - "
  {
  }

  lemma SeasonScenarioExample(rest: string)
    requires |rest| == 0 || !IsDigit(rest[0])
    ensures SeasonScenario("1-05" + rest) == Some(("1", "05"))
  {
    var id := "1-05" + rest;
    assert LeadingDigits(id[1..]) == [];
    assert LeadingDigits(id) == "1";
    var t := id[2..];
    assert t == "05" + rest;
    assert LeadingDigits(t[2..]) == [] by {
      assert t[2..] == rest;
    }
    assert LeadingDigits(t[1..]) == "5" by {
      assert t[1..][1..] == t[2..];
    }
    assert LeadingDigits(t) == "05";
  }
}

/**
 * What `process_zip` does with the PDF of a product archive (unzyp.py:65-112): the product
 * line is the first slug of a fixed list found in the content id (lines 67-75), the PDF's
 * destination comes from `get_filepath` (line 83), and every other file of the archive is
 * renamed after the PDF (lines 99-112).
 */
module Classifier {
  import opened Wrappers
  import opened Text
  import opened Spacing
  import opened FilePaths

  /** The slugs `process_pdf` looks for, in the order it tries them. */
  const ProductLineSlugs: seq<string> := [
    "finderSocietyScenario",
    "finderQuest",
    "finderQuestSeries2",
    "finderAdventurePath",
    "finderBounty",
    "finderFlip-Mat",
    "finderFlip-Tiles"
  ]

  /** `next((pl for pl in slugs if pl in id), None)`. */
  function FirstContained(slugs: seq<string>, id: string): (r: Option<string>)
    ensures r.None? <==> forall k | 0 <= k < |slugs| :: !Contains(slugs[k], id)
    ensures r.Some? ==> exists k | 0 <= k < |slugs| ::
                          && slugs[k] == r.value && Contains(r.value, id)
                          && forall j | 0 <= j < k :: !Contains(slugs[j], id)
  {
    if |slugs| == 0 then None
    else if Contains(slugs[0], id) then Some(slugs[0])
    else
      var r := FirstContained(slugs[1..], id);
      assert forall k | 1 <= k < |slugs| :: slugs[k] == slugs[1..][k - 1];
      r
  }

  /** The product line of a content id. */
  function Classify(contentId: string): Option<string> {
    FirstContained(ProductLineSlugs, contentId)
  }

  /** "finderQuest" is tried first and is a prefix of "finderQuestSeries2", so the longer
      slug is never chosen: an id holding it is a plain Quest unless it is a Society id. */
  lemma QuestSeries2NeverClassified(contentId: string)
    ensures Classify(contentId) != Some(QuestSeries2Slug)
    ensures Contains(QuestSeries2Slug, contentId) && !Contains(SocietySlug, contentId)
            ==> Classify(contentId) == Some(QuestSlug)
  {
    if Contains(QuestSeries2Slug, contentId) {
      ContainsPrefix(QuestSlug, QuestSeries2Slug, contentId);
      if !Contains(SocietySlug, contentId) {
        assert ProductLineSlugs[1..][0] == QuestSlug;
        assert FirstContained(ProductLineSlugs[1..], contentId) == Some(QuestSlug);
      }
    }
  }

  /** `process_pdf(pdf_file)` with the move at line 85 succeeding, as `mkdirmv` means it to:
      `None` for an unknown product line and for an adventure path, otherwise the destination
      `get_filepath` computes, or the error it raises. `ProcessPdfAsWritten` is the code as
      it stands. */
  function ProcessPdf(contentId: string): Result<Option<string>, PathError> {
    match Classify(contentId)
    case None => Ok(None)
    case Some(slug) =>
      if slug == AdventurePathSlug then Ok(None)
      else
        match GetFilepath(contentId, slug)
        case Ok(path) => Ok(Some(path))
        case Err(e) => Err(e)
  }

  datatype PdfError =
    | PathFailed(cause: PathError)  // `get_filepath` raised
    | NoDestination                 // `Path(None)` raised TypeError at line 99
    | StrHasNoParent(dst: string)   // `mkdirmv` read `dst.parent` of a `str` at line 14

  /** `Path(process_pdf(pdf_file))` at line 99. */
  function PdfDestination(contentId: string): Result<string, PdfError> {
    match ProcessPdf(contentId)
    case Ok(Some(path)) => Ok(path)
    case Ok(None) => Err(NoDestination)
    case Err(e) => Err(PathFailed(e))
  }

  /** `process_pdf(pdf_file)` as written. `get_filepath` returns a `str`, and the loop at
      lines 11-13 of `mkdirmv` converts only its own loop variable, so line 14 reads
      `.parent` of that `str` and raises AttributeError before anything is moved. */
  function ProcessPdfAsWritten(contentId: string): Result<Option<string>, PdfError> {
    match Classify(contentId)
    case None => Ok(None)
    case Some(slug) =>
      if slug == AdventurePathSlug then Ok(None)
      else
        match GetFilepath(contentId, slug)
        case Ok(path) => Err(StrHasNoParent(path))
        case Err(e) => Err(PathFailed(e))
  }

  /** `Path(process_pdf(pdf_file))` at line 99, with `process_pdf` as written. */
  function PdfDestinationAsWritten(contentId: string): Result<string, PdfError> {
    match ProcessPdfAsWritten(contentId)
    case Ok(Some(path)) => Ok(path)
    case Ok(None) => Err(NoDestination)
    case Err(e) => Err(e)
  }

  /** As written, no PDF is ever moved: where the intended `process_pdf` finds a
      destination, the code raises in `mkdirmv` with that destination in hand, and
      everywhere else it fails as the intended one does. So lines 100-112 never run. */
  lemma NoPdfMoved(contentId: string)
    ensures PdfDestinationAsWritten(contentId).Err?
    ensures PdfDestination(contentId).Ok? ==>
              PdfDestinationAsWritten(contentId) == Err(StrHasNoParent(PdfDestination(contentId).value))
    ensures PdfDestination(contentId).Err? ==> PdfDestinationAsWritten(contentId) == PdfDestination(contentId)
  {
  }

  /** The archive "12finderBounty.zip" is a Bounty that the intended code files under a
      destination; as written, the move to that destination raises. */
  lemma BountyMoveFails()
    ensures ContentId("12finderBounty.zip") == "12finderBounty"
    ensures PdfDestination("12finderBounty").Ok?
    ensures PdfDestinationAsWritten("12finderBounty")
            == Err(StrHasNoParent(PdfDestination("12finderBounty").value))
  {
    BountyExampleStem();
    BountyExampleClassified();
    assert IsDigit("12finderBounty"[0]);
    PdfDestinationOk("12finderBounty");
    NoPdfMoved("12finderBounty");
  }

  lemma BountyExampleStem()
    ensures ContentId("12finderBounty.zip") == "12finderBounty"
  {
    var p := "12finderBounty.zip";
    assert forall k | 0 <= k < |p| :: p[k] != '/';
    assert LastIndexOf(p, '/') == -1;
    assert p[14] == '.';
    assert LastIndexOf(p, '.') == 14;
  }

  lemma BountyExampleNotQuest()
    ensures !Contains("finderQuest", "12finderBounty")
  {
    NotQuestWithin("12finderBounty");
  }

  /** A 14-character text whose characters 0, 1, 3 and 8 are '1', '2', 'i' and 'B' holds no
      "finderQuest": each of the four places where it could start has a wrong character. */
  lemma NotQuestWithin(h: string)
    requires |h| == 14 && h[0] == '1' && h[1] == '2' && h[3] == 'i' && h[8] == 'B'
    ensures !Contains("finderQuest", h)
  {
    var q := "finderQuest";
    assert q[0] == 'f' && q[6] == 'Q';
    assert !(q <= h) && !(q <= h[1..]) && !(q <= h[2..]) && !(q <= h[3..]) by {
      assert h[1..][0] == '2' && h[2..][6] == 'B' && h[3..][0] == 'i';
    }
    assert h[1..][1..] == h[2..] && h[2..][1..] == h[3..] && h[3..][1..] == h[4..];
    ShortHay(q, h[4..]);
    assert !Contains(q, h[3..]);
    assert !Contains(q, h[2..]);
    assert !Contains(q, h[1..]);
  }

  lemma BountyExampleClassified()
    ensures Classify("12finderBounty") == Some(BountySlug)
  {
    var h := "12finderBounty";
    BountyExampleNotQuest();
    ShortHay("finderSocietyScenario", h);
    ShortHay("finderQuestSeries2", h);
    ShortHay("finderAdventurePath", h);
    assert Contains("finderBounty", h);
  }


  // ---------------------------------------------------------------------------
  // Where the PDF of each product line goes

  /** A PDF gets a destination exactly for a Quest or Bounty id that opens with a digit, and
      for a Society id that opens with `<digits>-<digits>`. */
  lemma PdfDestinationOk(contentId: string)
    ensures PdfDestination(contentId).Ok? <==>
              || (Classify(contentId) in {Some(QuestSlug), Some(BountySlug)}
                  && |contentId| > 0 && IsDigit(contentId[0]))
              || (Classify(contentId) == Some(SocietySlug) && SeasonScenario(contentId).Some?)
    ensures PdfDestination(contentId).Ok? ==>
              PdfDestination(contentId).value == GetFilepath(contentId, Classify(contentId).value).value
  {
    QuestSeries2NeverClassified(contentId);
    if Classify(contentId).Some? {
      var slug := Classify(contentId).value;
      if slug == QuestSlug {
        NumberedPathOk(contentId, RootDir(contentId) + QuestFolder(contentId), "Q");
      } else if slug == BountySlug {
        NumberedPathOk(contentId, RootDir(contentId) + "Bounties", "B");
      } else if slug == SocietySlug {
      } else {
        OtherSlugs(contentId, slug);
        assert slug in ProductLineSlugs;
      }
    }
  }

  lemma DestinationIsFilepath(contentId: string, slug: string)
    requires Classify(contentId) == Some(slug) && slug != AdventurePathSlug
    requires PdfDestination(contentId).Ok?
    ensures GetFilepath(contentId, slug) == Ok(PdfDestination(contentId).value)
  {
  }

  /** An id without a product-line slug, or of an adventure path, has no destination, so the
      `Path(None)` at line 99 raises. */
  lemma SkippedPdfs(contentId: string)
    requires Classify(contentId) == None || Classify(contentId) == Some(AdventurePathSlug)
    ensures PdfDestination(contentId) == Err(NoDestination)
  {
  }

  /** The classifier yields "finderFlip-Mat" and "finderFlip-Tiles", but `get_filepath` only
      knows them with a "Path" in front, so Flip products reach the ValueError. */
  lemma FlipPdfsFail(contentId: string)
    requires Classify(contentId) in {Some("finderFlip-Mat"), Some("finderFlip-Tiles")}
    ensures PdfDestination(contentId) == Err(PathFailed(UnknownSlug(Classify(contentId).value)))
  {
    OtherSlugs(contentId, Classify(contentId).value);
  }

  /** A content id that does not open with a digit never gets a destination: the numbering
      patterns are anchored at the start. Ids beginning with "Path", the only ones that would
      go to the "Quests S1" folder, are among them. */
  lemma LetterFirstIdsFail(contentId: string)
    requires |contentId| == 0 || !IsDigit(contentId[0])
    ensures PdfDestination(contentId).Err?
  {
    PdfDestinationOk(contentId);
  }

  // ---------------------------------------------------------------------------
  // Files next to the PDF

  /** `PurePath(p).parent` for a path without repeated or trailing separators. */
  function Parent(p: string): (r: string)
    ensures |r| > 0
  {
    var i := LastIndexOf(p, '/');
    if i < 0 then "." else if i == 0 then "/" else p[..i]
  }

  /** `directory / name`. */
  function JoinPath(dir: string, name: string): (r: string)
    ensures |r| > |name| && r[|r| - |name|..] == name
  {
    if |dir| > 0 && dir[|dir| - 1] == '/' then dir + name else dir + "/" + name
  }

  /** Lines 103 and 106: the PDF's stem up to its first " - ", then " - " and the file's
      own name. */
  function CompanionName(pdfPath: string, otherFile: string): string {
    BeforeFirst(Stem(Name(pdfPath)), " - ") + " - " + Name(otherFile)
  }

  /** Line 107: the other file goes into the PDF's directory. */
  function CompanionPath(pdfPath: string, otherFile: string): string {
    JoinPath(Parent(pdfPath), CompanionName(pdfPath, otherFile))
  }

  /** Line 111: an extracted directory goes into the PDF's directory under its own name. */
  function DirectoryPath(pdfPath: string, extDir: string): string {
    JoinPath(Parent(pdfPath), Name(extDir))
  }

  /** The new name keeps the PDF's stem up to the first " - " (all of it when there is none)
      and ends in the other file's name; the destination's last component is that name. */
  lemma CompanionNaming(pdfPath: string, otherFile: string)
    ensures var stem := Stem(Name(pdfPath));
            var head := BeforeFirst(stem, " - ");
            && CompanionName(pdfPath, otherFile) == head + " - " + Name(otherFile)
            && head <= stem && (head == stem || head + " - " <= stem)
            && forall i | 0 <= i < |head| :: !OccursAt(" - ", stem, i)
    ensures Name(CompanionPath(pdfPath, otherFile)) == CompanionName(pdfPath, otherFile)
    ensures Name(DirectoryPath(pdfPath, otherFile)) == Name(otherFile)
  {
    var name := CompanionName(pdfPath, otherFile);
    var stem := Stem(Name(pdfPath));
    var head := BeforeFirst(stem, " - ");
    assert '/' !in stem;
    assert '/' !in name by {
      assert name == head + " - " + Name(otherFile);
      assert forall k | 0 <= k < |head| :: head[k] == stem[k];
    }
    JoinName(Parent(pdfPath), name);
    JoinName(Parent(pdfPath), Name(otherFile));
  }

  lemma JoinName(dir: string, name: string)
    requires '/' !in name
    ensures Name(JoinPath(dir, name)) == name
  {
    if |dir| > 0 && dir[|dir| - 1] == '/' {
      NameAfterSlash(dir, name);
    } else {
      NameAfterSlash(dir + "/", name);
    }
  }

  /** A PDF filed as `<dir>/<head> - <title>.pdf`, where `head` has no space, hands `head` on
      to the files beside it. */
  lemma CompanionOfFiledPdf(dir: string, head: string, title: string, otherFile: string)
    requires |dir| > 0 && dir[|dir| - 1] == '/' && '/' !in head && '/' !in title
    requires ' ' !in head
    ensures CompanionName(dir + head + " - " + title + ".pdf", otherFile) == head + " - " + Name(otherFile)
  {
    var base := head + " - " + title;
    assert dir + head + " - " + title + ".pdf" == dir + (base + ".pdf");
    assert '/' !in base + ".pdf" by {
      assert forall k | 0 <= k < |base + ".pdf"| :: (base + ".pdf")[k] in head + title + ". -pdf";
    }
    NameAfterSlash(dir, base + ".pdf");
    StemOfPdf(base);
    BeforeFirstStopsAtSep(head, " - ", title);
  }

  /** The files beside a Bounty's PDF are named "BountiesB<n> - <file name>": the folder
      "Bounties" and the prefix "B<n>" are glued together in the PDF's name. */
  lemma BountyCompanion(zipPath: string, otherFile: string)
    requires var id := ContentId(zipPath);
             Classify(id) == Some(BountySlug) && PdfDestination(id).Ok?
    ensures var id := ContentId(zipPath);
            CompanionName(PdfDestination(id).value, otherFile)
            == "BountiesB" + LeadingDigits(id) + " - " + Name(otherFile)
  {
    var id := ContentId(zipPath);
    DestinationIsFilepath(id, BountySlug);
    BountyFileCompanion(id, otherFile);
  }

  lemma BountyFileCompanion(id: string, otherFile: string)
    requires '/' !in id && GetFilepath(id, BountySlug).Ok?
    ensures CompanionName(GetFilepath(id, BountySlug).value, otherFile)
            == "BountiesB" + LeadingDigits(id) + " - " + Name(otherFile)
  {
    var path, title := BountyDestination(id);
    assert GetFilepath(id, BountySlug).value == path;
    PlainLetters();
    NumberedCompanion(id, "BountiesB", LeadingDigits(id), title, otherFile);
  }

  /** The files beside a Quest's PDF are named "QuestsQ<n> - <file name>". */
  lemma QuestCompanion(zipPath: string, otherFile: string)
    requires var id := ContentId(zipPath);
             Classify(id) == Some(QuestSlug) && PdfDestination(id).Ok?
    ensures var id := ContentId(zipPath);
            CompanionName(PdfDestination(id).value, otherFile)
            == "QuestsQ" + LeadingDigits(id) + " - " + Name(otherFile)
  {
    var id := ContentId(zipPath);
    DestinationIsFilepath(id, QuestSlug);
    QuestFileCompanion(id, otherFile);
  }

  lemma QuestFileCompanion(id: string, otherFile: string)
    requires '/' !in id && GetFilepath(id, QuestSlug).Ok?
    ensures CompanionName(GetFilepath(id, QuestSlug).value, otherFile)
            == "QuestsQ" + LeadingDigits(id) + " - " + Name(otherFile)
  {
    var path, title := QuestDestination(id);
    assert GetFilepath(id, QuestSlug).value == path;
    PlainLetters();
    NumberedCompanion(id, "QuestsQ", LeadingDigits(id), title, otherFile);
  }

  /** The path of a numbered Bounty PDF, with its folder and letter glued. */
  lemma BountyDestination(id: string) returns (path: string, title: string)
    requires GetFilepath(id, BountySlug).Ok?
    ensures GetFilepath(id, BountySlug) == Ok(path)
    ensures path == RootDir(id) + "BountiesB" + LeadingDigits(id) + " - " + title + ".pdf"
    ensures SpacesInserted(id[|LeadingDigits(id)|..], title)
  {
    var n := LeadingDigits(id);
    title := InsertSpaces(id[|n|..]);
    InsertSpacesOnlyInsertsSpaces(id[|n|..]);
    FolderLetters();
    assert GetFilepath(id, BountySlug) == NumberedPath(id, RootDir(id) + "Bounties", "B");
    path := RootDir(id) + "BountiesB" + n + " - " + title + ".pdf";
    assert RootDir(id) + "Bounties" + "B" + n == RootDir(id) + "BountiesB" + n;
  }

  /** The path of a numbered Quest PDF, with its folder and letter glued. */
  lemma QuestDestination(id: string) returns (path: string, title: string)
    requires GetFilepath(id, QuestSlug).Ok?
    ensures GetFilepath(id, QuestSlug) == Ok(path)
    ensures path == RootDir(id) + "QuestsQ" + LeadingDigits(id) + " - " + title + ".pdf"
    ensures SpacesInserted(id[|LeadingDigits(id)|..], title)
  {
    var n := LeadingDigits(id);
    title := InsertSpaces(id[|n|..]);
    InsertSpacesOnlyInsertsSpaces(id[|n|..]);
    FolderLetters();
    assert Root(id)[0] == id[0];
    assert GetFilepath(id, QuestSlug) == NumberedPath(id, RootDir(id) + "Quests", "Q");
    path := RootDir(id) + "QuestsQ" + n + " - " + title + ".pdf";
    assert RootDir(id) + "Quests" + "Q" + n == RootDir(id) + "QuestsQ" + n;
  }

  lemma PlainLetters()
    ensures ' ' !in "QuestsQ" && '/' !in "QuestsQ" && ' ' !in "BountiesB" && '/' !in "BountiesB"
  {
  }

  lemma FolderLetters()
    ensures "Bounties" + "B" == "BountiesB" && "Quests" + "Q" == "QuestsQ"
  {
  }

  lemma NumberedCompanion(id: string, letters: string, n: string, title: string, otherFile: string)
    requires '/' !in id && n <= id && AllDigits(n) && SpacesInserted(id[|n|..], title)
    requires ' ' !in letters && '/' !in letters
    ensures CompanionName(RootDir(id) + letters + n + " - " + title + ".pdf", otherFile)
            == letters + n + " - " + Name(otherFile)
  {
    SuffixKeepsAbsent(id, |n|, '/');
    SpacesInsertedKeepsAbsent(id[|n|..], title, '/');
    DigitsAbsent(n);
    GluedCompanion(RootDir(id), letters, n, title, otherFile);
  }

  /** `CompanionOfFiledPdf` for a head made of two glued parts. */
  lemma GluedCompanion(dir: string, letters: string, n: string, title: string, otherFile: string)
    requires |dir| > 0 && dir[|dir| - 1] == '/' && '/' !in title
    requires ' ' !in letters && '/' !in letters && ' ' !in n && '/' !in n
    ensures CompanionName(dir + letters + n + " - " + title + ".pdf", otherFile)
            == letters + n + " - " + Name(otherFile)
  {
    var head := letters + n;
    assert dir + letters + n + " - " + title + ".pdf" == dir + head + " - " + title + ".pdf";
    CompanionOfFiledPdf(dir, head, title, otherFile);
  }

  lemma SuffixKeepsAbsent(s: string, i: nat, c: char)
    requires i <= |s| && c !in s
    ensures c !in s[i..]
  {
    assert forall k | 0 <= k < |s| - i :: s[i..][k] == s[i + k];
  }

  lemma DigitsAbsent(n: string)
    requires AllDigits(n)
    ensures ' ' !in n && '/' !in n && '-' !in n
  {
  }

  /** The files beside a Society scenario's PDF are named
      "S<padded season><season>-<scenario> - <file name>": the season folder and the
      numbering prefix are glued together in the PDF's name. */
  lemma SocietyCompanion(zipPath: string, otherFile: string)
    requires var id := ContentId(zipPath);
             Classify(id) == Some(SocietySlug) && PdfDestination(id).Ok?
    ensures var id := ContentId(zipPath);
            && SeasonScenario(id).Some?
            && var numbers := SeasonScenario(id).value;
               CompanionName(PdfDestination(id).value, otherFile)
               == "S" + ZFill(numbers.0, 2) + numbers.0 + "-" + numbers.1 + " - " + Name(otherFile)
  {
    var id := ContentId(zipPath);
    PdfDestinationOk(id);
    DestinationIsFilepath(id, SocietySlug);
    var path, dir, letters, numbering, title := SocietyDestination(id);
    assert PdfDestination(id).value == path;
    GluedCompanion(dir, letters, numbering, title, otherFile);
  }

  /** The path of a Society PDF, split after the last '/'. */
  lemma SocietyDestination(id: string)
    returns (path: string, dir: string, letters: string, numbering: string, title: string)
    requires '/' !in id && GetFilepath(id, SocietySlug).Ok?
    ensures var numbers := SeasonScenario(id).value;
            letters + numbering == "S" + ZFill(numbers.0, 2) + numbers.0 + "-" + numbers.1
    ensures GetFilepath(id, SocietySlug) == Ok(path)
    ensures path == dir + letters + numbering + " - " + title + ".pdf"
    ensures |dir| > 0 && dir[|dir| - 1] == '/' && '/' !in title
    ensures ' ' !in letters && '/' !in letters && ' ' !in numbering && '/' !in numbering
  {
    var numbers := SeasonScenario(id).value;
    SocietyHeadAbsent(numbers.0, numbers.1);
    var rest := id[|numbers.0| + 1 + |numbers.1|..];
    SuffixKeepsAbsent(id, |numbers.0| + 1 + |numbers.1|, '/');
    title := InsertSpaces(rest);
    InsertSpacesOnlyInsertsSpaces(rest);
    SpacesInsertedKeepsAbsent(rest, title, '/');
    dir := RootDir(id) + Root(id) + "finder Society/";
    letters := "S" + ZFill(numbers.0, 2);
    numbering := numbers.0 + "-" + numbers.1;
    path := dir + letters + numbering + " - " + title + ".pdf";
    SocietyPathParts(id);
    EndsWithSlash(RootDir(id) + Root(id), "finder Society/");
    GlueFour("S", ZFill(numbers.0, 2), numbers.0 + "-", numbers.1);
  }

  lemma EndsWithSlash(base: string, folder: string)
    requires |folder| > 0 && folder[|folder| - 1] == '/'
    ensures var dir := base + folder; |dir| > 0 && dir[|dir| - 1] == '/'
  {
  }

  lemma GlueFour(a: string, b: string, c: string, d: string)
    ensures (a + b) + (c + d) == a + b + c + d
  {
  }

  lemma SocietyHeadAbsent(season: string, scenario: string)
    requires AllDigits(season) && AllDigits(scenario)
    ensures ' ' !in "S" + ZFill(season, 2) && '/' !in "S" + ZFill(season, 2)
    ensures ' ' !in season + "-" + scenario && '/' !in season + "-" + scenario
  {
    ZFillDigits(season, 2);
    DigitsAbsent(ZFill(season, 2));
    DigitsAbsent(season);
    DigitsAbsent(scenario);
  }

  /** `SocietyPath` with the season folder's "S" moved next to the padded season. */
  lemma SocietyPathParts(id: string)
    requires SeasonScenario(id).Some?
    ensures var numbers := SeasonScenario(id).value;
            GetFilepath(id, SocietySlug)
            == Ok(RootDir(id) + Root(id) + "finder Society/" + ("S" + ZFill(numbers.0, 2))
                  + (numbers.0 + "-" + numbers.1) + " - "
                  + InsertSpaces(id[|numbers.0| + 1 + |numbers.1|..]) + ".pdf")
  {
    var numbers := SeasonScenario(id).value;
    var season, scenario := numbers.0, numbers.1;
    assert GetFilepath(id, SocietySlug) == SocietyPath(id);
    SocietyRegrouped(RootDir(id) + Root(id), ZFill(season, 2), season, scenario,
                     InsertSpaces(id[|season| + 1 + |scenario|..]));
  }

  lemma SocietyRegrouped(base: string, padded: string, season: string, scenario: string, title: string)
    ensures base + "finder Society/S" + padded + season + "-" + scenario + " - " + title + ".pdf"
            == base + "finder Society/" + ("S" + padded) + (season + "-" + scenario) + " - " + title + ".pdf"
  {
    SeasonFolderPrefix();
    var folder := base + "finder Society/S" + padded;
    assert folder == base + "finder Society/" + ("S" + padded);
    assert folder + season + "-" + scenario == folder + (season + "-" + scenario);
  }

  lemma SeasonFolderPrefix()
    ensures "finder Society/" + "S" == "finder Society/S"
  {
  }
}

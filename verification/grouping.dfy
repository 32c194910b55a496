/**
 * The second half of `process_adventure_paths` (unzyp.py:150-171): volumes of one adventure
 * path are gathered under the path's name. Each spin of the outer loop looks at the first
 * volume left. It collects the names of the volumes whose adventure-path number lies in that
 * volume's window, guesses the path's name from the words of the volume's own name, and
 * moves every volume whose name contains the guess into a group ordered by book number.
 */
module Grouping {
  import opened Wrappers
  import opened Text
  import opened Volumes

  // ---------------------------------------------------------------------------
  // The name search (lines 160-166)

  /** `len([vol for vol in cands if t in vol])`. */
  function CountContaining(cands: seq<string>, t: string): (n: nat)
    ensures n <= |cands|
    ensures n == 0 <==> forall k | 0 <= k < |cands| :: !Contains(t, cands[k])
    decreases |cands|
  {
    if |cands| == 0 then 0
    else
      var rest := CountContaining(cands[1..], t);
      assert forall k | 1 <= k < |cands| :: cands[k] == cands[1..][k - 1];
      (if Contains(t, cands[0]) then 1 else 0) + rest
  }

  /** The search's variables `matches` and `ap_name`. */
  datatype SearchState = SearchState(matches: int, apName: string)

  /** `matches = 999` and `ap_name = ""` (lines 161-162). */
  const Start := SearchState(999, "")

  /** One iteration of the `for` at line 164, for word `i`: count the candidates holding the
      word (followed by a space once `ap_name` is not empty), then put the word and a space
      in front of `ap_name`. */
  function Step(words: seq<string>, cands: seq<string>, i: nat, st: SearchState): SearchState
    requires i < |words|
  {
    var t := if st.apName != [] then words[i] + " " else words[i];
    SearchState(CountContaining(cands, t), words[i] + " " + st.apName)
  }

  /** The iterations of the `for` for the words `hi - 1` down to 1. */
  function Down(words: seq<string>, cands: seq<string>, hi: nat, st: SearchState): SearchState
    requires hi <= |words|
    decreases hi
  {
    if hi <= 1 then st else Down(words, cands, hi - 1, Step(words, cands, hi - 1, st))
  }

  /** One whole `for` loop, `range(len(name_arr) - 1, 0, -1)`. */
  function Pass(words: seq<string>, cands: seq<string>, st: SearchState): SearchState {
    Down(words, cands, |words|, st)
  }

  /** The state after `k` passes of the `while` at line 163. */
  function Passes(words: seq<string>, cands: seq<string>, k: nat): SearchState {
    if k == 0 then Start else Pass(words, cands, Passes(words, cands, k - 1))
  }

  /** The `while matches > 0` stops after exactly `k` passes. */
  predicate ExitsAfter(words: seq<string>, cands: seq<string>, k: nat) {
    && k > 0
    && Passes(words, cands, k).matches <= 0
    && forall j | 0 < j < k :: Passes(words, cands, j).matches > 0
  }

  /** Only the last iteration's count survives a run of the `for`, and that is the count for
      word 1; `ap_name` gains words 1 to `hi - 1`, joined by spaces, and one more space. */
  lemma {:induction false} DownClosedForm(words: seq<string>, cands: seq<string>, hi: nat, st: SearchState)
    requires 2 <= hi <= |words|
    ensures Down(words, cands, hi, st) == SearchState(
              CountContaining(cands, if hi > 2 || st.apName != [] then words[1] + " " else words[1]),
              Join(words[1..hi], " ") + " " + st.apName)
    decreases hi
  {
    var next := Step(words, cands, hi - 1, st);
    if hi == 2 {
      assert words[1..2] == [words[1]];
    } else {
      DownClosedForm(words, cands, hi - 1, next);
      assert words[1..hi] == words[1..hi - 1] + [words[hi - 1]];
      JoinSnoc(words[1..hi - 1], words[hi - 1], " ");
      SpacedAssoc(Join(words[1..hi - 1], " "), words[hi - 1], st.apName);
    }
  }

  lemma SpacedAssoc(j: string, x: string, a: string)
    ensures j + " " + (x + " " + a) == j + " " + x + " " + a
  {
  }

  /** The first pass drops word 0: `ap_name` is words 1 onwards, each followed by a space;
      every later pass counts the candidates holding word 1 followed by a space. */
  lemma {:induction false} PassesClosedForm(words: seq<string>, cands: seq<string>, k: nat)
    requires |words| >= 2 && k > 0
    ensures Passes(words, cands, 1).apName == Join(words[1..], " ") + " "
    ensures Passes(words, cands, 1).matches
            == CountContaining(cands, if |words| > 2 then words[1] + " " else words[1])
    ensures k > 1 ==> Passes(words, cands, k).matches == CountContaining(cands, words[1] + " ")
    ensures k > 1 ==> Passes(words, cands, k).apName
                      == Join(words[1..], " ") + " " + Passes(words, cands, k - 1).apName
    ensures |Passes(words, cands, k).apName| > 0
    decreases k
  {
    DownClosedForm(words, cands, |words|, Start);
    assert words[1..|words|] == words[1..];
    if k > 1 {
      PassesClosedForm(words, cands, k - 1);
      DownClosedForm(words, cands, |words|, Passes(words, cands, k - 1));
    }
  }

  /** What the `while matches > 0` ends with: the name, or `Hangs` when it never stops. */
  datatype Search = Found(apName: string) | Hangs

  /** The outcome of the search, by the number of words. With fewer than two nothing ever
      changes `matches`. With more than two the search stops, after one pass, only if no
      candidate holds word 1 followed by a space, and `ap_name` is then words 1 onwards, each
      followed by a space. With exactly two it stops after one pass if no candidate holds
      word 1, after a second pass (which repeats the word) if none holds word 1 followed by
      a space, and never otherwise. `SeriesNameMeaning` shows this is the `while` loop. */
  function SeriesName(words: seq<string>, cands: seq<string>): Search {
    if |words| < 2 then Hangs
    else if CountContaining(cands, if |words| > 2 then words[1] + " " else words[1]) == 0 then
      Found(Join(words[1..], " ") + " ")
    else if |words| == 2 && CountContaining(cands, words[1] + " ") == 0 then
      Found(words[1] + " " + words[1] + " ")
    else Hangs
  }

  /** `SeriesName` is the unbounded `while`: it finds a name exactly when the loop stops after
      some number of passes, and the name is `ap_name` after those passes; a found name is
      never empty. */
  lemma SeriesNameMeaning(words: seq<string>, cands: seq<string>)
    ensures SeriesName(words, cands).Found? <==> exists k: nat :: ExitsAfter(words, cands, k)
    ensures forall k: nat | ExitsAfter(words, cands, k) ::
              SeriesName(words, cands) == Found(Passes(words, cands, k).apName)
    ensures SeriesName(words, cands).Found? ==> |SeriesName(words, cands).apName| > 0
  {
    if |words| < 2 {
      forall k: nat
        ensures Passes(words, cands, k) == Start
      {
        PassesIdle(words, cands, k);
      }
    } else {
      PassesClosedForm(words, cands, 2);
      if |words| == 2 {
        assert words[1..] == [words[1]];
      }
      if SeriesName(words, cands).Found? {
        if Passes(words, cands, 1).matches <= 0 {
          assert ExitsAfter(words, cands, 1);
        } else {
          assert ExitsAfter(words, cands, 2);
        }
      }
      forall k: nat | ExitsAfter(words, cands, k)
        ensures SeriesName(words, cands) == Found(Passes(words, cands, k).apName)
      {
        if k > 2 {
          PassesClosedForm(words, cands, k);
          assert false;
        }
      }
    }
  }

  /** With fewer than two words no pass does anything, so `matches` stays 999. */
  lemma {:induction false} PassesIdle(words: seq<string>, cands: seq<string>, k: nat)
    requires |words| < 2
    ensures Passes(words, cands, k) == Start
    decreases k
  {
    if k > 0 {
      PassesIdle(words, cands, k - 1);
    }
  }

  /** The inner `while`/`for` of lines 163-166. The `while` is run for at most two passes:
      a third pass would repeat the count of the second (`PassesClosedForm`), so a search
      still running then never ends, and the method says `Hangs`. */
  method FindSeriesName(words: seq<string>, cands: seq<string>) returns (r: Search)
    ensures r == SeriesName(words, cands)
  {
    if |words| < 2 {
      return Hangs;
    }
    var matches := 999;
    var apName := "";
    var passes := 0;
    while matches > 0 && passes < 2
      invariant passes <= 2
      invariant SearchState(matches, apName) == Passes(words, cands, passes)
      invariant passes == 2 ==> Passes(words, cands, 1).matches > 0
      decreases 2 - passes
    {
      ghost var before := SearchState(matches, apName);
      var i := |words| - 1;
      while i > 0
        invariant 0 <= i < |words|
        invariant Pass(words, cands, before) == Down(words, cands, i + 1, SearchState(matches, apName))
        decreases i
      {
        var t := if apName != [] then words[i] + " " else words[i];
        matches := CountContaining(cands, t);
        apName := words[i] + " " + apName;
        i := i - 1;
      }
      passes := passes + 1;
    }
    SearchOutcome(words, cands, passes);
    if matches > 0 {
      return Hangs;
    }
    return Found(apName);
  }

  /** Where the bounded loop of `FindSeriesName` leaves the search. */
  lemma SearchOutcome(words: seq<string>, cands: seq<string>, passes: nat)
    requires |words| >= 2 && 0 < passes <= 2
    requires Passes(words, cands, passes).matches > 0 ==> passes == 2
    requires passes == 2 ==> Passes(words, cands, 1).matches > 0
    ensures Passes(words, cands, passes).matches > 0 ==> SeriesName(words, cands) == Hangs
    ensures Passes(words, cands, passes).matches <= 0 ==>
              SeriesName(words, cands) == Found(Passes(words, cands, passes).apName)
  {
    SeriesNameMeaning(words, cands);
    if Passes(words, cands, passes).matches > 0 {
      PassesClosedForm(words, cands, 2);
    } else {
      assert ExitsAfter(words, cands, passes);
    }
  }

  // ---------------------------------------------------------------------------
  // The candidates (lines 155-157)

  /** `vol["ap_number"] in ap_range and vol["ap_number"] != bp["ap_number"]`, where
      `ap_range` is `range(ap - book + 1, ap + total - 1)` for the head volume. */
  predicate IsCandidate(head: Volume, v: Volume) {
    && head.apNumber - head.bookNumber + 1 <= v.apNumber < head.apNumber + head.totalBooks - 1
    && v.apNumber != head.apNumber
  }

  /** `ap_candidates`: the names of the candidates, in list order. */
  function Candidates(head: Volume, work: seq<Volume>): (r: seq<string>)
    ensures |r| <= |work|
    ensures forall k | 0 <= k < |work| && IsCandidate(head, work[k]) :: work[k].bpName in r
    ensures forall x | x in r :: exists k | 0 <= k < |work| :: IsCandidate(head, work[k]) && work[k].bpName == x
    decreases |work|
  {
    if |work| == 0 then []
    else
      var rest := Candidates(head, work[1..]);
      assert forall k | 1 <= k < |work| :: work[k] == work[1..][k - 1];
      if IsCandidate(head, work[0]) then [work[0].bpName] + rest else rest
  }

  /** The head never counts as its own candidate. */
  lemma HeadNotCandidate(head: Volume)
    ensures !IsCandidate(head, head)
  {
  }

  /** For a path whose book `b` has number `first + b - 1`, the window of book `head` holds
      every other book of the path, except the last one when the head is book 1. */
  lemma SeriesWindow(head: Volume, v: Volume, first: int)
    requires 1 <= head.bookNumber <= head.totalBooks
    requires 1 <= v.bookNumber <= head.totalBooks
    requires head.apNumber == first + head.bookNumber - 1 && v.apNumber == first + v.bookNumber - 1
    ensures IsCandidate(head, v) <==>
              v.bookNumber != head.bookNumber && (v.bookNumber < head.totalBooks || head.bookNumber > 1)
  {
  }

  // ---------------------------------------------------------------------------
  // Moving a group out (lines 167-171)

  /** `[bk for bk in bookpaths if ap_name in bk["bp_name"]]`. */
  function Named(work: seq<Volume>, name: string): (r: seq<Volume>)
    ensures forall k | 0 <= k < |r| :: Contains(name, r[k].bpName)
    decreases |work|
  {
    if |work| == 0 then []
    else if Contains(name, work[0].bpName) then [work[0]] + Named(work[1..], name)
    else Named(work[1..], name)
  }

  /** `[bk for bk in bookpaths if ap_name not in bk["bp_name"]]`. */
  function Unnamed(work: seq<Volume>, name: string): (r: seq<Volume>)
    ensures forall k | 0 <= k < |r| :: !Contains(name, r[k].bpName)
    decreases |work|
  {
    if |work| == 0 then []
    else if Contains(name, work[0].bpName) then Unnamed(work[1..], name)
    else [work[0]] + Unnamed(work[1..], name)
  }

  /** The two comprehensions split the list: every volume lands in exactly one of them. */
  lemma {:induction false} NamedUnnamedSplit(work: seq<Volume>, name: string)
    ensures multiset(Named(work, name)) + multiset(Unnamed(work, name)) == multiset(work)
    decreases |work|
  {
    if |work| > 0 {
      var rest := work[1..];
      NamedUnnamedSplit(rest, name);
      assert multiset(work) == multiset{work[0]} + multiset(rest) by {
        assert work == [work[0]] + rest;
      }
      if Contains(name, work[0].bpName) {
        assert multiset(Named(work, name)) == multiset{work[0]} + multiset(Named(rest, name));
      } else {
        assert multiset(Unnamed(work, name)) == multiset{work[0]} + multiset(Unnamed(rest, name));
      }
    }
  }

  predicate SortedByBook(vs: seq<Volume>) {
    forall i, j | 0 <= i < j < |vs| :: vs[i].bookNumber <= vs[j].bookNumber
  }

  /** A volume no later in book order than any of a sorted list can go in front of it. */
  lemma SortedCons(v: Volume, vs: seq<Volume>)
    requires SortedByBook(vs)
    requires forall k | 0 <= k < |vs| :: v.bookNumber <= vs[k].bookNumber
    ensures SortedByBook([v] + vs)
  {
  }

  /** Puts `v` in front of the first volume whose book number is not smaller. */
  function Insert(v: Volume, vs: seq<Volume>): (r: seq<Volume>)
    requires SortedByBook(vs)
    ensures SortedByBook(r)
    ensures multiset(r) == multiset(vs) + multiset{v}
    ensures forall k | 0 <= k < |r| :: r[k] == v || r[k] in vs
    decreases |vs|
  {
    if |vs| == 0 || v.bookNumber <= vs[0].bookNumber then
      SortedCons(v, vs);
      [v] + vs
    else
      var rest := Insert(v, vs[1..]);
      SortedCons(vs[0], rest);
      assert vs == [vs[0]] + vs[1..];
      [vs[0]] + rest
  }

  /** `sorted(..., key=lambda x: x["book_number"])`, which is stable: an insertion sort. */
  function SortByBook(vs: seq<Volume>): (r: seq<Volume>)
    ensures SortedByBook(r)
    ensures multiset(r) == multiset(vs)
    decreases |vs|
  {
    if |vs| == 0 then []
    else
      assert vs == [vs[0]] + vs[1..];
      Insert(vs[0], SortByBook(vs[1..]))
  }

  /** The volumes with book number `b`, in order. */
  function WithBook(vs: seq<Volume>, b: nat): seq<Volume>
    decreases |vs|
  {
    if |vs| == 0 then []
    else if vs[0].bookNumber == b then [vs[0]] + WithBook(vs[1..], b)
    else WithBook(vs[1..], b)
  }

  lemma {:induction false} InsertWithBook(v: Volume, vs: seq<Volume>, b: nat)
    requires SortedByBook(vs)
    ensures WithBook(Insert(v, vs), b) == (if v.bookNumber == b then [v] else []) + WithBook(vs, b)
    decreases |vs|
  {
    if |vs| == 0 || v.bookNumber <= vs[0].bookNumber {
      assert ([v] + vs)[1..] == vs;
    } else {
      var rest := Insert(v, vs[1..]);
      InsertWithBook(v, vs[1..], b);
      assert ([vs[0]] + rest)[1..] == rest;
    }
  }

  /** The sort is stable: volumes with the same book number keep their order. */
  lemma {:induction false} SortByBookStable(vs: seq<Volume>, b: nat)
    ensures WithBook(SortByBook(vs), b) == WithBook(vs, b)
    decreases |vs|
  {
    if |vs| > 0 {
      SortByBookStable(vs[1..], b);
      InsertWithBook(vs[0], SortByBook(vs[1..]), b);
    }
  }

  // ---------------------------------------------------------------------------
  // One spin of the outer loop (lines 154-171)

  datatype Spun =
    | Stay                                                    // no name: nothing changes
    | Moved(name: string, group: seq<Volume>, rest: seq<Volume>)  // `adv_paths[name] = group`, `bookpaths = rest`
    | Stuck                                                   // the search never ends

  /** What one spin does with the working list. The name is checked for emptiness before
      it is stripped (line 167); `SeriesName` never finds an empty name, so only an empty
      candidate list leaves the spin without one. Before the group is taken, the head's
      `ap_name` is set to the name. */
  function Spin(work: seq<Volume>): Spun
    requires |work| > 0
  {
    var head := work[0];
    var cands := Candidates(head, work);
    if |cands| == 0 then Stay
    else match SeriesName(Words(head.bpName), cands)
      case Hangs => Stuck
      case Found(raw) =>
        var name := Strip(raw);
        var named := work[0 := head.(apName := Some(name))];
        Moved(name, SortByBook(Named(named, name)), Unnamed(named, name))
  }

  /** The working list with the head's `ap_name` set. */
  function Tagged(work: seq<Volume>, name: string): (r: seq<Volume>)
    requires |work| > 0
    ensures |r| == |work| && r[0].apName == Some(name)
    ensures forall k | 0 <= k < |work| :: r[k].bpName == work[k].bpName
  {
    work[0 := work[0].(apName := Some(name))]
  }

  /** A spin with a name splits the (tagged) working list exactly into the group and the
      rest: nothing is lost or duplicated, the group holds the volumes whose name contains
      the found name in book-number order (ties in list order), and none is left behind. */
  lemma SpinMoves(work: seq<Volume>)
    requires |work| > 0 && Spin(work).Moved?
    ensures var m := Spin(work);
            && multiset(m.group) + multiset(m.rest) == multiset(Tagged(work, m.name))
            && SortedByBook(m.group)
            && (forall v | v in m.group :: Contains(m.name, v.bpName))
            && (forall v | v in m.rest :: !Contains(m.name, v.bpName))
            && (forall b: nat :: WithBook(m.group, b) == WithBook(Named(Tagged(work, m.name), m.name), b))
  {
    var m := Spin(work);
    var named := Tagged(work, m.name);
    NamedUnnamedSplit(named, m.name);
    forall b: nat
      ensures WithBook(m.group, b) == WithBook(Named(named, m.name), b)
    {
      SortByBookStable(Named(named, m.name), b);
    }
    forall v | v in m.group
      ensures Contains(m.name, v.bpName)
    {
      assert v in multiset(Named(named, m.name));
    }
  }

  /** A spin finds no name exactly when the head has no candidates. */
  lemma SpinStays(work: seq<Volume>)
    requires |work| > 0
    ensures Spin(work) == Stay <==> |Candidates(work[0], work)| == 0
  {
  }

  /** Only the head's window decides the candidates, not its `ap_name`. */
  lemma {:induction false} CandidatesSameWindow(h1: Volume, h2: Volume, work: seq<Volume>)
    requires h1.apNumber == h2.apNumber && h1.bookNumber == h2.bookNumber && h1.totalBooks == h2.totalBooks
    ensures Candidates(h1, work) == Candidates(h2, work)
    decreases |work|
  {
    if |work| > 0 {
      CandidatesSameWindow(h1, h2, work[1..]);
    }
  }

  /** Volumes none of whose names contains `name` are all left behind. */
  lemma {:induction false} NamedNone(work: seq<Volume>, name: string)
    requires forall k | 0 <= k < |work| :: !Contains(name, work[k].bpName)
    ensures Named(work, name) == [] && Unnamed(work, name) == work
    decreases |work|
  {
    if |work| > 0 {
      NamedNone(work[1..], name);
      assert work == [work[0]] + work[1..];
    }
  }

  lemma {:induction false} NamedEmpty(work: seq<Volume>, name: string)
    requires Named(work, name) == []
    ensures Unnamed(work, name) == work
    decreases |work|
  {
    if |work| > 0 {
      NamedEmpty(work[1..], name);
      assert work == [work[0]] + work[1..];
    }
  }

  /** A spin that finds a name but no volume holding it leaves the whole (tagged) list. */
  lemma EmptyGroupKeepsAll(work: seq<Volume>)
    requires |work| > 0 && Spin(work).Moved? && Spin(work).group == []
    ensures Spin(work).rest == Tagged(work, Spin(work).name)
  {
    var named := Tagged(work, Spin(work).name);
    assert |multiset(Named(named, Spin(work).name))| == 0;
    NamedEmpty(named, Spin(work).name);
  }

  /** Tagging the head with the name its spin found does not change what the spin does. */
  lemma TaggedSpin(work: seq<Volume>)
    requires |work| > 0 && Spin(work).Moved?
    ensures Spin(Tagged(work, Spin(work).name)) == Spin(work)
  {
    var name := Spin(work).name;
    var t := Tagged(work, name);
    CandidatesSameWindow(t[0], work[0], t);
    assert t[1..] == work[1..];
    assert Candidates(work[0], t) == Candidates(work[0], work);
    assert Tagged(t, name) == t;
  }

  /** A spin that finds a name goes on with the rest and the new group. */
  lemma RunAfterMove(work: seq<Volume>, adv: map<string, seq<Volume>>, spins: nat, bound: nat,
                     name: string, group: seq<Volume>, rest: seq<Volume>)
    requires |work| > 0 && spins <= bound && Spin(work) == Moved(name, group, rest)
    ensures Run(work, adv, spins, bound) == Run(rest, adv[name := group], spins + 1, bound)
  {
  }

  /** A spin that finds a name held by no volume finds it again on every later spin: the
      head is never removed, the group stays empty, and the loop ends on its spin bound
      with every volume left over. */
  lemma EmptyGroupRepeats(work: seq<Volume>, adv: map<string, seq<Volume>>, spins: nat, bound: nat, name: string)
    requires |work| > 0 && spins <= bound && Spin(work) == Moved(name, [], Tagged(work, name))
    ensures Run(work, adv, spins, bound) == Grouped(adv[name := []], Tagged(work, name), bound + 1)
  {
    var t := Tagged(work, name);
    RunAfterMove(work, adv, spins, bound, name, [], t);
    TaggedSpin(work);
    FixedPointStalls(t, adv[name := []], name, spins + 1, bound);
  }

  /** A list that a spin leaves as it is, with an empty group already filed under the name. */
  lemma FixedPointStalls(work: seq<Volume>, adv: map<string, seq<Volume>>, name: string, spins: nat, bound: nat)
    requires |work| > 0 && spins <= bound + 1 && Spin(work) == Moved(name, [], work)
    requires name in adv && adv[name] == []
    ensures Run(work, adv, spins, bound) == Grouped(adv, work, bound + 1)
  {
    forall s: nat | s <= bound
      ensures Run(work, adv, s, bound) == Run(work, adv, s + 1, bound)
    {
      FixedStep(work, adv, name, s, bound);
    }
    RunRepeats(work, adv, spins, bound);
  }

  lemma FixedStep(work: seq<Volume>, adv: map<string, seq<Volume>>, name: string, spins: nat, bound: nat)
    requires |work| > 0 && spins <= bound && Spin(work) == Moved(name, [], work)
    requires name in adv && adv[name] == []
    ensures Run(work, adv, spins, bound) == Run(work, adv, spins + 1, bound)
  {
    RunAfterMove(work, adv, spins, bound, name, [], work);
    RefiledUnchanged(adv, name);
  }

  lemma RefiledUnchanged(adv: map<string, seq<Volume>>, name: string)
    requires name in adv && adv[name] == []
    ensures adv[name := []] == adv
  {
  }

  /** A loop whose every spin leaves the state as it is runs to its bound. */
  lemma {:induction false} RunRepeats(work: seq<Volume>, adv: map<string, seq<Volume>>, spins: nat, bound: nat)
    requires spins <= bound + 1
    requires forall s: nat | s <= bound :: Run(work, adv, s, bound) == Run(work, adv, s + 1, bound)
    ensures Run(work, adv, spins, bound) == Grouped(adv, work, bound + 1)
    decreases bound + 1 - spins
  {
    if spins <= bound {
      RunRepeats(work, adv, spins + 1, bound);
    } else {
      RunStops(work, adv, spins, bound);
    }
  }

  /** The head is named `a w` (two words), its window holds a volume whose name contains
      `w`, and no volume's name contains `w` followed by a space. */
  predicate LastWordRepeats(work: seq<Volume>, a: string, w: string) {
    && |work| > 0 && work[0].bpName == a + " " + w
    && a != [] && w != [] && ' ' !in a && ' ' !in w && !IsSpace(w[0]) && !IsSpace(w[|w| - 1])
    && (exists k | 0 <= k < |work| :: IsCandidate(work[0], work[k]) && Contains(w, work[k].bpName))
    && (forall k | 0 <= k < |work| :: !Contains(w + " ", work[k].bpName))
  }

  /** For such a head the search passes twice and returns the last word doubled, `w w`,
      which no volume's name contains, so the group is empty. */
  lemma RepeatedLastWord(work: seq<Volume>, a: string, w: string)
    requires LastWordRepeats(work, a, w)
    ensures Spin(work) == Moved(w + " " + w, [], Tagged(work, w + " " + w))
  {
    SearchFindsDouble(work, a, w);
    NoneNamed(work, a, w);
    SpinFound(work, w + " " + w + " ", w + " " + w);
  }

  lemma SearchFindsDouble(work: seq<Volume>, a: string, w: string)
    requires LastWordRepeats(work, a, w)
    ensures |Candidates(work[0], work)| > 0
    ensures SeriesName(Words(work[0].bpName), Candidates(work[0], work)) == Found(w + " " + w + " ")
    ensures Strip(w + " " + w + " ") == w + " " + w
  {
    var cands := Candidates(work[0], work);
    var x := CandidateHolding(work, w);
    TwoWords(a, w);
    SearchDoubles(a, w, cands, x);
    StripTrailingSpace(w + " " + w);
  }

  /** A spin whose search finds `raw` moves the group named `strip(raw)`. */
  lemma SpinFound(work: seq<Volume>, raw: string, name: string)
    requires |work| > 0 && |Candidates(work[0], work)| > 0
    requires SeriesName(Words(work[0].bpName), Candidates(work[0], work)) == Found(raw)
    requires Strip(raw) == name
    ensures Spin(work) == Moved(name, SortByBook(Named(Tagged(work, name), name)), Unnamed(Tagged(work, name), name))
  {
  }

  lemma CandidateHolding(work: seq<Volume>, w: string) returns (x: string)
    requires |work| > 0
    requires exists k | 0 <= k < |work| :: IsCandidate(work[0], work[k]) && Contains(w, work[k].bpName)
    requires forall k | 0 <= k < |work| :: !Contains(w + " ", work[k].bpName)
    ensures x in Candidates(work[0], work) && Contains(w, x)
    ensures forall j | 0 <= j < |Candidates(work[0], work)| :: !Contains(w + " ", Candidates(work[0], work)[j])
  {
    var cands := Candidates(work[0], work);
    var k :| 0 <= k < |work| && IsCandidate(work[0], work[k]) && Contains(w, work[k].bpName);
    x := work[k].bpName;
    forall j | 0 <= j < |cands|
      ensures !Contains(w + " ", cands[j])
    {
      assert cands[j] in cands;
    }
  }

  lemma NoneNamed(work: seq<Volume>, a: string, w: string)
    requires LastWordRepeats(work, a, w)
    ensures var name := w + " " + w;
            && SortByBook(Named(Tagged(work, name), name)) == []
            && Unnamed(Tagged(work, name), name) == Tagged(work, name)
  {
    var name := w + " " + w;
    var named := Tagged(work, name);
    forall j | 0 <= j < |named|
      ensures !Contains(name, named[j].bpName)
    {
      NoDoubledWord(w, work[j].bpName);
    }
    NamedNone(named, name);
  }

  /** The search over the two words `a` and `w`: some candidate holds `w`, so the first pass
      goes on; none holds `w` followed by a space, so the second pass stops with `w` twice. */
  lemma SearchDoubles(a: string, w: string, cands: seq<string>, x: string)
    requires x in cands && Contains(w, x)
    requires forall j | 0 <= j < |cands| :: !Contains(w + " ", cands[j])
    ensures SeriesName([a, w], cands) == Found(w + " " + w + " ")
  {
    var j :| 0 <= j < |cands| && cands[j] == x;
    assert CountContaining(cands, w) != 0;
    assert CountContaining(cands, w + " ") == 0;
  }

  /** Three books of one path, with consecutive path numbers and books 1 to 3 of 3, whose
      names are the one-word `p[b]` and the shared last word `w`, where no `p[b]` ends with
      `w`. */
  predicate SharedLastWord(work: seq<Volume>, p: seq<string>, w: string) {
    && |work| == 3 && |p| == 3
    && (forall b | 0 <= b < 3 ::
          && work[b].bookNumber == b + 1 && work[b].totalBooks == 3
          && work[b].apNumber == work[0].apNumber + b && work[b].bpName == p[b] + " " + w)
    && (forall b | 0 <= b < 3 ::
          p[b] != [] && ' ' !in p[b] && (|p[b]| < |w| || p[b][|p[b]| - |w|..] != w))
    && w != [] && ' ' !in w && !IsSpace(w[0]) && !IsSpace(w[|w| - 1])
  }

  /** Three books of one path, with consecutive path numbers and books 1 to 3 of 3, whose
      names are one word each followed by a shared last word `w` ("Alpha Saga", "Beta Saga",
      "Gamma Saga"), are never grouped: the head's only candidate is book 2, the search
      returns `w` twice, every spin files an empty group under that name, and the loop ends
      on its bound with all three books left over. */
  lemma SharedLastWordNotGrouped(work: seq<Volume>, p: seq<string>, w: string)
    requires SharedLastWord(work, p, w)
    ensures Run(work, map[], 0, |work|) == Grouped(map[w + " " + w := []], Tagged(work, w + " " + w), 4)
  {
    SharedLastWordSpin(work, p, w);
    EmptyGroupRepeats(work, map[], 0, |work|, w + " " + w);
  }

  lemma SharedLastWordSpin(work: seq<Volume>, p: seq<string>, w: string)
    requires SharedLastWord(work, p, w)
    ensures Spin(work) == Moved(w + " " + w, [], Tagged(work, w + " " + w))
  {
    forall b | 0 <= b < 3
      ensures Contains(w, work[b].bpName) && !Contains(w + " ", work[b].bpName)
    {
      LastWordAfterSpace(p[b], w);
    }
    assert IsCandidate(work[0], work[1]);
    RepeatedLastWord(work, p[0], w);
  }

  // ---------------------------------------------------------------------------
  // The outer loop (lines 150-171)

  /** Where the loop ends: the groups and the volumes left, with the spin count, or the
      spin whose name search never ends. */
  datatype Grouping =
    | Grouped(advPaths: map<string, seq<Volume>>, remaining: seq<Volume>, spins: nat)
    | Hung(spins: nat)

  /** The loop from a working list, groups so far and spin count, with `bp_len = bound`.
      A name found a second time replaces the earlier group, as the dict assignment does. */
  function Run(work: seq<Volume>, adv: map<string, seq<Volume>>, spins: nat, bound: nat): Grouping
    decreases if spins > bound then 0 else bound + 1 - spins, 1
  {
    if |work| == 0 || spins > bound then Grouped(adv, work, spins)
    else Continue(Spin(work), work, adv, spins, bound)
  }

  /** The rest of the loop after a spin with outcome `spun`. */
  function Continue(spun: Spun, work: seq<Volume>, adv: map<string, seq<Volume>>, spins: nat, bound: nat): Grouping
    requires spins <= bound
    decreases bound + 1 - spins, 0
  {
    match spun
    case Stay => Run(work, adv, spins + 1, bound)
    case Stuck => Hung(spins + 1)
    case Moved(name, group, rest) => Run(rest, adv[name := group], spins + 1, bound)
  }

  /** Every group is in book-number order and every member's name contains the group's
      name. */
  predicate GroupsKeyed(adv: map<string, seq<Volume>>) {
    forall name | name in adv ::
      SortedByBook(adv[name]) && forall k | 0 <= k < |adv[name]| :: Contains(name, adv[name][k].bpName)
  }

  /** No volume of `work` has a name that contains the name of a group. */
  predicate Ungrouped(adv: map<string, seq<Volume>>, work: seq<Volume>) {
    forall name, k | name in adv && 0 <= k < |work| :: !Contains(name, work[k].bpName)
  }

  /** The loop stops after at most `bp_len + 1` spins. */
  lemma {:induction false} RunSpins(work: seq<Volume>, adv: map<string, seq<Volume>>, spins: nat, bound: nat)
    requires spins <= bound + 1
    ensures Run(work, adv, spins, bound).spins <= bound + 1
    decreases bound + 1 - spins, 1
  {
    if |work| > 0 && spins <= bound {
      ContinueSpins(Spin(work), work, adv, spins, bound);
    }
  }

  lemma {:induction false} ContinueSpins(spun: Spun, work: seq<Volume>, adv: map<string, seq<Volume>>, spins: nat, bound: nat)
    requires spins <= bound
    ensures Continue(spun, work, adv, spins, bound).spins <= bound + 1
    decreases bound + 1 - spins, 0
  {
    match spun
    case Stay => RunSpins(work, adv, spins + 1, bound);
    case Stuck =>
    case Moved(name, group, rest) => RunSpins(rest, adv[name := group], spins + 1, bound);
  }

  /** A head without candidates is never removed, so every remaining spin finds nothing and
      the loop ends on its spin bound with the working list unchanged. */
  lemma {:induction false} StayStalls(work: seq<Volume>, adv: map<string, seq<Volume>>, spins: nat, bound: nat)
    requires |work| > 0 && spins <= bound + 1 && Spin(work) == Stay
    ensures Run(work, adv, spins, bound) == Grouped(adv, work, bound + 1)
    decreases bound + 1 - spins
  {
    if spins <= bound {
      StayStalls(work, adv, spins + 1, bound);
    }
  }

  /** Whatever the loop ends with, its groups are sorted and keyed by their names, and no
      volume left over has a name containing a group's name. */
  lemma {:induction false} RunKeepsGroups(work: seq<Volume>, adv: map<string, seq<Volume>>, spins: nat, bound: nat)
    requires GroupsKeyed(adv) && Ungrouped(adv, work)
    ensures Run(work, adv, spins, bound).Grouped? ==>
              && GroupsKeyed(Run(work, adv, spins, bound).advPaths)
              && Ungrouped(Run(work, adv, spins, bound).advPaths, Run(work, adv, spins, bound).remaining)
    decreases if spins > bound then 0 else bound + 1 - spins, 1
  {
    if |work| > 0 && spins <= bound {
      var spun := Spin(work);
      if spun.Moved? {
        SpinKeepsGroups(work, adv);
      }
      ContinueKeepsGroups(spun, work, adv, spins, bound);
    }
  }

  lemma {:induction false} ContinueKeepsGroups(spun: Spun, work: seq<Volume>, adv: map<string, seq<Volume>>, spins: nat, bound: nat)
    requires spins <= bound && GroupsKeyed(adv) && Ungrouped(adv, work)
    requires spun.Moved? ==>
               GroupsKeyed(adv[spun.name := spun.group]) && Ungrouped(adv[spun.name := spun.group], spun.rest)
    ensures Continue(spun, work, adv, spins, bound).Grouped? ==>
              && GroupsKeyed(Continue(spun, work, adv, spins, bound).advPaths)
              && Ungrouped(Continue(spun, work, adv, spins, bound).advPaths, Continue(spun, work, adv, spins, bound).remaining)
    decreases bound + 1 - spins, 0
  {
    match spun
    case Stay => RunKeepsGroups(work, adv, spins + 1, bound);
    case Stuck =>
    case Moved(name, group, rest) => RunKeepsGroups(rest, adv[name := group], spins + 1, bound);
  }

  /** One spin that finds a name keeps the groups keyed and the working list clear of them. */
  lemma SpinKeepsGroups(work: seq<Volume>, adv: map<string, seq<Volume>>)
    requires |work| > 0 && Spin(work).Moved?
    requires GroupsKeyed(adv) && Ungrouped(adv, work)
    ensures GroupsKeyed(adv[Spin(work).name := Spin(work).group])
    ensures Ungrouped(adv[Spin(work).name := Spin(work).group], Spin(work).rest)
  {
    var m := Spin(work);
    var name, group, rest := m.name, m.group, m.rest;
    SpinMoves(work);
    var adv' := adv[name := group];
    var named := Tagged(work, name);
    assert GroupsKeyed(adv') by {
      forall k | 0 <= k < |group|
        ensures Contains(name, group[k].bpName)
      {
        assert group[k] in group;
      }
    }
    forall n, k | n in adv' && 0 <= k < |rest|
      ensures !Contains(n, rest[k].bpName)
    {
      assert rest[k] in rest;
      if n != name {
        assert rest[k] in multiset(named);
        var j :| 0 <= j < |named| && named[j] == rest[k];
        assert named[j].bpName == work[j].bpName;
      }
    }
  }

  /** The imperative form of `Spin`: the body of one spin, lines 155-170, with the head's
      candidates, the name search, and the head's `ap_name`, the group and the rest once a
      name is found. */
  method SpinOnce(work: seq<Volume>) returns (spun: Spun)
    requires |work| > 0
    ensures spun == Spin(work)
  {
    var bp := work[0];
    var candidates := Candidates(bp, work);
    if |candidates| == 0 {
      return Stay;
    }
    var found := FindSeriesName(Words(bp.bpName), candidates);
    if found.Hangs? {
      return Stuck;
    }
    var apName := Strip(found.apName);
    bp := bp.(apName := Some(apName));
    var tagged := work[0 := bp];
    return Moved(apName, SortByBook(Named(tagged, apName)), Unnamed(tagged, apName));
  }

  /** What the loop does after each kind of spin of its working list. */
  lemma SpinStep(work: seq<Volume>, adv: map<string, seq<Volume>>, spins: nat, bound: nat, spun: Spun)
    requires |work| > 0 && spins <= bound && spun == Spin(work)
    ensures spun == Stuck ==> Run(work, adv, spins, bound) == Hung(spins + 1)
    ensures spun == Stay ==> Run(work, adv, spins, bound) == Run(work, adv, spins + 1, bound)
    ensures spun.Moved? ==>
              Run(work, adv, spins, bound) == Run(spun.rest, adv[spun.name := spun.group], spins + 1, bound)
  {
  }

  /** The loop ends with an empty working list or after its last spin. */
  lemma RunStops(work: seq<Volume>, adv: map<string, seq<Volume>>, spins: nat, bound: nat)
    requires |work| == 0 || spins > bound
    ensures Run(work, adv, spins, bound) == Grouped(adv, work, spins)
  {
  }

  /** The outer loop at lines 150-171 over the parsed volumes `bookpaths`. */
  method GroupAdventurePaths(bookpaths: seq<Volume>) returns (r: Grouping)
    ensures r == Run(bookpaths, map[], 0, |bookpaths|)
  {
    var work := bookpaths;
    var bpLen := |work|;
    var advPaths: map<string, seq<Volume>> := map[];
    var spins: nat := 0;
    ghost var goal := Run(bookpaths, map[], 0, bpLen);
    while |work| > 0 && spins <= bpLen
      invariant spins <= bpLen + 1
      invariant Run(work, advPaths, spins, bpLen) == goal
      decreases bpLen + 1 - spins
    {
      var spun := SpinOnce(work);
      SpinStep(work, advPaths, spins, bpLen, spun);
      spins := spins + 1;
      if spun.Stuck? {
        return Hung(spins);
      } else if spun.Moved? {
        advPaths := advPaths[spun.name := spun.group];
        work := spun.rest;
      }
    }
    RunStops(work, advPaths, spins, bpLen);
    return Grouped(advPaths, work, spins);
  }

  /** The whole of lines 125-171: parse every archive, then group the volumes. The groups
      are what the rest of `process_adventure_paths` goes on to extract. */
  method ProcessAdventurePaths(apList: seq<string>) returns (r: Result<Grouping, ParseError>)
    ensures var vols := Collect(Parsed(apList));
            r == if vols.Err? then Err(vols.error) else Ok(Run(vols.value, map[], 0, |vols.value|))
  {
    var parsed := ParseVolumes(apList);
    if parsed.Err? {
      return Err(parsed.error);
    }
    var grouping := GroupAdventurePaths(parsed.value);
    return Ok(grouping);
  }

  /** A grouping that ends normally leaves its groups sorted and keyed, and nothing behind
      that belongs to one of them, after at most `bp_len + 1` spins. */
  lemma GroupingOutcome(bookpaths: seq<Volume>)
    ensures var g := Run(bookpaths, map[], 0, |bookpaths|);
            && g.spins <= |bookpaths| + 1
            && (g.Grouped? ==> GroupsKeyed(g.advPaths) && Ungrouped(g.advPaths, g.remaining))
  {
    RunSpins(bookpaths, map[], 0, |bookpaths|);
    RunKeepsGroups(bookpaths, map[], 0, |bookpaths|);
  }
}

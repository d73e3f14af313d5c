/** The episode-table parser: `parseWiki`, `extractIndex` and
    `extractLocations`. The same code appears three times in the repository
    (script.js, `ParserService` in services.js and the module functions of
    js/funcs.js); this module models it once. */
module Parser {
  import opened Wrappers
  import opened Text
  import opened Wikitext

  /** One emitted record: the trimmed season heading, the episode index and
      the location labels joined by "; ". */
  datatype Episode = Episode(season: string, idx: string, location: string)

  /** A row whose cells are all blank has no `cells[0]`; reading `.match`
      from `undefined` throws a TypeError that leaves `parseWiki`. */
  datatype ParseError = FirstCellUndefined

  // ---------------------------------------------------------------- extractIndex

  /** The episode index of a row: the trimmed text of the first bold span in
      the space-joined cells, else the trimmed first digit run of the first
      cell, else none. */
  function ExtractIndex(cells: seq<string>): (r: Result<Option<string>, ParseError>)
    ensures r.Err? <==> cells == []
    ensures r.Ok? && r.value.Some? ==> IsTrimmed(r.value.value)
  {
    match FirstBold(Join(cells, " "), 0)
    case Some(b) => Ok(Some(Trim(b)))
    case None =>
      if cells == [] then Err(FirstCellUndefined)
      else match FirstDigitRun(cells[0], 0)
        case Some(d) => Ok(Some(Trim(d)))
        case None => Ok(None)
  }

  /** A bold span takes precedence: the index is the trimmed text of the
      leftmost span, whatever the cells hold besides. */
  lemma BoldIndex(cells: seq<string>, i: nat, b: string)
    requires i <= |Join(cells, " ")| && BoldSpanAt(Join(cells, " "), i, b)
    requires forall j, b' :: 0 <= j < i ==> !BoldSpanAt(Join(cells, " "), j, b')
    ensures ExtractIndex(cells) == Ok(Some(Trim(b)))
  {
    FirstBoldLeftmost(Join(cells, " "), 0, i, b);
  }

  /** Without a bold span the index comes from the first cell: there is one
      exactly when some digit there is directly followed by a digit, a space
      or a parenthesis, and it starts with a digit. */
  lemma DigitIndex(cells: seq<string>)
    requires cells != []
    requires forall j, b :: 0 <= j <= |Join(cells, " ")| ==> !BoldSpanAt(Join(cells, " "), j, b)
    ensures ExtractIndex(cells).Ok?
    ensures ExtractIndex(cells).value.None? <==>
      forall j :: 0 <= j < |cells[0]| - 1 ==> !(IsDigit(cells[0][j]) && InDigitClass(cells[0][j + 1]))
    ensures ExtractIndex(cells).value.Some? ==>
      var idx := ExtractIndex(cells).value.value;
      idx != [] && IsDigit(idx[0]) && forall k :: 0 <= k < |idx| ==> InDigitClass(idx[k])
    ensures ExtractIndex(cells).value.Some? ==>
      exists j :: (0 <= j < |cells[0]| && DigitRunAt(cells[0], j).Some?
        && (forall j' :: 0 <= j' < j ==> DigitRunAt(cells[0], j').None?)
        && ExtractIndex(cells).value.value == Trim(DigitRunAt(cells[0], j).value))
  {
    var found := FirstDigitRun(cells[0], 0);
    if found.Some? {
      TrimFirst(found.value);
      FirstDigitRunFound(cells[0], 0);
    }
  }

  /** The fallback reads nothing but the first cell. */
  lemma FallbackReadsFirstCell(cells: seq<string>, other: seq<string>)
    requires cells != [] && other != [] && cells[0] == other[0]
    requires forall j, b :: 0 <= j <= |Join(cells, " ")| ==> !BoldSpanAt(Join(cells, " "), j, b)
    requires forall j, b :: 0 <= j <= |Join(other, " ")| ==> !BoldSpanAt(Join(other, " "), j, b)
    ensures ExtractIndex(cells) == ExtractIndex(other)
  {
    DigitIndex(cells);
    DigitIndex(other);
  }

  /** A lone digit is no index: the fallback needs two characters. */
  lemma LoneDigitNoIndex(d: char)
    requires IsDigit(d)
    ensures ExtractIndex([[d]]) == Ok(None)
  {
    assert Join([[d]], " ") == [d];
  }

  // ---------------------------------------------------------------- extractLocations

  /** `/^(Файл|File|Image|Категория):/i`. */
  predicate IsFileReference(name: string) {
    var l := Lower(name);
    StartsWith(l, "файл:") || StartsWith(l, "file:") || StartsWith(l, "image:") || StartsWith(l, "категория:")
  }

  /** The filter on link names: longer than one character, not a file or
      category reference, no `px` in any case. */
  predicate KeepName(name: string) {
    |name| > 1 && !IsFileReference(name) && !Contains(Lower(name), "px")
  }

  function LinkNames(links: seq<string>): seq<string> {
    seq(|links|, k requires 0 <= k < |links| => LinkName(links[k]))
  }

  /** The names of a cell's links that survive the filter, in link order. */
  function KeptNames(cell: string): seq<string> {
    Filter(LinkNames(LinksFrom(cell, 0)), KeepName)
  }

  /** The flags that differ from the city, compared in lower case, in order. */
  function Countries(flags: seq<string>, city: string): seq<string> {
    Filter(flags, f => Lower(f) != Lower(city))
  }

  /** The label of a cell: the city, prefixed by the distinct other flags
      joined with "/" and ": " when that prefix is not empty. */
  function Label(flags: seq<string>, city: string): (text: string)
    ensures EndsWith(text, city)
  {
    var prefix := Join(Distinct(Countries(flags, city)), "/");
    if prefix != "" then prefix + ": " + city else city
  }

  /** A label is `city` or `flags: city`, where the qualifiers are distinct,
      differ from the city in lower case, and keep first-seen order. */
  lemma LabelShape(flags: seq<string>, city: string)
    ensures var qs := Distinct(Countries(flags, city));
      && NoDuplicates(qs)
      && (forall q :: q in qs <==> q in flags && Lower(q) != Lower(city))
      && (forall i, j :: 0 <= i < j < |qs| ==>
            FirstIndex(Countries(flags, city), qs[i]) < FirstIndex(Countries(flags, city), qs[j]))
      && (Label(flags, city) == city || Label(flags, city) == Join(qs, "/") + ": " + city)
      && ((forall f :: f in flags ==> Lower(f) == Lower(city)) ==> Label(flags, city) == city)
  {
    DistinctUnique(Countries(flags, city));
    DistinctOrder(Countries(flags, city));
  }

  /** The label a cell contributes, if one of its links has a kept name. */
  function CellLabel(cell: string): (text: Option<string>)
    ensures text.Some? ==> |text.value| > 1
  {
    var names := KeptNames(cell);
    if names == [] then None
    else
      assert names[0] in names;
      Some(Label(FlagsFrom(cell, 0), names[0]))
  }

  /** A cell adds no label exactly when none of its link names is kept. */
  lemma CellWithoutLabel(cell: string)
    ensures CellLabel(cell).None? <==> forall n :: n in LinkNames(LinksFrom(cell, 0)) ==> !KeepName(n)
  {
  }

  /** The city of a cell is the name of its first link that survives the
      filter, not the last or the most specific one. */
  lemma CityIsFirstKeptLink(cell: string, i: nat)
    requires i < |LinksFrom(cell, 0)| && KeepName(LinkName(LinksFrom(cell, 0)[i]))
    requires forall k :: 0 <= k < i ==> !KeepName(LinkName(LinksFrom(cell, 0)[k]))
    ensures CellLabel(cell) == Some(Label(FlagsFrom(cell, 0), LinkName(LinksFrom(cell, 0)[i])))
  {
    FilterFirst(LinkNames(LinksFrom(cell, 0)), KeepName, i);
  }

  function CellLabels(cells: seq<string>): seq<Option<string>> {
    seq(|cells|, k requires 0 <= k < |cells| => CellLabel(cells[k]))
  }

  /** What `extractLocations` returns: the cell labels in cell order, without
      repeats. */
  function Locations(cells: seq<string>): (locations: seq<string>)
    ensures NoDuplicates(locations)
    ensures forall l :: l in locations <==> Some(l) in CellLabels(cells)
    ensures forall k :: 0 <= k < |locations| ==> |locations[k]| > 1
  {
    var labels := CellLabels(cells);
    assert forall l :: Some(l) in labels ==> |l| > 1 by {
      forall l | Some(l) in labels ensures |l| > 1 {
        var k :| 0 <= k < |labels| && labels[k] == Some(l);
      }
    }
    DistinctUnique(Somes(labels));
    Distinct(Somes(labels))
  }

  /** Locations keep the order in which their labels first appear. */
  lemma LocationsFirstSeenOrder(cells: seq<string>)
    ensures forall i, j :: 0 <= i < j < |Locations(cells)| ==>
      FirstIndex(Somes(CellLabels(cells)), Locations(cells)[i]) < FirstIndex(Somes(CellLabels(cells)), Locations(cells)[j])
  {
    DistinctOrder(Somes(CellLabels(cells)));
  }

  /** `extractLocations`: push each cell's label unless `out` already holds it. */
  method ExtractLocations(cells: seq<string>) returns (out: seq<string>)
    ensures out == Locations(cells)
  {
    out := [];
    ghost var labels := CellLabels(cells);
    for i := 0 to |cells|
      invariant out == Distinct(Somes(labels[..i]))
    {
      assert labels[..i + 1][..i] == labels[..i];
      var text := CellLabel(cells[i]);
      if text.Some? && text.value !in out {
        out := out + [text.value];
      }
    }
    assert labels[..|cells|] == labels;
  }

  // ---------------------------------------------------------------- parseWiki

  /** What every emitted record satisfies: its season is the block's
      trimmed heading, and it has an index and a location. */
  predicate WellFormed(e: Episode, season: string) {
    e.season == season && e.idx != [] && IsTrimmed(e.idx) && e.location != []
  }

  /** A trimmed row chunk that is skipped: blank, a header row, or one that
      holds the table's closing `|}`. */
  predicate Skipped(clean: string) {
    clean == [] || clean[0] == '!' || Contains(clean, "|}")
  }

  /** What one row chunk contributes: nothing, one episode, or the error. */
  function RowOutcome(season: string, chunk: string): Result<Option<Episode>, ParseError> {
    var clean := Trim(chunk);
    if Skipped(clean) then Ok(None)
    else
      var cells := Cells(clean);
      match ExtractIndex(cells)
      case Err(e) => Err(e)
      case Ok(None) => Ok(None)
      case Ok(Some(idx)) =>
        if idx == [] then Ok(None)
        else
          var locations := Locations(cells);
          if locations == [] then Ok(None)
          else
            Ok(Some(Episode(season, idx, Join(locations, "; "))))
  }

  /** A chunk that is blank, a header row or holds `|}` yields nothing; the
      error arises exactly when no cell is left; an emitted record has the
      block's season, a trimmed non-empty index and the distinct cell labels
      joined by "; " as its location. */
  lemma RowOutcomeShape(season: string, chunk: string)
    ensures Skipped(Trim(chunk)) ==> RowOutcome(season, chunk) == Ok(None)
    ensures RowOutcome(season, chunk).Err? <==> !Skipped(Trim(chunk)) && Cells(Trim(chunk)) == []
    ensures RowOutcome(season, chunk).Ok? && RowOutcome(season, chunk).value.Some? <==>
      && !Skipped(Trim(chunk))
      && ExtractIndex(Cells(Trim(chunk))).Ok? && ExtractIndex(Cells(Trim(chunk))).value.Some?
      && ExtractIndex(Cells(Trim(chunk))).value.value != []
      && Locations(Cells(Trim(chunk))) != []
    ensures RowOutcome(season, chunk).Ok? && RowOutcome(season, chunk).value.Some? ==>
      && WellFormed(RowOutcome(season, chunk).value.value, season)
      && RowOutcome(season, chunk).value.value.idx == ExtractIndex(Cells(Trim(chunk))).value.value
      && RowOutcome(season, chunk).value.value.location == Join(Locations(Cells(Trim(chunk))), "; ")
  {
    var cells := Cells(Trim(chunk));
    var locations := Locations(cells);
    if locations != [] {
      assert locations[0] in locations;
    }
  }

  lemma SkippedYieldsNothing(season: string, rows: seq<string>, k: nat)
    requires k < |rows| && Skipped(Trim(rows[k]))
    ensures RowOutcomes(season, rows)[k] == Ok(None)
  {
    assert RowOutcomes(season, rows)[k] == RowOutcome(season, rows[k]);
  }

  /** The body of the `forEach` over row chunks. */
  method ParseRow(season: string, chunk: string) returns (r: Result<Option<Episode>, ParseError>)
    ensures r == RowOutcome(season, chunk)
  {
    var clean := Trim(chunk);
    if clean == [] || clean[0] == '!' || Contains(clean, "|}") {
      return Ok(None);
    }
    var cells := Cells(clean);
    var idx := ExtractIndex(cells);
    if idx.Err? {
      return Err(idx.error);
    }
    if idx.value.None? || idx.value.value == [] {
      return Ok(None);
    }
    var locations := ExtractLocations(cells);
    if locations == [] {
      return Ok(None);
    }
    r := Ok(Some(Episode(season, idx.value.value, Join(locations, "; "))));
  }

  type Outcome = Result<Option<Episode>, ParseError>

  // ---- the outcomes of a document, block by block and table by table

  /** What each row chunk of a table yields, in order. */
  function RowOutcomes(season: string, rows: seq<string>): (outcomes: seq<Outcome>)
    ensures |outcomes| == |rows|
  {
    seq(|rows|, k requires 0 <= k < |rows| => RowOutcome(season, rows[k]))
  }

  /** The row outcomes of each table of a block, in order. */
  function TableOutcomes(season: string, tables: seq<string>): (groups: seq<seq<Outcome>>)
    ensures |groups| == |tables|
  {
    seq(|tables|, t requires 0 <= t < |tables| => RowOutcomes(season, Rows(tables[t])))
  }

  /** The outcomes of one season block; a block with an empty body has no
      tables to read. */
  function BlockOutcomes(section: Section): seq<seq<Outcome>> {
    if section.content == [] then [] else TableOutcomes(Trim(section.title), Tables(section.content))
  }

  function DocumentOutcomes(sections: seq<Section>): (blocks: seq<seq<seq<Outcome>>>)
    ensures |blocks| == |sections|
  {
    seq(|sections|, i requires 0 <= i < |sections| => BlockOutcomes(sections[i]))
  }

  // ---- pushing the outcomes onto the episodes found so far

  /** The row loop: push the episodes among `outcomes[k..]` onto `acc`; the
      first error ends the parse. */
  function PushOutcomes(outcomes: seq<Outcome>, k: nat, acc: seq<Episode>): Result<seq<Episode>, ParseError>
    requires k <= |outcomes|
    decreases |outcomes| - k
  {
    if k == |outcomes| then Ok(acc)
    else match outcomes[k]
      case Err(e) => Err(e)
      case Ok(None) => PushOutcomes(outcomes, k + 1, acc)
      case Ok(Some(ep)) => PushOutcomes(outcomes, k + 1, acc + [ep])
  }

  /** The table loop of one block. */
  function PushTables(groups: seq<seq<Outcome>>, t: nat, acc: seq<Episode>): Result<seq<Episode>, ParseError>
    requires t <= |groups|
    decreases |groups| - t
  {
    if t == |groups| then Ok(acc)
    else match PushOutcomes(groups[t], 0, acc)
      case Err(e) => Err(e)
      case Ok(next) => PushTables(groups, t + 1, next)
  }

  /** The loop over the season blocks. */
  function PushBlocks(blocks: seq<seq<seq<Outcome>>>, i: nat, acc: seq<Episode>): Result<seq<Episode>, ParseError>
    requires i <= |blocks|
    decreases |blocks| - i
  {
    if i == |blocks| then Ok(acc)
    else match PushTables(blocks[i], 0, acc)
      case Err(e) => Err(e)
      case Ok(next) => PushBlocks(blocks, i + 1, next)
  }

  /** What `parseWiki` returns or throws for a document: only the blocks
      that follow a heading are read, never the text before the first one. */
  function Parse(text: string): Result<seq<Episode>, ParseError> {
    PushBlocks(DocumentOutcomes(SplitHeadings(text).sections), 0, [])
  }

  // ---- what the pushed episodes satisfy

  /** An outcome that carries an episode carries a well-formed one. */
  predicate Sound(outcome: Outcome, season: string) {
    outcome.Ok? && outcome.value.Some? ==> WellFormed(outcome.value.value, season)
  }

  /** Pushing keeps the episodes found before in front, adds at most one
      episode per outcome, and adds only well-formed episodes. */
  lemma {:induction false} PushOutcomesAppends(outcomes: seq<Outcome>, k: nat, acc: seq<Episode>, season: string)
    requires k <= |outcomes|
    requires forall j :: 0 <= j < |outcomes| ==> Sound(outcomes[j], season)
    ensures PushOutcomes(outcomes, k, acc).Ok? ==>
      var out := PushOutcomes(outcomes, k, acc).value;
      && |acc| <= |out| <= |acc| + (|outcomes| - k)
      && out[..|acc|] == acc
      && forall j :: |acc| <= j < |out| ==> WellFormed(out[j], season)
    decreases |outcomes| - k
  {
    if k < |outcomes| {
      match outcomes[k]
      case Err(_) =>
      case Ok(None) =>
        PushOutcomesAppends(outcomes, k + 1, acc, season);
      case Ok(Some(ep)) =>
        var more := acc + [ep];
        assert Sound(outcomes[k], season);
        PushOutcomesAppends(outcomes, k + 1, more, season);
        if PushOutcomes(outcomes, k, acc).Ok? {
          var out := PushOutcomes(outcomes, k, acc).value;
          assert out[..|more|][..|acc|] == out[..|acc|];
          assert out[|acc|] == more[|acc|];
        }
    }
  }

  lemma {:induction false} PushTablesAppends(groups: seq<seq<Outcome>>, t: nat, acc: seq<Episode>, season: string)
    requires t <= |groups|
    requires forall u, j :: 0 <= u < |groups| && 0 <= j < |groups[u]| ==> Sound(groups[u][j], season)
    ensures PushTables(groups, t, acc).Ok? ==>
      var out := PushTables(groups, t, acc).value;
      && |acc| <= |out| && out[..|acc|] == acc
      && forall j :: |acc| <= j < |out| ==> WellFormed(out[j], season)
    decreases |groups| - t
  {
    if t < |groups| {
      PushOutcomesAppends(groups[t], 0, acc, season);
      var step := PushOutcomes(groups[t], 0, acc);
      if step.Ok? {
        var next := step.value;
        PushTablesAppends(groups, t + 1, next, season);
        if PushTables(groups, t, acc).Ok? {
          var out := PushTables(groups, t, acc).value;
          assert out[..|next|][..|acc|] == out[..|acc|];
          forall j | |acc| <= j < |out| ensures WellFormed(out[j], season) {
            if j < |next| {
              assert out[j] == out[..|next|][j];
            }
          }
        }
      }
    }
  }

  /** Every episode pushed by the blocks from `i` on is well formed and
      carries the season of one of those blocks. */
  lemma {:induction false} PushBlocksAppends(blocks: seq<seq<seq<Outcome>>>, i: nat, acc: seq<Episode>, seasons: seq<string>)
    requires i <= |blocks| == |seasons|
    requires forall m, u, j :: 0 <= m < |blocks| && 0 <= u < |blocks[m]| && 0 <= j < |blocks[m][u]| ==>
      Sound(blocks[m][u][j], seasons[m])
    ensures PushBlocks(blocks, i, acc).Ok? ==>
      var out := PushBlocks(blocks, i, acc).value;
      && |acc| <= |out| && out[..|acc|] == acc
      && forall j :: |acc| <= j < |out| ==> exists m :: i <= m < |blocks| && WellFormed(out[j], seasons[m])
    decreases |blocks| - i
  {
    if i < |blocks| {
      PushTablesAppends(blocks[i], 0, acc, seasons[i]);
      var step := PushTables(blocks[i], 0, acc);
      if step.Ok? {
        var next := step.value;
        PushBlocksAppends(blocks, i + 1, next, seasons);
        if PushBlocks(blocks, i, acc).Ok? {
          var out := PushBlocks(blocks, i, acc).value;
          assert out[..|next|][..|acc|] == out[..|acc|];
          forall j | |acc| <= j < |out|
            ensures exists m :: i <= m < |blocks| && WellFormed(out[j], seasons[m])
          {
            if j < |next| {
              assert out[j] == out[..|next|][j];
              assert WellFormed(out[j], seasons[i]);
            }
          }
        }
      }
    }
  }

  /** Every outcome of a document carries a well-formed episode of its own block. */
  lemma DocumentOutcomesSound(sections: seq<Section>)
    ensures var blocks := DocumentOutcomes(sections);
      forall m, u, j :: 0 <= m < |blocks| && 0 <= u < |blocks[m]| && 0 <= j < |blocks[m][u]| ==>
        Sound(blocks[m][u][j], Trim(sections[m].title))
  {
    var blocks := DocumentOutcomes(sections);
    forall m, u, j | 0 <= m < |blocks| && 0 <= u < |blocks[m]| && 0 <= j < |blocks[m][u]|
      ensures Sound(blocks[m][u][j], Trim(sections[m].title))
    {
      var section := sections[m];
      var season := Trim(section.title);
      var rows := Rows(Tables(section.content)[u]);
      RowOutcomeShape(season, rows[j]);
    }
  }

  /** Pushing the blocks of a document yields only records with an index
      and a location whose season is the trimmed heading of a block. */
  lemma BlocksWellFormed(sections: seq<Section>)
    ensures var r := PushBlocks(DocumentOutcomes(sections), 0, []);
      r.Ok? ==> forall e :: e in r.value ==>
        && e.idx != [] && IsTrimmed(e.idx) && e.location != []
        && exists m :: 0 <= m < |sections| && e.season == Trim(sections[m].title)
  {
    var seasons := seq(|sections|, m requires 0 <= m < |sections| => Trim(sections[m].title));
    DocumentOutcomesSound(sections);
    PushBlocksAppends(DocumentOutcomes(sections), 0, [], seasons);
    var r := PushBlocks(DocumentOutcomes(sections), 0, []);
    if r.Ok? {
      forall e | e in r.value
        ensures && e.idx != [] && IsTrimmed(e.idx) && e.location != []
                && exists m :: 0 <= m < |sections| && e.season == Trim(sections[m].title)
      {
        EpisodeOfBlock(r.value, seasons, sections, e);
      }
    }
  }

  lemma EpisodeOfBlock(out: seq<Episode>, seasons: seq<string>, sections: seq<Section>, e: Episode)
    requires |seasons| == |sections| && e in out
    requires forall m :: 0 <= m < |sections| ==> seasons[m] == Trim(sections[m].title)
    requires forall j :: 0 <= j < |out| ==> exists m :: 0 <= m < |seasons| && WellFormed(out[j], seasons[m])
    ensures && e.idx != [] && IsTrimmed(e.idx) && e.location != []
            && exists m :: 0 <= m < |sections| && e.season == Trim(sections[m].title)
  {
    var j :| 0 <= j < |out| && out[j] == e;
    var m :| 0 <= m < |seasons| && WellFormed(out[j], seasons[m]);
  }

  /** Every record `parseWiki` returns has an index and a location, and its
      season is the trimmed heading of one of the document's blocks. */
  lemma ParseWellFormed(text: string)
    ensures Parse(text).Ok? ==>
      forall e :: e in Parse(text).value ==>
        && e.idx != [] && IsTrimmed(e.idx) && e.location != []
        && exists m :: 0 <= m < |SplitHeadings(text).sections| && e.season == Trim(SplitHeadings(text).sections[m].title)
  {
    BlocksWellFormed(SplitHeadings(text).sections);
  }

  // ---- which records come out, and in which order

  /** The record an outcome carries, if any. */
  function Carried(outcome: Outcome): Option<Episode> {
    if outcome.Ok? then outcome.value else None
  }

  /** The records a run of outcomes carries, in order. */
  function Records(outcomes: seq<Outcome>): seq<Episode> {
    Somes(seq(|outcomes|, k requires 0 <= k < |outcomes| => Carried(outcomes[k])))
  }

  /** No outcome of the run is the error. */
  predicate AllOk(outcomes: seq<Outcome>) {
    forall k :: 0 <= k < |outcomes| ==> outcomes[k].Ok?
  }

  lemma RecordsAppend(a: seq<Outcome>, b: seq<Outcome>)
    ensures Records(a + b) == Records(a) + Records(b)
  {
    var ca := seq(|a|, k requires 0 <= k < |a| => Carried(a[k]));
    var cb := seq(|b|, k requires 0 <= k < |b| => Carried(b[k]));
    assert seq(|a + b|, k requires 0 <= k < |a + b| => Carried((a + b)[k])) == ca + cb;
    SomesAppend(ca, cb);
  }

  lemma RecordsSingle(o: Outcome)
    ensures Records([o]) == if Carried(o).Some? then [Carried(o).value] else []
  {
    assert seq(1, k requires 0 <= k < 1 => Carried([o][k])) == [Carried(o)];
    SomesSingle(Carried(o));
  }

  lemma AllOkAppend(a: seq<Outcome>, b: seq<Outcome>)
    ensures AllOk(a + b) <==> AllOk(a) && AllOk(b)
  {
    if AllOk(a) && AllOk(b) {
      forall k | 0 <= k < |a + b| ensures (a + b)[k].Ok? {
        if k >= |a| {
          assert (a + b)[k] == b[k - |a|];
        }
      }
    }
    if AllOk(a + b) {
      forall k | 0 <= k < |a| ensures a[k].Ok? {
        assert (a + b)[k] == a[k];
      }
      forall k | 0 <= k < |b| ensures b[k].Ok? {
        assert (a + b)[|a| + k] == b[k];
      }
    }
  }

  /** The row loop pushes exactly the records of the outcomes, in order,
      unless one of them is the error, which ends the parse. */
  lemma {:induction false} PushOutcomesRecords(outcomes: seq<Outcome>, k: nat, acc: seq<Episode>)
    requires k <= |outcomes|
    ensures PushOutcomes(outcomes, k, acc) ==
      if AllOk(outcomes[k..]) then Ok(acc + Records(outcomes[k..])) else Err(FirstCellUndefined)
    decreases |outcomes| - k
  {
    var rest := outcomes[k..];
    if k == |outcomes| {
      assert rest == [];
      assert Records(rest) == [];
      assert acc + Records(rest) == acc;
    } else {
      var o := outcomes[k];
      assert rest == [o] + outcomes[k + 1..];
      AllOkAppend([o], outcomes[k + 1..]);
      RecordsAppend([o], outcomes[k + 1..]);
      RecordsSingle(o);
      match o
      case Err(e) =>
        assert e == FirstCellUndefined;
        assert !AllOk(rest);
      case Ok(None) =>
        PushOutcomesRecords(outcomes, k + 1, acc);
        assert Records(rest) == Records(outcomes[k + 1..]);
      case Ok(Some(ep)) =>
        PushOutcomesRecords(outcomes, k + 1, acc + [ep]);
        assert acc + [ep] + Records(outcomes[k + 1..]) == acc + Records(rest);
    }
  }

  /** The table loop pushes exactly the records of all its tables' outcomes,
      table after table. */
  lemma {:induction false} PushTablesRecords(groups: seq<seq<Outcome>>, t: nat, acc: seq<Episode>)
    requires t <= |groups|
    ensures PushTables(groups, t, acc) ==
      if AllOk(Concat(groups[t..])) then Ok(acc + Records(Concat(groups[t..]))) else Err(FirstCellUndefined)
    decreases |groups| - t
  {
    var rest := groups[t..];
    if t == |groups| {
      assert rest == [];
      assert Records(Concat(rest)) == [];
      assert acc + Records(Concat(rest)) == acc;
    } else {
      assert rest[1..] == groups[t + 1..];
      assert Concat(rest) == groups[t] + Concat(groups[t + 1..]);
      assert groups[t][0..] == groups[t];
      PushOutcomesRecords(groups[t], 0, acc);
      AllOkAppend(groups[t], Concat(groups[t + 1..]));
      RecordsAppend(groups[t], Concat(groups[t + 1..]));
      if AllOk(groups[t]) {
        var next := acc + Records(groups[t]);
        assert PushOutcomes(groups[t], 0, acc) == Ok(next);
        PushTablesRecords(groups, t + 1, next);
        assert next + Records(Concat(groups[t + 1..])) == acc + Records(Concat(rest));
      } else {
        assert PushOutcomes(groups[t], 0, acc) == Err(FirstCellUndefined);
      }
    }
  }

  /** Every row outcome of the blocks, block after block. */
  function Flatten(blocks: seq<seq<seq<Outcome>>>): seq<Outcome>
    decreases |blocks|
  {
    if blocks == [] then [] else Concat(blocks[0]) + Flatten(blocks[1..])
  }

  /** The block loop pushes exactly the records of every row outcome of the
      blocks, in document order. */
  lemma {:induction false} PushBlocksRecords(blocks: seq<seq<seq<Outcome>>>, i: nat, acc: seq<Episode>)
    requires i <= |blocks|
    ensures PushBlocks(blocks, i, acc) ==
      if AllOk(Flatten(blocks[i..])) then Ok(acc + Records(Flatten(blocks[i..]))) else Err(FirstCellUndefined)
    decreases |blocks| - i
  {
    var rest := blocks[i..];
    if i == |blocks| {
      assert rest == [];
      assert Records(Flatten(rest)) == [];
      assert acc + Records(Flatten(rest)) == acc;
    } else {
      assert rest[1..] == blocks[i + 1..];
      assert Flatten(rest) == Concat(blocks[i]) + Flatten(blocks[i + 1..]);
      PushTablesRecords(blocks[i], 0, acc);
      assert blocks[i][0..] == blocks[i];
      AllOkAppend(Concat(blocks[i]), Flatten(blocks[i + 1..]));
      RecordsAppend(Concat(blocks[i]), Flatten(blocks[i + 1..]));
      if AllOk(Concat(blocks[i])) {
        var next := acc + Records(Concat(blocks[i]));
        assert PushTables(blocks[i], 0, acc) == Ok(next);
        PushBlocksRecords(blocks, i + 1, next);
        assert next + Records(Flatten(blocks[i + 1..])) == acc + Records(Flatten(rest));
      } else {
        assert PushTables(blocks[i], 0, acc) == Err(FirstCellUndefined);
      }
    }
  }

  /** The records of one season block, table after table, row after row. */
  function BlockRecords(section: Section): seq<Episode> {
    Records(Concat(BlockOutcomes(section)))
  }

  /** The records of the blocks, block after block. */
  function DocumentRecords(sections: seq<Section>): seq<Episode>
    decreases |sections|
  {
    if sections == [] then [] else BlockRecords(sections[0]) + DocumentRecords(sections[1..])
  }

  lemma {:induction false} FlattenRecords(sections: seq<Section>)
    ensures Records(Flatten(DocumentOutcomes(sections))) == DocumentRecords(sections)
    decreases |sections|
  {
    var blocks := DocumentOutcomes(sections);
    if sections == [] {
      assert Records([]) == [];
    } else {
      assert blocks[1..] == DocumentOutcomes(sections[1..]);
      FlattenRecords(sections[1..]);
      RecordsAppend(Concat(blocks[0]), Flatten(blocks[1..]));
    }
  }

  /** Every record of a block carries that block's own season, the trimmed
      heading, and has an index and a location. */
  lemma BlockRecordsSeason(section: Section)
    ensures forall e :: e in BlockRecords(section) ==> WellFormed(e, Trim(section.title))
  {
    var outcomes := Concat(BlockOutcomes(section));
    var carried := seq(|outcomes|, k requires 0 <= k < |outcomes| => Carried(outcomes[k]));
    forall e | e in BlockRecords(section) ensures WellFormed(e, Trim(section.title)) {
      assert Some(e) in carried;
      var k :| 0 <= k < |carried| && carried[k] == Some(e);
      ConcatSound(BlockOutcomes(section), Trim(section.title), section);
      assert Sound(outcomes[k], Trim(section.title));
    }
  }

  /** The outcomes of a block, run together, are each sound for its season. */
  lemma ConcatSound(groups: seq<seq<Outcome>>, season: string, section: Section)
    requires groups == BlockOutcomes(section) && season == Trim(section.title)
    ensures forall k :: 0 <= k < |Concat(groups)| ==> Sound(Concat(groups)[k], season)
  {
    DocumentOutcomesSound([section]);
    assert DocumentOutcomes([section])[0] == groups;
    ConcatAll(groups, season);
  }

  lemma {:induction false} ConcatAll(groups: seq<seq<Outcome>>, season: string)
    requires forall u, j :: 0 <= u < |groups| && 0 <= j < |groups[u]| ==> Sound(groups[u][j], season)
    ensures forall k :: 0 <= k < |Concat(groups)| ==> Sound(Concat(groups)[k], season)
    decreases |groups|
  {
    if groups != [] {
      ConcatAll(groups[1..], season);
      var all := Concat(groups);
      forall k | 0 <= k < |all| ensures Sound(all[k], season) {
        if k >= |groups[0]| {
          assert all[k] == Concat(groups[1..])[k - |groups[0]|];
        } else {
          assert all[k] == groups[0][k];
        }
      }
    }
  }

  /** What `parseWiki` returns: the error when some row chunk of some block
      has no cell left; otherwise the records of the blocks after the
      headings, block after block in document order, each with its own
      block's season. */
  lemma ParseRecords(text: string)
    ensures var sections := SplitHeadings(text).sections;
      Parse(text) == if AllOk(Flatten(DocumentOutcomes(sections))) then Ok(DocumentRecords(sections)) else Err(FirstCellUndefined)
  {
    var sections := SplitHeadings(text).sections;
    var blocks := DocumentOutcomes(sections);
    assert Parse(text) == PushBlocks(blocks, 0, []);
    assert blocks[0..] == blocks;
    PushBlocksRecords(blocks, 0, []);
    FlattenRecords(sections);
    assert [] + DocumentRecords(sections) == DocumentRecords(sections);
  }

  /** A heading whose body is empty contributes nothing. */
  lemma EmptyBodySkipped(section: Section, acc: seq<Episode>)
    requires section.content == []
    ensures PushTables(BlockOutcomes(section), 0, acc) == Ok(acc)
  {
  }

  /** A document without a `=== … ===` heading yields no episodes. */
  lemma NoHeadingNoEpisodes(text: string)
    requires forall j :: 0 <= j < |text| ==> HeadingAt(text, j).None?
    ensures Parse(text) == Ok([])
  {
    NoHeadingNoSections(text);
  }

  /** The last row chunk of every table holds the closing `|}`, so it is
      skipped, even when it carries a data row. */
  lemma LastChunkSkipped(table: string)
    requires IsTableBlock(table)
    ensures Skipped(Trim(Rows(table)[|Rows(table)| - 1]))
  {
    var rows := Rows(table);
    var last := rows[|rows| - 1];
    LastRowCloses(table);
    TrimKeepsSuffix(last, "|}");
    EndsWithContains(Trim(last), "|}");
  }

  /** So the last row chunk of a table never yields an episode. */
  lemma LastRowDropped(season: string, table: string)
    requires IsTableBlock(table)
    ensures RowOutcomes(season, Rows(table))[|Rows(table)| - 1] == Ok(None)
  {
    var rows := Rows(table);
    assert Skipped(Trim(rows[|rows| - 1])) by {
      LastChunkSkipped(table);
    }
    LastOutcomeNone(season, rows);
  }

  /** A list of row chunks whose last one is skipped ends in nothing. */
  lemma LastOutcomeNone(season: string, rows: seq<string>)
    requires rows != [] && Skipped(Trim(rows[|rows| - 1]))
    ensures RowOutcomes(season, rows)[|rows| - 1] == Ok(None)
  {
    SkippedYieldsNothing(season, rows, |rows| - 1);
  }

  // ---- the loops

  /** The row `forEach` of one table, pushing onto the episodes found so far;
      a thrown error leaves `parseWiki`. */
  method ParseTable(season: string, table: string, episodes: seq<Episode>)
    returns (r: Result<seq<Episode>, ParseError>)
    ensures r == PushOutcomes(RowOutcomes(season, Rows(table)), 0, episodes)
  {
    var rows := Rows(table);
    ghost var outcomes := RowOutcomes(season, rows);
    var out := episodes;
    for k := 0 to |rows|
      invariant PushOutcomes(outcomes, 0, episodes) == PushOutcomes(outcomes, k, out)
    {
      var outcome := ParseRow(season, rows[k]);
      if outcome.Err? {
        return Err(outcome.error);
      }
      if outcome.value.Some? {
        out := out + [outcome.value.value];
      }
    }
    r := Ok(out);
  }

  /** One season block: the tables of its body in order. */
  method ParseSection(section: Section, episodes: seq<Episode>)
    returns (r: Result<seq<Episode>, ParseError>)
    ensures r == PushTables(BlockOutcomes(section), 0, episodes)
  {
    var season := Trim(section.title);
    var content := section.content;
    if content == [] {
      return Ok(episodes);
    }
    var tables := Tables(content);
    ghost var groups := TableOutcomes(season, tables);
    var out := episodes;
    for t := 0 to |tables|
      invariant PushTables(groups, 0, episodes) == PushTables(groups, t, out)
    {
      var next := ParseTable(season, tables[t], out);
      assert groups[t] == RowOutcomes(season, Rows(tables[t]));
      PushTablesNext(groups, t, out, next);
      if next.Err? {
        return next;
      }
      out := next.value;
    }
    assert groups == BlockOutcomes(section);
    r := Ok(out);
  }

  /** One step of the table loop: an error ends it, else it goes on from
      what the table pushed. */
  lemma PushTablesNext(groups: seq<seq<Outcome>>, t: nat, acc: seq<Episode>, next: Result<seq<Episode>, ParseError>)
    requires t < |groups| && next == PushOutcomes(groups[t], 0, acc)
    ensures next.Err? ==> PushTables(groups, t, acc) == next
    ensures next.Ok? ==> PushTables(groups, t, acc) == PushTables(groups, t + 1, next.value)
  {
  }

  /** The loop over the season blocks, all pushing onto one list. */
  method ParseSections(sections: seq<Section>) returns (r: Result<seq<Episode>, ParseError>)
    ensures r == PushBlocks(DocumentOutcomes(sections), 0, [])
  {
    ghost var blocks := DocumentOutcomes(sections);
    var episodes: seq<Episode> := [];
    for i := 0 to |sections|
      invariant PushBlocks(blocks, 0, []) == PushBlocks(blocks, i, episodes)
    {
      var next := ParseSection(sections[i], episodes);
      assert next == PushTables(blocks[i], 0, episodes);
      if next.Err? {
        return next;
      }
      episodes := next.value;
    }
    r := Ok(episodes);
  }

  /** `parseWiki`: the season blocks of the document, read in order. */
  method ParseWiki(text: string) returns (r: Result<seq<Episode>, ParseError>)
    ensures r == Parse(text)
  {
    r := ParseSections(SplitHeadings(text).sections);
  }
}

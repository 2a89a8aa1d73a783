/**
  Filling a table with book texts: `book_text` and `fetch_text_data`.

  `book_text(id)` downloads a book and strips its boilerplate. `fetch_text_data`
  works on a table (a pandas DataFrame) in place: when a `text_data` column is
  already there it asks before overwriting it and gives up on anything but a
  `y`; otherwise it adds an empty `text_data` column. Then it replaces the
  `text_data` column by the book text of each row's `text_id`.
 */
module Enrich {
  import opened Text
  import Fetch
  import Boilerplate

  /** What `book_text(id)` returns against `server`. */
  function BookText(id: string, server: Fetch.Server): string
  {
    Boilerplate.Cleaned(Fetch.Download(id, server))
  }

  /** `book_text(id)`: download, then strip the boilerplate. The download
      silences the logger and puts its effective level back. */
  method BookTextOf(id: string, server: Fetch.Server, logger: Fetch.Logger) returns (text: string)
    modifies logger
    ensures text == BookText(id, server)
    ensures logger.level == old(logger.EffectiveLevel())
    ensures logger.EffectiveLevel() == old(logger.EffectiveLevel())
  {
    var raw, _, _ := Fetch.DownloadGutenberg(id, server, logger);
    text := Boilerplate.StripHeaders(raw);
  }

  /** A book that cannot be fetched from any location leaves the sentinel in its
      row: the boilerplate pass finds no marker in it and leaves it whole. */
  lemma UnreachableBookGivesSentinel(id: string, server: Fetch.Server)
    requires forall j :: 0 <= j < |Fetch.Candidates(id)| ==> !Fetch.Usable(server.Get(Fetch.Candidates(id)[j]))
    ensures BookText(id, server) == Fetch.Sentinel
  {
    Fetch.AllSkipped(id, server);
    SentinelSurvivesCleaning();
  }

  /** The sentinel holds none of the markers and no surrounding whitespace, so
      stripping the boilerplate returns it unchanged. */
  lemma SentinelSurvivesCleaning()
    ensures Boilerplate.Cleaned(Fetch.Sentinel) == Fetch.Sentinel
  {
    hide Boilerplate.Search, Boilerplate.Cleaned, Boilerplate.AfterHeader, Boilerplate.BeforeFooter;
    var t := Fetch.Sentinel;
    NoHeaderInSentinel();
    NoFooterInSentinel();
    Boilerplate.NoMarkersOnlyStrips(t);
    assert LeadingSpace(t) == 0;
    assert TrailingSpace(t[0..]) == 0 by { assert t[0..] == t; }
    assert t[0..|t|] == t;
  }

  /** No header marker is found in the sentinel: the first and third are
      longer than it, and the second, `Project Gutenberg's `, would have to
      start within its first four characters, none of which is a `p`. */
  lemma NoHeaderInSentinel()
    ensures forall j :: 0 <= j < |Boilerplate.HeaderPatterns| ==>
              Boilerplate.Search(Boilerplate.HeaderPatterns[j], Fetch.Sentinel).None?
  {
    hide Boilerplate.Search;
    var t := Fetch.Sentinel;
    var hs := Boilerplate.HeaderPatterns;
    Boilerplate.MarkerAbsent(hs[0], t);
    ProjectGutenbergNotInSentinel(Boilerplate.FirstWord(hs[1]));
    Boilerplate.MarkerAbsent(hs[1], t);
    Boilerplate.MarkerAbsent(hs[2], t);
  }

  /** A word starting with `p`, and at most as long as the sentinel, occurs
      nowhere in it. */
  lemma ProjectGutenbergNotInSentinel(w: string)
    requires w == "Project Gutenberg's "
    ensures forall s :: 0 <= s <= |Fetch.Sentinel| ==> !Boilerplate.WordAt(w, Fetch.Sentinel, s)
  {
    var t := Fetch.Sentinel;
    forall s | 0 <= s <= |t| ensures !Boilerplate.WordAt(w, t, s) {
      if s <= |t| - |w| {
        assert t[s..][0] == t[s];
        assert s == 0 || s == 1 || s == 2 || s == 3;
        assert Fold(w[0]) != Fold(t[s]);
      }
    }
  }

  /** No footer marker is found in the sentinel: all three are longer than it. */
  lemma NoFooterInSentinel()
    ensures forall j :: 0 <= j < |Boilerplate.FooterPatterns| ==>
              Boilerplate.Search(Boilerplate.FooterPatterns[j], Fetch.Sentinel).None?
  {
    hide Boilerplate.Search;
    var t := Fetch.Sentinel;
    var fs := Boilerplate.FooterPatterns;
    Boilerplate.MarkerAbsent(fs[0], t);
    Boilerplate.MarkerAbsent(fs[1], t);
    Boilerplate.MarkerAbsent(fs[2], t);
  }

  /** A table cell: missing (`pd.NA`) or a value, held as its `str()` rendering. */
  datatype Cell = Missing | Value(text: string)

  /** The id `book_text` receives for a `text_id` cell, as its URLs render it. */
  function IdText(c: Cell): string
  {
    match c
    case Missing => "<NA>"
    case Value(s) => s
  }

  /** The `text_data` column `progress_apply` builds: the book text of each row's id. */
  function BookTexts(ids: seq<Cell>, server: Fetch.Server): (col: seq<Cell>)
    ensures |col| == |ids|
  {
    if ids == [] then []
    else BookTexts(ids[..|ids| - 1], server) + [Value(BookText(IdText(ids[|ids| - 1]), server))]
  }

  /** Row `k` of the built column holds the book text of row `k`'s id. */
  lemma {:induction false} BookTextsPerRow(ids: seq<Cell>, server: Fetch.Server, k: nat)
    requires k < |ids|
    ensures BookTexts(ids, server)[k] == Value(BookText(IdText(ids[k]), server))
  {
    hide BookText;
    if k < |ids| - 1 {
      BookTextsPerRow(ids[..|ids| - 1], server, k);
    }
  }

  /** A row whose book cannot be fetched holds the sentinel; the other rows are
      unaffected, since each row's cell depends on its own id only. */
  lemma RowFailureGivesSentinel(ids: seq<Cell>, server: Fetch.Server, k: nat)
    requires k < |ids|
    requires forall j :: 0 <= j < |Fetch.Candidates(IdText(ids[k]))| ==>
               !Fetch.Usable(server.Get(Fetch.Candidates(IdText(ids[k]))[j]))
    ensures BookTexts(ids, server)[k] == Value(Fetch.Sentinel)
  {
    BookTextsPerRow(ids, server, k);
    UnreachableBookGivesSentinel(IdText(ids[k]), server);
  }

  /** One more row extends the column by that row's book text. */
  lemma BookTextsSnoc(ids: seq<Cell>, i: nat, server: Fetch.Server)
    requires i < |ids|
    ensures BookTexts(ids[..i + 1], server) == BookTexts(ids[..i], server) + [Value(BookText(IdText(ids[i]), server))]
  {
    hide BookText;
    assert ids[..i + 1][..i] == ids[..i];
  }

  /** `df['text_id'].progress_apply(fetch_and_clean_text)`: the book text of
      every id, fetched in row order. Each download puts the logger's effective
      level back, and after the first its own level is set explicitly. */
  method FillColumn(ids: seq<Cell>, server: Fetch.Server, logger: Fetch.Logger) returns (col: seq<Cell>)
    modifies logger
    ensures col == BookTexts(ids, server)
    ensures |ids| > 0 ==> logger.level == old(logger.EffectiveLevel())
    ensures |ids| == 0 ==> logger.level == old(logger.level)
    ensures logger.EffectiveLevel() == old(logger.EffectiveLevel())
  {
    hide BookText;
    col := [];
    var i := 0;
    while i < |ids|
      invariant 0 <= i <= |ids|
      invariant col == BookTexts(ids[..i], server)
      invariant logger.EffectiveLevel() == old(logger.EffectiveLevel())
      invariant i > 0 ==> logger.level == old(logger.EffectiveLevel())
      invariant i == 0 ==> logger.level == old(logger.level)
    {
      var text := BookTextOf(IdText(ids[i]), server, logger);
      BookTextsSnoc(ids, i, server);
      col := col + [Value(text)];
      i := i + 1;
    }
    assert ids[..i] == ids;
  }

  /** `input(...).strip().lower() == 'y'`: the answer that allows an overwrite. */
  predicate Confirms(answer: string)
  {
    var s := Strip(answer);
    |s| == 1 && Fold(s[0]) == 'y'
  }

  /** Exactly a `y` or a `Y`, with any whitespace around it, confirms. */
  lemma ConfirmsExactly(answer: string)
    ensures Confirms(answer) <==> Strip(answer) == "y" || Strip(answer) == "Y"
  {
    var s := Strip(answer);
    if |s| == 1 && Fold(s[0]) == 'y' {
      assert s == [s[0]];
    }
  }

  /** ` y ` with a newline, and a bare `Y`, confirm. */
  lemma ConfirmsExamples()
    ensures Confirms(" y\n") && Confirms("Y")
  {
    hide Strip;
    assert Strip(" y\n") == "y" by {
      StripSurrounded(" ", "y", "\n");
      assert " " + "y" + "\n" == " y\n";
    }
    assert Strip("Y") == "Y" by {
      StripSurrounded([], "Y", []);
      assert [] + "Y" + [] == "Y";
    }
  }

  /** `yes`, `n` and an empty answer do not confirm. */
  lemma RefusesExamples()
    ensures !Confirms("yes") && !Confirms("n") && !Confirms("")
  {
    hide Strip;
    assert Strip("yes") == "yes" by {
      StripSurrounded([], "yes", []);
      assert [] + "yes" + [] == "yes";
    }
    assert Strip("n") == "n" by {
      StripSurrounded([], "n", []);
      assert [] + "n" + [] == "n";
    }
    StripTrims("");
  }

  /** How `fetch_text_data` ends: the user declined the overwrite; the column
      was filled; or the table has no `text_id` column (a `KeyError`). */
  datatype Outcome = Aborted | Filled | MissingIds

  /** The table as it stands before the rows are fetched: an empty `text_data`
      column is added when there is none. */
  function Prepared(columns: map<string, seq<Cell>>, rows: nat): map<string, seq<Cell>>
  {
    if "text_data" in columns then columns else columns["text_data" := seq(rows, _ => Missing)]
  }

  /** A DataFrame: named columns of one common length. */
  class Frame {
    var columns: map<string, seq<Cell>>
    const rows: nat

    ghost predicate Valid()
      reads this
    {
      forall c :: c in columns ==> |columns[c]| == rows
    }

    constructor (columns: map<string, seq<Cell>>, rows: nat)
      requires forall c :: c in columns ==> |columns[c]| == rows
      ensures this.columns == columns && this.rows == rows
      ensures Valid()
    {
      this.columns := columns;
      this.rows := rows;
    }

    /** `fetch_text_data(df)` with `answer` the reply typed at the overwrite
        prompt (read only when the column exists). */
    method FetchTextData(answer: string, server: Fetch.Server, logger: Fetch.Logger)
      returns (outcome: Outcome)
      requires Valid()
      modifies this, logger
      ensures Valid()
      ensures "text_data" in old(columns) && !Confirms(answer) ==>
                outcome == Aborted && columns == old(columns) && logger.level == old(logger.level)
      ensures ("text_data" !in old(columns) || Confirms(answer)) && "text_id" !in old(columns) ==>
                outcome == MissingIds && columns == Prepared(old(columns), rows)
                && logger.level == old(logger.level)
      ensures ("text_data" !in old(columns) || Confirms(answer)) && "text_id" in old(columns) ==>
                && outcome == Filled
                && columns == old(columns)["text_data" := BookTexts(old(columns)["text_id"], server)]
                && (rows > 0 ==> logger.level == old(logger.EffectiveLevel()))
                && (rows == 0 ==> logger.level == old(logger.level))
      ensures logger.EffectiveLevel() == old(logger.EffectiveLevel())
    {
      hide BookText;
      if "text_data" in columns {
        if !Confirms(answer) {
          // "Operation aborted. No changes were made."
          return Aborted;
        }
      } else {
        columns := columns["text_data" := seq(rows, _ => Missing)];
      }
      if "text_id" !in columns {
        return MissingIds;
      }
      var col := FillColumn(columns["text_id"], server, logger);
      columns := columns["text_data" := col];
      outcome := Filled;
    }
  }

  /** Filling keeps the table's shape: the same columns plus `text_data`, each
      other column as it was, and in every row the book text of that row's id. */
  lemma FilledColumnPerRow(columns: map<string, seq<Cell>>, server: Fetch.Server, k: nat)
    requires "text_id" in columns && k < |columns["text_id"]|
    ensures var filled := columns["text_data" := BookTexts(columns["text_id"], server)];
            && filled.Keys == columns.Keys + {"text_data"}
            && (forall c :: c in columns && c != "text_data" ==> filled[c] == columns[c])
            && |filled["text_data"]| == |columns["text_id"]|
            && filled["text_data"][k] == Value(BookText(IdText(columns["text_id"][k]), server))
  {
    hide BookText;
    BookTextsPerRow(columns["text_id"], server, k);
  }
}

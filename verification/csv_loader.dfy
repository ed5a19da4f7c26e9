/** The start-up import of the movie list (both `LoaderCSVToDatabase`
    classes, which differ only in where the file comes from and what they
    log): skip the header line, turn every well-formed line into a movie
    row, and save the rows in line order, unless the table already holds
    movies. */
module CsvLoader {
  import opened Wrappers
  import opened Seqs
  import opened JavaText
  import opened Domain

  /** The field separator. */
  const Delimiter: char := ';'

  /** Fewer fields than this and the line is dropped. */
  const FieldCount: nat := 5

  /** The row rule on the fields of one line: at least five fields and a
      first field that `Integer.parseInt` accepts give a row, anything else
      gives none. */
  function ParseFields(fields: seq<string>): (r: Option<MovieEntity>)
    ensures r.Some? <==> |fields| >= FieldCount && ParseInt(fields[0]).Some?
    ensures r.Some? ==> MinInt <= r.value.year <= MaxInt
    ensures r.Some? ==>
              && IsIntText(fields[0])
              && r.value == MovieEntity(IntTextValue(fields[0]), fields[1], fields[2], fields[3], IsYes(Trim(fields[4])))
  {
    if |fields| >= FieldCount then
      match ParseInt(fields[0])
      case Some(year) =>
        var winner := |fields| > 4 && IsYes(Trim(fields[4]));
        Some(MovieEntity(year, fields[1], fields[2], fields[3], winner))
      case None => None
    else None
  }

  /** One line of the file, split on the separator keeping empty fields. */
  function ParseLine(line: string): (r: Option<MovieEntity>)
    ensures r.Some? <==>
              |Split(line, Delimiter)| >= FieldCount && ParseInt(Split(line, Delimiter)[0]).Some?
    ensures r.Some? ==>
              Delimiter !in r.value.title && Delimiter !in r.value.studios && Delimiter !in r.value.producers
  {
    ParseFields(Split(line, Delimiter))
  }

  /** The fields of a row read back as that row: title, studios and
      producers raw, the year from its decimal text, `winner` from the fifth
      field. */
  lemma ParseFieldsOfRow(year: int, title: string, studios: string, producers: string,
                         flag: string, extra: seq<string>)
    requires MinInt <= year <= MaxInt
    ensures ParseFields([ShowInt(year), title, studios, producers, flag] + extra)
         == Some(MovieEntity(year, title, studios, producers, IsYes(Trim(flag))))
  {
    var fields := [ShowInt(year), title, studios, producers, flag] + extra;
    ParseShowInt(year);
    assert fields[0] == ShowInt(year) && fields[1] == title && fields[2] == studios;
    assert fields[3] == producers && fields[4] == flag;
  }

  /** The fields of such a row hold no separator. */
  lemma RowFieldsFree(year: int, title: string, studios: string, producers: string,
                      flag: string, extra: seq<string>)
    requires Delimiter !in title && Delimiter !in studios && Delimiter !in producers
    requires Delimiter !in flag && forall k :: 0 <= k < |extra| ==> Delimiter !in extra[k]
    ensures var fields := [ShowInt(year), title, studios, producers, flag] + extra;
            forall k :: 0 <= k < |fields| ==> Delimiter !in fields[k]
  {
    var head := [ShowInt(year), title, studios, producers, flag];
    ShowIntChars(year, Delimiter);
    assert forall k :: 0 <= k < |head| ==> Delimiter !in head[k];
    forall k | 0 <= k < |head + extra|
      ensures Delimiter !in (head + extra)[k]
    {
      if k >= |head| {
        assert (head + extra)[k] == extra[k - |head|];
      }
    }
  }

  /** A row written out as a line, with any further fields after the fifth,
      reads back as that row. */
  lemma ParseLineOfRow(year: int, title: string, studios: string, producers: string,
                       flag: string, extra: seq<string>)
    requires MinInt <= year <= MaxInt
    requires Delimiter !in title && Delimiter !in studios && Delimiter !in producers
    requires Delimiter !in flag && forall k :: 0 <= k < |extra| ==> Delimiter !in extra[k]
    ensures ParseLine(Join([ShowInt(year), title, studios, producers, flag] + extra, Delimiter))
         == Some(MovieEntity(year, title, studios, producers, IsYes(Trim(flag))))
  {
    var fields := [ShowInt(year), title, studios, producers, flag] + extra;
    RowFieldsFree(year, title, studios, producers, flag, extra);
    SplitJoin(fields, Delimiter);
    ParseFieldsOfRow(year, title, studios, producers, flag, extra);
  }

  /** A row read from a line is that line's fields: the line is the year
      text, title, studios, producers and flag joined by the separator,
      followed by whatever further fields it has, none of them holding a
      separator, so `winner` comes from the fifth field and no later one. */
  lemma LineOfParsedRow(line: string)
    requires ParseLine(line).Some?
    ensures var e := ParseLine(line).value;
            exists yearText, flag, extra ::
              && line == Join([yearText, e.title, e.studios, e.producers, flag] + extra, Delimiter)
              && ParseInt(yearText) == Some(e.year)
              && e.winner == IsYes(Trim(flag))
              && Delimiter !in yearText && Delimiter !in flag
              && forall k :: 0 <= k < |extra| ==> Delimiter !in extra[k]
  {
    var e := ParseLine(line).value;
    var fields := Split(line, Delimiter);
    JoinSplit(line, Delimiter);
    var extra := fields[5..];
    FieldsAsRow(fields, e);
    var yearText, flag := fields[0], fields[4];
    assert line == Join([yearText, e.title, e.studios, e.producers, flag] + extra, Delimiter);
    assert ParseInt(yearText) == Some(e.year) && e.winner == IsYes(Trim(flag));
    assert Delimiter !in yearText && Delimiter !in flag;
    assert forall k :: 0 <= k < |extra| ==> extra[k] == fields[k + 5];
  }

  /** The fields a row came from, in their places. */
  lemma FieldsAsRow(fields: seq<string>, e: MovieEntity)
    requires ParseFields(fields) == Some(e)
    ensures fields == [fields[0], e.title, e.studios, e.producers, fields[4]] + fields[5..]
  {
  }

  /** The rows a line contributes: one or none. */
  function RowsOf(line: string): (r: seq<MovieEntity>)
    ensures |r| <= 1
    ensures forall e :: e in r <==> ParseLine(line) == Some(e)
  {
    match ParseLine(line)
    case Some(e) => [e]
    case None => []
  }

  /** The rows of all lines, in line order. */
  function AcceptedRows(lines: seq<string>): seq<MovieEntity> {
    FlatMap(RowsOf, lines)
  }

  /** The rows of two stretches of lines are the rows of the first followed
      by the rows of the second. */
  lemma AcceptedRowsAppend(a: seq<string>, b: seq<string>)
    ensures AcceptedRows(a + b) == AcceptedRows(a) + AcceptedRows(b)
  {
    FlatMapAppend(RowsOf, a, b);
  }

  /** A malformed line is skipped and the lines around it still count. */
  lemma MalformedLineSkipped(before: seq<string>, bad: string, after: seq<string>)
    requires ParseLine(bad).None?
    ensures AcceptedRows(before + [bad] + after) == AcceptedRows(before) + AcceptedRows(after)
  {
    FlatMapSkip(RowsOf, before, bad, after);
  }

  /** A row is saved exactly when some line reads as it. */
  lemma {:induction false} AcceptedRowsMembers(lines: seq<string>, e: MovieEntity)
    ensures e in AcceptedRows(lines) <==> exists i :: 0 <= i < |lines| && ParseLine(lines[i]) == Some(e)
    decreases |lines|
  {
    if |lines| > 0 {
      AcceptedRowsMembers(lines[1..], e);
      if exists i :: 0 <= i < |lines| && ParseLine(lines[i]) == Some(e) {
        var i :| 0 <= i < |lines| && ParseLine(lines[i]) == Some(e);
        if i > 0 {
          assert lines[1..][i - 1] == lines[i];
        }
      }
      if exists i :: 0 <= i < |lines[1..]| && ParseLine(lines[1..][i]) == Some(e) {
        var i :| 0 <= i < |lines[1..]| && ParseLine(lines[1..][i]) == Some(e);
        assert lines[i + 1] == lines[1..][i];
      }
    }
  }

  /** Each line gives at most one row. */
  lemma {:induction false} AcceptedRowsLength(lines: seq<string>)
    ensures |AcceptedRows(lines)| <= |lines|
    decreases |lines|
  {
    if |lines| > 0 {
      AcceptedRowsLength(lines[1..]);
    }
  }

  /** What a start-up run does to the movie table. */
  datatype LoadOutcome = AlreadyPopulated | Imported(saved: seq<MovieEntity>)

  /** The lines after the header. */
  function Body(fileLines: seq<string>): (r: seq<string>)
    ensures |r| == if |fileLines| == 0 then 0 else |fileLines| - 1
    ensures forall i :: 1 <= i < |fileLines| ==> r[i - 1] == fileLines[i]
  {
    if |fileLines| == 0 then [] else fileLines[1..]
  }

  /** `loadData`: with movies already stored nothing is read; otherwise the
      first line is dropped as the header and the accepted rows of the rest
      are saved, in line order. */
  function LoadData(storedCount: nat, fileLines: seq<string>): (r: LoadOutcome)
    ensures r.AlreadyPopulated? <==> storedCount > 0
    ensures r.Imported? ==> |r.saved| < |fileLines| || |fileLines| == 0
    ensures r.Imported? ==> r.saved == AcceptedRows(Body(fileLines))
  {
    if storedCount > 0 then AlreadyPopulated
    else
      AcceptedRowsLength(Body(fileLines));
      Imported(AcceptedRows(Body(fileLines)))
  }

  /** A row is saved exactly when some line after the header reads as it. */
  lemma LoadDataMembers(fileLines: seq<string>, e: MovieEntity)
    ensures e in LoadData(0, fileLines).saved <==>
              exists i :: 1 <= i < |fileLines| && ParseLine(fileLines[i]) == Some(e)
  {
    var body := Body(fileLines);
    AcceptedRowsMembers(body, e);
    if exists i :: 1 <= i < |fileLines| && ParseLine(fileLines[i]) == Some(e) {
      var i :| 1 <= i < |fileLines| && ParseLine(fileLines[i]) == Some(e);
      assert body[i - 1] == fileLines[i];
    }
    if exists j :: 0 <= j < |body| && ParseLine(body[j]) == Some(e) {
      var j :| 0 <= j < |body| && ParseLine(body[j]) == Some(e);
      assert body[j] == fileLines[j + 1];
    }
  }

  /** Whatever the first line says, it never becomes a row. */
  lemma HeaderSkipped(h1: string, h2: string, body: seq<string>)
    ensures LoadData(0, [h1] + body) == LoadData(0, [h2] + body)
  {
    assert ([h1] + body)[1..] == body;
    assert ([h2] + body)[1..] == body;
  }

  /** Reading one more line adds that line's rows at the end. */
  lemma AcceptedRowsStep(fileLines: seq<string>, i: nat)
    requires 1 <= i < |fileLines|
    ensures AcceptedRows(fileLines[1..i + 1]) == AcceptedRows(fileLines[1..i]) + RowsOf(fileLines[i])
  {
    FlatMapSnoc(RowsOf, fileLines[1..i], fileLines[i]);
    SliceSnoc(fileLines, 1, i);
  }

  /** Adding the row read from line `i` extends the batch to line `i`. */
  lemma AddRowStep(fileLines: seq<string>, i: nat, batch: seq<MovieEntity>, row: Option<MovieEntity>)
    requires 1 <= i < |fileLines| && batch == AcceptedRows(fileLines[1..i]) && row == ParseLine(fileLines[i])
    ensures (if row.Some? then batch + [row.value] else batch) == AcceptedRows(fileLines[1..i + 1])
  {
    AcceptedRowsStep(fileLines, i);
  }

  /** One line read the way the loop body does it: a row exactly when the
      line has at least five fields and the first is the decimal text of a
      32-bit int; the row holds that int, the next three fields as they are,
      and whether the trimmed fifth field says `yes`. */
  method ReadLine(line: string) returns (r: Option<MovieEntity>)
    ensures var fields := Split(line, Delimiter);
            r.Some? <==> |fields| >= FieldCount && IsIntText(fields[0]) && MinInt <= IntTextValue(fields[0]) <= MaxInt
    ensures var fields := Split(line, Delimiter);
            r.Some? ==> r.value == MovieEntity(IntTextValue(fields[0]), fields[1], fields[2], fields[3], IsYes(Trim(fields[4])))
    ensures r == ParseLine(line)
  {
    var fields := Split(line, Delimiter);
    r := None;
    if |fields| >= FieldCount {
      var year := ParseInt(fields[0]);
      if year.Some? {
        var winner := |fields| > 4 && IsYes(Trim(fields[4]));
        r := Some(MovieEntity(year.value, fields[1], fields[2], fields[3], winner));
      }
    }
  }

  /** The import as a loop over the lines after the header, adding each
      accepted row to the batch that is then saved in one go. */
  method LoadDataLoop(storedCount: nat, fileLines: seq<string>) returns (r: LoadOutcome)
    ensures r == LoadData(storedCount, fileLines)
  {
    if storedCount > 0 {
      return AlreadyPopulated;
    }
    if |fileLines| == 0 {
      return Imported([]);
    }
    var moviesToSave: seq<MovieEntity> := [];
    var i := 1;
    while i < |fileLines|
      invariant 1 <= i <= |fileLines|
      invariant moviesToSave == AcceptedRows(fileLines[1..i])
    {
      var row := ReadLine(fileLines[i]);
      AddRowStep(fileLines, i, moviesToSave, row);
      if row.Some? {
        moviesToSave := moviesToSave + [row.value];
      }
      i := i + 1;
    }
    assert fileLines[1..i] == Body(fileLines);
    r := Imported(moviesToSave);
  }
}

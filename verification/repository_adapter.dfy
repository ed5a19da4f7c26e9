/** The persistence adapter behind the use case: it asks the movie table for
    the winners in year order and turns every row into a `WinningMovie`
    whose producers are split into names. */
module RepositoryAdapter {
  import opened Wrappers
  import opened Seqs
  import opened Domain
  import opened JavaText
  import opened ProducerNames
  import opened Results

  /** `convertToDomain`: year and title copied, producers parsed; a row
      whose producers are a lone quote makes the parse throw. */
  function ConvertToDomain(e: MovieEntity): (r: Result<WinningMovie, ParseError>)
    ensures r.Failure? <==> ParseProducers(e.producers).Failure?
    ensures r.Success? ==>
              && r.value.year == e.year
              && r.value.title == e.title
              && r.value.producers == ParseProducers(e.producers).value
  {
    var names :- ParseProducers(e.producers);
    Success(WinningMovie(e.year, e.title, names))
  }

  /** `stream().map(this::convertToDomain).toList()`: every row converted, in
      order, or the error of the first row that fails. */
  function ConvertAll(es: seq<MovieEntity>): Result<seq<WinningMovie>, ParseError> {
    MapResult(ConvertToDomain, es)
  }

  function Year(e: MovieEntity): int {
    e.year
  }

  predicate IsWinner(e: MovieEntity) {
    e.winner
  }

  /** `findByWinnerTrueOrderByYearAsc`: the winning rows, by ascending year.
      Rows of the same year keep table order here; the database promises no
      particular order among them. */
  function WinnersByYear(rows: seq<MovieEntity>): (r: seq<MovieEntity>)
    ensures SortedBy(r, Year)
    ensures forall e :: multiset(r)[e] == if e.winner then multiset(rows)[e] else 0
  {
    FilterCount(IsWinner, rows);
    SortBy(Filter(IsWinner, rows), Year)
  }

  /** `findAll`: the winners, oldest first, as domain movies; it fails when
      a winning row's producers are a lone quote. */
  function FindAll(rows: seq<MovieEntity>): (r: Result<seq<WinningMovie>, ParseError>)
    ensures r.Failure? <==> exists e :: e in rows && e.winner && Trim(e.producers) == "\""
    ensures r.Success? ==> forall i, j :: 0 <= i < j < |r.value| ==> r.value[i].year <= r.value[j].year
    ensures r.Success? ==>
              && |r.value| == |WinnersByYear(rows)|
              && forall i :: 0 <= i < |r.value| ==> ConvertToDomain(WinnersByYear(rows)[i]) == Success(r.value[i])
  {
    var winners := WinnersByYear(rows);
    WinnersAreWinningRows(rows);
    ConvertAll(winners)
  }

  /** A row is among the winners exactly when it is a winning row. */
  lemma WinnersAreWinningRows(rows: seq<MovieEntity>)
    ensures forall e :: e in WinnersByYear(rows) <==> e in rows && e.winner
  {
    var winners := WinnersByYear(rows);
    forall e
      ensures e in winners <==> e in rows && e.winner
    {
      assert e in winners <==> e in multiset(winners);
      assert e in rows <==> e in multiset(rows);
    }
  }

  /** Each movie `findAll` returns comes from one winning row: same year and
      title, producers parsed from that row. */
  lemma FindAllFromWinningRows(rows: seq<MovieEntity>, i: nat)
    requires FindAll(rows).Success? && i < |FindAll(rows).value|
    ensures exists e :: e in rows && e.winner
              && FindAll(rows).value[i].year == e.year
              && FindAll(rows).value[i].title == e.title
              && FindAll(rows).value[i].producers == ParseProducers(e.producers).value
  {
    var winners := WinnersByYear(rows);
    WinnersAreWinningRows(rows);
    assert winners[i] in winners;
  }

  /** Any other arrangement of the same-year winners converts to the same
      movies, only rearranged; with the order-independence of the use case
      this makes the reported cohorts independent of the database's
      tie order. */
  lemma FindAllTieOrder(rows: seq<MovieEntity>, alt: seq<MovieEntity>)
    requires multiset(alt) == multiset(WinnersByYear(rows))
    requires FindAll(rows).Success?
    ensures ConvertAll(alt).Success?
    ensures multiset(ConvertAll(alt).value) == multiset(FindAll(rows).value)
  {
    MapResultPermutation(ConvertToDomain, alt, WinnersByYear(rows));
  }
}

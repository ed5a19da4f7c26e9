/** The records the service passes around. */
module Domain {

  /** A winning movie as the use case sees it: producers already split into
      individual names. */
  datatype WinningMovie = WinningMovie(year: int, title: string, producers: seq<string>)

  /** The gap between two consecutive wins of one producer. */
  datatype ProducerInterval = ProducerInterval(
    producer: string,
    interval: int,
    previousWin: int,
    followingWin: int)

  /** The two cohorts the endpoint reports. */
  datatype AwardIntervalsResult = AwardIntervalsResult(
    min: seq<ProducerInterval>,
    max: seq<ProducerInterval>)

  /** A row of the movie table; `producers` is the raw CSV text. */
  datatype MovieEntity = MovieEntity(
    year: int,
    title: string,
    studios: string,
    producers: string,
    winner: bool)
}

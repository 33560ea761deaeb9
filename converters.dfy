/**
 * The Room type converters between a nullable epoch-millisecond count and a
 * nullable `java.util.Date`. A `Date` built from a count keeps that count and
 * gives it back unchanged, so it is modelled as a wrapper around it.
 */
module Converters {
  import opened Tables

  /** A `java.util.Date`: milliseconds since the epoch. */
  datatype Date = Date(time: Long)

  /** `fromTimestamp`: null stays null; a count becomes the date at that count. */
  function FromTimestamp(value: Option<Long>): (r: Option<Date>)
    ensures r.None? <==> value.None?
    ensures r.Some? ==> r.value.time == value.value
  {
    match value
    case None => None
    case Some(v) => Some(Date(v))
  }

  /** `dateToTimestamp`: null stays null; a date becomes its count. */
  function DateToTimestamp(date: Option<Date>): (r: Option<Long>)
    ensures r.None? <==> date.None?
    ensures r.Some? ==> r.value == date.value.time
  {
    match date
    case None => None
    case Some(d) => Some(d.time)
  }

  lemma TimestampRoundTrip(value: Option<Long>)
    ensures DateToTimestamp(FromTimestamp(value)) == value
  {
  }

  lemma DateRoundTrip(date: Option<Date>)
    ensures FromTimestamp(DateToTimestamp(date)) == date
  {
  }
}

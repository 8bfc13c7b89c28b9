/** The duration as the Java code computes it: `outHour - inHour` is a
    subtraction of two longs, which wraps once the stay exceeds 2^63 - 1
    milliseconds. The wrapped span is negative, so the stay falls into the
    grace branch and is billed nothing. The rest of the model uses the exact
    span (FareCalculator.StayMinutes); this module keeps the code as written
    and shows where the two part. */
module StayOverflow {
  import opened Wrappers
  import JavaLong
  import opened ParkingModel
  import opened FareCalculator
  import opened FareProperties

  /** `(outHour - inHour) / 1000 / 60` in Java long arithmetic. */
  function StayMinutesAsWritten(s: Stay): (minutes: int)
    ensures WellOrdered(s) && s.outTime - s.inTime <= JavaLong.MAX ==> minutes == StayMinutes(s)
    ensures WellOrdered(s) && s.outTime - s.inTime > JavaLong.MAX ==> minutes <= 0
  {
    var span := JavaLong.Sub(s.outTime, s.inTime);
    assert s.outTime - s.inTime > JavaLong.MAX ==> s.outTime - s.inTime - span == JavaLong.MODULUS;
    JavaLong.Div(JavaLong.Div(span, 1000), 60)
  }

  /** `calculateFare(ticket, discount)` with the duration exactly as written. */
  function CalculateFareAsWritten(fare: Fare, ticket: Ticket, discount: bool): (r: Result<Ticket, FareError>)
    ensures r.Success? ==> r.value == ticket.(price := r.value.price)
    ensures CheckTimes(ticket).Failure? ==> r == Failure(CheckTimes(ticket).error)
  {
    match CheckTimes(ticket)
    case Failure(e) => Failure(e)
    case Success(stay) => PriceTicket(fare, ticket, StayMinutesAsWritten(stay), discount)
  }

  /** For every stay a long can measure, the code as written and the
      corrected model agree. */
  lemma {:induction false} AsWrittenAgreesWithinLongRange(fare: Fare, t: Ticket, discount: bool)
    requires !TimesValid(t) || SpanMillis(t) <= JavaLong.MAX
    ensures CalculateFareAsWritten(fare, t, discount) == CalculateFare(fare, t, discount)
  {
    if TimesValid(t) {
      var stay := CheckTimes(t).value;
      assert StayMinutesAsWritten(stay) == StayMinutes(stay);
    }
  }

  /** Every stay longer than 2^63 - 1 milliseconds is free as written,
      whatever its spot and discount flag. */
  lemma {:induction false} WrappedStayIsFree(fare: Fare, t: Ticket, discount: bool)
    requires TimesValid(t) && SpanMillis(t) > JavaLong.MAX
    ensures CalculateFareAsWritten(fare, t, discount) == Success(t.(price := 0.0))
  {
    var stay := CheckTimes(t).value;
    assert StayMinutesAsWritten(stay) <= 0;
  }

  /** The witness: a car entering at the earliest instant a Date can hold
      and leaving at the epoch is charged nothing as written, while the
      corrected computation charges it for every whole minute. */
  lemma OverflowCounterexample(fare: Fare)
    requires fare.Positive()
    ensures var t := Ticket(1, Some(ParkingSpot(1, Some(Car), false)), None, 0.0, Some(JavaLong.MIN), Some(0));
      && CalculateFareAsWritten(fare, t, false) == Success(t.(price := 0.0))
      && CalculateFare(fare, t, false).Success?
      && CalculateFare(fare, t, false).value.price > 0.0
  {
    var t := Ticket(1, Some(ParkingSpot(1, Some(Car), false)), None, 0.0, Some(JavaLong.MIN), Some(0));
    WrappedStayIsFree(fare, t, false);
    GracePeriodIsFree(fare, t, false);
  }
}

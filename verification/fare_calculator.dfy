/** `FareCalculatorService.calculateFare`: validate the ticket's times, turn
    the stay into whole minutes, waive stays under half an hour, bill the rest
    pro rata at the hourly rate of the spot's type, and take 5% off for a
    recurring user. The Java method sets `ticket.price` and returns nothing;
    here it returns the updated ticket or the exception it would throw. */
module FareCalculator {
  import opened Wrappers
  import opened ParkingModel

  /** The reference the Java code dereferences while it is null. */
  datatype NullField = OutTime | InTime | Spot | SpotParkingType

  /** The exceptions `calculateFare` can throw. */
  datatype FareError =
    | NullDereference(field: NullField)   // NullPointerException
    | OutTimeIncorrect(outTime: Millis)   // IllegalArgumentException, out time before in time
    | UnknownParkingType                  // IllegalArgumentException, default branch of the switch

  const MILLIS_PER_MINUTE: int := 60_000
  /** Stays shorter than this many minutes are free. */
  const GRACE_MINUTES: int := 30
  /** Price multiplier for a recurring user: a 5% discount. */
  const DISCOUNT_FACTOR: real := 0.95

  /** A stay whose exit is not before its entry. */
  datatype Stay = Stay(inTime: Millis, outTime: Millis)

  ghost predicate WellOrdered(s: Stay) {
    s.inTime <= s.outTime
  }

  /** The time check. A missing out time fails with a null dereference, not
      with the argument error whose message the code is building when it
      dereferences it; a missing in time fails inside `Date.before`. An exit
      at the very millisecond of the entry is accepted, since `before` is strict. */
  function CheckTimes(ticket: Ticket): (r: Result<Stay, FareError>)
    ensures r.Success? <==>
      ticket.outTime.Some? && ticket.inTime.Some? && ticket.inTime.value <= ticket.outTime.value
    ensures r.Success? ==>
      r.value.inTime == ticket.inTime.value && r.value.outTime == ticket.outTime.value && WellOrdered(r.value)
    ensures ticket.outTime.None? ==> r == Failure(NullDereference(OutTime))
    ensures r.Failure? && ticket.outTime.Some? && ticket.inTime.Some? ==>
      r.error == OutTimeIncorrect(ticket.outTime.value)
  {
    match ticket.outTime
    case None => Failure(NullDereference(OutTime))
    case Some(outMs) =>
      match ticket.inTime
      case None => Failure(NullDereference(InTime))
      case Some(inMs) =>
        if outMs < inMs then Failure(OutTimeIncorrect(outMs)) else Success(Stay(inMs, outMs))
  }

  /** Milliseconds divided by 1000 and then by 60 with integer division
      are the whole minutes of the span. */
  lemma {:induction false} WholeMinutes(span: nat)
    ensures span / 1000 / 60 * MILLIS_PER_MINUTE <= span < (span / 1000 / 60 + 1) * MILLIS_PER_MINUTE
  {
    var q1, r1 := span / 1000, span % 1000;
    var q2, r2 := q1 / 60, q1 % 60;
    assert span == q1 * 1000 + r1 && 0 <= r1 < 1000;
    assert q1 == q2 * 60 + r2 && 0 <= r2 < 60;
    assert q1 * 1000 == q2 * 60_000 + r2 * 1000;
    assert span == q2 * 60_000 + (r2 * 1000 + r1);
    assert 0 <= r2 * 1000 + r1 < 60_000;
  }

  /** The billed duration: the whole minutes of the stay, truncated. */
  function StayMinutes(s: Stay): (minutes: nat)
    requires WellOrdered(s)
    ensures minutes * MILLIS_PER_MINUTE <= s.outTime - s.inTime < (minutes + 1) * MILLIS_PER_MINUTE
  {
    var span := s.outTime - s.inTime;
    WholeMinutes(span);
    span / 1000 / 60
  }

  /** The hourly rate of the ticket's spot, or the exception the switch
      throws: a null spot or a null type is dereferenced, an unlisted type
      reaches the default branch. */
  function SpotRate(fare: Fare, spot: Option<ParkingSpot>): (r: Result<real, FareError>)
    ensures r.Success? <==>
      spot.Some? && spot.value.parkingType.Some? && spot.value.parkingType.value != Unlisted
    ensures r.Success? ==> r.value == RatePerHour(fare, spot.value.parkingType.value)
    ensures spot.None? ==> r == Failure(NullDereference(Spot))
    ensures spot.Some? && spot.value.parkingType.None? ==> r == Failure(NullDereference(SpotParkingType))
    ensures spot.Some? && spot.value.parkingType == Some(Unlisted) ==> r == Failure(UnknownParkingType)
  {
    match spot
    case None => Failure(NullDereference(Spot))
    case Some(p) =>
      match p.parkingType
      case None => Failure(NullDereference(SpotParkingType))
      case Some(Unlisted) => Failure(UnknownParkingType)
      case Some(t) => Success(RatePerHour(fare, t))
  }

  /** `duration * rate / 60`: fractional hours at the hourly rate. */
  function ProRata(minutes: int, rate: real): real {
    (minutes as real) * rate / 60.0
  }

  function Discounted(price: real, discount: bool): real {
    if discount then price * DISCOUNT_FACTOR else price
  }

  /** Everything after the time check, given the billed minutes: the waiver
      comes before the type is looked at, and the discount after the rate. */
  function PriceTicket(fare: Fare, ticket: Ticket, minutes: int, discount: bool): (r: Result<Ticket, FareError>)
    ensures r.Success? ==> r.value == ticket.(price := r.value.price)
    ensures r.Success? && minutes >= 0 && fare.Positive() ==> r.value.price >= 0.0
    ensures r.Failure? ==> minutes >= GRACE_MINUTES
  {
    if minutes < GRACE_MINUTES then
      Success(ticket.(price := 0.0))
    else
      match SpotRate(fare, ticket.parkingSpot)
      case Failure(e) => Failure(e)
      case Success(rate) => Success(ticket.(price := Discounted(ProRata(minutes, rate), discount)))
  }

  /** `calculateFare(ticket, discount)`. On success only the price differs
      from the given ticket; on failure no ticket is produced at all. */
  function CalculateFare(fare: Fare, ticket: Ticket, discount: bool): (r: Result<Ticket, FareError>)
    ensures r.Success? ==> r.value == ticket.(price := r.value.price)
    ensures r.Success? && fare.Positive() ==> r.value.price >= 0.0
    ensures CheckTimes(ticket).Failure? ==> r == Failure(CheckTimes(ticket).error)
  {
    match CheckTimes(ticket)
    case Failure(e) => Failure(e)
    case Success(stay) => PriceTicket(fare, ticket, StayMinutes(stay), discount)
  }

  /** `calculateFare(ticket)`: the same computation for a first-time user. */
  function CalculateFareNoDiscount(fare: Fare, ticket: Ticket): Result<Ticket, FareError> {
    CalculateFare(fare, ticket, false)
  }
}

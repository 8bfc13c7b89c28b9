/** The unit and integration test scenarios. A test reads the clock once to
    set the in time (`now`) and again for the out time (`later`), a few
    milliseconds on; each scenario holds for every such pair of readings
    that stays within the same minute of the intended span, which is what
    truncating to whole minutes makes the tests robust to. */
module FareScenarios {
  import opened Wrappers
  import JavaLong
  import opened ParkingModel
  import opened FareCalculator
  import opened FareProperties

  /** A fresh `new Ticket()` given an in time, an out time and a spot
      `new ParkingSpot(1, type, false)`. */
  function TestTicket(inMs: Millis, outMs: Millis, parkingType: Option<ParkingType>): Ticket {
    Ticket(0, Some(ParkingSpot(1, parkingType, false)), None, 0.0, Some(inMs), Some(outMs))
  }

  const MINUTE_MS: int := 60 * 1000
  const HOUR_MS: int := 60 * 60 * 1000

  /** The second clock reading comes less than a minute after the first. */
  ghost predicate WithinAMinute(now: Millis, later: Millis) {
    now <= later < now + MINUTE_MS
  }

  /** One hour costs the hourly rate of the type, 95% of it with the discount. */
  lemma OneHourCostsHourlyRate(fare: Fare, now: Millis, later: Millis, t: ParkingType, discount: bool)
    requires t != Unlisted && now - HOUR_MS >= JavaLong.MIN && WithinAMinute(now, later)
    ensures CalculateFare(fare, TestTicket(now - HOUR_MS, later, Some(t)), discount).Success?
    ensures CalculateFare(fare, TestTicket(now - HOUR_MS, later, Some(t)), discount).value.price
      == (if discount then 0.95 * RatePerHour(fare, t) else RatePerHour(fare, t))
  {
    var ticket := TestTicket(now - HOUR_MS, later, Some(t));
    ProRataAfterGrace(fare, ticket, discount);
    assert StayMinutes(Stay(now - HOUR_MS, later)) == 60;
    assert 60.0 * RatePerHour(fare, t) / 60.0 == RatePerHour(fare, t);
  }

  /** The integration test enters 60*60*1002 ms before `now`; an exit taken
      less than 52.8 s after `now` is billed as exactly sixty minutes. */
  lemma SlightlyOverAnHourIsBilledAsAnHour(fare: Fare, now: Millis, later: Millis, discount: bool)
    requires now - 60 * 60 * 1002 >= JavaLong.MIN && now <= later < now + 52_800
    ensures CalculateFare(fare, TestTicket(now - 60 * 60 * 1002, later, Some(Car)), discount).Success?
    ensures CalculateFare(fare, TestTicket(now - 60 * 60 * 1002, later, Some(Car)), discount).value.price
      == (if discount then fare.carRatePerHour * 0.95 else fare.carRatePerHour)
  {
    var ticket := TestTicket(now - 60 * 60 * 1002, later, Some(Car));
    ProRataAfterGrace(fare, ticket, discount);
    assert StayMinutes(Stay(now - 60 * 60 * 1002, later)) == 60;
    assert 60.0 * fare.carRatePerHour / 60.0 == fare.carRatePerHour;
  }

  /** The mocked exit of the service test: one hour by car without the
      discount costs 1.5, which is what pins the car rate at 1.5. */
  lemma MockedExitCostsOneAndAHalf(fare: Fare, now: Millis, later: Millis)
    requires fare.carRatePerHour == 1.5
    requires now - HOUR_MS >= JavaLong.MIN && WithinAMinute(now, later)
    ensures CalculateFareNoDiscount(fare, TestTicket(now - HOUR_MS, later, Some(Car)))
         == Success(TestTicket(now - HOUR_MS, later, Some(Car)).(price := 1.5))
  {
    OneHourCostsHourlyRate(fare, now, later, Car, false);
  }

  /** A spot with a null type faults with a null dereference. */
  lemma NullTypeFaults(fare: Fare, now: Millis, later: Millis)
    requires now - HOUR_MS >= JavaLong.MIN && WithinAMinute(now, later)
    ensures CalculateFareNoDiscount(fare, TestTicket(now - HOUR_MS, later, None))
         == Failure(NullDereference(SpotParkingType))
  {
  }

  /** An in time one hour in the future is an illegal argument. */
  lemma FutureInTimeIsRejected(fare: Fare, now: Millis, later: Millis)
    requires now + HOUR_MS <= JavaLong.MAX && WithinAMinute(now, later)
    ensures CalculateFareNoDiscount(fare, TestTicket(now + HOUR_MS, later, Some(Bike)))
         == Failure(OutTimeIncorrect(later))
  {
  }

  /** Forty-five minutes cost three quarters of the hourly rate. */
  lemma FortyFiveMinutesCostThreeQuarters(fare: Fare, now: Millis, later: Millis, t: ParkingType)
    requires t != Unlisted && now - 45 * MINUTE_MS >= JavaLong.MIN && WithinAMinute(now, later)
    ensures CalculateFareNoDiscount(fare, TestTicket(now - 45 * MINUTE_MS, later, Some(t))).Success?
    ensures CalculateFareNoDiscount(fare, TestTicket(now - 45 * MINUTE_MS, later, Some(t))).value.price
         == 0.75 * RatePerHour(fare, t)
  {
    var ticket := TestTicket(now - 45 * MINUTE_MS, later, Some(t));
    ProRataAfterGrace(fare, ticket, false);
    assert StayMinutes(Stay(now - 45 * MINUTE_MS, later)) == 45;
    assert 45.0 * RatePerHour(fare, t) / 60.0 == 0.75 * RatePerHour(fare, t);
  }

  /** A day costs twenty-four times the hourly rate. */
  lemma OneDayCostsTwentyFourHours(fare: Fare, now: Millis, later: Millis)
    requires now - 24 * HOUR_MS >= JavaLong.MIN && WithinAMinute(now, later)
    ensures CalculateFareNoDiscount(fare, TestTicket(now - 24 * HOUR_MS, later, Some(Car))).Success?
    ensures CalculateFareNoDiscount(fare, TestTicket(now - 24 * HOUR_MS, later, Some(Car))).value.price
         == 24.0 * fare.carRatePerHour
  {
    ProRataAfterGrace(fare, TestTicket(now - 24 * HOUR_MS, later, Some(Car)), false);
    assert StayMinutes(Stay(now - 24 * HOUR_MS, later)) == 1440;
    assert 1440.0 * fare.carRatePerHour / 60.0 == 24.0 * fare.carRatePerHour;
  }

  /** Twenty-five minutes are free for either type. */
  lemma TwentyFiveMinutesAreFree(fare: Fare, now: Millis, later: Millis, t: ParkingType)
    requires t != Unlisted && now - 25 * MINUTE_MS >= JavaLong.MIN && WithinAMinute(now, later)
    ensures CalculateFareNoDiscount(fare, TestTicket(now - 25 * MINUTE_MS, later, Some(t))).Success?
    ensures CalculateFareNoDiscount(fare, TestTicket(now - 25 * MINUTE_MS, later, Some(t))).value.price == 0.0
  {
  }
}

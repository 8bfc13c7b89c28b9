/** What `calculateFare` promises, branch by branch and across calls, stated
    in terms of the ticket's fields and its span in milliseconds. */
module FareProperties {
  import opened Wrappers
  import opened ParkingModel
  import opened FareCalculator
  import opened FareArithmetic

  /** The ticket's times pass the time check. */
  ghost predicate TimesValid(t: Ticket) {
    t.inTime.Some? && t.outTime.Some? && t.inTime.value <= t.outTime.value
  }

  /** The stay of a ticket whose times are valid, in milliseconds. */
  ghost function SpanMillis(t: Ticket): int
    requires TimesValid(t)
  {
    t.outTime.value - t.inTime.value
  }

  /** The ticket's spot has a type the switch prices. */
  ghost predicate ListedType(t: Ticket) {
    t.parkingSpot.Some? && t.parkingSpot.value.parkingType.Some?
    && t.parkingSpot.value.parkingType.value != Unlisted
  }

  ghost function TypeOf(t: Ticket): ParkingType
    requires ListedType(t)
  {
    t.parkingSpot.value.parkingType.value
  }

  /** An absent out time faults before any price is set, whatever the rest
      of the ticket holds and whatever the discount flag says. */
  lemma MissingOutTimeFaults(fare: Fare, t: Ticket, discount: bool)
    requires t.outTime.None?
    ensures CalculateFare(fare, t, discount) == Failure(NullDereference(OutTime))
  {
  }

  /** The call is rejected as an incorrect out time exactly when both times
      are present and the exit is strictly earlier than the entry. */
  lemma {:induction false} RejectsExitBeforeEntry(fare: Fare, t: Ticket, discount: bool)
    ensures (t.outTime.Some? && CalculateFare(fare, t, discount) == Failure(OutTimeIncorrect(t.outTime.value)))
        <==> (t.inTime.Some? && t.outTime.Some? && t.outTime.value < t.inTime.value)
  {
    var r := CalculateFare(fare, t, discount);
    if t.inTime.Some? && t.outTime.Some? && t.outTime.value >= t.inTime.value {
      var stay := CheckTimes(t).value;
      var m := StayMinutes(stay);
      if m >= GRACE_MINUTES {
        assert r == PriceTicket(fare, t, m, discount);
      }
    }
  }

  /** An exit at the millisecond of the entry is a valid, free stay. */
  lemma EqualTimesAreFree(fare: Fare, t: Ticket, discount: bool)
    requires t.inTime.Some? && t.inTime == t.outTime
    ensures CalculateFare(fare, t, discount) == Success(t.(price := 0.0))
  {
  }

  /** The grace period: a stay under thirty minutes costs nothing, for every
      spot (even a null one or one of unlisted type) and either flag; and a
      valid ticket is priced at zero for no other reason. */
  lemma {:induction false} GracePeriodIsFree(fare: Fare, t: Ticket, discount: bool)
    requires TimesValid(t)
    ensures SpanMillis(t) < GRACE_MINUTES * MILLIS_PER_MINUTE ==>
      CalculateFare(fare, t, discount) == Success(t.(price := 0.0))
    ensures fare.Positive() ==>
      (CalculateFare(fare, t, discount).Success? && CalculateFare(fare, t, discount).value.price == 0.0
       <==> SpanMillis(t) < GRACE_MINUTES * MILLIS_PER_MINUTE)
  {
    var m := StayMinutes(CheckTimes(t).value);
    if m >= GRACE_MINUTES {
      var r := CalculateFare(fare, t, discount);
      if r.Success? && fare.Positive() {
        var rate := SpotRate(fare, t.parkingSpot).value;
        assert rate > 0.0;
        ProRataPositive(m, rate);
        assert r.value.price == Discounted(ProRata(m, rate), discount);
      }
    } else {
      assert m + 1 <= GRACE_MINUTES;
      assert (m + 1) * MILLIS_PER_MINUTE <= GRACE_MINUTES * MILLIS_PER_MINUTE;
    }
  }

  lemma ProRataPositive(m: int, rate: real)
    requires m > 0 && rate > 0.0
    ensures ProRata(m, rate) > 0.0
    ensures Discounted(ProRata(m, rate), true) > 0.0
  {
    assert (m as real) * rate > 0.0;
  }

  /** At thirty minutes or more a listed type is billed pro rata on the whole
      minutes of the stay, with no rounding up to whole hours, and the
      discount multiplies that price by 0.95. */
  lemma {:induction false} ProRataAfterGrace(fare: Fare, t: Ticket, discount: bool)
    requires TimesValid(t) && ListedType(t)
    requires SpanMillis(t) >= GRACE_MINUTES * MILLIS_PER_MINUTE
    ensures CalculateFare(fare, t, discount).Success?
    ensures CalculateFare(fare, t, discount).value.price ==
      (if discount then DISCOUNT_FACTOR else 1.0)
        * (StayMinutes(Stay(t.inTime.value, t.outTime.value)) as real) * RatePerHour(fare, TypeOf(t)) / 60.0
  {
    var m := StayMinutes(Stay(t.inTime.value, t.outTime.value));
    assert (m + 1) * MILLIS_PER_MINUTE > GRACE_MINUTES * MILLIS_PER_MINUTE;
    assert m >= GRACE_MINUTES;
    var rate := RatePerHour(fare, TypeOf(t));
    assert CalculateFare(fare, t, discount) == Success(t.(price := Discounted(ProRata(m, rate), discount)));
    DiscountedProRata(m, rate, discount);
  }

  /** At thirty minutes or more, a spot without a listed type fails and no
      price is set: a null spot or null type is dereferenced, an unlisted
      type is an unknown parking type. */
  lemma {:induction false} UnpricedTypeFailsAfterGrace(fare: Fare, t: Ticket, discount: bool)
    requires TimesValid(t)
    requires SpanMillis(t) >= GRACE_MINUTES * MILLIS_PER_MINUTE
    ensures CalculateFare(fare, t, discount).Success? <==> ListedType(t)
    ensures t.parkingSpot.None? ==> CalculateFare(fare, t, discount) == Failure(NullDereference(Spot))
    ensures t.parkingSpot.Some? && t.parkingSpot.value.parkingType.None? ==>
      CalculateFare(fare, t, discount) == Failure(NullDereference(SpotParkingType))
    ensures t.parkingSpot.Some? && t.parkingSpot.value.parkingType == Some(Unlisted) ==>
      CalculateFare(fare, t, discount) == Failure(UnknownParkingType)
  {
    var m := StayMinutes(Stay(t.inTime.value, t.outTime.value));
    assert (m + 1) * MILLIS_PER_MINUTE > GRACE_MINUTES * MILLIS_PER_MINUTE;
    assert m >= GRACE_MINUTES;
  }

  /** The discount flag never changes whether the call succeeds or which
      exception it throws, and on success it scales the price by exactly
      0.95, once. */
  lemma {:induction false} DiscountIsFivePercent(fare: Fare, t: Ticket)
    ensures CalculateFare(fare, t, true).Success? <==> CalculateFare(fare, t, false).Success?
    ensures CalculateFare(fare, t, true).Failure? ==> CalculateFare(fare, t, true) == CalculateFare(fare, t, false)
    ensures CalculateFare(fare, t, true).Success? ==>
      CalculateFare(fare, t, true).value.price == DISCOUNT_FACTOR * CalculateFare(fare, t, false).value.price
  {
  }

  /** The one-argument overload is the two-argument one without discount. */
  lemma OverloadWithoutDiscount(fare: Fare, t: Ticket)
    ensures CalculateFareNoDiscount(fare, t) == CalculateFare(fare, t, false)
    ensures CalculateFare(fare, t, true).Success? ==>
      CalculateFare(fare, t, true).value.price == DISCOUNT_FACTOR * CalculateFareNoDiscount(fare, t).value.price
  {
    DiscountIsFivePercent(fare, t);
  }

  /** Whole minutes never decrease as the stay grows. */
  lemma {:induction false} StayMinutesMonotone(s1: Stay, s2: Stay)
    requires WellOrdered(s1) && WellOrdered(s2)
    requires s1.outTime - s1.inTime <= s2.outTime - s2.inTime
    ensures StayMinutes(s1) <= StayMinutes(s2)
  {
  }

  /** Of two priced tickets for the same spot and discount flag, the longer
      stay never costs less. */
  lemma {:induction false} LongerStayNeverCostsLess(fare: Fare, t1: Ticket, t2: Ticket, discount: bool)
    requires TimesValid(t1) && TimesValid(t2)
    requires fare.Positive()
    requires t1.parkingSpot == t2.parkingSpot
    requires SpanMillis(t1) <= SpanMillis(t2)
    requires CalculateFare(fare, t1, discount).Success? && CalculateFare(fare, t2, discount).Success?
    ensures CalculateFare(fare, t1, discount).value.price <= CalculateFare(fare, t2, discount).value.price
  {
    var s1 := Stay(t1.inTime.value, t1.outTime.value);
    var s2 := Stay(t2.inTime.value, t2.outTime.value);
    var m1, m2 := StayMinutes(s1), StayMinutes(s2);
    StayMinutesMonotone(s1, s2);
    if m1 >= GRACE_MINUTES {
      var rate := SpotRate(fare, t1.parkingSpot).value;
      assert CalculateFare(fare, t1, discount).value.price == Discounted(ProRata(m1, rate), discount);
      assert CalculateFare(fare, t2, discount).value.price == Discounted(ProRata(m2, rate), discount);
      ProRataMonotone(m1, m2, rate, discount);
    }
  }

  /** Truncating to whole minutes never overcharges: a priced stay costs at
      most its exact length in hours times the rate, and less than one
      minute's worth below it; with the discount, both bounds are scaled by
      0.95. */
  lemma {:induction false} TruncationNeverOvercharges(fare: Fare, t: Ticket, discount: bool)
    requires fare.Positive()
    requires TimesValid(t) && ListedType(t)
    requires SpanMillis(t) >= GRACE_MINUTES * MILLIS_PER_MINUTE
    ensures CalculateFare(fare, t, discount).Success?
    ensures CalculateFare(fare, t, discount).value.price
         <= (if discount then DISCOUNT_FACTOR else 1.0)
            * ((SpanMillis(t) as real) * RatePerHour(fare, TypeOf(t)) / 3_600_000.0)
    ensures CalculateFare(fare, t, discount).value.price
          > (if discount then DISCOUNT_FACTOR else 1.0)
            * (((SpanMillis(t) - MILLIS_PER_MINUTE) as real) * RatePerHour(fare, TypeOf(t)) / 3_600_000.0)
  {
    var m := StayMinutes(Stay(t.inTime.value, t.outTime.value));
    assert (m + 1) * MILLIS_PER_MINUTE > GRACE_MINUTES * MILLIS_PER_MINUTE;
    var rate := RatePerHour(fare, TypeOf(t));
    assert CalculateFare(fare, t, discount).value.price == Discounted(ProRata(m, rate), discount);
    TruncationBounds(m, SpanMillis(t), rate, discount);
  }
}

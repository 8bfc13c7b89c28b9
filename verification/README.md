# Parking fare calculation

A Dafny model of the fare rule of the ParkIt parking system,
`FareCalculatorService.calculateFare`. On exit, a ticket's entry and exit
times, the parking type of its spot and a recurring-user flag determine its
price:

1. **Time check.** A missing out time, or an out time strictly earlier than the
   in time, aborts the call before any price is set. An exit at the same
   millisecond as the entry is accepted.
2. **Duration.** The span in milliseconds is divided by 1000 and then by 60
   with integer division, giving truncated whole minutes.
3. **Grace period.** A stay under 30 minutes costs 0. This is decided before
   the spot's type is looked at, so even a spot with no usable type is priced
   at 0.
4. **Rate.** Otherwise the price is `minutes × hourly rate / 60`, using the
   CAR or BIKE rate. A null spot or null type is dereferenced (a
   `NullPointerException`). Any other enum constant reaches the `default`
   branch (an `IllegalArgumentException`).
5. **Discount.** With the flag set, the price is multiplied by 0.95.

The Java method changes `ticket.price` in place and returns nothing. Here,
`FareCalculator.CalculateFare` returns either the ticket with its new price
or the exception the method would throw. Every exception is thrown before
any `setPrice`, so a failed call leaves the ticket unchanged.

Modules:

- `Wrappers`: `Option` for nullable references and `Result` for a call
  that either returns or throws.
- `JavaLong`: Java `long` wrap-around subtraction and division that
  truncates toward zero.
- `ParkingModel`: parking types, spots and tickets, plus the pair of hourly rates (`Fare`), which every operation takes as a parameter.
- `FareCalculator`: the computation, step by step.
- `FareArithmetic`: facts about the price formula over the reals alone.
- `FareProperties`: what the computation promises, in terms of ticket
  fields and milliseconds.
- `StayOverflow`: the duration computed exactly as written (see Findings).
- `FareScenarios`: the test scenarios, each stated for every pair of clock readings a test can take.

In three places the intended behaviour and the code differ:

- Duration is truncated to whole minutes, not a fractional quantity. For
  example, 60×60×1002 ms is billed as 60 minutes. The model follows the code.
- A missing out time is a null dereference, not an invalid-range error. The
  code builds the error message from the null out time and fails while doing
  so. The model follows the code.
- The span `outHour - inHour` is a `long` subtraction, which wraps for stays
  longer than 2^63 − 1 ms (see Findings). Here `FareCalculator` and every
  lemma of `FareProperties` follow the intended exact span. `StayOverflow`
  keeps the code as written and proves that the two agree on every span a
  `long` can hold.

## Model

| member | source | states |
|---|---|---|
| JavaLong.Sub | parkingsystem/src/main/java/com/parkit/parkingsystem/service/FareCalculatorService.java:18-20 | `outHour - inHour` is the exact difference whenever it fits in a long, and otherwise differs from it by a multiple of 2^64 |
| JavaLong.Div | parkingsystem/src/main/java/com/parkit/parkingsystem/service/FareCalculatorService.java:20 | Java division by a positive constant truncates toward zero: the quotient is rounded down for a non-negative dividend and rounded up for a negative one |
| FareCalculator.CheckTimes | parkingsystem/src/main/java/com/parkit/parkingsystem/service/FareCalculatorService.java:14-16 | a ticket passes exactly when both times are present and the exit is not before the entry; a null out time is a null dereference; with both times present, every failure is an incorrect out time |
| FareCalculator.WholeMinutes | parkingsystem/src/main/java/com/parkit/parkingsystem/service/FareCalculatorService.java:20 | dividing milliseconds by 1000 and then by 60 gives the number of whole minutes in the span |
| FareCalculator.StayMinutes | parkingsystem/src/main/java/com/parkit/parkingsystem/service/FareCalculatorService.java:18-20 | the billed duration m satisfies m·60000 ≤ span < (m+1)·60000, i.e. whole minutes, truncated |
| FareCalculator.SpotRate | parkingsystem/src/main/java/com/parkit/parkingsystem/service/FareCalculatorService.java:27-36 | the switch yields a rate exactly for a spot whose type is CAR or BIKE; a null spot or null type fails as a null dereference; any other type fails as an unknown parking type |
| FareCalculator.PriceTicket | parkingsystem/src/main/java/com/parkit/parkingsystem/service/FareCalculatorService.java:22-41 | after the time check only the price changes, a non-negative duration never gives a negative price, and no failure happens inside the grace period |
| FareCalculator.CalculateFare | parkingsystem/src/main/java/com/parkit/parkingsystem/service/FareCalculatorService.java:13-43 | on success the result is the input ticket with only its price changed, and the price is non-negative; a failed time check is passed on unchanged |
| FareProperties.MissingOutTimeFaults | parkingsystem/src/main/java/com/parkit/parkingsystem/service/FareCalculatorService.java:14-15 | a null out time faults as a null dereference, whatever the rest of the ticket and the flag hold |
| FareProperties.RejectsExitBeforeEntry | parkingsystem/src/test/java/com/parkit/parkingsystem/FareCalculatorServiceTest.java:88-104 | the call fails with an incorrect out time if and only if both times are present and the exit is strictly before the entry |
| FareProperties.EqualTimesAreFree | parkingsystem/src/main/java/com/parkit/parkingsystem/service/FareCalculatorService.java:14 | an exit at the millisecond of entry is accepted and priced at 0 |
| FareProperties.GracePeriodIsFree | parkingsystem/src/main/java/com/parkit/parkingsystem/service/FareCalculatorService.java:22-25 | a valid stay under 30 minutes costs 0 for any spot and flag; with positive rates, a valid ticket is successfully priced at 0 exactly when its stay is under 30 minutes |
| FareProperties.ProRataAfterGrace | parkingsystem/src/main/java/com/parkit/parkingsystem/service/FareCalculatorService.java:27-41 | from 30 minutes on, a CAR or BIKE stay costs minutes × rate / 60, times 0.95 when discounted, with no rounding up to whole hours |
| FareProperties.UnpricedTypeFailsAfterGrace | parkingsystem/src/main/java/com/parkit/parkingsystem/service/FareCalculatorService.java:27-36 | from 30 minutes on, the call succeeds if and only if the spot has a CAR or BIKE type; a null spot, a null type and an unlisted type each fail with their own error |
| FareProperties.DiscountIsFivePercent | parkingsystem/src/main/java/com/parkit/parkingsystem/service/FareCalculatorService.java:39-41 | the flag never changes success or the error thrown, and on success it multiplies the price by exactly 0.95, once |
| FareProperties.OverloadWithoutDiscount | parkingsystem/src/main/java/com/parkit/parkingsystem/service/FareCalculatorService.java:9-11 | the one-argument overload, modelled by `FareCalculator.CalculateFareNoDiscount`, equals the two-argument call with the discount off, and the discounted price is 0.95 times it |
| FareProperties.StayMinutesMonotone | parkingsystem/src/main/java/com/parkit/parkingsystem/service/FareCalculatorService.java:18-20 | a longer span never has fewer whole minutes |
| FareProperties.LongerStayNeverCostsLess | parkingsystem/src/main/java/com/parkit/parkingsystem/service/FareCalculatorService.java:18-41 | for the same spot and flag, the longer of two priced stays never costs less |
| FareProperties.TruncationNeverOvercharges | parkingsystem/src/main/java/com/parkit/parkingsystem/service/FareCalculatorService.java:20-41 | a priced stay costs at most its exact length in hours times the rate, and less than one minute's worth below that; with the discount, both bounds are scaled by 0.95 |
| FareArithmetic.DiscountedProRata | parkingsystem/src/main/java/com/parkit/parkingsystem/service/FareCalculatorService.java:29-40 | the rate step followed by the discount step is one product: factor × minutes × rate / 60, where the factor is 0.95 with the discount and 1 without |
| FareArithmetic.ProRataMonotone | parkingsystem/src/main/java/com/parkit/parkingsystem/service/FareCalculatorService.java:29-40 | more minutes at a non-negative rate never cost less, with or without the discount |
| FareArithmetic.ProRataWithinAMinute | parkingsystem/src/main/java/com/parkit/parkingsystem/service/FareCalculatorService.java:20-33 | whole minutes billed at an hourly rate lie within one minute's worth below the exact span at that rate, and never above it |
| FareArithmetic.TruncationBounds | parkingsystem/src/main/java/com/parkit/parkingsystem/service/FareCalculatorService.java:20-41 | the same bounds hold after the discount step, scaled by its factor |
| StayOverflow.StayMinutesAsWritten | parkingsystem/src/main/java/com/parkit/parkingsystem/service/FareCalculatorService.java:18-20 | the duration computed in long arithmetic equals the whole minutes when the span fits in a long, and is at most 0 when it does not |
| StayOverflow.CalculateFareAsWritten | parkingsystem/src/main/java/com/parkit/parkingsystem/service/FareCalculatorService.java:13-43 | the method with the duration exactly as written changes only the price and passes a failed time check through |
| StayOverflow.AsWrittenAgreesWithinLongRange | parkingsystem/src/main/java/com/parkit/parkingsystem/service/FareCalculatorService.java:18-20 | for every span that fits in a long, the as-written and the corrected computation give the same result |
| StayOverflow.WrappedStayIsFree | parkingsystem/src/main/java/com/parkit/parkingsystem/service/FareCalculatorService.java:18-25 | as written, every valid stay longer than 2^63 − 1 ms is priced at 0 |
| StayOverflow.OverflowCounterexample | parkingsystem/src/main/java/com/parkit/parkingsystem/service/FareCalculatorService.java:18-25 | as written, a car entering at the earliest Date and leaving at the epoch pays 0, while the corrected computation charges it a positive price |
| FareScenarios.OneHourCostsHourlyRate | parkingsystem/src/test/java/com/parkit/parkingsystem/FareCalculatorServiceTest.java:34-68 | one hour, plus less than a minute until the exit is read, costs the type's hourly rate, or 95% of it with the discount (parkingsystem/src/test/java/com/parkit/parkingsystem/FareCalculatorServiceTest.java:201-237) |
| FareScenarios.SlightlyOverAnHourIsBilledAsAnHour | parkingsystem/src/test/java/com/parkit/parkingsystem/integration/ParkingDataBaseIT.java:86-102 | entering 60×60×1002 ms before one clock reading and leaving less than 52.8 s after it is billed as exactly one hour at the car rate, with or without the discount (parkingsystem/src/test/java/com/parkit/parkingsystem/integration/ParkingDataBaseIT.java:126-141) |
| FareScenarios.MockedExitCostsOneAndAHalf | parkingsystem/src/test/java/com/parkit/parkingsystem/ParkingServiceTest.java:53-68 | with a car rate of 1.5, one hour by car, plus less than a minute until the exit is read, without the discount costs 1.5 |
| FareScenarios.NullTypeFaults | parkingsystem/src/test/java/com/parkit/parkingsystem/FareCalculatorServiceTest.java:71-86 | one hour, plus less than a minute, on a spot with a null type faults as a null dereference |
| FareScenarios.FutureInTimeIsRejected | parkingsystem/src/test/java/com/parkit/parkingsystem/FareCalculatorServiceTest.java:88-104 | an in time one hour after the first clock reading, with the out time read less than a minute after it, is an illegal argument |
| FareScenarios.FortyFiveMinutesCostThreeQuarters | parkingsystem/src/test/java/com/parkit/parkingsystem/FareCalculatorServiceTest.java:106-142 | 45 minutes plus less than a minute cost 0.75 times the hourly rate for either type |
| FareScenarios.OneDayCostsTwentyFourHours | parkingsystem/src/test/java/com/parkit/parkingsystem/FareCalculatorServiceTest.java:144-161 | 24 hours plus less than a minute by car cost 24 times the car rate |
| FareScenarios.TwentyFiveMinutesAreFree | parkingsystem/src/test/java/com/parkit/parkingsystem/FareCalculatorServiceTest.java:163-199 | 25 minutes plus less than a minute cost 0 for either type |

## Findings

| source | as written | input that shows it | evidently intended | confidence | as-written member | corrected member |
|---|---|---|---|---|---|---|
| parkingsystem/src/main/java/com/parkit/parkingsystem/service/FareCalculatorService.java:18-20 | `outHour - inHour` is a long subtraction. It wraps to a negative value once a stay exceeds 2^63 − 1 ms, so the stay falls into the 30-minute grace branch and is priced at 0 | in time = Long.MIN_VALUE ms, out time = 0 ms, CAR spot: the wrapped span is −2^63 and the price is 0 | the duration is the exact elapsed time in whole minutes | high (not executed; the stay spans about 292 million years) | StayOverflow.StayMinutesAsWritten, StayOverflow.OverflowCounterexample | FareCalculator.StayMinutes, StayOverflow.AsWrittenAgreesWithinLongRange |

## Left out

- FareCalculator.StayMinutes: it computes the exact span, not the wrapping `long` subtraction of the code. So it, `FareCalculator.CalculateFare` and every `FareProperties` lemma agree with the code only for spans up to 2^63 − 1 ms (`StayOverflow.AsWrittenAgreesWithinLongRange`). Beyond that the code prices every stay at 0 (`StayOverflow.WrappedStayIsFree`), so, for example, `LongerStayNeverCostsLess` does not hold for the code as written.
- The entry and exit flows of `ParkingService` are not part of this model: spot allocation, ticket saving and updating, and freeing a spot only after a successful update. Its source is not among the files modelled, and the tests observe it only through mocks and a live database.
- The DAO and database layers (`TicketDAO`, `ParkingSpotDAO`, `getNbTicket`, SQL) are I/O. The recurring-user flag is an input to the model.
- `java.util.Date` and `System.currentTimeMillis()` are replaced by epoch milliseconds, within the range of a Java long. The test scenarios quantify over the clock reading.
- Prices are exact reals, and 0.95 is exact. IEEE double rounding is not modelled. Converting whole minutes to double is exact for every span two longs can differ by, so only the multiplications and the division are affected.
- The `Fare` class is not part of this model. Its two hourly rates are a parameter, `ParkingModel.Fare`, so every property holds for any rates. The properties that need it assume both rates are positive. The mocked exit's expected price of 1.5 implies the car rate is 1.5.
- The text of the exception messages is not modelled, including `Date.toString()` of the out time. An error records only its kind and, for an incorrect out time, that out time.
- Ticket.java, ParkingSpot.java and ParkingType.java are not part of this model. The datatypes follow how the tests build these objects. `Unlisted` stands for any enum constant other than CAR and BIKE.

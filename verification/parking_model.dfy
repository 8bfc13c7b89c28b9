/** The records the fare computation reads and writes: parking types, spots
    and tickets, with Java's nullable references as Options and
    `java.util.Date` values as epoch milliseconds. */
module ParkingModel {
  import opened Wrappers
  import JavaLong

  /** A point in time as `Date.getTime()` returns it: milliseconds since the epoch. */
  type Millis = JavaLong.Long

  /** The `ParkingType` enum. `Unlisted` stands for any constant other than
      CAR and BIKE, which the fare switch sends to its default branch. */
  datatype ParkingType = Car | Bike | Unlisted

  /** A parking spot; a null `ParkingType` is `None`. */
  datatype ParkingSpot = ParkingSpot(id: int, parkingType: Option<ParkingType>, isAvailable: bool)

  /** A ticket. Every reference field may be null, as on a freshly built
      `new Ticket()`. */
  datatype Ticket = Ticket(
    id: int,
    parkingSpot: Option<ParkingSpot>,
    vehicleRegNumber: Option<string>,
    price: real,
    inTime: Option<Millis>,
    outTime: Option<Millis>)

  /** The hourly rates, `Fare.CAR_RATE_PER_HOUR` and `Fare.BIKE_RATE_PER_HOUR`.
      They are a parameter of the model, so that every property holds for
      whatever values the constants have. */
  datatype Fare = Fare(carRatePerHour: real, bikeRatePerHour: real) {
    predicate Positive() {
      carRatePerHour > 0.0 && bikeRatePerHour > 0.0
    }
  }

  /** The rate the fare switch selects for a listed type. */
  function RatePerHour(fare: Fare, t: ParkingType): (rate: real)
    requires t != Unlisted
    ensures fare.Positive() ==> rate > 0.0
    ensures rate == fare.carRatePerHour || rate == fare.bikeRatePerHour
  {
    match t
    case Car => fare.carRatePerHour
    case Bike => fare.bikeRatePerHour
  }
}

/** The rows of the trips table that the analytics read. */
module Trips {
  /**
   * One trip. `origin` and `destination` are the raw coordinate texts of
   * `origin_coord` and `destination_coord`; `day` (days since 1970-01-01) and
   * `hour` are the local calendar day and hour of its `datetime`.
   */
  datatype Trip = Trip(
    region: string,
    origin: string,
    destination: string,
    day: int,
    hour: int,
    datasource: string)
}

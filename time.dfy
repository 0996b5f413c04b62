/**
  Python `datetime` values as integer microseconds counted from
  `datetime.min` (00:00 on 1 January of year 1), the resolution of
  `datetime` and `timedelta`.
 */
module Time {
  const Second: int := 1_000_000
  /** `datetime.min`. */
  const DateTimeMin: int := 0
}

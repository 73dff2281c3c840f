/** WordPress's time constants, in seconds, shared by the plugin and the dashboard. */
module WpTime {
  const MINUTE_IN_SECONDS: int := 60
  const HOUR_IN_SECONDS: int := 60 * MINUTE_IN_SECONDS
  const DAY_IN_SECONDS: int := 24 * HOUR_IN_SECONDS
  const MONTH_IN_SECONDS: int := 30 * DAY_IN_SECONDS
}

/** Lengths of time in milliseconds, shared by the timeline and history
    pages. */
module Durations {
  const MinuteMs: int := 60000
  const HourMs: int := 3600000
  const DayMs: int := 86400000
}

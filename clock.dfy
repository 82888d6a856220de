/** Points in time, as read from `Time.current`; the model passes them in. */
module Clock {
  type Time = int
}

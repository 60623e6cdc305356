/** The result types shared by the models. */
module Results {

  datatype Option<+T> = None | Some(value: T)

  /** What the programs report: zero, `AVERROR(EINVAL)`, or a failed allocation. */
  datatype Status = Success | InvalidData | OutOfMemory
}

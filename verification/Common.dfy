/** What several modules share. */
module Common {
  datatype Option<+T> = None | Some(value: T)

  const U32: nat := 0x1_0000_0000

  const PAGE: nat := 4096

  /** The state word of a thread descriptor. */
  datatype DescState = Unused | Running | Exited | Reaping
}

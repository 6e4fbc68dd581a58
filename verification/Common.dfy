/** What several components share. */
module Common {

  datatype Option<+T> = None | Some(value: T)

  /** UINT and ULONG are 32 bits wide. */
  const UINT_SIZE := 0x1_0000_0000

  /** NX_SUCCESS, NX_AZURE_IOT_SUCCESS */
  const SUCCESS := 0x0
}

/** Types and small functions that several modules share. */
module Common {

  datatype Option<+T> = None | Some(value: T)

  /** A call of endp_tx_set_new_buffer made inside tx_complete. */
  datatype Rearm = Rearm(ptr: nat, size: nat)

  function Min(a: nat, b: nat): nat { if a < b then a else b }
}

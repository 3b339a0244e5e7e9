/** The F3DZEX2 microcode (gbi/f3dzex2.rs): its setup registers exactly
    the F3DEX2 handlers. */
module F3dzex2 {
  import opened Gbi
  import F3dex2

  /** F3DZEX2's setup: the F3DEX2 registrations. */
  function Setup(table: OpcodeTable<F3dex2.Handler>): (r: OpcodeTable<F3dex2.Handler>)
    ensures r.Keys == table.Keys + F3dex2.REGISTERED
    ensures forall o :: o in F3dex2.REGISTERED ==> r[o] == F3dex2.Setup(map[])[o]
    ensures forall o :: o in table && o !in F3dex2.REGISTERED ==> r[o] == table[o]
  {
    F3dex2.Setup(table)
  }
}

/** The GBI command dispatcher (gbi.rs): the result a command handler
    hands back to the display-list loop, the opcode table handlers are
    registered in, and the lookup by a command's top byte. The table is
    generic in what it stores; a microcode module supplies the handlers and
    the function that runs one. */
module Gbi {
  import opened Base
  import opened Defines
  import opened Rsp

  /** What the display-list loop does after a command: move to the next
      command, stay, skip one, jump, run a nested list, or end this list. */
  datatype GbiResult =
    | Continue
    | Decrease
    | Increase
    | SetAddressWithDecrease(address: u32)
    | Recurse(target: u32)
    | Return

  /** A handler's effect: the RSP after the command and the loop's next move. */
  datatype Handled = Handled(rsp: RspState, next: GbiResult)

  /** 2^24: the opcode is the top byte of `w0`. */
  const OPCODE_SHIFT: nat := 0x100_0000

  type OpcodeTable<H> = map<nat, H>

  function NewTable<H>(): (table: OpcodeTable<H>)
    ensures forall opcode :: opcode !in table
  {
    map[]
  }

  /** Registers `handler` for `opcode`, replacing an earlier registration
      and leaving every other opcode as it was. */
  function Register<H>(table: OpcodeTable<H>, opcode: nat, handler: H): (r: OpcodeTable<H>)
    ensures r.Keys == table.Keys + {opcode}
    ensures r[opcode] == handler
    ensures forall o :: o in table && o != opcode ==> r[o] == table[o]
  {
    table[opcode := handler]
  }

  /** The opcode of a command: its top byte. */
  function Opcode(cmd: Gfx): (opcode: nat)
    ensures opcode < 256
    ensures opcode == GetC0(cmd.w0, 24, 8)
  {
    Pow2Values();
    cmd.w0 / OPCODE_SHIFT
  }

  /** `GBI::handle_command`: runs the handler registered for the command's
      opcode, and fails with the opcode when none is. */
  function HandleCommand<H>(table: OpcodeTable<H>, run: (H, RspState, Gfx) -> Result<Handled>, rsp: RspState, cmd: Gfx): (r: Result<Handled>)
    ensures Opcode(cmd) !in table ==> r == Err(UnknownOpcode(Opcode(cmd)))
    ensures Opcode(cmd) in table ==> r == run(table[Opcode(cmd)], rsp, cmd)
  {
    var opcode := Opcode(cmd);
    if opcode in table then run(table[opcode], rsp, cmd) else Err(UnknownOpcode(opcode))
  }

  /** A table with nothing registered rejects every command. */
  lemma EmptyTableRejectsEverything<H>(run: (H, RspState, Gfx) -> Result<Handled>, rsp: RspState, cmd: Gfx)
    ensures HandleCommand(NewTable(), run, rsp, cmd) == Err(UnknownOpcode(cmd.w0 / OPCODE_SHIFT))
  {
  }
}

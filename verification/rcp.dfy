/** The display-list interpreter (rcp.rs) and the GBI setup it triggers
    (gbi.rs). `process_displaylist` loops over 8-byte command records,
    handing each to the handler for its opcode and moving by what the
    handler returns; a nested call runs to its own end and then resumes.
    The source loop has no bound; the model runs on a step budget (`fuel`)
    and fails when it is exhausted. */
module Rcp {
  import opened Base
  import opened Defines
  import opened Rsp
  import opened Gbi
  import F3dex2
  import F3dzex2

  /** Runs one command: the handler lookup and the handler itself. */
  type Dispatch = (RspState, Gfx) -> Result<Handled>

  /** The command record at each byte address. */
  type Fetch = int -> Result<Gfx>

  /** A finished list: the RSP afterwards and the unused step budget. */
  datatype Execution = Execution(rsp: RspState, fuel: nat)

  /** The command record at byte address `pc`. */
  function ReadCommand(mem: Memory, pc: int): (r: Result<Gfx>)
    ensures r.Ok? <==> ReadWords(mem, pc, 2).Ok?
    ensures r.Ok? ==> GfxWords(r.value) == ReadWords(mem, pc, 2).value
  {
    var words :- ReadWords(mem, pc, 2);
    Ok(GfxFromWords(words))
  }

  /** Commands read from RDRAM. */
  function Fetcher(mem: Memory): (fetch: Fetch)
    ensures forall pc :: fetch(pc) == ReadCommand(mem, pc)
  {
    pc => ReadCommand(mem, pc)
  }

  /** Where the loop continues after a command that neither ends the list
      nor calls another: the handler's move (back one record, forward one,
      or to `address` minus one record), followed by the loop's own step
      forward by one record. */
  function NextPc(pc: int, next: GbiResult): (r: int)
    requires !next.Return? && !next.Recurse?
    ensures next == Continue ==> r == pc + GFX_SIZE
    ensures next == Increase ==> r == pc + 2 * GFX_SIZE
    ensures next == Decrease ==> r == pc
    ensures next.SetAddressWithDecrease? ==> r == next.address
  {
    match next
    case Continue => pc + GFX_SIZE
    case Increase => pc + GFX_SIZE + GFX_SIZE
    case Decrease => pc - GFX_SIZE + GFX_SIZE
    case SetAddressWithDecrease(address) => address - GFX_SIZE + GFX_SIZE
  }

  /** `RCP::process_displaylist` from the record at `pc`, with at most
      `fuel` commands run (nested lists included). */
  function ProcessDisplayList(dispatch: Dispatch, fetch: Fetch, rsp: RspState, pc: int, fuel: nat): (r: Result<Execution>)
    decreases fuel
    ensures r.Ok? ==> r.value.fuel < fuel
    ensures fuel == 0 ==> r == Err(OutOfFuel)
  {
    if fuel == 0 then
      Err(OutOfFuel)
    else
      var cmd :- fetch(pc);
      var handled :- dispatch(rsp, cmd);
      match handled.next
      case Return =>
        Ok(Execution(handled.rsp, fuel - 1))
      case Recurse(target) =>
        var inner :- ProcessDisplayList(dispatch, fetch, handled.rsp, target, fuel - 1);
        ProcessDisplayList(dispatch, fetch, inner.rsp, pc + GFX_SIZE, inner.fuel)
      case _ =>
        ProcessDisplayList(dispatch, fetch, handled.rsp, NextPc(pc, handled.next), fuel - 1)
  }

  /** A command that returns ends the list it is in, with the handler's RSP. */
  lemma ReturnEndsList(dispatch: Dispatch, fetch: Fetch, rsp: RspState, pc: int, fuel: nat)
    requires fuel > 0 && fetch(pc).Ok?
    requires dispatch(rsp, fetch(pc).value).Ok?
    requires dispatch(rsp, fetch(pc).value).value.next == Return
    ensures ProcessDisplayList(dispatch, fetch, rsp, pc, fuel)
         == Ok(Execution(dispatch(rsp, fetch(pc).value).value.rsp, fuel - 1))
  {
  }

  /** A call runs the nested list to its end and resumes at the record
      after the call. */
  lemma CallResumesAfterCall(dispatch: Dispatch, fetch: Fetch, rsp: RspState, pc: int, fuel: nat, target: u32)
    requires fuel > 0 && fetch(pc).Ok?
    requires dispatch(rsp, fetch(pc).value).Ok?
    requires dispatch(rsp, fetch(pc).value).value.next == Recurse(target)
    requires ProcessDisplayList(dispatch, fetch, dispatch(rsp, fetch(pc).value).value.rsp, target, fuel - 1).Ok?
    ensures var inner := ProcessDisplayList(dispatch, fetch, dispatch(rsp, fetch(pc).value).value.rsp, target, fuel - 1).value;
      ProcessDisplayList(dispatch, fetch, rsp, pc, fuel) == ProcessDisplayList(dispatch, fetch, inner.rsp, pc + GFX_SIZE, inner.fuel)
  {
  }

  /** A dispatch none of whose commands ever ends a list. */
  ghost predicate NeverReturns(dispatch: Dispatch) {
    forall rsp, cmd :: dispatch(rsp, cmd).Ok? ==> dispatch(rsp, cmd).value.next != Return
  }

  /** Without a command that returns, no list ever ends: every run stops
      with an error (an unknown opcode, a failed read or handler, or an
      exhausted budget). */
  lemma {:induction false} NoReturnNoFinish(dispatch: Dispatch, fetch: Fetch, rsp: RspState, pc: int, fuel: nat)
    requires NeverReturns(dispatch)
    ensures ProcessDisplayList(dispatch, fetch, rsp, pc, fuel).Err?
    decreases fuel
  {
    if fuel > 0 && fetch(pc).Ok? && dispatch(rsp, fetch(pc).value).Ok? {
      var handled := dispatch(rsp, fetch(pc).value).value;
      match handled.next
      case Return =>
      case Recurse(target) =>
        NoReturnNoFinish(dispatch, fetch, handled.rsp, target, fuel - 1);
      case _ =>
        NoReturnNoFinish(dispatch, fetch, handled.rsp, NextPc(pc, handled.next), fuel - 1);
    }
  }

  /** The budget only bounds the run: a run that finishes finishes the
      same way with more fuel, the extra fuel left over. */
  lemma {:induction false} MoreFuelSameResult(dispatch: Dispatch, fetch: Fetch, rsp: RspState, pc: int, fuel: nat, extra: nat)
    requires ProcessDisplayList(dispatch, fetch, rsp, pc, fuel).Ok?
    ensures ProcessDisplayList(dispatch, fetch, rsp, pc, fuel + extra)
         == Ok(ProcessDisplayList(dispatch, fetch, rsp, pc, fuel).value.(fuel := ProcessDisplayList(dispatch, fetch, rsp, pc, fuel).value.fuel + extra))
    decreases fuel, 1
  {
    var handled := dispatch(rsp, fetch(pc).value).value;
    if handled.next.Recurse? {
      var inner := ProcessDisplayList(dispatch, fetch, handled.rsp, handled.next.target, fuel - 1).value;
      CallUnfolds(dispatch, fetch, rsp, pc, fuel, handled, inner);
      MoreFuelAfterCall(dispatch, fetch, rsp, pc, fuel, extra, handled, inner);
    } else if !handled.next.Return? {
      MoreFuelAfterStep(dispatch, fetch, rsp, pc, fuel, extra);
    }
  }

  /** After a call whose nested list finishes in `inner`, more fuel leaves
      both the nested list and the rest of the list unchanged. */
  lemma {:induction false} MoreFuelAfterCall(dispatch: Dispatch, fetch: Fetch, rsp: RspState, pc: int, fuel: nat, extra: nat,
                                             handled: Handled, inner: Execution)
    requires fuel > 0 && fetch(pc).Ok?
    requires dispatch(rsp, fetch(pc).value) == Ok(handled) && handled.next.Recurse?
    requires ProcessDisplayList(dispatch, fetch, handled.rsp, handled.next.target, fuel - 1) == Ok(inner)
    requires ProcessDisplayList(dispatch, fetch, inner.rsp, pc + GFX_SIZE, inner.fuel).Ok?
    ensures ProcessDisplayList(dispatch, fetch, rsp, pc, fuel + extra)
         == Ok(ProcessDisplayList(dispatch, fetch, inner.rsp, pc + GFX_SIZE, inner.fuel).value.(
                 fuel := ProcessDisplayList(dispatch, fetch, inner.rsp, pc + GFX_SIZE, inner.fuel).value.fuel + extra))
    decreases fuel, 0
  {
    MoreFuelSameResult(dispatch, fetch, handled.rsp, handled.next.target, fuel - 1, extra);
    CallUnfolds(dispatch, fetch, rsp, pc, fuel + extra, handled, inner.(fuel := inner.fuel + extra));
    MoreFuelSameResult(dispatch, fetch, inner.rsp, pc + GFX_SIZE, inner.fuel, extra);
  }

  /** A call whose nested list finishes continues after the call. */
  lemma CallUnfolds(dispatch: Dispatch, fetch: Fetch, rsp: RspState, pc: int, fuel: nat, handled: Handled, inner: Execution)
    requires fuel > 0 && fetch(pc).Ok?
    requires dispatch(rsp, fetch(pc).value) == Ok(handled) && handled.next.Recurse?
    requires ProcessDisplayList(dispatch, fetch, handled.rsp, handled.next.target, fuel - 1) == Ok(inner)
    ensures ProcessDisplayList(dispatch, fetch, rsp, pc, fuel) == ProcessDisplayList(dispatch, fetch, inner.rsp, pc + GFX_SIZE, inner.fuel)
  {
  }

  lemma {:induction false} MoreFuelAfterStep(dispatch: Dispatch, fetch: Fetch, rsp: RspState, pc: int, fuel: nat, extra: nat)
    requires ProcessDisplayList(dispatch, fetch, rsp, pc, fuel).Ok?
    requires !dispatch(rsp, fetch(pc).value).value.next.Recurse?
    requires !dispatch(rsp, fetch(pc).value).value.next.Return?
    ensures ProcessDisplayList(dispatch, fetch, rsp, pc, fuel + extra)
         == Ok(ProcessDisplayList(dispatch, fetch, rsp, pc, fuel).value.(fuel := ProcessDisplayList(dispatch, fetch, rsp, pc, fuel).value.fuel + extra))
    decreases fuel, 0
  {
    var handled := dispatch(rsp, fetch(pc).value).value;
    MoreFuelSameResult(dispatch, fetch, handled.rsp, NextPc(pc, handled.next), fuel - 1, extra);
  }

  // ---------------------------------------------------------------------
  // The RCP and its GBI

  /** The compile-time microcode features. */
  datatype Features = Features(f3dex2: bool, f3dzex2: bool)

  /** `GBI::setup`: F3DZEX2's handlers when that feature is on, otherwise
      F3DEX2's when that one is, otherwise nothing. The branches are chosen
      with `cfg!`, so both must compile; since the f3dzex2 module imports
      the f3dex2 one, only the build with both features exists, and the
      other cases are stated for completeness. */
  function SetupGbi(features: Features, table: OpcodeTable<F3dex2.Handler>): (r: OpcodeTable<F3dex2.Handler>)
    ensures !features.f3dex2 && !features.f3dzex2 ==> r == table
    ensures features.f3dex2 || features.f3dzex2 ==> r.Keys == table.Keys + F3dex2.REGISTERED
    ensures features.f3dex2 || features.f3dzex2 ==> r == F3dex2.Setup(table)
  {
    if features.f3dzex2 then F3dzex2.Setup(table)
    else if features.f3dex2 then F3dex2.Setup(table)
    else table
  }

  /** The RCP: the RSP and the GBI opcode table. The RDP's state is not
      read by any modelled command and is left out. */
  datatype RcpState = RcpState(rsp: RspState, gbi: OpcodeTable<F3dex2.Handler>)

  function NewRcp(): (rcp: RcpState)
    ensures rcp.rsp == NewRsp() && rcp.gbi == map[]
  {
    RcpState(NewRsp(), NewTable())
  }

  /** `RCP::initialize`: sets up the GBI for the enabled microcode. */
  function Initialize(rcp: RcpState, features: Features): (r: RcpState)
    ensures r.rsp == rcp.rsp
    ensures r.gbi == SetupGbi(features, rcp.gbi)
  {
    rcp.(gbi := SetupGbi(features, rcp.gbi))
  }

  /** Commands dispatched through `table` with F3DEX2's handlers. */
  function F3dex2Dispatch(env: F3dex2.Env, table: OpcodeTable<F3dex2.Handler>): Dispatch {
    (rsp, cmd) => HandleCommand(table, (h, r, c) => F3dex2.Apply(env, h, r, c), rsp, cmd)
  }

  /** `RCP::process_displaylist` on the RCP's own RSP and table. */
  function RunDisplayList(rcp: RcpState, env: F3dex2.Env, pc: int, fuel: nat): (r: Result<RcpState>)
    ensures r.Ok? ==> r.value.gbi == rcp.gbi
  {
    var done :- ProcessDisplayList(F3dex2Dispatch(env, rcp.gbi), Fetcher(env.mem), rcp.rsp, pc, fuel);
    Ok(rcp.(rsp := done.rsp))
  }

  /** No F3DEX2 handler ends a list, whatever the table holds. */
  lemma F3dex2NeverReturns(env: F3dex2.Env, table: OpcodeTable<F3dex2.Handler>)
    ensures NeverReturns(F3dex2Dispatch(env, table))
  {
    var dispatch := F3dex2Dispatch(env, table);
    forall rsp, cmd | dispatch(rsp, cmd).Ok?
      ensures dispatch(rsp, cmd).value.next != Return
    {
      var opcode := Opcode(cmd);
      assert opcode in table;
      assert dispatch(rsp, cmd) == F3dex2.Apply(env, table[opcode], rsp, cmd);
    }
  }

  /** Since no F3DEX2 handler ends a list and G_ENDDL has no handler, a
      display list never finishes normally under either microcode setup:
      the loop stops only by failing. */
  lemma F3dex2ListsNeverFinish(rcp: RcpState, env: F3dex2.Env, features: Features, pc: int, fuel: nat)
    ensures RunDisplayList(rcp, env, pc, fuel).Err?
    ensures RunDisplayList(Initialize(NewRcp(), features), env, pc, fuel).Err?
  {
    F3dex2NeverReturns(env, rcp.gbi);
    NoReturnNoFinish(F3dex2Dispatch(env, rcp.gbi), Fetcher(env.mem), rcp.rsp, pc, fuel);
    var initialized := Initialize(NewRcp(), features);
    F3dex2NeverReturns(env, initialized.gbi);
    NoReturnNoFinish(F3dex2Dispatch(env, initialized.gbi), Fetcher(env.mem), initialized.rsp, pc, fuel);
  }

  /** Before initialisation the table is empty: the first command read fails. */
  lemma UninitializedRejectsFirstCommand(env: F3dex2.Env, pc: int, fuel: nat)
    requires fuel > 0 && ReadCommand(env.mem, pc).Ok?
    ensures RunDisplayList(NewRcp(), env, pc, fuel) == Err(UnknownOpcode(Opcode(ReadCommand(env.mem, pc).value)))
  {
  }
}

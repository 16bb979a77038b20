/** The scan window of the bot's main loop: which blocks each cycle reads
    events from, and when the last processed block advances. A cycle is one
    pass of the loop body; the finalized block and the events in a block
    range are inputs. */
module MainLoop {
  import opened Wrappers
  import opened TriggerExitBot

  const SECONDS_PER_DAY: nat := 24 * 60 * 60

  /** `LOOKBACK_DAYS` and `SLOT_TIME`. */
  datatype Config = Config(lookbackDays: int, slotTime: nat)

  /** What survives from one cycle to the next. */
  datatype LoopState = LoopState(lastProcessedBlock: Option<nat>, bot: BotState)

  const START: LoopState := LoopState(None, INITIAL)

  /** The block range a cycle asks for, both ends included. */
  datatype Window = Window(fromBlock: int, toBlock: nat)

  /** The exceptions that leave the loop: the account balance could not be
      read, or the finalized block has no number. */
  datatype Fatal = BalanceReadFailed | FinalizedWithoutNumber

  /** What the loop reads from the chain at the top of a cycle: the view of
      the chain the cycle runs against, whether reading the account balance
      raises, and the finalized block's number. */
  datatype Poll = Poll(env: Env, balanceRaises: bool, finalized: Option<nat>)

  /** The top of the loop reads what a cycle needs without raising. */
  predicate Readable(p: Poll) {
    !(p.env.account.Some? && p.balanceRaises) && p.finalized.Some?
  }

  /** How many blocks the first run looks back. */
  function LookbackBlocks(cfg: Config): int
    requires cfg.slotTime > 0
  {
    cfg.lookbackDays * (SECONDS_PER_DAY / cfg.slotTime)
  }

  /** The first block of a cycle's window: `LOOKBACK_DAYS` days of blocks
      before the finalized block on the first run (never below block 0),
      the block after the last processed one afterwards. */
  function FromBlock(last: Option<nat>, finalized: nat, cfg: Config): (r: int)
    requires cfg.slotTime > 0
    ensures last.Some? ==> r == last.value + 1
    ensures last.None? ==> 0 <= r
    ensures last.None? ==> r == 0 || r == finalized - LookbackBlocks(cfg)
    ensures last.None? ==> r >= finalized - LookbackBlocks(cfg)
    ensures last.None? && cfg.lookbackDays >= 0 ==> r <= finalized
  {
    match last
    case Some(b) => b + 1
    case None =>
      var lookback := LookbackBlocks(cfg);
      NonNegativeProduct(cfg.lookbackDays, SECONDS_PER_DAY / cfg.slotTime);
      if finalized - lookback >= 0 then finalized - lookback else 0
  }

  lemma NonNegativeProduct(a: int, b: int)
    ensures a >= 0 && b >= 0 ==> a * b >= 0
  {
  }

  /** What one cycle did. `succeeded` says whether `trigger_exits` returned
      normally; the bot state keeps what the cycle changed either way, and
      `actions` holds every action the cycle issued, before an exception
      included. */
  datatype Cycle = Cycle(state: LoopState, window: Window, succeeded: bool, actions: seq<Action>)

  /** One pass of the loop body. The balance is read only when an account
      is configured; that read and the finalized-block read sit outside the
      handler that catches a failing cycle, so their failures end the loop. */
  function RunCycle(ls: LoopState, p: Poll, eventsIn: Window -> seq<Event>, cfg: Config): (r: Result<Cycle, Fatal>)
    requires cfg.slotTime > 0
    ensures p.env.account.Some? && p.balanceRaises ==> r == Failure(BalanceReadFailed)
    ensures !(p.env.account.Some? && p.balanceRaises) && p.finalized.None? ==> r == Failure(FinalizedWithoutNumber)
    ensures r.Success? <==> Readable(p)
    ensures r.Success? ==>
      var w := Window(FromBlock(ls.lastProcessedBlock, p.finalized.value, cfg), p.finalized.value);
      var step := TriggerExitsCycle(ls.bot, p.env, eventsIn(w));
      && r.value.window == w
      && r.value.state.bot == step.state
      && r.value.actions == step.actions
      && (r.value.succeeded <==> step.error.None?)
      && (r.value.succeeded ==> r.value.state.lastProcessedBlock == Some(p.finalized.value))
      && (!r.value.succeeded ==> r.value.state.lastProcessedBlock == ls.lastProcessedBlock)
  {
    if p.env.account.Some? && p.balanceRaises then Failure(BalanceReadFailed)
    else
      match p.finalized
      case None => Failure(FinalizedWithoutNumber)
      case Some(f) =>
        var w := Window(FromBlock(ls.lastProcessedBlock, f, cfg), f);
        var step := TriggerExitsCycle(ls.bot, p.env, eventsIn(w));
        var last := if step.error.None? then Some(f) else ls.lastProcessedBlock;
        Success(Cycle(LoopState(last, step.state), w, step.error.None?, step.actions))
  }

  /** After a successful cycle the next one starts right after the block the
      successful one ended at: consecutive windows neither overlap nor leave
      a gap. */
  lemma AdjacentWindows(ls: LoopState, p1: Poll, p2: Poll, eventsIn: Window -> seq<Event>, cfg: Config)
    requires cfg.slotTime > 0
    requires Readable(p1) && Readable(p2)
    requires RunCycle(ls, p1, eventsIn, cfg).value.succeeded
    ensures var c1 := RunCycle(ls, p1, eventsIn, cfg).value;
      var c2 := RunCycle(c1.state, p2, eventsIn, cfg).value;
      c2.window.fromBlock == c1.window.toBlock + 1
  {
  }

  /** A failed cycle leaves the last processed block where it was, so the
      next window starts where it would have started had the failed cycle
      not run: after an earlier success, at the same block as the failed
      window, so no event is skipped; before any success, `LOOKBACK_DAYS`
      before the new finalized block. */
  lemma FailedCycleRetried(ls: LoopState, p1: Poll, p2: Poll, eventsIn: Window -> seq<Event>, cfg: Config)
    requires cfg.slotTime > 0
    requires Readable(p1) && Readable(p2)
    requires !RunCycle(ls, p1, eventsIn, cfg).value.succeeded
    ensures var c1 := RunCycle(ls, p1, eventsIn, cfg).value;
      var c2 := RunCycle(c1.state, p2, eventsIn, cfg).value;
      && c2.window == RunCycle(ls, p2, eventsIn, cfg).value.window
      && (ls.lastProcessedBlock.Some? ==> c2.window.fromBlock == c1.window.fromBlock)
      && (ls.lastProcessedBlock.None? ==> c2.window.fromBlock == FromBlock(None, p2.finalized.value, cfg))
  {
  }

  /** The loop's state stays well-formed from cycle to cycle, and a cycle
      only fails while reading events. */
  lemma CyclePreservesWf(ls: LoopState, p: Poll, eventsIn: Window -> seq<Event>, cfg: Config)
    requires cfg.slotTime > 0
    requires Readable(p)
    requires Wf(p.env, ls.bot)
    ensures var c := RunCycle(ls, p, eventsIn, cfg).value;
      && Wf(p.env, c.state.bot)
      && ActionsSafe(p.env, c.actions)
    ensures var w := RunCycle(ls, p, eventsIn, cfg).value.window;
      var step := TriggerExitsCycle(ls.bot, p.env, eventsIn(w));
      step.error.Some? ==> step.error.value.MissingTransaction? || step.error.value.UndecodableInput?
  {
    var w := RunCycle(ls, p, eventsIn, cfg).value.window;
    CycleUnderWf(p.env, ls.bot, eventsIn(w));
  }

  /** Runs the loop over a series of reads until the first fatal one;
      returns the cycles run. */
  function Run(ls: LoopState, polls: seq<Poll>, eventsIn: Window -> seq<Event>, cfg: Config): (cycles: seq<Cycle>)
    requires cfg.slotTime > 0
    ensures |cycles| <= |polls|
    ensures forall i :: 0 <= i < |cycles| ==> Readable(polls[i])
    ensures |cycles| < |polls| ==> !Readable(polls[|cycles|])
    ensures forall i :: 0 <= i < |cycles| ==>
      cycles[i] == RunCycle(if i == 0 then ls else cycles[i - 1].state, polls[i], eventsIn, cfg).value
    decreases |polls|
  {
    if |polls| == 0 then []
    else
      match RunCycle(ls, polls[0], eventsIn, cfg)
      case Failure(_) => []
      case Success(c) =>
        var rest := Run(c.state, polls[1..], eventsIn, cfg);
        [c] + rest
  }

  /** Across a whole run, every successful cycle is followed by a window
      that starts right after it. */
  lemma RunWindowsAdjacent(ls: LoopState, polls: seq<Poll>, eventsIn: Window -> seq<Event>, cfg: Config)
    requires cfg.slotTime > 0
    ensures var cycles := Run(ls, polls, eventsIn, cfg);
      forall i :: 0 < i < |cycles| && cycles[i - 1].succeeded ==>
        cycles[i].window.fromBlock == cycles[i - 1].window.toBlock + 1
  {
    var cycles := Run(ls, polls, eventsIn, cfg);
    forall i | 0 < i < |cycles| && cycles[i - 1].succeeded
      ensures cycles[i].window.fromBlock == cycles[i - 1].window.toBlock + 1
    {
      var prev := if i - 1 == 0 then ls else cycles[i - 2].state;
      assert cycles[i - 1] == RunCycle(prev, polls[i - 1], eventsIn, cfg).value;
      assert cycles[i - 1].state.lastProcessedBlock == Some(polls[i - 1].finalized.value);
      assert cycles[i] == RunCycle(cycles[i - 1].state, polls[i], eventsIn, cfg).value;
    }
  }

  /** Every cycle of `cycles` leaves a well-formed bot state. */
  ghost predicate AllWf(env: Env, cycles: seq<Cycle>) {
    forall i :: 0 <= i < |cycles| ==> Wf(env, cycles[i].state.bot)
  }

  lemma AllWfCons(env: Env, c: Cycle, rest: seq<Cycle>)
    requires Wf(env, c.state.bot) && AllWf(env, rest)
    ensures AllWf(env, [c] + rest)
  {
    var cs := [c] + rest;
    forall i | 0 <= i < |cs| ensures Wf(env, cs[i].state.bot) {
      if i > 0 {
        assert cs[i] == rest[i - 1];
      }
    }
  }

  /** A run whose first read succeeds is that cycle followed by the run
      from the state it left. */
  lemma RunCons(ls: LoopState, polls: seq<Poll>, eventsIn: Window -> seq<Event>, cfg: Config)
    requires cfg.slotTime > 0
    requires |polls| > 0 && Readable(polls[0])
    ensures var c := RunCycle(ls, polls[0], eventsIn, cfg).value;
      Run(ls, polls, eventsIn, cfg) == [c] + Run(c.state, polls[1..], eventsIn, cfg)
  {
  }

  /** A run that starts from a well-formed bot state stays well-formed after
      every cycle, failed ones included, however the chain's answers change
      between cycles, provided the key digest stays the same. */
  lemma {:induction false} RunPreservesWf(ls: LoopState, env: Env, polls: seq<Poll>, eventsIn: Window -> seq<Event>, cfg: Config)
    requires cfg.slotTime > 0
    requires Wf(env, ls.bot)
    requires forall i :: 0 <= i < |polls| ==> polls[i].env.digest == env.digest
    ensures AllWf(env, Run(ls, polls, eventsIn, cfg))
    decreases |polls|
  {
    if |polls| > 0 && Readable(polls[0]) {
      var p := polls[0];
      var c := RunCycle(ls, p, eventsIn, cfg).value;
      WfSameDigest(env, p.env, ls.bot);
      CyclePreservesWf(ls, p, eventsIn, cfg);
      WfSameDigest(p.env, env, c.state.bot);
      assert forall i :: 0 <= i < |polls[1..]| ==> polls[1..][i] == polls[i + 1];
      RunPreservesWf(c.state, env, polls[1..], eventsIn, cfg);
      RunCons(ls, polls, eventsIn, cfg);
      AllWfCons(env, c, Run(c.state, polls[1..], eventsIn, cfg));
    }
  }
}

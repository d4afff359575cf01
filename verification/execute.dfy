/** The end of do_command: the command's switch over the engine calls, and
    do_command as a whole, from the argument vector to the engine's
    answer. */
module Execution {
  import opened Common
  import opened Ipv4
  import opened Legality
  import opened Extensions
  import opened Rule
  import opened Command
  import opened Dispatch

  /** The commands the switch has a case for: each single command but
      CHECK, and the listing that zeroes afterwards. */
  predicate Known(command: bv32) {
    command == CmdAppend || command == CmdDelete || command == CmdDeleteNum || command == CmdReplace ||
    command == CmdInsert || command == CmdList || command == CmdFlush || command == CmdZero ||
    command == CmdList | CmdZero || command == CmdNewChain || command == CmdDeleteChain ||
    command == CmdRenameChain || command == CmdSetPolicy
  }

  /** What a rule command needs of the rule and the target list: one
      address on each side for a replacement, a sized target at the head of
      the list for a deletion. */
  predicate RuleReady(command: bv32, a: Addressed, targets: seq<Extension>, matches: seq<Extension>) {
    (command == CmdReplace ==> |a.saddrs| == 1 && |a.daddrs| == 1) &&
    (command == CmdDelete ==> |targets| > 0 && Sized(matches) && targets[0].userspacesize <= targets[0].size)
  }

  /** The engine calls of a rule command. */
  function RulePlan(command: bv32, chain: string, rulenum: nat, a: Addressed, e: Entry,
                    targets: seq<Extension>, matches: seq<Extension>): seq<Call>
    requires IsRuleCommand(command) && RuleReady(command, a, targets, matches)
    requires command == CmdReplace || command == CmdInsert ==> rulenum >= 1
  {
    if command == CmdAppend then RuleCalls(Append, chain, Product(e, a.saddrs, a.daddrs))
    else if command == CmdDelete then
      RuleCalls(Delete(DeleteMask(matches, targets[0])), chain, Product(e, a.saddrs, a.daddrs))
    else if command == CmdReplace then [RuleCall(Replace(rulenum - 1), chain, WithAddresses(e, a.saddrs[0], a.daddrs[0]))]
    else RuleCalls(Insert(rulenum - 1), chain, Product(e, a.saddrs, a.daddrs))
  }

  /** Every rule command makes one call per pair of source and destination
      address, on the command's chain, the pair at `i * |daddrs| + j` being
      the i-th source and the j-th destination; a replacement is the single
      pair. */
  lemma RulePlanPairs(command: bv32, chain: string, rulenum: nat, a: Addressed, e: Entry,
                      targets: seq<Extension>, matches: seq<Extension>, i: nat, j: nat)
    requires IsRuleCommand(command) && RuleReady(command, a, targets, matches)
    requires command == CmdReplace || command == CmdInsert ==> rulenum >= 1
    requires i < |a.saddrs| && j < |a.daddrs|
    ensures var plan := RulePlan(command, chain, rulenum, a, e, targets, matches);
            |plan| == |a.saddrs| * |a.daddrs| && i * |a.daddrs| + j < |plan| &&
            plan[i * |a.daddrs| + j].RuleCall? && plan[i * |a.daddrs| + j].chain == chain &&
            plan[i * |a.daddrs| + j].rule == WithAddresses(e, a.saddrs[i], a.daddrs[j])
  {
    ProductLength(e, a.saddrs, a.daddrs);
    ProductAt(e, a.saddrs, a.daddrs, i, j);
  }

  /** The engine calls of every other command, the zeroing after a listing
      depending on the listing's answer. */
  function OtherPlan(command: bv32, chain: Option<string>, rulenum: nat, newname: Option<string>,
                     policy: Option<string>, listed: bool, chains: seq<string>, builtins: set<string>): seq<Call>
    requires !IsRuleCommand(command) && Known(command)
    requires CommandSound(command, rulenum, chain, newname, policy)
  {
    if command == CmdDeleteNum then [DirectCall(DeleteNumbered(rulenum - 1), chain.value)]
    else if command == CmdList then [ListCall(chain)]
    else if command == CmdFlush then ChainPlan(Flush, chain, chains, builtins)
    else if command == CmdZero then ChainPlan(Zero, chain, chains, builtins)
    else if command == CmdList | CmdZero then
      [ListCall(chain)] + (if listed then ChainPlan(Zero, chain, chains, builtins) else [])
    else if command == CmdNewChain then [DirectCall(CreateChain, chain.value)]
    else if command == CmdDeleteChain then ChainPlan(DeleteChain, chain, chains, builtins)
    else if command == CmdRenameChain then [DirectCall(DirectOp.RenameChain(newname.value), chain.value)]
    else [DirectCall(DirectOp.SetPolicy(policy.value), chain.value)]
  }

  /** The switch for a rule command: one engine call per address pair, or
      the single replacement. */
  method RunRule(s: ParseState, a: Addressed, e: Entry, targets: seq<Extension>, matches: seq<Extension>,
                 engine: Engine) returns (ret: bool)
    requires IsRuleCommand(s.command) && Sound(s) && RuleReady(s.command, a, targets, matches)
    modifies engine
    ensures engine.log == old(engine.log) + RulePlan(s.command, s.chain.value, s.rulenum, a, e, targets, matches)
    ensures ret == AllAccepted(engine.reply, engine.log, |old(engine.log)|)
  {
    RuleCommandNeeds(s);
    var chain := s.chain.value;
    if s.command == CmdAppend {
      ret := AppendEntry(chain, e, a.saddrs, a.daddrs, engine);
    } else if s.command == CmdDelete {
      ret := DeleteEntry(chain, e, a.saddrs, a.daddrs, matches, targets, engine);
    } else if s.command == CmdReplace {
      AcceptStep(engine.reply, engine.log, |engine.log|, RuleCall(Replace(s.rulenum - 1), chain,
                 WithAddresses(e, a.saddrs[0], a.daddrs[0])));
      ret := ReplaceEntry(chain, e, s.rulenum - 1, a.saddrs[0], a.daddrs[0], engine);
    } else {
      ret := InsertEntry(chain, e, s.rulenum - 1, a.saddrs, a.daddrs, engine);
    }
  }

  /** One direct call on the named chain. */
  method Direct(op: DirectOp, chain: string, engine: Engine) returns (ret: bool)
    modifies engine
    ensures engine.log == old(engine.log) + [DirectCall(op, chain)]
    ensures ret == AllAccepted(engine.reply, engine.log, |old(engine.log)|)
  {
    AcceptStep(engine.reply, engine.log, |engine.log|, DirectCall(op, chain));
    ret := engine.Submit(DirectCall(op, chain));
  }

  /** Whether a listing of `chain` (every chain when none is named) shows
      the chain `name`. */
  predicate Shown(chain: Option<string>, name: string) {
    chain.None? || name == chain.value
  }

  /** list_entries: a walk over the chain list that prints the named chain,
      or every chain, and reports whether it found one. */
  method List(chain: Option<string>, engine: Engine) returns (ret: bool)
    requires engine.ListsChains()
    modifies engine
    ensures engine.log == old(engine.log) + [ListCall(chain)]
    ensures ret == Listed(chain, engine.chains)
    ensures ret == AllAccepted(engine.reply, engine.log, |old(engine.log)|)
  {
    var chains := engine.chains;
    var found := false;
    var i := 0;
    while i < |chains|
      invariant i <= |chains|
      invariant found <==> exists k :: 0 <= k < i && Shown(chain, chains[k])
    {
      if Shown(chain, chains[i]) {
        found := true;
      }
      i := i + 1;
    }
    if Listed(chain, chains) {
      var k :| 0 <= k < |chains| && (chain.None? || chains[k] == chain.value);
      assert Shown(chain, chains[k]);
    }
    AcceptStep(engine.reply, engine.log, |engine.log|, ListCall(chain));
    var printed := engine.Submit(ListCall(chain));
    ret := found;
  }

  /** The switch for every other command. */
  method RunOther(s: ParseState, engine: Engine) returns (ret: bool)
    requires !IsRuleCommand(s.command) && Known(s.command) && Sound(s) && engine.ListsChains()
    modifies engine
    ensures engine.log == old(engine.log) +
              OtherPlan(s.command, s.chain, s.rulenum, s.newname, s.policy,
                        Listed(s.chain, engine.chains), engine.chains, engine.builtins)
    ensures ret == AllAccepted(engine.reply, engine.log, |old(engine.log)|)
  {
    if s.command == CmdDeleteNum {
      ret := Direct(DeleteNumbered(s.rulenum - 1), s.chain.value, engine);
    } else if s.command == CmdList {
      ret := List(s.chain, engine);
    } else if s.command == CmdFlush {
      ret := ChainCommand(Flush, s.chain, engine);
    } else if s.command == CmdZero {
      ret := ChainCommand(Zero, s.chain, engine);
    } else if s.command == CmdList | CmdZero {
      var start := engine.log;
      ret := List(s.chain, engine);
      if ret {
        var middle := engine.log;
        ret := ChainCommand(Zero, s.chain, engine);
        AcceptedSplit(engine.reply, middle, engine.log[|middle|..], |start|);
        assert middle + engine.log[|middle|..] == engine.log;
      }
    } else if s.command == CmdNewChain {
      ret := Direct(CreateChain, s.chain.value, engine);
    } else if s.command == CmdDeleteChain {
      ret := ChainCommand(DeleteChain, s.chain, engine);
    } else if s.command == CmdRenameChain {
      ret := Direct(DirectOp.RenameChain(s.newname.value), s.chain.value, engine);
    } else {
      ret := Direct(DirectOp.SetPolicy(s.policy.value), s.chain.value, engine);
    }
  }

  /** Everything do_command settles before it calls the engine: the state
      after the scan, the rule with its addresses and, for a rule command,
      the rule with its target block. */
  datatype Prepared = Prepared(state: ParseState, addressed: Addressed, rule: Option<Assembled>)

  /** The scan from the start state, the checks after it, and the target
      of a rule command, stopping at the first problem. */
  function Prepare(argv: seq<string>, tokens: seq<Token>, table: string, targets: seq<Extension>,
                   opts: seq<OptionEntry>, r: Resolver, chains: seq<string>): (res: Result<Prepared>)
    requires AllDelivered(tokens, argv) && TargetsSound(targets) && Terminated(opts)
    ensures res.Ok? ==> Sound(res.value.state) && res.value.state.command != CmdNone
    ensures res.Ok? ==> (res.value.rule.Some? <==> IsRuleCommand(res.value.state.command))
    ensures res.Ok? && res.value.rule.Some? ==>
              var x := res.value.rule.value;
              x.entry.arp == res.value.addressed.fw.arp && |x.targets| > 0 && TargetsSound(x.targets)
    ensures res.Ok? && res.value.state.command == CmdReplace ==>
              |res.value.addressed.saddrs| == 1 && |res.value.addressed.daddrs| == 1
  {
    InitialIsSound(table, targets, opts);
    match Parse(Initial(table, targets, opts), argv, tokens)
    case Err(p) => Err(p)
    case Ok(s) =>
      match Checked(s, argv, r)
      case Err(p) => Err(p)
      case Ok(a) =>
        if !IsRuleCommand(s.command) then Ok(Prepared(s, a, None))
        else
          match Assemble(s, a.fw, chains)
          case Err(p) => Err(p)
          case Ok(x) => Ok(Prepared(s, a, Some(x)))
  }

  /** do_command: the arguments parsed and checked, and the command carried
      out on the engine; the answer is whether every engine call
      succeeded. */
  method DoCommand(argv: seq<string>, tokens: seq<Token>, table: string, targets: seq<Extension>,
                   opts: seq<OptionEntry>, matches: seq<Extension>, r: Resolver, engine: Engine)
    returns (res: Result<bool>)
    requires AllDelivered(tokens, argv) && TargetsSound(targets) && Terminated(opts) && Sized(matches)
    requires engine.ListsChains()
    modifies engine
    ensures var p := Prepare(argv, tokens, table, targets, opts, r, engine.chains);
            (p.Err? ==> res == Err(p.problem) && engine.log == old(engine.log)) &&
            (p.Ok? && !Known(p.value.state.command) ==> res == Err(UnknownCommand) && engine.log == old(engine.log))
    ensures var p := Prepare(argv, tokens, table, targets, opts, r, engine.chains);
            p.Ok? && Known(p.value.state.command) ==>
              res == Ok(AllAccepted(engine.reply, engine.log, |old(engine.log)|)) &&
              var s := p.value.state;
              if p.value.rule.Some? then
                engine.log == old(engine.log) +
                  RulePlan(s.command, s.chain.value, s.rulenum, p.value.addressed, p.value.rule.value.entry,
                           p.value.rule.value.targets, matches)
              else
                engine.log == old(engine.log) +
                  OtherPlan(s.command, s.chain, s.rulenum, s.newname, s.policy,
                            Listed(s.chain, engine.chains), engine.chains, engine.builtins)
  {
    InitialIsSound(table, targets, opts);
    var scanned := Scan(Initial(table, targets, opts), argv, tokens);
    if scanned.Err? {
      return Err(scanned.problem);
    }
    var s := scanned.value;
    var checked := PostParse(s, argv, r);
    if checked.Err? {
      return Err(checked.problem);
    }
    var a := checked.value;
    if IsRuleCommand(s.command) {
      var assembled := Assemble(s, a.fw, engine.chains);
      if assembled.Err? {
        return Err(assembled.problem);
      }
      var x := assembled.value;
      var ret := RunRule(s, a, x.entry, x.targets, matches, engine);
      return Ok(ret);
    }
    if !Known(s.command) {
      return Err(UnknownCommand);
    }
    var ret := RunOther(s, engine);
    res := Ok(ret);
  }
}

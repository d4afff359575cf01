/** How a rule reaches the table engine: one engine call per pair of source
    and destination address, and one per chain for the chain-wide commands.
    The engine itself is not modelled; it is an object that logs every call
    and answers each from a reply function fixed when it is created. */
module Dispatch {
  import opened Common
  import opened Ipv4
  import opened Extensions
  import opened Rule

  /** What a rule is handed to the engine for. */
  datatype RuleOp = Append | Insert(rulenum: nat) | Delete(mask: seq<bv8>) | Replace(rulenum: nat)

  /** What is done to a whole chain. */
  datatype ChainOp = Flush | Zero | DeleteChain

  /** The calls do_command makes on one named chain without going through
      a helper of its own. */
  datatype DirectOp = DeleteNumbered(index: nat) | CreateChain | RenameChain(newname: string) | SetPolicy(policy: string)

  /** One call into the engine.  A listing asks the engine about one chain
      or all of them; its answer is whether a chain was found. */
  datatype Call =
    | RuleCall(op: RuleOp, chain: string, rule: Entry)
    | ChainCall(cop: ChainOp, name: string)
    | DirectCall(dop: DirectOp, target: string)
    | ListCall(which: Option<string>)

  /** What list_entries reports: whether the named chain, or with no name
      any chain at all, is in the engine's chain list. */
  predicate Listed(which: Option<string>, chains: seq<string>) {
    match which
    case None => chains != []
    case Some(name) => name in chains
  }

  /** The table engine as seen from the front end: the chains it holds, the
      built-in ones among them, and the calls made so far. */
  class Engine {
    const chains: seq<string>
    var log: seq<Call>
    const builtins: set<string>
    const reply: (seq<Call>, Call) -> bool

    /** A listing is answered from the chain list, as list_entries does;
        every other call as `reply` says. */
    constructor(chains: seq<string>, builtins: set<string>, reply: (seq<Call>, Call) -> bool)
      ensures this.chains == chains && this.builtins == builtins && log == []
      ensures ListsChains()
      ensures forall h: seq<Call>, c: Call :: !c.ListCall? ==> this.reply(h, c) == reply(h, c)
    {
      this.chains := chains;
      this.builtins := builtins;
      this.reply := (h: seq<Call>, c: Call) => if c.ListCall? then Listed(c.which, chains) else reply(h, c);
      log := [];
    }

    /** The engine answers each listing with what the chain list holds. */
    ghost predicate ListsChains() {
      forall h, which :: reply(h, ListCall(which)) == Listed(which, chains)
    }

    /** One engine call: logged, and answered by the reply function from the
        calls before it.  What the call does to the chains is not modelled:
        they stay as the engine was created with. */
    method Submit(c: Call) returns (ok: bool)
      modifies this
      ensures log == old(log) + [c] && ok == reply(old(log), c)
    {
      ok := reply(log, c);
      log := log + [c];
    }
  }

  /** Every call after the first `from` was answered with success. */
  predicate AllAccepted(reply: (seq<Call>, Call) -> bool, log: seq<Call>, from: nat)
    decreases |log|
  {
    |log| <= from || (AllAccepted(reply, log[..|log| - 1], from) && reply(log[..|log| - 1], log[|log| - 1]))
  }

  /** The answer to each call counts, the calls before it being its
      history. */
  lemma {:induction false} AllAcceptedMeaning(reply: (seq<Call>, Call) -> bool, log: seq<Call>, from: nat)
    ensures AllAccepted(reply, log, from) <==> forall k :: from <= k < |log| ==> reply(log[..k], log[k])
    decreases |log|
  {
    if |log| > from {
      var init := log[..|log| - 1];
      AllAcceptedMeaning(reply, init, from);
      forall k | from <= k < |init|
        ensures init[..k] == log[..k] && init[k] == log[k]
      {
      }
    }
  }

  /** One more call keeps every call accepted exactly when it is accepted. */
  lemma AcceptStep(reply: (seq<Call>, Call) -> bool, log: seq<Call>, from: nat, c: Call)
    requires from <= |log|
    ensures AllAccepted(reply, log + [c], from) <==> AllAccepted(reply, log, from) && reply(log, c)
  {
    assert (log + [c])[..|log|] == log;
  }

  /** Calls after a prefix of the log are all accepted exactly when those
      before and those after the prefix are. */
  lemma {:induction false} AcceptedSplit(reply: (seq<Call>, Call) -> bool, l: seq<Call>, m: seq<Call>, from: nat)
    requires from <= |l|
    ensures AllAccepted(reply, l + m, from) <==> AllAccepted(reply, l, from) && AllAccepted(reply, l + m, |l|)
    decreases |m|
  {
    if m != [] {
      var m' := m[..|m| - 1];
      AcceptedSplit(reply, l, m', from);
      assert (l + m)[..|l + m| - 1] == l + m';
    } else {
      assert l + m == l;
    }
  }

  // ---------------------------------------------------------------------
  // Rules over address pairs

  /** The rule with one source and one destination address filled in. */
  function WithAddresses(fw: Entry, s: Addr, d: Addr): Entry {
    fw.(arp := fw.arp.(src := s, tgt := d))
  }

  /** The rules for one source address, one per destination. */
  function Row(fw: Entry, s: Addr, ds: seq<Addr>): seq<Entry> {
    seq(|ds|, j requires 0 <= j < |ds| => WithAddresses(fw, s, ds[j]))
  }

  /** The rules for every pair, source-major. */
  function Product(fw: Entry, ss: seq<Addr>, ds: seq<Addr>): seq<Entry> {
    if ss == [] then [] else Product(fw, ss[..|ss| - 1], ds) + Row(fw, ss[|ss| - 1], ds)
  }

  /** One rule call per rule. */
  function RuleCalls(op: RuleOp, chain: string, rules: seq<Entry>): (cs: seq<Call>)
    ensures |cs| == |rules|
  {
    seq(|rules|, k requires 0 <= k < |rules| => RuleCall(op, chain, rules[k]))
  }

  /** There is one rule per pair: |ss| * |ds| of them. */
  lemma {:induction false} ProductLength(fw: Entry, ss: seq<Addr>, ds: seq<Addr>)
    ensures |Product(fw, ss, ds)| == |ss| * |ds|
  {
    if ss != [] {
      ProductLength(fw, ss[..|ss| - 1], ds);
      assert (|ss| - 1) * |ds| + |ds| == |ss| * |ds|;
    }
  }

  /** The rule at i * |ds| + j carries the i-th source and the j-th
      destination address. */
  lemma {:induction false} ProductAt(fw: Entry, ss: seq<Addr>, ds: seq<Addr>, i: nat, j: nat)
    requires i < |ss| && j < |ds|
    ensures i * |ds| + j < |Product(fw, ss, ds)|
    ensures Product(fw, ss, ds)[i * |ds| + j] == WithAddresses(fw, ss[i], ds[j])
  {
    var n := |ss| - 1;
    var init := ss[..n];
    ProductLength(fw, ss, ds);
    ProductLength(fw, init, ds);
    RowOffset(i, j, n, |ds|);
    if i < n {
      ProductAt(fw, init, ds, i, j);
    }
  }

  lemma RowOffset(i: nat, j: nat, n: nat, w: nat)
    requires i <= n && j < w
    ensures i * w + j < (n + 1) * w
    ensures i < n ==> i * w + j < n * w
    ensures i == n ==> i * w + j - n * w == j
  {
    if i < n {
      assert (i + 1) * w <= n * w;
    }
  }

  lemma ProductStep(op: RuleOp, chain: string, fw: Entry, ss: seq<Addr>, ds: seq<Addr>, i: nat)
    requires i < |ss|
    ensures RuleCalls(op, chain, Product(fw, ss[..i + 1], ds))
         == RuleCalls(op, chain, Product(fw, ss[..i], ds)) + RuleCalls(op, chain, Row(fw, ss[i], ds))
  {
    assert ss[..i + 1][..i] == ss[..i];
    var a := Product(fw, ss[..i], ds);
    var b := Row(fw, ss[i], ds);
    assert Product(fw, ss[..i + 1], ds) == a + b;
    assert RuleCalls(op, chain, a + b) == RuleCalls(op, chain, a) + RuleCalls(op, chain, b);
  }

  /** The inner loop of append_entry, insert_entry and delete_entry: the
      rule gets one source address, then goes to the engine once per
      destination, the destination written into it each time. */
  method ForEachDestination(op: RuleOp, chain: string, fw: Entry, s: Addr, ds: seq<Addr>, engine: Engine)
    returns (ret: bool)
    modifies engine
    ensures engine.log == old(engine.log) + RuleCalls(op, chain, Row(fw, s, ds))
    ensures ret == AllAccepted(engine.reply, engine.log, |old(engine.log)|)
  {
    ret := true;
    var withSource := fw.(arp := fw.arp.(src := s));
    var j := 0;
    assert Row(fw, s, ds)[..0] == [];
    while j < |ds|
      invariant j <= |ds|
      invariant engine.log == old(engine.log) + RuleCalls(op, chain, Row(fw, s, ds)[..j])
      invariant ret == AllAccepted(engine.reply, engine.log, |old(engine.log)|)
    {
      var rule := withSource.(arp := withSource.arp.(tgt := ds[j]));
      AcceptStep(engine.reply, engine.log, |old(engine.log)|, RuleCall(op, chain, rule));
      var ok := engine.Submit(RuleCall(op, chain, rule));
      RowStep(op, chain, fw, s, ds, j);
      ret := ret && ok;
      j := j + 1;
    }
    assert Row(fw, s, ds)[..j] == Row(fw, s, ds);
  }

  lemma RowStep(op: RuleOp, chain: string, fw: Entry, s: Addr, ds: seq<Addr>, j: nat)
    requires j < |ds|
    ensures RuleCalls(op, chain, Row(fw, s, ds)[..j + 1])
         == RuleCalls(op, chain, Row(fw, s, ds)[..j]) + [RuleCall(op, chain, WithAddresses(fw, s, ds[j]))]
  {
    assert Row(fw, s, ds)[..j + 1] == Row(fw, s, ds)[..j] + [WithAddresses(fw, s, ds[j])];
  }

  /** The loops shared by append_entry, insert_entry and delete_entry: for
      every source address and, inside, every destination address, the rule
      with that pair goes to the engine; the result is whether every call
      succeeded, all calls being made regardless. */
  method ForEachPair(op: RuleOp, chain: string, fw: Entry, ss: seq<Addr>, ds: seq<Addr>, engine: Engine)
    returns (ret: bool)
    modifies engine
    ensures engine.log == old(engine.log) + RuleCalls(op, chain, Product(fw, ss, ds))
    ensures ret == AllAccepted(engine.reply, engine.log, |old(engine.log)|)
  {
    ret := true;
    var i := 0;
    while i < |ss|
      invariant i <= |ss|
      invariant engine.log == old(engine.log) + RuleCalls(op, chain, Product(fw, ss[..i], ds))
      invariant ret == AllAccepted(engine.reply, engine.log, |old(engine.log)|)
    {
      ghost var done := engine.log;
      var ok := ForEachDestination(op, chain, fw, ss[i], ds, engine);
      ghost var row := RuleCalls(op, chain, Row(fw, ss[i], ds));
      AcceptedSplit(engine.reply, done, row, |old(engine.log)|);
      ret := ret && ok;
      ProductStep(op, chain, fw, ss, ds, i);
      assert engine.log == old(engine.log) + (RuleCalls(op, chain, Product(fw, ss[..i], ds)) + row);
      i := i + 1;
    }
    assert ss[..i] == ss;
  }

  /** append_entry */
  method AppendEntry(chain: string, fw: Entry, ss: seq<Addr>, ds: seq<Addr>, engine: Engine) returns (ret: bool)
    modifies engine
    ensures engine.log == old(engine.log) + RuleCalls(Append, chain, Product(fw, ss, ds))
    ensures ret == AllAccepted(engine.reply, engine.log, |old(engine.log)|)
  {
    ret := ForEachPair(Append, chain, fw, ss, ds, engine);
  }

  /** insert_entry: every rule goes in at the same position. */
  method InsertEntry(chain: string, fw: Entry, rulenum: nat, ss: seq<Addr>, ds: seq<Addr>, engine: Engine)
    returns (ret: bool)
    modifies engine
    ensures engine.log == old(engine.log) + RuleCalls(Insert(rulenum), chain, Product(fw, ss, ds))
    ensures ret == AllAccepted(engine.reply, engine.log, |old(engine.log)|)
  {
    ret := ForEachPair(Insert(rulenum), chain, fw, ss, ds, engine);
  }

  /** delete_entry: the comparison mask is built once, from the registered
      extensions, and goes with every call. */
  method DeleteEntry(chain: string, fw: Entry, ss: seq<Addr>, ds: seq<Addr>,
                     matches: seq<Extension>, targets: seq<Extension>, engine: Engine)
    returns (ret: bool)
    requires |targets| > 0 && Sized(matches) && targets[0].userspacesize <= targets[0].size
    modifies engine
    ensures engine.log == old(engine.log)
              + RuleCalls(Delete(DeleteMask(matches, targets[0])), chain, Product(fw, ss, ds))
    ensures ret == AllAccepted(engine.reply, engine.log, |old(engine.log)|)
  {
    var mask := MakeDeleteMask(matches, targets);
    ret := ForEachPair(Delete(mask[..]), chain, fw, ss, ds, engine);
  }

  /** replace_entry: one call, with the one source and destination. */
  method ReplaceEntry(chain: string, fw: Entry, rulenum: nat, s: Addr, d: Addr, engine: Engine)
    returns (ret: bool)
    modifies engine
    ensures engine.log == old(engine.log) + [RuleCall(Replace(rulenum), chain, WithAddresses(fw, s, d))]
    ensures ret == engine.reply(old(engine.log), RuleCall(Replace(rulenum), chain, WithAddresses(fw, s, d)))
  {
    var rule := fw.(arp := fw.arp.(src := s, tgt := d));
    ret := engine.Submit(RuleCall(Replace(rulenum), chain, rule));
  }

  /** A replace with one source and one destination is the pair loop over
      those two single addresses, with the replace operation. */
  lemma ReplaceIsSinglePair(chain: string, fw: Entry, rulenum: nat, s: Addr, d: Addr)
    ensures RuleCalls(Replace(rulenum), chain, Product(fw, [s], [d]))
         == [RuleCall(Replace(rulenum), chain, WithAddresses(fw, s, d))]
  {
    assert [s][..0] == [];
  }

  // ---------------------------------------------------------------------
  // Chain-wide commands

  /** The chains a chain-wide command reaches, in the engine's order. */
  function Reached(chains: seq<string>, builtins: set<string>, builtinstoo: bool): seq<string> {
    if chains == [] then []
    else
      var last := chains[|chains| - 1];
      Reached(chains[..|chains| - 1], builtins, builtinstoo)
        + (if builtinstoo || last !in builtins then [last] else [])
  }

  /** With built-ins included every chain is reached; without, exactly the
      user-defined ones are. */
  lemma {:induction false} ReachedMeaning(chains: seq<string>, builtins: set<string>, builtinstoo: bool)
    ensures builtinstoo ==> Reached(chains, builtins, builtinstoo) == chains
    ensures forall c :: c in Reached(chains, builtins, builtinstoo) <==>
                          c in chains && (builtinstoo || c !in builtins)
  {
    if chains != [] {
      var init := chains[..|chains| - 1];
      ReachedMeaning(init, builtins, builtinstoo);
      assert chains == init + [chains[|chains| - 1]];
    }
  }

  function ChainCalls(op: ChainOp, names: seq<string>): (cs: seq<Call>)
    ensures |cs| == |names|
  {
    seq(|names|, k requires 0 <= k < |names| => ChainCall(op, names[k]))
  }

  lemma ChainStep(op: ChainOp, names: seq<string>, builtins: set<string>, builtinstoo: bool, i: nat)
    requires i < |names|
    ensures ChainCalls(op, Reached(names[..i + 1], builtins, builtinstoo))
         == ChainCalls(op, Reached(names[..i], builtins, builtinstoo))
            + (if builtinstoo || names[i] !in builtins then [ChainCall(op, names[i])] else [])
  {
    assert names[..i + 1][..i] == names[..i];
    var a := Reached(names[..i], builtins, builtinstoo);
    var b := if builtinstoo || names[i] !in builtins then [names[i]] else [];
    assert Reached(names[..i + 1], builtins, builtinstoo) == a + b;
    assert ChainCalls(op, a + b) == ChainCalls(op, a) + ChainCalls(op, b);
  }

  /** The first two loops of for_each_chain: the chain names, counted and
      copied out of the engine. */
  method ChainNames(engine: Engine) returns (names: array<string>)
    ensures fresh(names) && names[..] == engine.chains
  {
    var chaincount := 0;
    while chaincount < |engine.chains|
      invariant chaincount <= |engine.chains|
    {
      chaincount := chaincount + 1;
    }
    names := new string[chaincount];
    var i := 0;
    while i < chaincount
      invariant i <= chaincount
      invariant forall k :: 0 <= k < i ==> names[k] == engine.chains[k]
    {
      names[i] := engine.chains[i];
      i := i + 1;
    }
  }

  /** for_each_chain: the chain names are copied out of the engine before
      any call, then the operation goes to each (skipping the built-in ones
      unless asked not to). */
  method ForEachChain(op: ChainOp, builtinstoo: bool, engine: Engine) returns (ret: bool)
    modifies engine
    ensures engine.log == old(engine.log) + ChainCalls(op, Reached(engine.chains, engine.builtins, builtinstoo))
    ensures ret == AllAccepted(engine.reply, engine.log, |old(engine.log)|)
  {
    var names := ChainNames(engine);
    var chaincount := names.Length;
    ret := true;
    var i := 0;
    assert names[..0] == [];
    while i < chaincount
      invariant i <= chaincount && names[..] == engine.chains
      invariant engine.log == old(engine.log) + ChainCalls(op, Reached(names[..i], engine.builtins, builtinstoo))
      invariant ret == AllAccepted(engine.reply, engine.log, |old(engine.log)|)
    {
      ChainStep(op, names[..], engine.builtins, builtinstoo, i);
      if builtinstoo || names[i] !in engine.builtins {
        AcceptStep(engine.reply, engine.log, |old(engine.log)|, ChainCall(op, names[i]));
        var ok := engine.Submit(ChainCall(op, names[i]));
        ret := ret && ok;
      }
      i := i + 1;
    }
    assert names[..i] == names[..];
  }

  /** The calls a chain-wide command makes: one on a named chain, or one on
      each chain it reaches. */
  function ChainPlan(op: ChainOp, chain: Option<string>, chains: seq<string>, builtins: set<string>): seq<Call> {
    if chain.Some? then [ChainCall(op, chain.value)]
    else ChainCalls(op, Reached(chains, builtins, op != DeleteChain))
  }

  /** flush_entries, zero_entries and delete_chain: a named chain gets one
      call; without a name the operation goes to every chain, built-in ones
      included except for deleting. */
  method ChainCommand(op: ChainOp, chain: Option<string>, engine: Engine) returns (ret: bool)
    modifies engine
    ensures engine.log == old(engine.log) + ChainPlan(op, chain, engine.chains, engine.builtins)
    ensures ret == AllAccepted(engine.reply, engine.log, |old(engine.log)|)
  {
    if chain.None? {
      ret := ForEachChain(op, op != DeleteChain, engine);
    } else {
      AcceptStep(engine.reply, engine.log, |engine.log|, ChainCall(op, chain.value));
      ret := engine.Submit(ChainCall(op, chain.value));
    }
  }
}

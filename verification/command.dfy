/** do_command up to the engine: the scan of the argument vector, one
    option at a time, into a rule and its command; the checks after the
    scan; and the choice of the target block.

    The scan works on a value holding everything do_command keeps in its
    locals and in the globals it touches (the target list, the option table
    and the last option window).  Each option case is a function from that
    value to the next one or to the condition the front end gives up on. */
module Command {
  import opened Common
  import opened Libc
  import opened Ipv4
  import opened ArpFields
  import opened Legality
  import opened Extensions
  import opened Rule

  // ---------------------------------------------------------------------
  // What getopt_long hands over

  /** The cases of the option switch, one per option letter or long-option
      code, plus a word that is no option and an option nothing claims. */
  datatype Kind =
    | AppendRule | DeleteRule | ReplaceRule | InsertRule
    | ListRules | FlushChain | ZeroCounters | RemoveChain
    | NewChain | RenameChain | SetPolicy
    | SourceIp | DestIp | SourceMac | DestMac
    | HLength | PLength | Opcode | HType | PType
    | Jump | ViaIn | ViaOut | Verbose | Match | Numeric | Table
    | LineNumbers | Modprobe | Counters
    | NonOption | Unclaimed

  /** One answer of getopt_long: the case, its argument if any, and the
      index of the next argument. */
  datatype Token = Token(kind: Kind, optarg: Option<string>, optind: nat)

  /** The cases whose argument is optional or absent. */
  predicate TakesArgument(k: Kind) {
    !(k.ListRules? || k.FlushChain? || k.ZeroCounters? || k.RemoveChain? ||
      k.Verbose? || k.Numeric? || k.LineNumbers? || k.Unclaimed?)
  }

  /** What getopt_long guarantees of an answer: at least one argument has
      been read, and a case that takes an argument has one. */
  predicate Delivered(t: Token, argv: seq<string>) {
    1 <= t.optind <= |argv| && (TakesArgument(t.kind) ==> t.optarg.Some?)
  }

  // ---------------------------------------------------------------------
  // The state of the scan

  /** The locals of do_command and the globals it updates during the scan. */
  datatype ParseState = ParseState(
    command: bv32, options: bv32, invert: bool, optind: nat, fw: Entry,
    chain: Option<string>, rulenum: nat, newname: Option<string>, policy: Option<string>,
    shost: Option<string>, dhost: Option<string>, verbose: nat, table: string,
    modprobe: Option<string>, jumpto: string, target: Option<nat>, targetSize: nat,
    targets: seq<Extension>, globalOffset: nat, opts: seq<OptionEntry>)

  /** The commands that name a chain as their argument. */
  const ChainCommands: bv32 :=
    CmdAppend | CmdDelete | CmdDeleteNum | CmdInsert | CmdReplace | CmdNewChain | CmdRenameChain | CmdSetPolicy

  /** The commands that go with a rule number. */
  const NumberedCommands: bv32 := CmdInsert | CmdReplace | CmdDeleteNum

  /** The device addresses of a rule keep their sixteen bytes. */
  predicate FieldsSound(fw: Entry) {
    |fw.arp.srcDevaddr.addr| == DevAddrLen && |fw.arp.srcDevaddr.mask| == DevAddrLen &&
    |fw.arp.tgtDevaddr.addr| == DevAddrLen && |fw.arp.tgtDevaddr.mask| == DevAddrLen
  }

  /** Each target's own options are terminated, and each compares no more
      than its data. */
  predicate TargetsSound(targets: seq<Extension>) {
    (forall k :: 0 <= k < |targets| ==> Terminated(targets[k].extraOpts)) && Sized(targets)
  }

  /** The same targets, only their bookkeeping (loaded, used, their flags,
      where their options went) changed. */
  predicate SameTargets(before: seq<Extension>, after: seq<Extension>) {
    |after| == |before| &&
    forall k :: 0 <= k < |before| ==>
      after[k] == before[k].(loaded := after[k].loaded, used := after[k].used,
                             flags := after[k].flags, optionOffset := after[k].optionOffset)
  }

  lemma SameTargetsSound(before: seq<Extension>, after: seq<Extension>)
    requires SameTargets(before, after) && TargetsSound(before)
    ensures TargetsSound(after)
  {
    forall k | 0 <= k < |after|
      ensures after[k].extraOpts == before[k].extraOpts && after[k].size == before[k].size
      ensures after[k].userspacesize == before[k].userspacesize
    {
    }
  }

  /** A lookup only marks what it finds. */
  lemma FindKeepsTargets(list: seq<Extension>, name: string, tryload: TryLoad, missing: Problem)
    ensures Find(list, name, tryload, missing).Ok? ==>
              SameTargets(list, Find(list, name, tryload, missing).value.list)
  {
  }

  /** The option tables are terminated, the targets are sound, the target
      in hand is on the list and named by a jump, and a jump that found no
      extension names none on the list. */
  predicate TablesSound(opts: seq<OptionEntry>, targets: seq<Extension>, target: Option<nat>, jumpto: string) {
    Terminated(opts) &&
    TargetsSound(targets) &&
    (target.Some? ==> target.value < |targets| && jumpto != "") &&
    (target.None? && jumpto != "" ==> FirstNamed(targets, TargetName(jumpto)).None?)
  }

  /** Every command recorded has the arguments it needs. */
  predicate CommandSound(command: bv32, rulenum: nat, chain: Option<string>, newname: Option<string>,
                         policy: Option<string>) {
    (command & NumberedCommands != 0 ==> rulenum >= 1) &&
    (command & ChainCommands != 0 ==> chain.Some?) &&
    (command & CmdRenameChain != 0 ==> newname.Some?) &&
    (command & CmdSetPolicy != 0 ==> policy.Some?)
  }

  /** What holds of the state throughout the scan. */
  predicate Sound(s: ParseState) {
    FieldsSound(s.fw) && TablesSound(s.opts, s.targets, s.target, s.jumpto) &&
    (s.target.Some? ==> s.targetSize >= TargetHeaderSize) &&
    CommandSound(s.command, s.rulenum, s.chain, s.newname, s.policy)
  }

  /** The state at the start of do_command: an all-zero rule, the original
      option table with the windows starting again from zero, and every
      target's flags and used mark cleared. */
  function Initial(table: string, targets: seq<Extension>, originalOpts: seq<OptionEntry>): ParseState {
    ParseState(CmdNone, OptNone, false, 0, ZeroEntry, None, 0, None, None, None, None, 0, table, None,
               "", None, 0, seq(|targets|, k requires 0 <= k < |targets| => Unused(targets[k])), 0, originalOpts)
  }

  /** The start state is sound when the option tables are: nothing is
      inverted, no option or command is recorded, and no target is held. */
  lemma InitialIsSound(table: string, targets: seq<Extension>, originalOpts: seq<OptionEntry>)
    requires Terminated(originalOpts)
    requires TargetsSound(targets)
    ensures var s := Initial(table, targets, originalOpts);
            Sound(s) && s.command == CmdNone && s.options == OptNone && !s.invert &&
            s.target.None? && s.fw == ZeroEntry &&
            forall k :: 0 <= k < |targets| ==> !s.targets[k].used && s.targets[k].name == targets[k].name
  {
    var s := Initial(table, targets, originalOpts);
    assert SameTargets(targets, s.targets);
    SameTargetsSound(targets, s.targets);
  }

  // ---------------------------------------------------------------------
  // Helpers shared by the cases

  /** Whether an argument may be taken as the optional next word: it does
      not start with `-` or `!`. */
  predicate Plain(a: string) {
    |a| == 0 || (a[0] != '-' && a[0] != '!')
  }

  /** Whether the argument after the option is there and is a plain word. */
  predicate NextIsWord(s: ParseState, argv: seq<string>) {
    s.optind < |argv| && Plain(argv[s.optind])
  }

  /** set_option on the option word and the rule's inversion flags. */
  function WithOption(s: ParseState, k: nat): (r: Result<ParseState>)
    requires k < NumberOfOpt
    ensures var st := SetOption(OptionState(s.options, s.fw.arp.invflags), k, s.invert);
            (r.Err? <==> st.Err?) && (r.Err? ==> r.problem == st.problem) &&
            (r.Ok? ==> st.value == OptionState(r.value.options, r.value.fw.arp.invflags) &&
                       r.value == s.(options := r.value.options,
                                     fw := s.fw.(arp := s.fw.arp.(invflags := r.value.fw.arp.invflags))))
    ensures Sound(s) && r.Ok? ==> Sound(r.value)
  {
    match SetOption(OptionState(s.options, s.fw.arp.invflags), k, s.invert)
    case Err(p) => Err(p)
    case Ok(st) => Ok(s.(options := st.options, fw := s.fw.(arp := s.fw.arp.(invflags := st.invflags))))
  }

  /** check_inverse followed by set_option, as most option cases begin; the
      second component is the option's value, `argv[optind-1]`. */
  function Flag(s: ParseState, argv: seq<string>, optarg: string, k: nat): (r: Result<(ParseState, string)>)
    requires k < NumberOfOpt && 1 <= s.optind <= |argv|
    ensures var c := CheckInverse(optarg, s.invert, s.optind, |argv|);
            (c.Err? ==> r == Err(c.problem)) &&
            (c.Ok? ==> var w := WithOption(s.(invert := c.value.invert, optind := c.value.optind), k);
                       (w.Err? ==> r == Err(w.problem)) &&
                       (w.Ok? ==> r.Ok? && r.value.0 == w.value && 1 <= w.value.optind <= |argv| &&
                                  r.value.1 == argv[w.value.optind - 1]))
    ensures Sound(s) && r.Ok? ==> Sound(r.value.0)
  {
    match CheckInverse(optarg, s.invert, s.optind, |argv|)
    case Err(p) => Err(p)
    case Ok(inv) =>
      match WithOption(s.(invert := inv.invert, optind := inv.optind), k)
      case Err(p) => Err(p)
      case Ok(s1) => Ok((s1, argv[inv.optind - 1]))
  }

  // ---------------------------------------------------------------------
  // The command cases

  /** The command bit of -A, -D, -R or -I. */
  function RuleBit(kind: Kind): bv32
    requires kind.AppendRule? || kind.DeleteRule? || kind.ReplaceRule? || kind.InsertRule?
  {
    if kind.AppendRule? then CmdAppend else if kind.DeleteRule? then CmdDelete
    else if kind.ReplaceRule? then CmdReplace else CmdInsert
  }

  /** -A, -D, -R and -I: the command and its chain.  -D takes a rule number
      when a plain word follows and then becomes a delete by number, -R
      needs one, and -I takes one or inserts at the top. */
  function RuleCommand(s: ParseState, argv: seq<string>, kind: Kind, chain: string): (r: Result<ParseState>)
    requires kind.AppendRule? || kind.DeleteRule? || kind.ReplaceRule? || kind.InsertRule?
    requires Sound(s)
    ensures r.Ok? ==> Sound(r.value)
  {
    match AddCommand(s.command, RuleBit(kind), CmdNone, s.invert)
    case Err(p) => Err(p)
    case Ok(c) =>
      var s1 := s.(command := c, chain := Some(chain));
      if kind.AppendRule? then Ok(s1)
      else if NextIsWord(s1, argv) then
        match ParseRuleNumber(argv[s1.optind])
        case Err(p) => Err(p)
        case Ok(n) => Ok(s1.(rulenum := n, optind := s1.optind + 1,
                             command := if kind.DeleteRule? then CmdDeleteNum else c))
      else if kind.ReplaceRule? then Err(RuleNumberRequired)
      else if kind.InsertRule? then Ok(s1.(rulenum := 1))
      else Ok(s1)
  }

  /** The command bit of -L, -F, -Z or -X. */
  function ListingBit(kind: Kind): bv32
    requires kind.ListRules? || kind.FlushChain? || kind.ZeroCounters? || kind.RemoveChain?
  {
    if kind.ListRules? then CmdList else if kind.FlushChain? then CmdFlush
    else if kind.ZeroCounters? then CmdZero else CmdDeleteChain
  }

  /** -L, -F, -Z and -X: the command, and the chain if one is given, either
      attached or as the next plain word.  Only -L and -Z combine. */
  function ListingCommand(s: ParseState, argv: seq<string>, kind: Kind, optarg: Option<string>)
    : (r: Result<ParseState>)
    requires kind.ListRules? || kind.FlushChain? || kind.ZeroCounters? || kind.RemoveChain?
    requires Sound(s)
    ensures r.Ok? ==> Sound(r.value)
  {
    match AddCommand(s.command, ListingBit(kind), Companions(ListingBit(kind)), s.invert)
    case Err(p) => Err(p)
    case Ok(c) =>
      var s1 := s.(command := c);
      if optarg.Some? then Ok(s1.(chain := optarg))
      else if NextIsWord(s1, argv) then Ok(s1.(chain := Some(argv[s1.optind]), optind := s1.optind + 1))
      else Ok(s1)
  }

  /** -N, -E and -P.  A new chain may not start with `-` nor have the name
      of a target that can be loaded; -E needs the new name and -P the
      policy as the next plain word. */
  function ChainNaming(s: ParseState, argv: seq<string>, kind: Kind, chain: string): (r: Result<ParseState>)
    requires kind.NewChain? || kind.RenameChain? || kind.SetPolicy?
    requires Sound(s)
    ensures r.Ok? ==> Sound(r.value)
  {
    if kind.NewChain? then
      if |chain| > 0 && chain[0] == '-' then Err(ChainNameStartsWithDash)
      else
        match Find(s.targets, TargetName(chain), TryLoad, CouldNotFindTarget(TargetName(chain)))
        case Err(p) => Err(p)
        case Ok(f) =>
          if f.index.Some? then Err(ChainClashesWithTarget)
          else
            match AddCommand(s.command, CmdNewChain, CmdNone, s.invert)
            case Err(p) => Err(p)
            case Ok(c) => Ok(s.(command := c, chain := Some(chain)))
    else
      var newcmd := if kind.RenameChain? then CmdRenameChain else CmdSetPolicy;
      match AddCommand(s.command, newcmd, CmdNone, s.invert)
      case Err(p) => Err(p)
      case Ok(c) =>
        var s1 := s.(command := c, chain := Some(chain));
        if !NextIsWord(s1, argv) then Err(if kind.RenameChain? then RenameNeedsNewName else PolicyNeedsTarget)
        else if kind.RenameChain? then Ok(s1.(newname := Some(argv[s1.optind]), optind := s1.optind + 1))
        else Ok(s1.(policy := Some(argv[s1.optind]), optind := s1.optind + 1))
  }

  // ---------------------------------------------------------------------
  // The rule fields

  /** A device address after getmac_and_mask wrote its first six bytes. */
  function StoreMac(d: DevAddr, from: string): (e: DevAddr)
    requires |d.addr| == DevAddrLen && |d.mask| == DevAddrLen
    ensures |e.addr| == DevAddrLen && |e.mask| == DevAddrLen
  {
    var m := MacAndMask(from);
    DevAddr(Overlay(d.addr, m.addr), Overlay(d.mask, m.mask))
  }

  /** After a parse that succeeds, the first six bytes of the address and
      of the mask are the ones read, and the rest of each is kept. */
  lemma StoreMacWrites(d: DevAddr, from: string)
    requires |d.addr| == DevAddrLen && |d.mask| == DevAddrLen && MacAndMask(from).ok
    ensures var e := StoreMac(d, from);
            e.addr[..EthAlen] == MacAndMask(from).addr.value && e.mask[..EthAlen] == MacAndMask(from).mask.value &&
            e.addr[EthAlen..] == d.addr[EthAlen..] && e.mask[EthAlen..] == d.mask[EthAlen..]
  {
    var m := MacAndMask(from);
    OverlayParts(d.addr, m.addr.value);
    OverlayParts(d.mask, m.mask.value);
  }

  /** -s, -d, --source-mac and --destination-mac: the host arguments are
      kept for after the scan; a MAC address and mask go into the rule, and
      one that does not parse is refused. */
  function AddressOption(s: ParseState, argv: seq<string>, kind: Kind, optarg: string): (r: Result<ParseState>)
    requires kind.SourceIp? || kind.DestIp? || kind.SourceMac? || kind.DestMac?
    requires Sound(s) && 1 <= s.optind <= |argv|
    ensures r.Ok? ==> Sound(r.value)
  {
    // OPT_S_IP, OPT_D_IP, OPT_S_MAC, OPT_D_MAC
    var k := if kind.SourceIp? then 1 else if kind.DestIp? then 2 else if kind.SourceMac? then 3 else 4;
    match Flag(s, argv, optarg, k)
    case Err(p) => Err(p)
    case Ok((s1, arg)) =>
      if kind.SourceIp? then Ok(s1.(shost := Some(arg)))
      else if kind.DestIp? then Ok(s1.(dhost := Some(arg)))
      else
        var a := s1.fw.arp;
        if !MacAndMask(arg).ok then Err(if kind.SourceMac? then BadSourceMac else BadDestinationMac)
        else if kind.SourceMac? then Ok(s1.(fw := s1.fw.(arp := a.(srcDevaddr := StoreMac(a.srcDevaddr, arg)))))
        else Ok(s1.(fw := s1.fw.(arp := a.(tgtDevaddr := StoreMac(a.tgtDevaddr, arg)))))
  }

  /** The header fields of the rule after -l, --opcode, --h-type or
      --proto-type read `arg`.  A failed length parse is not noticed.  The
      16-bit fields fall back on a name, compared with the text before the
      last '/' (the parser cuts the argument there, in place, and keeps the
      mask it has stored by then): the opcode name is looked up from the
      option's own argument `optarg`, which after `!` is the `!` itself;
      the hardware type may be Ethernet and the protocol type ipv4, in any
      case. */
  function HeaderFields(a: ArpMatch, kind: Kind, arg: string, optarg: string): (r: Result<ArpMatch>)
    requires kind.HLength? || kind.Opcode? || kind.HType? || kind.PType?
    ensures r.Ok? ==> r.value.srcDevaddr == a.srcDevaddr && r.value.tgtDevaddr == a.tgtDevaddr
  {
    if kind.HLength? then
      var st := GetLengthAndMask(arg, a.arhln, a.arhlnMask);
      Ok(a.(arhln := st.value, arhlnMask := st.mask))
    else if kind.Opcode? then
      var st := Get16AndMask(arg, 10, a.arpop, a.arpopMask);
      if st.ok then Ok(a.(arpop := st.value, arpopMask := st.mask))
      else
        var i := OpcodeIndex(CutAtLastSlash(optarg).0, 0);
        if i == |OpcodeNames| then Err(BadOpcode)
        else Ok(a.(arpop := Htons(i + 1), arpopMask := st.mask))
    else if kind.HType? then
      var st := Get16AndMask(arg, 16, a.arhrd, a.arhrdMask);
      if st.ok then Ok(a.(arhrd := st.value, arhrdMask := st.mask))
      else if !StrCaseEq(CutAtLastSlash(arg).0, "Ethernet") then Err(BadHardwareType)
      else Ok(a.(arhrd := Htons(1), arhrdMask := st.mask))
    else
      var st := Get16AndMask(arg, 0, a.arpro, a.arproMask);
      if st.ok then Ok(a.(arpro := st.value, arproMask := st.mask))
      else if !StrCaseEq(CutAtLastSlash(arg).0, "ipv4") then Err(BadProtocolType)
      else Ok(a.(arpro := Htons(0x800), arproMask := st.mask))
  }

  /** -l, --opcode, --h-type and --proto-type. */
  function HeaderOption(s: ParseState, argv: seq<string>, kind: Kind, optarg: string): (r: Result<ParseState>)
    requires kind.HLength? || kind.Opcode? || kind.HType? || kind.PType?
    requires Sound(s) && 1 <= s.optind <= |argv|
    ensures r.Ok? ==> Sound(r.value)
  {
    // OPT_H_LENGTH, OPT_OPCODE, OPT_H_TYPE, OPT_P_TYPE
    var k := if kind.HLength? then 5 else if kind.Opcode? then 7 else if kind.HType? then 8 else 9;
    match Flag(s, argv, optarg, k)
    case Err(p) => Err(p)
    case Ok((s1, arg)) =>
      match HeaderFields(s1.fw.arp, kind, arg, optarg)
      case Err(p) => Err(p)
      case Ok(a) => Ok(s1.(fw := s1.fw.(arp := a)))
  }

  /** -i and -o: the interface name and its wildcard mask; a name of
      sixteen characters or more is refused. */
  function InterfaceOption(s: ParseState, argv: seq<string>, kind: Kind, optarg: string): (r: Result<ParseState>)
    requires kind.ViaIn? || kind.ViaOut?
    requires Sound(s) && 1 <= s.optind <= |argv|
    ensures r.Ok? ==> Sound(r.value)
  {
    // OPT_VIANAMEIN, OPT_VIANAMEOUT
    match Flag(s, argv, optarg, if kind.ViaIn? then 12 else 13)
    case Err(p) => Err(p)
    case Ok((s1, arg)) =>
      if |arg| + 1 > IfNameSize then Err(InterfaceNameTooLong(arg))
      else Ok(s1.(fw := s1.fw.(arp := Interface(s1.fw.arp, kind.ViaIn?, arg))))
  }

  /** The incoming or outgoing interface name and mask of a rule set from
      an argument; the device addresses are not touched. */
  function Interface(a: ArpMatch, incoming: bool, arg: string): (b: ArpMatch)
    requires |arg| < IfNameSize
    ensures b.srcDevaddr == a.srcDevaddr && b.tgtDevaddr == a.tgtDevaddr
    ensures incoming ==> b == a.(iniface := NameField(arg), inifaceMask := InterfaceMask(arg))
    ensures !incoming ==> b == a.(outiface := NameField(arg), outifaceMask := InterfaceMask(arg))
  {
    if incoming then a.(iniface := NameField(arg), inifaceMask := InterfaceMask(arg))
    else a.(outiface := NameField(arg), outifaceMask := InterfaceMask(arg))
  }

  /** -j: the target name is checked and looked up, loading it if need be.
      A target found gets a block of the aligned header size plus its own
      size, and its options are merged into the table in the next window;
      no target found leaves none in hand.  The option cannot be inverted. */
  function JumpOption(s: ParseState, optarg: string): (r: Result<ParseState>)
    requires Sound(s)
    ensures r.Ok? ==> Sound(r.value)
  {
    match WithOption(s, 10) // OPT_JUMP
    case Err(p) => Err(p)
    case Ok(s1) =>
      match CheckedTarget(optarg)
      case Err(p) => Err(p)
      case Ok(jumpto) =>
        FindMeaning(s1.targets, TargetName(jumpto), TryLoad, CouldNotFindTarget(TargetName(jumpto)));
        match Find(s1.targets, TargetName(jumpto), TryLoad, CouldNotFindTarget(TargetName(jumpto)))
        case Err(p) => Err(p)
        case Ok(f) =>
          if f.index.None? then Ok(s1.(jumpto := jumpto, target := None, targets := f.list))
          else
            FindKeepsTargets(s1.targets, TargetName(jumpto), TryLoad, CouldNotFindTarget(TargetName(jumpto)));
            Ok(Adopt(s1, jumpto, f.list, f.index.value))
  }

  /** A target found by -j becomes the one in hand: its block is the
      aligned header plus its own size, and its options are merged into the
      table in the next window of option numbers. */
  function Adopt(s: ParseState, jumpto: string, found: seq<Extension>, i: nat): (r: ParseState)
    requires Sound(s) && jumpto != "" && SameTargets(s.targets, found) && i < |found|
    ensures Sound(r) && r.jumpto == jumpto && r.target == Some(i)
    ensures r.targets[i].optionOffset == r.globalOffset
    ensures r.globalOffset == s.globalOffset + OptionOffset
    ensures r.targetSize == Align(TargetHeaderSize) + found[i].size
    ensures r.opts == Merged(s.opts, found[i].extraOpts, r.globalOffset)
    ensures r.targets == found[i := found[i].(optionOffset := r.globalOffset)]
    ensures r == s.(jumpto := r.jumpto, target := r.target, targetSize := r.targetSize, targets := r.targets,
                    globalOffset := r.globalOffset, opts := r.opts)
  {
    var t := found[i];
    var offset := s.globalOffset + OptionOffset;
    var targets := found[i := t.(optionOffset := offset)];
    assert SameTargets(s.targets, targets);
    SameTargetsSound(s.targets, targets);
    assert t.extraOpts == s.targets[i].extraOpts;
    MergedTable(s.opts, t.extraOpts, offset);
    s.(jumpto := jumpto, target := Some(i), targetSize := Align(TargetHeaderSize) + t.size,
       targets := targets, globalOffset := offset, opts := Merged(s.opts, t.extraOpts, offset))
  }

  /** -c: the packet counter is the argument and the byte counter the next
      plain word; both must be read as unsigned 64-bit numbers. */
  function CountersOption(s: ParseState, argv: seq<string>, pcnt: string): (r: Result<ParseState>)
    requires Sound(s)
    ensures r.Ok? ==> Sound(r.value)
  {
    match WithOption(s, 15) // OPT_COUNTERS
    case Err(p) => Err(p)
    case Ok(s1) =>
      if !NextIsWord(s1, argv) then Err(CountersNeedTwoValues)
      else
        var bcnt := argv[s1.optind];
        match ScanU64(pcnt)
        case None => Err(PacketCounterNotNumeric)
        case Some(p) =>
          match ScanU64(bcnt)
          case None => Err(ByteCounterNotNumeric)
          case Some(b) => Ok(s1.(optind := s1.optind + 1, fw := s1.fw.(pcnt := p, bcnt := b)))
  }

  // ---------------------------------------------------------------------
  // One round of the scan

  /** The command options. */
  predicate IsCommandKind(k: Kind) {
    k.AppendRule? || k.DeleteRule? || k.ReplaceRule? || k.InsertRule? ||
    k.ListRules? || k.FlushChain? || k.ZeroCounters? || k.RemoveChain? ||
    k.NewChain? || k.RenameChain? || k.SetPolicy?
  }

  /** The cases that set a flag or a setting and nothing in the rule:
      -v, -m, -n, -t, --line-numbers, --modprobe, a word that is no option,
      and an option nothing claims.  A word is refused unless it is `!`,
      which sets the latch; -v records its option on its first use only;
      -m does nothing, its handling being switched off; -t takes no `!`. */
  function SettingOption(s: ParseState, argv: seq<string>, t: Token): (r: Result<ParseState>)
    requires t.kind.Verbose? || t.kind.Match? || t.kind.Numeric? || t.kind.Table? || t.kind.LineNumbers? ||
             t.kind.Modprobe? || t.kind.NonOption? || t.kind.Unclaimed?
    requires Sound(s) && Delivered(t, argv) && s.optind == t.optind
    ensures r.Ok? ==> Sound(r.value)
    ensures r.Ok? && t.kind.NonOption? ==> r.value.invert && !s.invert
  {
    if t.kind.Verbose? then
      if s.verbose == 0 then
        match WithOption(s, 11) // OPT_VERBOSE
        case Err(p) => Err(p)
        case Ok(s1) => Ok(s1.(verbose := 1))
      else Ok(s.(verbose := s.verbose + 1))
    else if t.kind.Numeric? then WithOption(s, 0) // OPT_NUMERIC
    else if t.kind.LineNumbers? then WithOption(s, 14) // OPT_LINENUMBERS
    else if t.kind.Table? then
      if s.invert then Err(InvertBeforeTable) else Ok(s.(table := argv[s.optind - 1]))
    else if t.kind.Modprobe? then Ok(s.(modprobe := t.optarg))
    else if t.kind.NonOption? then
      if t.optarg.value != "!" then Err(BadArgument(t.optarg.value))
      else if s.invert then Err(MultipleInvert)
      else Ok(s.(invert := true))
    else Ok(s)
  }

  /** The option switch of do_command, on a state whose optind getopt_long
      has just set. */
  function Handle(s: ParseState, argv: seq<string>, t: Token): (r: Result<ParseState>)
    requires Sound(s) && Delivered(t, argv) && s.optind == t.optind
    ensures r.Ok? ==> Sound(r.value)
    ensures r.Ok? && t.kind.NonOption? ==> r.value.invert && !s.invert
  {
    var k := t.kind;
    if k.AppendRule? || k.DeleteRule? || k.ReplaceRule? || k.InsertRule? then
      RuleCommand(s, argv, k, t.optarg.value)
    else if k.ListRules? || k.FlushChain? || k.ZeroCounters? || k.RemoveChain? then
      ListingCommand(s, argv, k, t.optarg)
    else if k.NewChain? || k.RenameChain? || k.SetPolicy? then ChainNaming(s, argv, k, t.optarg.value)
    else if k.SourceIp? || k.DestIp? || k.SourceMac? || k.DestMac? then AddressOption(s, argv, k, t.optarg.value)
    else if k.HLength? || k.Opcode? || k.HType? || k.PType? then HeaderOption(s, argv, k, t.optarg.value)
    else if k.PLength? then Err(ProtocolLengthUnsupported)
    else if k.Jump? then JumpOption(s, t.optarg.value)
    else if k.ViaIn? || k.ViaOut? then InterfaceOption(s, argv, k, t.optarg.value)
    else if k.Counters? then CountersOption(s, argv, t.optarg.value)
    else SettingOption(s, argv, t)
  }

  /** One answer of getopt_long handled: the case runs on the optind getopt
      left, and every case but a `!` clears the latch afterwards. */
  function Step(s: ParseState, argv: seq<string>, t: Token): (r: Result<ParseState>)
    requires Sound(s) && Delivered(t, argv)
    ensures r.Ok? ==> Sound(r.value)
    ensures r.Ok? && !t.kind.NonOption? ==> !r.value.invert
    ensures r.Ok? && t.kind.NonOption? ==> r.value.invert && !s.invert
  {
    var h := Handle(s.(optind := t.optind), argv, t);
    if h.Err? || t.kind.NonOption? then h else Ok(h.value.(invert := false))
  }

  /** Every answer in the list is one getopt_long can give. */
  predicate AllDelivered(tokens: seq<Token>, argv: seq<string>) {
    forall i :: 0 <= i < |tokens| ==> Delivered(tokens[i], argv)
  }

  /** The scan as a whole: the answers handled in order, stopping at the
      first condition that ends the program. */
  function Parse(s: ParseState, argv: seq<string>, tokens: seq<Token>): (r: Result<ParseState>)
    requires Sound(s) && AllDelivered(tokens, argv)
    ensures r.Ok? ==> Sound(r.value)
    decreases |tokens|
  {
    if tokens == [] then Ok(s)
    else
      match Step(s, argv, tokens[0])
      case Err(p) => Err(p)
      case Ok(s1) => Parse(s1, argv, tokens[1..])
  }

  /** The getopt_long loop of do_command. */
  method Scan(s0: ParseState, argv: seq<string>, tokens: seq<Token>) returns (r: Result<ParseState>)
    requires Sound(s0) && AllDelivered(tokens, argv)
    ensures r == Parse(s0, argv, tokens)
  {
    var s := s0;
    var i := 0;
    while i < |tokens|
      invariant i <= |tokens| && Sound(s)
      invariant Parse(s0, argv, tokens) == Parse(s, argv, tokens[i..])
    {
      assert tokens[i..][1..] == tokens[i + 1..];
      var next := Step(s, argv, tokens[i]);
      if next.Err? {
        return Err(next.problem);
      }
      s := next.value;
      i := i + 1;
    }
    r := Ok(s);
  }

  // ---------------------------------------------------------------------
  // The checks after the scan

  /** The commands that get default addresses. */
  const AddressedCommands: bv32 := CmdReplace | CmdInsert | CmdDelete | CmdAppend

  /** The commands that build a rule and choose its target. */
  predicate IsRuleCommand(command: bv32) {
    command == CmdAppend || command == CmdDelete || command == CmdInsert || command == CmdReplace
  }

  /** A sound state with a rule command names a chain, and a rule number
      when the command inserts or replaces. */
  lemma RuleCommandNeeds(s: ParseState)
    requires Sound(s) && IsRuleCommand(s.command)
    ensures s.chain.Some?
    ensures s.command == CmdReplace || s.command == CmdInsert ==> s.rulenum >= 1
  {
    assert CmdAppend & ChainCommands != 0 && CmdDelete & ChainCommands != 0;
    assert CmdInsert & ChainCommands != 0 && CmdReplace & ChainCommands != 0;
    assert CmdInsert & NumberedCommands != 0 && CmdReplace & NumberedCommands != 0;
  }

  /** The host argument a rule command gets when none is given. */
  const AnyNetwork: string := "0.0.0.0/0"

  /** The addresses a host argument stands for, and its mask if there was
      an argument. */
  datatype Hosts = Hosts(addrs: seq<Addr>, mask: Option<Addr>)

  /** A host argument resolved and compacted: the addresses counted and the
      mask, or no addresses and no mask when there is no argument. */
  function Addresses(name: Option<string>, r: Resolver): (res: Result<Hosts>)
    ensures name.None? ==> res == Ok(Hosts([], None))
    ensures name.Some? && res.Ok? ==> res.value.mask.Some?
    ensures res.Ok? && res.value.mask.Some? ==>
              DistinctPrefix(res.value.addrs, |res.value.addrs|) &&
              forall k :: 0 <= k < |res.value.addrs| ==>
                MaskAddr(res.value.addrs[k], res.value.mask.value) == res.value.addrs[k]
  {
    if name.None? then Ok(Hosts([], None))
    else
      match Resolve(name.value, r)
      case Err(p) => Err(p)
      case Ok(v) =>
        var n := FirstRepeat(MaskEach(v.addrs, v.mask));
        CompactedAddressesMasked(v.addrs, v.mask);
        Ok(Hosts(Compacted(v.addrs, v.mask)[..n], Some(v.mask)))
  }

  /** -o has no meaning on the chains of incoming packets, nor -i on those
      of outgoing ones. */
  function Direction(command: bv32, options: bv32, chain: Option<string>): (p: Option<Problem>)
  {
    if !IsRuleCommand(command) || chain.None? then None
    else if (chain.value == "PREROUTING" || chain.value == "INPUT") && options & OptViaNameOut != 0 then
      Some(OptionNotWithChain(OptViaNameOut, chain.value))
    else if (chain.value == "POSTROUTING" || chain.value == "OUTPUT") && options & OptViaNameIn != 0 then
      Some(OptionNotWithChain(OptViaNameIn, chain.value))
    else None
  }

  /** The rule with its address masks, and the source and destination
      addresses. */
  datatype Addressed = Addressed(fw: Entry, saddrs: seq<Addr>, daddrs: seq<Addr>)

  /** The checks between the scan and the dispatch: every argument used, a
      command given, no `!` left pending; the host arguments resolved, with
      any address and mask zero for a rule command without them; no `!` on
      an address that stands for several; one source and one destination
      for a replacement; the option table; the chain name's length; and the
      direction of the interfaces. */
  function Checked(s: ParseState, argv: seq<string>, r: Resolver): (res: Result<Addressed>)
    requires Sound(s)
    ensures res.Ok? ==> s.optind >= |argv| && s.command != CmdNone && !s.invert
    ensures res.Ok? && (|res.value.saddrs| > 1 || |res.value.daddrs| > 1) ==>
              res.value.fw.arp.invflags & (InvSrcIp | InvTgtIp) == 0
    ensures res.Ok? && s.command == CmdReplace ==> |res.value.saddrs| == 1 && |res.value.daddrs| == 1
    ensures res.Ok? && s.chain.Some? ==> |s.chain.value| <= FunctionMaxNameLen
    ensures res.Ok? ==> Direction(s.command, s.options, s.chain).None?
    ensures res.Ok? ==> res.value.fw == s.fw.(arp := s.fw.arp.(smsk := res.value.fw.arp.smsk,
                                                                tmsk := res.value.fw.arp.tmsk))
    ensures res.Ok? && s.command & AddressedCommands != 0 && s.options & OptSIp == 0 ==>
              res.value.saddrs == [AnyAddr] && res.value.fw.arp.smsk == AnyAddr
    ensures res.Ok? && s.command & AddressedCommands != 0 && s.options & OptDIp == 0 ==>
              res.value.daddrs == [AnyAddr] && res.value.fw.arp.tmsk == AnyAddr
  {
    if s.optind < |argv| then Err(UnknownArguments)
    else if s.command == CmdNone then Err(NoCommand)
    else if s.invert then Err(NothingAfterInvert)
    else
      DefaultHosts(r);
      var defaults := s.command & AddressedCommands != 0;
      var shost := if defaults && s.options & OptSIp == 0 then Some(AnyNetwork) else s.shost;
      var dhost := if defaults && s.options & OptDIp == 0 then Some(AnyNetwork) else s.dhost;
      match Addresses(shost, r)
      case Err(p) => Err(p)
      case Ok(src) =>
        match Addresses(dhost, r)
        case Err(p) => Err(p)
        case Ok(dst) =>
          var ss := src.addrs;
          var ds := dst.addrs;
          var fw := s.fw.(arp := s.fw.arp.(smsk := src.mask.GetOr(s.fw.arp.smsk),
                                           tmsk := dst.mask.GetOr(s.fw.arp.tmsk)));
          if (|ss| > 1 || |ds| > 1) && fw.arp.invflags & (InvSrcIp | InvTgtIp) != 0 then
            Err(InvertWithMultipleAddresses)
          else if s.command == CmdReplace && (|ss| != 1 || |ds| != 1) then Err(ReplaceNeedsUniqueAddress)
          else
            assert WellShaped(CommandsVOptions);
            match OptCheck(CommandsVOptions, s.command, s.options, 0)
            case Fail(p) => Err(p)
            case Pass =>
              if s.chain.Some? && |s.chain.value| > FunctionMaxNameLen then Err(ChainNameTooLong(s.chain.value))
              else
                match Direction(s.command, s.options, s.chain)
                case Some(p) => Err(p)
                case None => Ok(Addressed(fw, ss, ds))
  }

  /** One host argument resolved into the rule's mask field: the mask and
      the addresses, or `mask` and no addresses when there is no argument. */
  method ResolveHost(name: Option<string>, mask: Addr, r: Resolver)
    returns (res: Result<(Addr, seq<Addr>)>)
    ensures Addresses(name, r).Err? ==> res == Err(Addresses(name, r).problem)
    ensures Addresses(name, r).Ok? ==>
              var h := Addresses(name, r).value;
              res == Ok((h.mask.GetOr(mask), h.addrs))
  {
    if name.None? {
      return Ok((mask, []));
    }
    var m, addrs, n := ParseHostNetworkMask(name.value, r);
    if m.Err? {
      return Err(m.problem);
    }
    res := Ok((m.value, addrs[..n]));
  }

  /** The checks after the scan, in the order do_command makes them. */
  method PostParse(s: ParseState, argv: seq<string>, r: Resolver) returns (res: Result<Addressed>)
    requires Sound(s)
    ensures res == Checked(s, argv, r)
  {
    if s.optind < |argv| {
      return Err(UnknownArguments);
    }
    if s.command == CmdNone {
      return Err(NoCommand);
    }
    if s.invert {
      return Err(NothingAfterInvert);
    }
    var shost, dhost := s.shost, s.dhost;
    if s.command & AddressedCommands != 0 {
      if s.options & OptDIp == 0 {
        dhost := Some(AnyNetwork);
      }
      if s.options & OptSIp == 0 {
        shost := Some(AnyNetwork);
      }
    }
    var src := ResolveHost(shost, s.fw.arp.smsk, r);
    if src.Err? {
      return Err(src.problem);
    }
    var dst := ResolveHost(dhost, s.fw.arp.tmsk, r);
    if dst.Err? {
      return Err(dst.problem);
    }
    var (smsk, saddrs) := src.value;
    var (tmsk, daddrs) := dst.value;
    var fw := s.fw.(arp := s.fw.arp.(smsk := smsk, tmsk := tmsk));
    if (|saddrs| > 1 || |daddrs| > 1) && fw.arp.invflags & (InvSrcIp | InvTgtIp) != 0 {
      return Err(InvertWithMultipleAddresses);
    }
    if s.command == CmdReplace && (|saddrs| != 1 || |daddrs| != 1) {
      return Err(ReplaceNeedsUniqueAddress);
    }
    assert WellShaped(CommandsVOptions);
    var outcome := GenericOptCheck(CommandsVOptions, s.command, s.options);
    if outcome.Fail? {
      return Err(outcome.problem);
    }
    if s.chain.Some? && |s.chain.value| > FunctionMaxNameLen {
      return Err(ChainNameTooLong(s.chain.value));
    }
    var wrong := Direction(s.command, s.options, s.chain);
    if wrong.Some? {
      return Err(wrong.value);
    }
    res := Ok(Addressed(fw, saddrs, daddrs));
  }

  // ---------------------------------------------------------------------
  // The rule handed to the engine

  /** The rule to hand over and the target list after the lookups. */
  datatype Assembled = Assembled(entry: Entry, targets: seq<Extension>)

  /** The standard target, which must be registered: the rule gets a block
      of the target header and the standard target's size, named by the
      whole jump (strcpy) and carrying the standard target's revision. */
  function WithStandardTarget(fw: Entry, targets: seq<Extension>, jumpto: string): (r: Result<Assembled>)
    ensures var p := FirstNamed(targets, "standard");
            (r.Ok? <==> p.Some?) &&
            (r.Err? ==> r.problem == CouldNotFindTarget("standard")) &&
            (r.Ok? ==> r.value.entry.arp == fw.arp && SameTargets(targets, r.value.targets) &&
                       r.value.targets[p.value].used)
    ensures var p := FirstNamed(targets, "standard");
            r.Ok? ==> r.value.entry == GenerateEntry(fw, TargetBlock(TargetHeaderSize + targets[p.value].size,
                                                                     jumpto, targets[p.value].revision))
  {
    var missing := CouldNotFindTarget("standard");
    FindMeaning(targets, TargetName(""), LoadMustSucceed, missing);
    match Find(targets, TargetName(""), LoadMustSucceed, missing)
    case Err(p) => Err(p)
    case Ok(f) =>
      var std := f.list[f.index.value];
      Ok(Assembled(GenerateEntry(fw, TargetBlock(TargetHeaderSize + std.size, jumpto, std.revision)), f.list))
  }

  /** The block of the target -j chose: the aligned header and the target's
      size, named by the jump cut to one less than the name field
      (strncpy), and carrying the target's revision. */
  function JumpBlock(s: ParseState): (b: seq<bv8>)
    requires Sound(s) && s.target.Some?
    ensures |b| == s.targetSize
  {
    TargetBlock(s.targetSize, Truncated(s.jumpto, TargetNameSize - 1), s.targets[s.target.value].revision)
  }

  /** The target a rule command ends with: a target extension named by -j
      gives way to a chain of that name; with no extension (no -j, or a
      chain) the standard target is looked up; a -j that names neither a
      chain nor an extension is refused. */
  function Assemble(s: ParseState, fw: Entry, chains: seq<string>): (r: Result<Assembled>)
    requires Sound(s)
    ensures r.Ok? ==> r.value.entry.arp == fw.arp && SameTargets(s.targets, r.value.targets)
    ensures r.Ok? ==> |r.value.targets| > 0 && TargetsSound(r.value.targets)
    ensures s.target.Some? && s.jumpto !in chains ==>
              r == Ok(Assembled(GenerateEntry(fw, JumpBlock(s)), s.targets))
    ensures s.jumpto == "" || s.jumpto in chains ==> r == WithStandardTarget(fw, s.targets, s.jumpto)
    ensures s.target.None? && s.jumpto != "" && s.jumpto !in chains ==>
              r == Err(CouldNotFindTarget(TargetName(s.jumpto)))
  {
    var target := if s.target.Some? && s.jumpto in chains then None else s.target;
    if target.None? && (s.jumpto == "" || s.jumpto in chains) then
      var r := WithStandardTarget(fw, s.targets, s.jumpto);
      if r.Ok? then SameTargetsSound(s.targets, r.value.targets); r else r
    else if target.None? then
      var missing := CouldNotFindTarget(TargetName(s.jumpto));
      FindMeaning(s.targets, TargetName(s.jumpto), LoadMustSucceed, missing);
      match Find(s.targets, TargetName(s.jumpto), LoadMustSucceed, missing)
      case Err(p) => Err(p)
      case Ok(_) => assert false; Err(missing)
    else
      Ok(Assembled(GenerateEntry(fw, JumpBlock(s)), s.targets))
  }

  /** A rule whose -j named a target extension, not a chain, is handed over
      with that target's block: it holds the jump cut to 28 characters and
      the target's revision. So -j ACCEPT and -j DROP, which both find the
      standard target, give different rules. */
  lemma JumpBlockRecorded(s: ParseState, fw: Entry, chains: seq<string>)
    requires Sound(s) && CString(s.jumpto) && s.target.Some? && s.jumpto !in chains
    ensures var r := Assemble(s, fw, chains);
            r.Ok? && TargetOf(r.value.entry).Some? &&
            var b := TargetOf(r.value.entry).value;
            |b| == s.targetSize &&
            b[TargetRevisionOffset] == s.targets[s.target.value].revision &&
            BlockName(b) == Bytes(Truncated(s.jumpto, TargetNameSize - 1))
  {
    var name := Truncated(s.jumpto, TargetNameSize - 1);
    TruncatedCString(s.jumpto, TargetNameSize - 1);
    EntryBlock(fw, s.targetSize, name, s.targets[s.target.value].revision);
  }

  /** A rule without -j, or whose jump names a chain, is handed over with
      the standard target's block: it holds the standard target's revision
      and names the jump in full ("" with no -j) when the jump fits the
      name field. */
  lemma StandardBlockRecorded(s: ParseState, fw: Entry, chains: seq<string>)
    requires Sound(s) && CString(s.jumpto) && (s.jumpto == "" || s.jumpto in chains)
    ensures var r := Assemble(s, fw, chains);
            var p := FirstNamed(s.targets, "standard");
            (r.Ok? <==> p.Some?) &&
            (r.Ok? ==>
               TargetOf(r.value.entry).Some? &&
               var b := TargetOf(r.value.entry).value;
               |b| == TargetHeaderSize + s.targets[p.value].size &&
               b[TargetRevisionOffset] == s.targets[p.value].revision &&
               (|s.jumpto| < TargetNameSize ==> BlockName(b) == Bytes(s.jumpto)))
  {
    StandardBlock(fw, s.targets, s.jumpto);
  }

  /** What WithStandardTarget builds, read back from the rule. */
  lemma StandardBlock(fw: Entry, targets: seq<Extension>, jumpto: string)
    requires CString(jumpto)
    ensures var r := WithStandardTarget(fw, targets, jumpto);
            var p := FirstNamed(targets, "standard");
            r.Ok? ==>
              TargetOf(r.value.entry).Some? &&
              var b := TargetOf(r.value.entry).value;
              |b| == TargetHeaderSize + targets[p.value].size &&
              b[TargetRevisionOffset] == targets[p.value].revision &&
              (|jumpto| < TargetNameSize ==> BlockName(b) == Bytes(jumpto))
  {
    var r := WithStandardTarget(fw, targets, jumpto);
    var p := FirstNamed(targets, "standard");
    if r.Ok? {
      var size, revision := TargetHeaderSize + targets[p.value].size, targets[p.value].revision;
      var b := TargetBlock(size, jumpto, revision);
      EntryBlock(fw, size, jumpto, revision);
      calc {
        TargetOf(r.value.entry);
        TargetOf(GenerateEntry(fw, b));
        Some(b);
      }
    }
  }

  // ---------------------------------------------------------------------
  // Properties of the scan

  /** Scanning two runs of answers is scanning the first and then the
      second from where the first left off. */
  lemma {:induction false} ParseConcat(s: ParseState, argv: seq<string>, t1: seq<Token>, t2: seq<Token>)
    requires Sound(s) && AllDelivered(t1, argv) && AllDelivered(t2, argv)
    ensures AllDelivered(t1 + t2, argv)
    ensures Parse(s, argv, t1 + t2) ==
              match Parse(s, argv, t1)
              case Err(p) => Err(p)
              case Ok(s1) => Parse(s1, argv, t2)
    decreases |t1|
  {
    assert AllDelivered(t1 + t2, argv);
    if t1 != [] {
      assert (t1 + t2)[0] == t1[0];
      assert (t1 + t2)[1..] == t1[1..] + t2;
      match Step(s, argv, t1[0])
      case Err(_) =>
      case Ok(s1) => ParseConcat(s1, argv, t1[1..], t2);
    } else {
      assert t1 + t2 == t2;
    }
  }

  /** A `!` right after a `!` is refused. */
  lemma DoubleBangRefused(s: ParseState, argv: seq<string>, b1: Token, b2: Token)
    requires Sound(s) && Delivered(b1, argv) && Delivered(b2, argv)
    requires b1.kind.NonOption? && b1.optarg == Some("!") && b2.kind.NonOption? && b2.optarg == Some("!")
    requires Step(s, argv, b1).Ok?
    ensures Step(Step(s, argv, b1).value, argv, b2) == Err(MultipleInvert)
  {
  }

  /** With the `!` latch set, as a `!` leaves it, -j is refused: the jump
      cannot be inverted. */
  lemma BangBeforeJumpRefused(s: ParseState, argv: seq<string>, j: Token)
    requires Sound(s) && s.invert && Delivered(j, argv) && j.kind.Jump?
    ensures Step(s, argv, j).Err?
  {
    var s1 := s.(optind := j.optind);
    JumpNotInvertible(s1, j.optarg.value);
    assert Handle(s1, argv, j) == JumpOption(s1, j.optarg.value);
  }

  lemma JumpNotInvertible(s: ParseState, optarg: string)
    requires Sound(s) && s.invert
    ensures JumpOption(s, optarg).Err?
  {
    SetOptionEffect(OptionState(s.options, s.fw.arp.invflags), 10, true);
  }

  /** -A, -D, -R and -I record their command and chain and nothing of the
      rule; a pending `!` or a clashing command is refused. */
  lemma RuleCommandRecords(s: ParseState, argv: seq<string>, kind: Kind, chain: string)
    requires kind.AppendRule? || kind.DeleteRule? || kind.ReplaceRule? || kind.InsertRule?
    requires Sound(s)
    ensures var added := AddCommand(s.command, RuleBit(kind), CmdNone, s.invert);
            var r := RuleCommand(s, argv, kind, chain);
            (added.Err? ==> r == Err(added.problem)) &&
            (r.Ok? ==> added.Ok? && r.value.chain == Some(chain) &&
                       r.value == s.(command := r.value.command, chain := r.value.chain,
                                     rulenum := r.value.rulenum, optind := r.value.optind) &&
                       (r.value.command == added.value || (kind.DeleteRule? && r.value.command == CmdDeleteNum)))
  {
  }

  /** A plain word after -D, -R or -I is read as the rule number and
      consumed; -D then becomes a delete by number.  A word that is no
      rule number is refused. */
  lemma RuleNumberTaken(s: ParseState, argv: seq<string>, kind: Kind, chain: string)
    requires kind.DeleteRule? || kind.ReplaceRule? || kind.InsertRule?
    requires Sound(s) && !s.invert && AddCommand(s.command, RuleBit(kind), CmdNone, s.invert).Ok?
    requires NextIsWord(s, argv)
    ensures var n := ParseRuleNumber(argv[s.optind]);
            var r := RuleCommand(s, argv, kind, chain);
            (n.Err? ==> r == Err(InvalidRuleNumber(argv[s.optind]))) &&
            (n.Ok? ==> r.Ok? && r.value.rulenum == n.value && r.value.optind == s.optind + 1 &&
                       r.value.command == (if kind.DeleteRule? then CmdDeleteNum else s.command | RuleBit(kind)))
  {
  }

  /** Without a plain word to follow, -R is refused, -I inserts at the top
      and -D deletes by rule; -A never reads one. */
  lemma RuleNumberMissing(s: ParseState, argv: seq<string>, kind: Kind, chain: string)
    requires kind.AppendRule? || kind.DeleteRule? || kind.ReplaceRule? || kind.InsertRule?
    requires Sound(s) && !s.invert && AddCommand(s.command, RuleBit(kind), CmdNone, s.invert).Ok?
    requires kind.AppendRule? || !NextIsWord(s, argv)
    ensures var r := RuleCommand(s, argv, kind, chain);
            (kind.ReplaceRule? ==> r == Err(RuleNumberRequired)) &&
            (!kind.ReplaceRule? ==> r.Ok? && r.value.optind == s.optind &&
                                    r.value.command == s.command | RuleBit(kind) &&
                                    r.value.rulenum == (if kind.InsertRule? then 1 else s.rulenum))
  {
  }

  /** -N refuses a name that starts with `-` or that names a target,
      loading one if it can; otherwise it records the command and the new
      chain and nothing else. */
  lemma NewChainRefusals(s: ParseState, argv: seq<string>, chain: string)
    requires Sound(s)
    ensures var f := Find(s.targets, TargetName(chain), TryLoad, CouldNotFindTarget(TargetName(chain)));
            var r := ChainNaming(s, argv, NewChain, chain);
            (|chain| > 0 && chain[0] == '-' ==> r == Err(ChainNameStartsWithDash)) &&
            (!(|chain| > 0 && chain[0] == '-') && f.Ok? && f.value.index.Some? ==> r == Err(ChainClashesWithTarget)) &&
            (r.Ok? ==> FirstNamed(s.targets, TargetName(chain)).None? &&
                       AddCommand(s.command, CmdNewChain, CmdNone, s.invert).Ok? &&
                       r.value == s.(command := s.command | CmdNewChain, chain := Some(chain)))
  {
    FindMeaning(s.targets, TargetName(chain), TryLoad, CouldNotFindTarget(TargetName(chain)));
  }

  /** -E takes the next plain word as the new name and -P as the policy,
      and refuses to go without one. */
  lemma SecondWordTaken(s: ParseState, argv: seq<string>, kind: Kind, chain: string)
    requires kind.RenameChain? || kind.SetPolicy?
    requires Sound(s) && !s.invert
    requires AddCommand(s.command, if kind.RenameChain? then CmdRenameChain else CmdSetPolicy, CmdNone, s.invert).Ok?
    ensures var r := ChainNaming(s, argv, kind, chain);
            (!NextIsWord(s, argv) ==> r == Err(if kind.RenameChain? then RenameNeedsNewName else PolicyNeedsTarget)) &&
            (NextIsWord(s, argv) ==>
               r.Ok? && r.value.chain == Some(chain) && r.value.optind == s.optind + 1 &&
               (kind.RenameChain? ==> r.value.newname == Some(argv[s.optind]) && r.value.policy == s.policy) &&
               (kind.SetPolicy? ==> r.value.policy == Some(argv[s.optind]) && r.value.newname == s.newname))
  {
  }

  /** -L, -F, -Z and -X record their command and take the chain from the
      attached argument or else from a plain word that follows. */
  lemma ListingChain(s: ParseState, argv: seq<string>, kind: Kind, optarg: Option<string>)
    requires kind.ListRules? || kind.FlushChain? || kind.ZeroCounters? || kind.RemoveChain?
    requires Sound(s)
    ensures var added := AddCommand(s.command, ListingBit(kind), Companions(ListingBit(kind)), s.invert);
            var r := ListingCommand(s, argv, kind, optarg);
            (added.Err? ==> r == Err(added.problem)) &&
            (added.Ok? ==>
               r.Ok? && r.value.command == added.value &&
               (optarg.Some? ==> r.value == s.(command := added.value, chain := optarg)) &&
               (optarg.None? && NextIsWord(s, argv) ==>
                  r.value == s.(command := added.value, chain := Some(argv[s.optind]), optind := s.optind + 1)) &&
               (optarg.None? && !NextIsWord(s, argv) ==> r.value == s.(command := added.value)))
  {
  }

  /** -L followed by -Z is accepted and records both commands; -F
      followed by -L is refused. */
  lemma ListThenZero(s: ParseState, argv: seq<string>)
    requires Sound(s) && s.command == CmdNone && !s.invert
    ensures var l := ListingCommand(s, argv, ListRules, Some("INPUT"));
            l.Ok? && ListingCommand(l.value, argv, ZeroCounters, None).Ok? &&
            ListingCommand(l.value, argv, ZeroCounters, None).value.command == CmdList | CmdZero
    ensures var f := ListingCommand(s, argv, FlushChain, Some("INPUT"));
            f.Ok? && ListingCommand(f.value, argv, ListRules, None).Err?
  {
  }

  /** -s and -d record their argument as the host text and the option as
      set_option records it, inverted when a `!` is in force (the latch, or
      its own `!` argument); nothing else of the rule changes. */
  lemma HostOption(s: ParseState, argv: seq<string>, kind: Kind, optarg: string)
    requires kind.SourceIp? || kind.DestIp?
    requires Sound(s) && 1 <= s.optind <= |argv|
    requires AddressOption(s, argv, kind, optarg).Ok?
    ensures var r := AddressOption(s, argv, kind, optarg).value;
            var st := SetOption(OptionState(s.options, s.fw.arp.invflags), if kind.SourceIp? then 1 else 2,
                                s.invert || optarg == "!");
            st == Ok(OptionState(r.options, r.fw.arp.invflags)) &&
            (kind.SourceIp? ==> r.shost == Some(argv[r.optind - 1]) && r.dhost == s.dhost) &&
            (kind.DestIp? ==> r.dhost == Some(argv[r.optind - 1]) && r.shost == s.shost) &&
            r.fw == s.fw.(arp := s.fw.arp.(invflags := r.fw.arp.invflags))
  {
  }

  /** --source-mac and --destination-mac store the six address and mask
      bytes the parser read into the first six bytes of the device address,
      keeping the other bytes and the other device address; an address
      that does not parse is refused with the option's own error. */
  lemma MacOptionStored(s: ParseState, argv: seq<string>, kind: Kind, optarg: string)
    requires kind.SourceMac? || kind.DestMac?
    requires Sound(s) && 1 <= s.optind <= |argv|
    requires Flag(s, argv, optarg, if kind.SourceMac? then 3 else 4).Ok?
    ensures var (s1, arg) := Flag(s, argv, optarg, if kind.SourceMac? then 3 else 4).value;
            var r := AddressOption(s, argv, kind, optarg);
            var m := MacAndMask(arg);
            (!m.ok ==> r == Err(if kind.SourceMac? then BadSourceMac else BadDestinationMac)) &&
            (m.ok ==>
               r.Ok? &&
               var (d, e) := if kind.SourceMac? then (r.value.fw.arp.srcDevaddr, s.fw.arp.srcDevaddr)
                             else (r.value.fw.arp.tgtDevaddr, s.fw.arp.tgtDevaddr);
               d.addr[..EthAlen] == m.addr.value && d.mask[..EthAlen] == m.mask.value &&
               d.addr[EthAlen..] == e.addr[EthAlen..] && d.mask[EthAlen..] == e.mask[EthAlen..] &&
               (kind.SourceMac? ==> r.value.fw.arp.tgtDevaddr == s.fw.arp.tgtDevaddr) &&
               (kind.DestMac? ==> r.value.fw.arp.srcDevaddr == s.fw.arp.srcDevaddr))
  {
    var (s1, arg) := Flag(s, argv, optarg, if kind.SourceMac? then 3 else 4).value;
    var a := s1.fw.arp;
    assert a.srcDevaddr == s.fw.arp.srcDevaddr && a.tgtDevaddr == s.fw.arp.tgtDevaddr;
    if MacAndMask(arg).ok {
      if kind.SourceMac? {
        StoreMacWrites(a.srcDevaddr, arg);
        assert AddressOption(s, argv, kind, optarg) ==
                 Ok(s1.(fw := s1.fw.(arp := a.(srcDevaddr := StoreMac(a.srcDevaddr, arg)))));
      } else {
        StoreMacWrites(a.tgtDevaddr, arg);
        assert AddressOption(s, argv, kind, optarg) ==
                 Ok(s1.(fw := s1.fw.(arp := a.(tgtDevaddr := StoreMac(a.tgtDevaddr, arg)))));
      }
    }
  }

  /** After -i or -o the rule matches an interface exactly when its name
      has the given name (a trailing `+` taken as a prefix wildcard). */
  lemma InterfaceRuleMatches(a: ArpMatch, incoming: bool, arg: string, other: string)
    requires 0 < |arg| < IfNameSize && |other| < IfNameSize && '\0' !in arg && '\0' !in other
    ensures var b := Interface(a, incoming, arg);
            var (name, mask) := if incoming then (b.iniface, b.inifaceMask) else (b.outiface, b.outifaceMask);
            InterfaceMatches(NameField(other), name, mask) <==>
              if arg[|arg| - 1] == '+' then |other| >= |arg| - 1 && other[..|arg| - 1] == arg[..|arg| - 1]
              else other == arg
  {
    InterfaceMaskMeaning(arg, other);
  }

  /** -c stores both counters exactly when both words read as unsigned
      numbers; each failure has its own error. */
  lemma CountersNeedBothNumbers(s: ParseState, argv: seq<string>, pcnt: string)
    requires Sound(s) && WithOption(s, 15).Ok?
    ensures var r := CountersOption(s, argv, pcnt);
            (!NextIsWord(s, argv) ==> r == Err(CountersNeedTwoValues)) &&
            (NextIsWord(s, argv) && ScanU64(pcnt).None? ==> r == Err(PacketCounterNotNumeric)) &&
            (NextIsWord(s, argv) && ScanU64(pcnt).Some? && ScanU64(argv[s.optind]).None? ==>
               r == Err(ByteCounterNotNumeric)) &&
            (r.Ok? <==> NextIsWord(s, argv) && ScanU64(pcnt).Some? && ScanU64(argv[s.optind]).Some?) &&
            (r.Ok? ==> r.value.fw.pcnt == ScanU64(pcnt).value && r.value.fw.bcnt == ScanU64(argv[s.optind]).value &&
                       r.value.optind == s.optind + 1)
  {
  }

  /** -v records its option on its first use only, so that repeating it
      raises the level instead of failing as a repeated option. */
  lemma VerboseCounts(s: ParseState, argv: seq<string>, t: Token)
    requires t.kind.Verbose? && Sound(s) && Delivered(t, argv) && s.optind == t.optind
    ensures s.verbose > 0 ==> SettingOption(s, argv, t) == Ok(s.(verbose := s.verbose + 1))
    ensures s.verbose == 0 ==>
              var w := WithOption(s, 11);
              (w.Err? ==> SettingOption(s, argv, t) == Err(w.problem)) &&
              (w.Ok? ==> SettingOption(s, argv, t) == Ok(w.value.(verbose := 1)))
  {
  }

  /** -t refuses a pending `!` and otherwise names the table; -n and
      --line-numbers only record their options; --modprobe keeps its
      argument. */
  lemma OtherSettings(s: ParseState, argv: seq<string>, t: Token)
    requires t.kind.Table? || t.kind.Numeric? || t.kind.LineNumbers? || t.kind.Modprobe?
    requires Sound(s) && Delivered(t, argv) && s.optind == t.optind
    ensures var r := SettingOption(s, argv, t);
            (t.kind.Table? ==> r == if s.invert then Err(InvertBeforeTable) else Ok(s.(table := argv[t.optind - 1]))) &&
            (t.kind.Numeric? ==> r == WithOption(s, 0)) &&
            (t.kind.LineNumbers? ==> r == WithOption(s, 14)) &&
            (t.kind.Modprobe? ==> r == Ok(s.(modprobe := t.optarg)))
  {
  }

  /** An opcode given by name, in any case and with an optional mask
      after a '/', is stored as its number in network order; no mask gives
      all ones, a mask that parses is stored, and one that does not leaves
      the old mask. */
  lemma OpcodeNameAccepted(a: ArpMatch, word: string, i: nat)
    requires i < |OpcodeNames| && StrCaseEq(CutAtLastSlash(word).0, OpcodeNames[i])
    ensures var maskText := CutAtLastSlash(word).1;
            var r := HeaderFields(a, Opcode, word, word);
            (maskText.None? ==> r == Ok(a.(arpop := Htons(i + 1), arpopMask := AllOnes16))) &&
            (maskText.Some? && IntField(maskText.value, 10, 65535).Some? ==>
               r == Ok(a.(arpop := Htons(i + 1), arpopMask := Htons(IntField(maskText.value, 10, 65535).value)))) &&
            (maskText.Some? && IntField(maskText.value, 10, 65535).None? ==> r == Ok(a.(arpop := Htons(i + 1))))
  {
    var text := CutAtLastSlash(word).0;
    NameIndex(text, i);
    OpcodeNameIsNoNumber(text, i);
    NoNumberKeepsValue(word, 10, a.arpop, a.arpopMask);
    var st := Get16AndMask(word, 10, a.arpop, a.arpopMask);
    assert HeaderFields(a, Opcode, word, word) == Ok(a.(arpop := Htons(i + 1), arpopMask := st.mask));
  }

  /** A text equal to the `i`th opcode name ignoring case is found there. */
  lemma NameIndex(text: string, i: nat)
    requires i < |OpcodeNames| && StrCaseEq(text, OpcodeNames[i])
    ensures OpcodeIndex(text, 0) == i
  {
    OpcodeNamesDistinct();
  }

  /** An opcode name followed by a '/' and a decimal mask is that
      opcode under that mask, as "Request/5" is the request under mask 5. */
  lemma OpcodeNameWithMask(a: ArpMatch, i: nat, m: nat)
    requires i < |OpcodeNames| && m < 0x1_0000
    ensures HeaderFields(a, Opcode, OpcodeNames[i] + "/" + Dec(m), OpcodeNames[i] + "/" + Dec(m)) ==
              Ok(a.(arpop := Htons(i + 1), arpopMask := Htons(m)))
  {
    OpcodeNamesAreWords();
    DigitsHaveNoSlash(m);
    CutAtSlashBetween(OpcodeNames[i], Dec(m));
    assert StrCaseEq(OpcodeNames[i], OpcodeNames[i]);
    IntFieldReadsDec(m, 10, 65535);
    OpcodeNameAccepted(a, OpcodeNames[i] + "/" + Dec(m), i);
  }

  /** --h-type accepts exactly a hexadecimal number with an optional
      hexadecimal mask, or "Ethernet" in any case before the optional
      mask; anything else is refused as a bad hardware type. */
  lemma HTypeWordsAccepted(a: ArpMatch, word: string, optarg: string)
    ensures var (text, maskText) := CutAtLastSlash(word);
            var r := HeaderFields(a, HType, word, optarg);
            (r.Ok? <==> (IntField(text, 16, 65535).Some? &&
                         (maskText.None? || IntField(maskText.value, 16, 65535).Some?)) ||
                        StrCaseEq(text, "Ethernet")) &&
            (r.Err? ==> r.problem == BadHardwareType)
  {
    var st := Get16AndMask(word, 16, a.arhrd, a.arhrdMask);
    Get16AndMaskSpec(word, 16, a.arhrd, a.arhrdMask);
    assert HeaderFields(a, HType, word, optarg) ==
             if st.ok then Ok(a.(arhrd := st.value, arhrdMask := st.mask))
             else if !StrCaseEq(CutAtLastSlash(word).0, "Ethernet") then Err(BadHardwareType)
             else Ok(a.(arhrd := Htons(1), arhrdMask := st.mask));
  }

  /** --proto-type accepts exactly a number with an optional mask, both in
      C notation (decimal, octal or hexadecimal), or "ipv4" in any case
      before the optional mask; anything else is refused as a bad protocol
      type. */
  lemma PTypeWordsAccepted(a: ArpMatch, word: string, optarg: string)
    ensures var (text, maskText) := CutAtLastSlash(word);
            var r := HeaderFields(a, PType, word, optarg);
            (r.Ok? <==> (IntField(text, 0, 65535).Some? &&
                         (maskText.None? || IntField(maskText.value, 0, 65535).Some?)) ||
                        StrCaseEq(text, "ipv4")) &&
            (r.Err? ==> r.problem == BadProtocolType)
  {
    var st := Get16AndMask(word, 0, a.arpro, a.arproMask);
    Get16AndMaskSpec(word, 0, a.arpro, a.arproMask);
    assert HeaderFields(a, PType, word, optarg) ==
             if st.ok then Ok(a.(arpro := st.value, arproMask := st.mask))
             else if !StrCaseEq(CutAtLastSlash(word).0, "ipv4") then Err(BadProtocolType)
             else Ok(a.(arpro := Htons(0x800), arproMask := st.mask));
  }

  /** "Ethernet" in any case, with an optional mask, is hardware type 1;
      the mask is all ones, the hexadecimal mask given, or the old mask
      when the given one does not parse. */
  lemma HTypeNameAccepted(a: ArpMatch, word: string, optarg: string)
    requires StrCaseEq(CutAtLastSlash(word).0, "Ethernet")
    ensures var maskText := CutAtLastSlash(word).1;
            var r := HeaderFields(a, HType, word, optarg);
            (maskText.None? ==> r == Ok(a.(arhrd := Htons(1), arhrdMask := AllOnes16))) &&
            (maskText.Some? && IntField(maskText.value, 16, 65535).Some? ==>
               r == Ok(a.(arhrd := Htons(1), arhrdMask := Htons(IntField(maskText.value, 16, 65535).value)))) &&
            (maskText.Some? && IntField(maskText.value, 16, 65535).None? ==> r == Ok(a.(arhrd := Htons(1))))
  {
    EthernetIsNoHex(CutAtLastSlash(word).0, 65535);
    NoNumberKeepsValue(word, 16, a.arhrd, a.arhrdMask);
    var st := Get16AndMask(word, 16, a.arhrd, a.arhrdMask);
    assert HeaderFields(a, HType, word, optarg) == Ok(a.(arhrd := Htons(1), arhrdMask := st.mask));
  }

  /** "ipv4" in any case, with an optional mask, is protocol type 0x800;
      the mask is all ones, the mask given, or the old mask when the given
      one does not parse. */
  lemma PTypeNameAccepted(a: ArpMatch, word: string, optarg: string)
    requires StrCaseEq(CutAtLastSlash(word).0, "ipv4")
    ensures var maskText := CutAtLastSlash(word).1;
            var r := HeaderFields(a, PType, word, optarg);
            (maskText.None? ==> r == Ok(a.(arpro := Htons(0x800), arproMask := AllOnes16))) &&
            (maskText.Some? && IntField(maskText.value, 0, 65535).Some? ==>
               r == Ok(a.(arpro := Htons(0x800), arproMask := Htons(IntField(maskText.value, 0, 65535).value)))) &&
            (maskText.Some? && IntField(maskText.value, 0, 65535).None? ==> r == Ok(a.(arpro := Htons(0x800))))
  {
    var text := CutAtLastSlash(word).0;
    assert ToLower(text[0]) == 'i';
    LetterWordIsNoField(text, 0, 65535);
    NoNumberKeepsValue(word, 0, a.arpro, a.arproMask);
    var st := Get16AndMask(word, 0, a.arpro, a.arproMask);
    assert HeaderFields(a, PType, word, optarg) == Ok(a.(arpro := Htons(0x800), arproMask := st.mask));
  }

  /** After `!` the name lookup sees the `!` and not the name that follows
      it, so an inverted opcode name is refused. */
  lemma InvertedOpcodeNameRefused(a: ArpMatch, i: nat)
    requires i < |OpcodeNames|
    ensures HeaderFields(a, Opcode, OpcodeNames[i], "!") == Err(BadOpcode)
  {
    OpcodeNamesAreWords();
    OpcodeIndexOfName(i);
    WordIsNoNumber(OpcodeNames[i], 10, a.arpop, a.arpopMask);
  }

  /** -l never fails on its argument: a length that does not parse leaves
      the length as it was, and only a mask that parses is stored. */
  lemma LengthErrorIgnored(a: ArpMatch, arg: string, optarg: string)
    ensures HeaderFields(a, HLength, arg, optarg).Ok?
    ensures var st := GetLengthAndMask(arg, a.arhln, a.arhlnMask);
            !st.ok ==> HeaderFields(a, HLength, arg, optarg).value.arhln == a.arhln
  {
    LengthAndMaskSpec(arg, a.arhln, a.arhlnMask);
  }

  /** The default host argument has the zero mask. */
  lemma AnyNetworkHasZeroMask()
    ensures ParseMask(SplitHostMask(AnyNetwork).1) == Ok(AnyAddr)
  {
    CutAtSlashBetween("0.0.0.0", "0");
    assert AnyNetwork == "0.0.0.0" + "/" + "0";
    assert SplitHostMask(AnyNetwork) == ("0.0.0.0", Some("0"));
    assert DottedToAddr("0").None?;
    assert Dec(0) == "0";
    StringToNumberReadsDec(0, 0, 32);
  }

  /** The default host argument stands for the one address 0.0.0.0 with
      the zero mask. */
  lemma DefaultHosts(r: Resolver)
    ensures Addresses(Some(AnyNetwork), r) == Ok(Hosts([AnyAddr], Some(AnyAddr)))
  {
    AnyNetworkHasZeroMask();
    ZeroMaskHosts(AnyNetwork, r);
  }

  /** A host argument with the zero mask stands for 0.0.0.0 alone. */
  lemma ZeroMaskHosts(name: string, r: Resolver)
    requires ParseMask(SplitHostMask(name).1) == Ok(AnyAddr)
    ensures Addresses(Some(name), r) == Ok(Hosts([AnyAddr], Some(AnyAddr)))
  {
    ZeroMaskMeansAnyHost(name, r);
    assert [AnyAddr][..1] == [AnyAddr];
  }
}

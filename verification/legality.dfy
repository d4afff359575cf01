/** Command and option bookkeeping of the front end: the command and option
    bits, the letters they are printed with, the `!` latch, the inversion
    bits an option may set, and the table of legal command and option
    combinations. */
module Legality {
  import opened Common

  // ---------------------------------------------------------------------
  // Bits

  /** `1 << k` */
  function Bit(k: nat): (b: bv32)
    requires k < NumberOfOpt
  {
    if k == 0 then 1 else Bit(k - 1) << 1
  }

  /** The sixteen bits are the option constants below, none of them 0. */
  lemma BitValues()
    ensures Bit(0) == 1 && Bit(1) == 2 && Bit(2) == 4 && Bit(3) == 8 && Bit(4) == 0x10 && Bit(5) == 0x20
    ensures Bit(6) == 0x40 && Bit(7) == 0x80 && Bit(8) == 0x100 && Bit(9) == 0x200 && Bit(10) == 0x400
    ensures Bit(11) == 0x800 && Bit(12) == 0x1000 && Bit(13) == 0x2000 && Bit(14) == 0x4000 && Bit(15) == 0x8000
  {
  }

  lemma BitNonZero(k: nat)
    requires k < NumberOfOpt
    ensures Bit(k) != 0
  {
    BitValues();
  }

  /** 2 to the power `k`, the value of bit `k` as a number. */
  function Pow2(k: nat): (p: nat)
    ensures p >= 1
  {
    if k == 0 then 1 else 2 * Pow2(k - 1)
  }

  const CmdNone: bv32 := 0x0000
  const CmdInsert: bv32 := 0x0001
  const CmdDelete: bv32 := 0x0002
  const CmdDeleteNum: bv32 := 0x0004
  const CmdReplace: bv32 := 0x0008
  const CmdAppend: bv32 := 0x0010
  const CmdList: bv32 := 0x0020
  const CmdFlush: bv32 := 0x0040
  const CmdZero: bv32 := 0x0080
  const CmdNewChain: bv32 := 0x0100
  const CmdDeleteChain: bv32 := 0x0200
  const CmdSetPolicy: bv32 := 0x0400
  const CmdCheck: bv32 := 0x0800
  const CmdRenameChain: bv32 := 0x1000
  const NumberOfCmd: nat := 13

  /** The letters of the commands, one per bit from the lowest; the table
      has no entry for the last command. */
  const CmdFlags: seq<char> := ['I', 'D', 'D', 'R', 'A', 'L', 'F', 'Z', 'N', 'X', 'P', 'E']

  const OptNone: bv32 := 0x0000
  const OptNumeric: bv32 := 0x0001
  const OptSIp: bv32 := 0x0002
  const OptDIp: bv32 := 0x0004
  const OptSMac: bv32 := 0x0008
  const OptDMac: bv32 := 0x0010
  const OptHLength: bv32 := 0x0020
  const OptPLength: bv32 := 0x0040
  const OptOpcode: bv32 := 0x0080
  const OptHType: bv32 := 0x0100
  const OptPType: bv32 := 0x0200
  const OptJump: bv32 := 0x0400
  const OptVerbose: bv32 := 0x0800
  const OptViaNameIn: bv32 := 0x1000
  const OptViaNameOut: bv32 := 0x2000
  const OptLineNumbers: bv32 := 0x4000
  const OptCounters: bv32 := 0x8000
  const NumberOfOpt: nat := 16

  /** The letters of the options; the options that only have a long name
      are printed as the control character of their internal code. */
  const OptFlags: seq<char> :=
    ['n', 's', 'd', '\U{2}', '\U{3}', '\U{7}', '\U{8}', '\U{4}', '\U{5}', '\U{6}', 'j', 'v', 'i', 'o', '0', 'c']

  /** The inversion bits of a rule's ARP header, from the kernel's
      `arp_tables.h`. */
  const InvViaIn: bv16 := 0x0001
  const InvViaOut: bv16 := 0x0002
  const InvSrcIp: bv16 := 0x0004
  const InvTgtIp: bv16 := 0x0008
  const InvSrcDevAddr: bv16 := 0x0010
  const InvTgtDevAddr: bv16 := 0x0020
  const InvArpOp: bv16 := 0x0040
  const InvArpHrd: bv16 := 0x0080
  const InvArpPro: bv16 := 0x0100
  const InvArpHln: bv16 := 0x0200

  /** The inversion bit each option sets when preceded by `!`; 0 where
      the option cannot be inverted. */
  const InverseForOptions: seq<bv16> :=
    [0, InvSrcIp, InvTgtIp, InvSrcDevAddr, InvTgtDevAddr, InvArpHln, 0, InvArpOp,
     InvArpHrd, InvArpPro, 0, 0, InvViaIn, InvViaOut, 0, 0]

  // ---------------------------------------------------------------------
  // Letters

  /** The position of the highest set bit; 0 for 0 and 1. */
  function HighestBit(v: nat): (k: nat)
    ensures v >= 1 ==> Pow2(k) <= v < 2 * Pow2(k)
  {
    if v <= 1 then 0 else HighestBit(v / 2) + 1
  }

  /** A single bit is found at its own position. */
  lemma {:induction false} HighestBitOfBit(k: nat)
    ensures HighestBit(Pow2(k)) == k
  {
    if k > 0 {
      HighestBitOfBit(k - 1);
    }
  }

  /** opt2char: the letter of the highest option bit set. */
  method Opt2Char(option: nat) returns (c: char)
    requires HighestBit(option) < NumberOfOpt
    ensures c == OptFlags[HighestBit(option)]
  {
    var v, p := option, 0;
    while v > 1
      invariant p + HighestBit(v) == HighestBit(option)
      decreases v
    {
      v, p := v / 2, p + 1;
    }
    c := OptFlags[p];
  }

  /** cmd2char: the letter of the highest command bit set.  The letter
      table is one entry short, so the last command has none. */
  method Cmd2Char(command: nat) returns (c: char)
    requires HighestBit(command) < |CmdFlags|
    ensures c == CmdFlags[HighestBit(command)]
  {
    var v, p := command, 0;
    while v > 1
      invariant p + HighestBit(v) == HighestBit(command)
      decreases v
    {
      v, p := v / 2, p + 1;
    }
    c := CmdFlags[p];
  }

  /** The renaming command has no letter: its position is one past the end
      of the letter table, and the last letter, 'E', sits at the position
      of the check command. */
  lemma RenameHasNoLetter()
    ensures Pow2(12) == 0x1000 && HighestBit(0x1000) == |CmdFlags|
    ensures Pow2(11) == 0x800 && HighestBit(0x800) == 11 && CmdFlags[11] == 'E'
  {
    assert Pow2(4) == 16 && Pow2(8) == 256;
    HighestBitOfBit(12);
    HighestBitOfBit(11);
  }

  /** The letter table with an entry for every command: the check command
      gets its own letter before the renaming command's 'E'. */
  const CmdFlagsComplete: seq<char> := CmdFlags[..11] + ['C', 'E']

  lemma CompleteTableCoversEveryCommand(k: nat)
    requires k < NumberOfCmd
    ensures HighestBit(Pow2(k)) < |CmdFlagsComplete|
    ensures k < 11 ==> CmdFlagsComplete[HighestBit(Pow2(k))] == CmdFlags[k]
    ensures k == 11 ==> CmdFlagsComplete[HighestBit(Pow2(k))] == 'C'
    ensures k == 12 ==> CmdFlagsComplete[HighestBit(Pow2(k))] == 'E'
  {
    HighestBitOfBit(k);
  }

  // ---------------------------------------------------------------------
  // Commands, options and the `!` latch

  /** add_command: a pending `!` is refused; so is any command already
      given outside `othercmds`; otherwise the new command is added. */
  function AddCommand(cmd: bv32, newcmd: bv32, othercmds: bv32, invert: bool): (r: Result<bv32>)
  {
    if invert then Err(UnexpectedInvert)
    else if cmd & !othercmds != 0 then Err(CommandClash(newcmd, cmd & !othercmds))
    else Ok(cmd | newcmd)
  }

  /** The commands each command may be combined with. */
  function Companions(c: bv32): bv32 {
    if c == CmdList then CmdZero else if c == CmdZero then CmdList else CmdNone
  }

  /** The commands given with add_command. */
  predicate IsCommand(c: bv32) {
    c in {CmdInsert, CmdDelete, CmdReplace, CmdAppend, CmdList, CmdFlush, CmdZero,
          CmdNewChain, CmdDeleteChain, CmdSetPolicy, CmdRenameChain}
  }

  /** A first command is always accepted; a second one only when the two
      are List and Zero, in either order. */
  lemma OnlyListAndZeroCombine(a: bv32, b: bv32)
    requires IsCommand(a) && IsCommand(b)
    ensures AddCommand(CmdNone, a, Companions(a), false) == Ok(a)
    ensures AddCommand(a, b, Companions(b), false).Ok? <==>
            (a == CmdList && b == CmdZero) || (a == CmdZero && b == CmdList)
    ensures AddCommand(a, b, Companions(b), false).Ok? ==> AddCommand(a, b, Companions(b), false).value == CmdList | CmdZero
  {
  }

  /** The bookkeeping set_option updates. */
  datatype OptionState = OptionState(options: bv32, invflags: bv16)

  /** set_option: a repeated option is refused; otherwise its bit is
      recorded and, after `!`, the inversion bit of the option too, unless
      the option has none. */
  function SetOption(st: OptionState, k: nat, invert: bool): (r: Result<OptionState>)
    requires k < NumberOfOpt
  {
    if st.options & Bit(k) != 0 then Err(MultipleFlags(Bit(k)))
    else if !invert then Ok(OptionState(st.options | Bit(k), st.invflags))
    else if InverseForOptions[k] == 0 then Err(CannotInvert(Bit(k)))
    else Ok(OptionState(st.options | Bit(k), st.invflags | InverseForOptions[k]))
  }

  /** The same option twice is refused, inverted or not. */
  lemma RepeatedOptionRefused(st: OptionState, k: nat, inv1: bool, inv2: bool)
    requires k < NumberOfOpt && SetOption(st, k, inv1).Ok?
    ensures SetOption(SetOption(st, k, inv1).value, k, inv2) == Err(MultipleFlags(Bit(k)))
  {
    BitNonZero(k);
  }

  /** The options that cannot be inverted are -n, --p-length, -j, -v,
      --line-numbers and -c; the others each set an inversion bit of their
      own. */
  lemma Invertibility()
    ensures forall k :: 0 <= k < NumberOfOpt ==> (InverseForOptions[k] == 0 <==> k in {0, 6, 10, 11, 14, 15})
    ensures forall k, q :: 0 <= k < q < NumberOfOpt && InverseForOptions[k] != 0 ==>
              InverseForOptions[k] != InverseForOptions[q]
  {
  }

  /** A successful set_option records exactly the option's bit, and after
      `!` exactly its inversion bit. */
  lemma SetOptionEffect(st: OptionState, k: nat, invert: bool)
    requires k < NumberOfOpt
    ensures var r := SetOption(st, k, invert);
            r.Ok? ==> r.value.options == st.options | Bit(k) && st.options & Bit(k) == 0 &&
                      r.value.invflags == (if invert then st.invflags | InverseForOptions[k] else st.invflags)
    ensures SetOption(st, k, invert).Err? <==>
            st.options & Bit(k) != 0 || (invert && InverseForOptions[k] == 0)
  {
  }

  /** The loop of set_option that finds the position of the option bit. */
  method OptionIndex(option: bv32) returns (i: nat)
    requires exists k :: 0 <= k < NumberOfOpt && Bit(k) == option
    ensures i < NumberOfOpt && Bit(i) == option
  {
    i := 0;
    while Bit(i) != option
      invariant i < NumberOfOpt
      invariant forall q :: 0 <= q < i ==> Bit(q) != option
      decreases NumberOfOpt - i
    {
      i := i + 1;
    }
  }

  /** What check_inverse leaves: whether the argument was the `!`, the
      latch and the argument index. */
  datatype Inversion = Inversion(bang: bool, invert: bool, optind: nat)

  /** check_inverse: a `!` sets the latch and skips to the next argument;
      a second `!` before the latch is consumed, or a `!` at the end of the
      arguments, is refused.  Anything else changes nothing. */
  function CheckInverse(option: string, invert: bool, optind: nat, argc: nat): (r: Result<Inversion>)
  {
    if option != "!" then Ok(Inversion(false, invert, optind))
    else if invert then Err(MultipleInvert)
    else if argc != 0 && optind + 1 > argc then Err(NoArgumentAfterInvert)
    else Ok(Inversion(true, true, optind + 1))
  }

  /** A `!` is accepted only when the latch is clear and an argument
      follows, and then it moves past exactly one argument; a second `!`
      right after it is refused. */
  lemma InverseLatch(option: string, invert: bool, optind: nat, argc: nat)
    ensures var r := CheckInverse(option, invert, optind, argc);
            (option != "!" ==> r == Ok(Inversion(false, invert, optind))) &&
            (option == "!" ==> (r.Ok? <==> !invert && (argc == 0 || optind < argc))) &&
            (r.Ok? && r.value.bang ==> r.value.invert && r.value.optind == optind + 1) &&
            (r.Ok? && r.value.bang ==> CheckInverse("!", r.value.invert, r.value.optind, argc) == Err(MultipleInvert))
  {
  }

  // ---------------------------------------------------------------------
  // The command and option table

  /** The table has a row per command and a column per option. */
  predicate WellShaped(table: seq<seq<char>>) {
    |table| == NumberOfCmd && forall j :: 0 <= j < |table| ==> |table[j]| == NumberOfOpt
  }

  predicate Selected(command: bv32, j: nat)
    requires j < NumberOfCmd
  {
    command & Bit(j) != 0
  }

  /** Some selected command among the first `n` has `c` for option `i`. */
  predicate Marks(table: seq<seq<char>>, command: bv32, i: nat, n: nat, c: char)
    requires WellShaped(table) && i < NumberOfOpt && n <= NumberOfCmd
  {
    exists j :: 0 <= j < n && Selected(command, j) && table[j][i] == c
  }

  /** Some selected command among the first `n` does not forbid option `i`. */
  predicate Allows(table: seq<seq<char>>, command: bv32, i: nat, n: nat)
    requires WellShaped(table) && i < NumberOfOpt && n <= NumberOfCmd
  {
    exists j :: 0 <= j < n && Selected(command, j) && table[j][i] != 'x'
  }

  /** What is wrong with option `i`: it is missing though a selected
      command needs it (`+`), or it is given though every selected command
      forbids it (`x`). */
  function ColumnProblem(table: seq<seq<char>>, command: bv32, options: bv32, i: nat): Option<Problem>
    requires WellShaped(table) && i < NumberOfOpt
  {
    if options & Bit(i) == 0 then
      if Marks(table, command, i, NumberOfCmd, '+') then Some(MissingOption(i)) else None
    else if Marks(table, command, i, NumberOfCmd, 'x') && !Allows(table, command, i, NumberOfCmd) then
      Some(IllegalOption(i))
    else None
  }

  /** The verdict on the options from `from` on: the problem of the first
      option that has one. */
  function OptCheck(table: seq<seq<char>>, command: bv32, options: bv32, from: nat): (r: Outcome)
    requires WellShaped(table) && from <= NumberOfOpt
    decreases NumberOfOpt - from
  {
    if from == NumberOfOpt then Pass
    else match ColumnProblem(table, command, options, from)
         case Some(p) => Fail(p)
         case None => OptCheck(table, command, options, from + 1)
  }

  /** The check passes exactly when no option has a problem, and a failure
      names the first option that has one. */
  lemma {:induction false} OptCheckMeaning(table: seq<seq<char>>, command: bv32, options: bv32, from: nat)
    requires WellShaped(table) && from <= NumberOfOpt
    ensures OptCheck(table, command, options, from) == Pass <==>
            forall i :: from <= i < NumberOfOpt ==> ColumnProblem(table, command, options, i).None?
    ensures OptCheck(table, command, options, from).Fail? ==>
            exists i :: from <= i < NumberOfOpt &&
              ColumnProblem(table, command, options, i) == Some(OptCheck(table, command, options, from).problem) &&
              forall q :: from <= q < i ==> ColumnProblem(table, command, options, q).None?
    decreases NumberOfOpt - from
  {
    if from < NumberOfOpt {
      OptCheckMeaning(table, command, options, from + 1);
      var here := ColumnProblem(table, command, options, from);
      if here.Some? {
        assert OptCheck(table, command, options, from) == Fail(here.value);
        assert ColumnProblem(table, command, options, from) == Some(OptCheck(table, command, options, from).problem);
      } else {
        assert OptCheck(table, command, options, from) == OptCheck(table, command, options, from + 1);
        if OptCheck(table, command, options, from).Fail? {
          var i :| from + 1 <= i < NumberOfOpt &&
              ColumnProblem(table, command, options, i) == Some(OptCheck(table, command, options, from + 1).problem) &&
              forall q :: from + 1 <= q < i ==> ColumnProblem(table, command, options, q).None?;
          assert forall q :: from <= q < i ==> ColumnProblem(table, command, options, q).None?;
        }
      }
    }
  }

  /** generic_opt_check over a table of legal combinations. */
  method GenericOptCheck(table: seq<seq<char>>, command: bv32, options: bv32) returns (res: Outcome)
    requires WellShaped(table)
    ensures res == OptCheck(table, command, options, 0)
  {
    var i := 0;
    while i < NumberOfOpt
      invariant i <= NumberOfOpt
      invariant OptCheck(table, command, options, 0) == OptCheck(table, command, options, i)
    {
      var problem := CheckColumn(table, command, options, i);
      if problem.Some? {
        return Fail(problem.value);
      }
      i := i + 1;
    }
    res := Pass;
  }

  /** The inner loop of generic_opt_check: the selected commands' marks for
      option `i`, stopping at the first `+` of a missing option. */
  method CheckColumn(table: seq<seq<char>>, command: bv32, options: bv32, i: nat) returns (problem: Option<Problem>)
    requires WellShaped(table) && i < NumberOfOpt
    ensures problem == ColumnProblem(table, command, options, i)
  {
    var legal := 0;
    var j := 0;
    while j < NumberOfCmd
      invariant j <= NumberOfCmd
      invariant options & Bit(i) == 0 ==> legal == 0 && !Marks(table, command, i, j, '+')
      invariant options & Bit(i) != 0 ==> (legal == 1 <==> Allows(table, command, i, j))
      invariant options & Bit(i) != 0 ==>
                  (legal == -1 <==> !Allows(table, command, i, j) && Marks(table, command, i, j, 'x'))
      invariant -1 <= legal <= 1
    {
      MarksStep(table, command, i, j);
      if command & Bit(j) != 0 {
        if options & Bit(i) == 0 {
          if table[j][i] == '+' {
            MarksWider(table, command, i, j + 1, '+');
            return Some(MissingOption(i));
          }
        } else {
          if table[j][i] != 'x' {
            legal := 1;
          } else if legal == 0 {
            legal := -1;
          }
        }
      }
      j := j + 1;
    }
    problem := if legal == -1 then Some(IllegalOption(i)) else None;
  }

  lemma MarksStep(table: seq<seq<char>>, command: bv32, i: nat, j: nat)
    requires WellShaped(table) && i < NumberOfOpt && j < NumberOfCmd
    ensures forall c :: Marks(table, command, i, j + 1, c) <==>
              Marks(table, command, i, j, c) || (Selected(command, j) && table[j][i] == c)
    ensures Allows(table, command, i, j + 1) <==>
              Allows(table, command, i, j) || (Selected(command, j) && table[j][i] != 'x')
  {
    forall c
      ensures Marks(table, command, i, j + 1, c) <==>
                Marks(table, command, i, j, c) || (Selected(command, j) && table[j][i] == c)
    {
      if Marks(table, command, i, j + 1, c) {
        var q :| 0 <= q < j + 1 && Selected(command, q) && table[q][i] == c;
        if q < j {
          assert Marks(table, command, i, j, c);
        }
      }
      if Marks(table, command, i, j, c) {
        var q :| 0 <= q < j && Selected(command, q) && table[q][i] == c;
        assert Marks(table, command, i, j + 1, c);
      }
    }
    if Allows(table, command, i, j + 1) {
      var q :| 0 <= q < j + 1 && Selected(command, q) && table[q][i] != 'x';
      if q < j {
        assert Allows(table, command, i, j);
      }
    }
    if Allows(table, command, i, j) {
      var q :| 0 <= q < j && Selected(command, q) && table[q][i] != 'x';
      assert Allows(table, command, i, j + 1);
    }
  }

  lemma MarksWider(table: seq<seq<char>>, command: bv32, i: nat, j: nat, c: char)
    requires WellShaped(table) && i < NumberOfOpt && j <= NumberOfCmd
    requires Marks(table, command, i, j, c)
    ensures Marks(table, command, i, NumberOfCmd, c)
  {
  }

  /** The shipped table: every entry of the fifteen listed columns is
      blank, and the sixteenth column of every row is the NUL the compiler
      fills in. */
  const CommandsVOptions: seq<seq<char>> :=
    Repeat(NumberOfCmd, Repeat(15, ' ') + ['\0'])

  /** n copies of x. */
  function Repeat<T>(n: nat, x: T): (r: seq<T>)
    ensures |r| == n && forall i :: 0 <= i < n ==> r[i] == x
  {
    if n == 0 then [] else [x] + Repeat(n - 1, x)
  }

  /** With the shipped table no combination of commands and options is
      ever refused. */
  lemma ShippedTableRefusesNothing(command: bv32, options: bv32)
    ensures WellShaped(CommandsVOptions)
    ensures OptCheck(CommandsVOptions, command, options, 0) == Pass
  {
    forall i | 0 <= i < NumberOfOpt
      ensures ColumnProblem(CommandsVOptions, command, options, i).None?
    {
      assert !Marks(CommandsVOptions, command, i, NumberOfCmd, '+');
      assert !Marks(CommandsVOptions, command, i, NumberOfCmd, 'x');
    }
    OptCheckMeaning(CommandsVOptions, command, options, 0);
  }
}

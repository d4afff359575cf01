/** Shared vocabulary of the arptables model: result wrappers, the error
    conditions the front end reports, byte helpers and the fixed sizes of the
    kernel's rule layout. */
module Common {

  datatype Option<+T> = None | Some(value: T) {
    function GetOr(default: T): T {
      match this
      case Some(v) => v
      case None => default
    }
  }

  /** A value, or the problem `exit_error` would have reported. */
  datatype Result<+T> = Ok(value: T) | Err(problem: Problem)

  /** Success, or the problem `exit_error` would have reported. */
  datatype Outcome = Pass | Fail(problem: Problem)

  /** Every condition on which the front end gives up.  The source prints a
      message and exits; the model returns the condition instead.  Messages
      naming an option carry the option's bit, not the printed letter. */
  datatype Problem =
    // address parsing
    | HostNotFound(name: string)
    | InvalidMask(mask: string)
    | InterfaceNameTooLong(name: string)
    | InvalidRuleNumber(text: string)
    | TargetNameTooShort
    | TargetNameTooLong(name: string)
    | InvalidTargetName(name: string)
    // command and option bookkeeping
    | UnexpectedInvert
    | CommandClash(newcmd: bv32, oldcmd: bv32)
    | MultipleInvert
    | NoArgumentAfterInvert
    | MultipleFlags(option: bv32)
    | CannotInvert(option: bv32)
    | MissingOption(index: nat)
    | IllegalOption(index: nat)
    // per-option handling in do_command
    | BadSourceMac
    | BadDestinationMac
    | BadOpcode
    | BadHardwareType
    | BadProtocolType
    | ProtocolLengthUnsupported
    | RuleNumberRequired
    | RenameNeedsNewName
    | PolicyNeedsTarget
    | CountersNeedTwoValues
    | PacketCounterNotNumeric
    | ByteCounterNotNumeric
    | ChainNameStartsWithDash
    | ChainClashesWithTarget
    | InvertBeforeTable
    | BadArgument(arg: string)
    // checks after the argument scan
    | UnknownArguments
    | NoCommand
    | NothingAfterInvert
    | InvertWithMultipleAddresses
    | ReplaceNeedsUniqueAddress
    | ChainNameTooLong(chain: string)
    | OptionNotWithChain(option: bv32, chain: string)
    | UnknownCommand
    // extensions
    | CouldNotFindMatch(name: string)
    | CouldNotFindTarget(name: string)
    | VersionMismatch(name: string)
    | AlreadyRegistered(name: string)
    | InvalidSize(name: string)

  /** An unsigned char, kept as a number where no bit operation is applied
      to it. */
  type Byte = n: nat | n < 256

  /** A byte holds any number below 256 unchanged. */
  lemma ByteHolds(x: nat)
    requires x < 256
    ensures (x as bv8) as nat == x
  {
    var w := x as bv16;
    assert w < 256;
    assert w as bv8 == x as bv8;
  }

  /** The byte a C string holds for a character. */
  function CharByte(c: char): (b: bv8)
    ensures c as int < 256 ==> b as int == c as int
  {
    ByteHolds(c as int % 256);
    (c as int % 256) as bv8
  }

  /** The bytes of a string, without its terminating NUL. */
  function Bytes(s: string): (b: seq<bv8>)
    ensures |b| == |s|
  {
    seq(|s|, k requires 0 <= k < |s| => CharByte(s[k]))
  }

  /** A string a C program can hold: every character one non-NUL byte. */
  predicate CString(s: string) {
    forall k :: 0 <= k < |s| ==> 0 < s[k] as int < 256
  }

  /** `n` bytes of value `v`, as `memset` writes them. */
  function Fill(n: nat, v: bv8): (r: seq<bv8>)
    ensures |r| == n
    ensures forall i :: 0 <= i < n ==> r[i] == v
  {
    seq(n, _ => v)
  }

  /** Sizes of the kernel structures on a 64-bit Linux target. */
  const EntrySize: nat := 192          // sizeof(struct arpt_entry)
  const TargetHeaderSize: nat := 32    // sizeof(struct arpt_entry_target)
  const MatchHeaderSize: nat := 32     // sizeof(struct arpt_entry_match)
  const AlignUnit: nat := 8            // alignment ARPT_ALIGN rounds up to
  const IfNameSize: nat := 16          // IFNAMSIZ
  const EthAlen: nat := 6              // ETH_ALEN
  const DevAddrLen: nat := 16          // ARPT_DEV_ADDR_LEN_MAX
  const ChainLabelSize: nat := 32      // sizeof(arpt_chainlabel)
  const FunctionMaxNameLen: nat := 30  // ARPT_FUNCTION_MAXNAMELEN
  const TargetNameSize: nat := 29      // size of the user-visible target name field
  const TargetNameOffset: nat := 2     // offset of that field, after the 16-bit size
  const TargetRevisionOffset: nat := 31 // offset of the revision byte, last of the header

  /** ARPT_ALIGN: round a size up to the next multiple of the alignment. */
  function Align(n: nat): (r: nat)
    ensures r % AlignUnit == 0
    ensures n <= r < n + AlignUnit
  {
    (n + AlignUnit - 1) / AlignUnit * AlignUnit
  }

  /** `memset(a + lo, v, hi - lo)` */
  method SetRange(a: array<bv8>, lo: nat, hi: nat, v: bv8)
    requires lo <= hi <= a.Length
    modifies a
    ensures forall k :: 0 <= k < a.Length ==> a[k] == if lo <= k < hi then v else old(a[k])
  {
    var i := lo;
    while i < hi
      invariant lo <= i <= hi
      invariant forall k :: 0 <= k < a.Length ==> a[k] == if lo <= k < i then v else old(a[k])
    {
      a[i] := v;
      i := i + 1;
    }
  }
}

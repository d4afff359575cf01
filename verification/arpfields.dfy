/** The ARP header fields of a rule as the front end reads them from the
    command line: hardware addresses with their masks, the hardware address
    length, the 16-bit opcode, hardware type and protocol type in network
    byte order with their symbolic names, interface names with their
    wildcard masks, rule numbers and target names. */
module ArpFields {
  import opened Common
  import opened Libc

  // ---------------------------------------------------------------------
  // 16-bit fields

  /** A 16-bit field as it lies in the rule: most significant byte first. */
  datatype Net16 = Net16(hi: Byte, lo: Byte)

  /** htons */
  function Htons(v: nat): (n: Net16)
    requires v < 0x1_0000
  {
    Net16(v / 256, v % 256)
  }

  /** ntohs */
  function Ntohs(n: Net16): (v: nat)
    ensures v < 0x1_0000
  {
    n.hi * 256 + n.lo
  }

  lemma ByteOrderRoundTrip(v: nat, n: Net16)
    requires v < 0x1_0000
    ensures Ntohs(Htons(v)) == v
    ensures Htons(Ntohs(n)) == n
  {
  }

  /** The all-ones mask; `65535` is stored without `htons`, which makes no
      difference for it. */
  const AllOnes16: Net16 := Net16(0xFF, 0xFF)

  lemma AllOnes16InEitherOrder()
    ensures Htons(65535) == AllOnes16 && Ntohs(AllOnes16) == 65535
  {
  }

  // ---------------------------------------------------------------------
  // Numbers with an optional mask

  /** `i = strtol(s, &end, base)` kept in an `int`, accepted when the
      conversion stopped at the terminating NUL and `0 <= i <= max`.  Unlike
      string_to_number there is no check that anything was read, nor for
      ERANGE, and the `long` is truncated to `int` before the range check. */
  function IntField(s: string, base: nat, max: nat): (r: Option<nat>)
    requires base == 0 || 2 <= base <= 36
    ensures r.Some? ==> r.value <= max
  {
    var c := Strtol(s, base);
    var i := Int32Of(c.value);
    if c.end == |s| && 0 <= i <= max then Some(i as nat) else None
  }

  /** A number printed in decimal is read back. */
  lemma IntFieldReadsDec(n: nat, base: nat, max: nat)
    requires n <= max < 0x8000_0000 && (base == 0 || base == 10)
    ensures IntField(Dec(n), base, max) == Some(n)
  {
    StrtolReadsDec(n, base);
    Int32OfInRange(n);
  }

  /** The empty text reads as 0: `strtol` leaves `end` at the NUL. */
  lemma IntFieldOfEmpty(base: nat, max: nat)
    requires base == 0 || 2 <= base <= 36
    ensures IntField("", base, max) == Some(0)
  {
  }

  /** What a `value[/mask]` parser leaves behind: its status and the new
      contents of the two fields it writes through pointers.  A field the
      parser did not reach keeps its old contents. */
  datatype Stored<T> = Stored(ok: bool, value: T, mask: T)

  /** getlength_and_mask: a length and an optional mask, both decimal
      numbers from 0 to 255; no mask means 255.  The mask is stored before
      the length is read. */
  function GetLengthAndMask(from: string, to: Byte, mask: Byte): (r: Stored<Byte>)
  {
    var (text, maskText) := CutAtLastSlash(from);
    var newMask := if maskText.None? then Some(255) else IntField(maskText.value, 10, 255);
    if newMask.None? then Stored(false, to, mask)
    else
      match IntField(text, 10, 255)
      case None => Stored(false, to, newMask.value)
      case Some(n) => Stored(true, n, newMask.value)
  }

  /** The parse succeeds exactly when both parts are numbers from 0 to 255;
      the length is stored as read, not masked, and a failed parse never
      touches the length. */
  lemma LengthAndMaskSpec(from: string, to: Byte, mask: Byte)
    ensures var (text, maskText) := CutAtLastSlash(from);
            var r := GetLengthAndMask(from, to, mask);
            (r.ok <==> IntField(text, 10, 255).Some? &&
                       (maskText.None? || IntField(maskText.value, 10, 255).Some?)) &&
            (r.ok ==> r.value == IntField(text, 10, 255).value) &&
            (!r.ok ==> r.value == to) &&
            (maskText.None? ==> r.mask == 0xFF)
  {
  }

  /** Printing a length and a mask and parsing them gives them back. */
  lemma LengthAndMaskRoundTrip(len: Byte, m: Byte, to: Byte, mask: Byte)
    ensures GetLengthAndMask(Dec(len) + "/" + Dec(m), to, mask) == Stored(true, len, m)
    ensures GetLengthAndMask(Dec(len), to, mask) == Stored(true, len, 255)
  {
    DigitsHaveNoSlash(len);
    DigitsHaveNoSlash(m);
    CutAtSlashBetween(Dec(len), Dec(m));
    IntFieldReadsDec(len, 10, 255);
    IntFieldReadsDec(m, 10, 255);
  }

  lemma DigitsHaveNoSlash(n: nat)
    ensures '/' !in Dec(n)
  {
  }

  lemma CutAtSlashBetween(a: string, b: string)
    requires '/' !in a && '/' !in b
    ensures CutAtLastSlash(a + "/" + b) == (a, Some(b))
    ensures CutAtLastSlash(a) == (a, None)
  {
    var s := a + "/" + b;
    var parts := CutAtLastSlash(s);
    assert s[|a|] == '/';
    assert parts.1.Some?;
    var k := |parts.0|;
    assert s[k] == '/' by {
      assert s == parts.0 + "/" + parts.1.value;
    }
    if k < |a| {
      assert false;
    } else if k > |a| {
      assert false;
    }
    assert parts.0 == s[..k] && parts.1.value == s[k + 1..];
    assert s[..|a|] == a && s[|a| + 1..] == b;
  }

  /** get16_and_mask: a number and an optional mask from 0 to 65535 in the
      given base, stored in network byte order; no mask means all ones. */
  function Get16AndMask(from: string, base: nat, to: Net16, mask: Net16): (r: Stored<Net16>)
    requires base == 0 || 2 <= base <= 36
  {
    var (text, maskText) := CutAtLastSlash(from);
    var newMask := if maskText.None? then Some(AllOnes16)
                   else match IntField(maskText.value, base, 65535)
                        case None => None
                        case Some(m) => Some(Htons(m));
    if newMask.None? then Stored(false, to, mask)
    else
      match IntField(text, base, 65535)
      case None => Stored(false, to, newMask.value)
      case Some(n) => Stored(true, Htons(n), newMask.value)
  }

  /** The parse succeeds exactly when both parts are numbers from 0 to
      65535; the value is stored in network order and not masked, and a
      failed parse never touches the value. */
  lemma Get16AndMaskSpec(from: string, base: nat, to: Net16, mask: Net16)
    requires base == 0 || 2 <= base <= 36
    ensures var (text, maskText) := CutAtLastSlash(from);
            var r := Get16AndMask(from, base, to, mask);
            (r.ok <==> IntField(text, base, 65535).Some? &&
                       (maskText.None? || IntField(maskText.value, base, 65535).Some?)) &&
            (r.ok ==> Ntohs(r.value) == IntField(text, base, 65535).value) &&
            (!r.ok ==> r.value == to) &&
            (maskText.None? ==> r.mask == AllOnes16) &&
            (maskText.Some? && IntField(maskText.value, base, 65535).Some? ==>
               r.mask == Htons(IntField(maskText.value, base, 65535).value)) &&
            (maskText.Some? && IntField(maskText.value, base, 65535).None? ==> r.mask == mask)
  {
    var (text, maskText) := CutAtLastSlash(from);
    var v := IntField(text, base, 65535);
    if v.Some? {
      ByteOrderRoundTrip(v.value, to);
    }
  }

  /** Printing a value and a mask in decimal and parsing them gives them
      back, in network order. */
  lemma Get16AndMaskRoundTrip(v: nat, m: nat, to: Net16, mask: Net16)
    requires v < 0x1_0000 && m < 0x1_0000
    ensures Get16AndMask(Dec(v) + "/" + Dec(m), 10, to, mask) == Stored(true, Htons(v), Htons(m))
    ensures Get16AndMask(Dec(v), 10, to, mask) == Stored(true, Htons(v), AllOnes16)
  {
    DigitsHaveNoSlash(v);
    DigitsHaveNoSlash(m);
    CutAtSlashBetween(Dec(v), Dec(m));
    IntFieldReadsDec(v, 10, 65535);
    IntFieldReadsDec(m, 10, 65535);
  }

  /** A word that starts with a letter is no number in a base up to ten:
      the parse fails, the value is kept and the mask becomes all ones. */
  lemma WordIsNoNumber(word: string, base: nat, to: Net16, mask: Net16)
    requires 2 <= base <= 10 && |word| > 0 && '/' !in word
    requires 'A' <= word[0] <= 'Z' || 'a' <= word[0] <= 'z'
    ensures Get16AndMask(word, base, to, mask) == Stored(false, to, AllOnes16)
  {
    assert SkipSpaces(word, 0) == 0;
    assert DigitRunEnd(word, 0, base) == 0;
    assert Strtol(word, base).end == 0;
  }

  /** When the text before the last '/' is no number, the parse fails and
      keeps the value; the mask is all ones without a '/', the mask read
      after it, or the old mask when that does not parse either. */
  lemma NoNumberKeepsValue(word: string, base: nat, to: Net16, mask: Net16)
    requires base == 0 || 2 <= base <= 36
    requires IntField(CutAtLastSlash(word).0, base, 65535).None?
    ensures var maskText := CutAtLastSlash(word).1;
            var r := Get16AndMask(word, base, to, mask);
            !r.ok && r.value == to &&
            (maskText.None? ==> r.mask == AllOnes16) &&
            (maskText.Some? && IntField(maskText.value, base, 65535).Some? ==>
               r.mask == Htons(IntField(maskText.value, base, 65535).value)) &&
            (maskText.Some? && IntField(maskText.value, base, 65535).None? ==> r.mask == mask)
  {
  }

  /** A word that starts with a letter is no number in base 0 or in a
      base up to ten: `strtol` reads no digit at all. */
  lemma LetterWordIsNoField(word: string, base: nat, max: nat)
    requires base == 0 || 2 <= base <= 10
    requires |word| > 0 && ('A' <= word[0] <= 'Z' || 'a' <= word[0] <= 'z')
    ensures IntField(word, base, max).None?
  {
    assert SkipSpaces(word, 0) == 0;
    assert StrtolHead(word, base).start == 0;
    assert DigitRunEnd(word, 0, StrtolHead(word, base).base) == 0;
    assert Strtol(word, base).end == 0;
  }

  /** "Ethernet", in any case, is no hexadecimal number: `strtol` reads the
      `E` and stops at the `t`. */
  lemma EthernetIsNoHex(word: string, max: nat)
    requires StrCaseEq(word, "Ethernet")
    ensures IntField(word, 16, max).None?
  {
    assert ToLower(word[0]) == 'e' && ToLower(word[1]) == 't';
    assert word[0] == 'e' || word[0] == 'E';
    assert word[1] == 't' || word[1] == 'T';
    assert SkipSpaces(word, 0) == 0;
    assert StrtolHead(word, 16) == Head(false, false, 16, 0);
    assert DigitRunEnd(word, 1, 16) == 1;
    assert DigitRunEnd(word, 0, 16) == 1;
    assert Strtol(word, 16).end == 1;
  }

  // ---------------------------------------------------------------------
  // Symbolic names

  /** The opcode names; name i stands for opcode i + 1. */
  const OpcodeNames: seq<string> :=
    ["Request", "Reply", "Request_Reverse", "Reply_Reverse", "DRARP_Request",
     "DRARP_Reply", "DRARP_Error", "InARP_Request", "ARP_NAK"]

  /** The opcode name search loop of do_command; OpcodeIndex says what it
      finds. */
  method FindOpcode(name: string) returns (i: nat)
    ensures i == OpcodeIndex(name, 0)
  {
    i := 0;
    while i < |OpcodeNames|
      invariant i <= |OpcodeNames|
      invariant forall k :: 0 <= k < i ==> !StrCaseEq(OpcodeNames[k], name)
    {
      if StrCaseEq(OpcodeNames[i], name) {
        return;
      }
      i := i + 1;
    }
  }

  /** The position of the first opcode name from `from` on equal to `name`
      ignoring case, or the number of names when there is none. */
  function OpcodeIndex(name: string, from: nat): (i: nat)
    requires from <= |OpcodeNames|
    ensures from <= i <= |OpcodeNames|
    ensures i < |OpcodeNames| ==> StrCaseEq(OpcodeNames[i], name)
    ensures forall k :: from <= k < i ==> !StrCaseEq(OpcodeNames[k], name)
    decreases |OpcodeNames| - from
  {
    if from == |OpcodeNames| || StrCaseEq(OpcodeNames[from], name) then from
    else OpcodeIndex(name, from + 1)
  }

  /** A text equal to an opcode name ignoring case starts with a letter,
      so it is no decimal number. */
  lemma OpcodeNameIsNoNumber(text: string, i: nat)
    requires i < |OpcodeNames| && StrCaseEq(text, OpcodeNames[i])
    ensures IntField(text, 10, 65535).None?
  {
    OpcodeNamesAreWords();
    assert ToLower(text[0]) == ToLower(OpcodeNames[i][0]);
    LetterWordIsNoField(text, 10, 65535);
  }

  /** Each opcode name is a word of more than one character that starts
      with a capital and has no slash. */
  lemma OpcodeNamesAreWords()
    ensures forall i :: 0 <= i < |OpcodeNames| ==>
              |OpcodeNames[i]| > 1 && 'A' <= OpcodeNames[i][0] <= 'Z' && '/' !in OpcodeNames[i]
  {
  }

  /** A name is found at the position of the opcode name it equals, in
      any case; `!` is no opcode name. */
  lemma OpcodeIndexOfName(i: nat)
    requires i < |OpcodeNames|
    ensures OpcodeIndex(OpcodeNames[i], 0) == i
    ensures OpcodeIndex("!", 0) == |OpcodeNames|
  {
    OpcodeNamesDistinct();
    OpcodeNamesAreWords();
    assert StrCaseEq(OpcodeNames[i], OpcodeNames[i]);
  }

  /** Every opcode name is found at its own position, whatever its case. */
  lemma OpcodeNamesDistinct()
    ensures forall i, k :: 0 <= i < k < |OpcodeNames| ==> !StrCaseEq(OpcodeNames[i], OpcodeNames[k])
  {
    forall i, k | 0 <= i < k < |OpcodeNames|
      ensures !StrCaseEq(OpcodeNames[i], OpcodeNames[k])
    {
      var a, b := OpcodeNames[i], OpcodeNames[k];
      if |a| == |b| {
        NamesDiffer(i, k);
      }
    }
  }

  lemma NamesDiffer(i: nat, k: nat)
    requires 0 <= i < k < |OpcodeNames| && |OpcodeNames[i]| == |OpcodeNames[k]|
    ensures exists p :: 0 <= p < |OpcodeNames[i]| && ToLower(OpcodeNames[i][p]) != ToLower(OpcodeNames[k][p])
  {
    var a, b := OpcodeNames[i], OpcodeNames[k];
    if i == 5 {
      assert ToLower(a[6]) != ToLower(b[6]);
    } else {
      assert ToLower(a[0]) != ToLower(b[0]);
    }
  }

  // ---------------------------------------------------------------------
  // Hardware addresses

  const UnicastMac: seq<bv8> := [0, 0, 0, 0, 0, 0]
  const UnicastMask: seq<bv8> := [1, 0, 0, 0, 0, 0]
  const MulticastMac: seq<bv8> := [1, 0, 0, 0, 0, 0]
  const MulticastMask: seq<bv8> := [1, 0, 0, 0, 0, 0]
  const BroadcastMac: seq<bv8> := [255, 255, 255, 255, 255, 255]
  const BroadcastMask: seq<bv8> := [255, 255, 255, 255, 255, 255]

  /** Byte-wise AND of an address with a mask. */
  function AndBytes(a: seq<bv8>, m: seq<bv8>): (r: seq<bv8>)
    requires |a| == |m|
    ensures |r| == |a|
  {
    seq(|a|, i requires 0 <= i < |a| => a[i] & m[i])
  }

  /** What getmac_and_mask writes: its status, and the six bytes it stores
      in the address and in the mask (None where it stores nothing). */
  datatype MacStore = MacStore(ok: bool, addr: Option<seq<bv8>>, mask: Option<seq<bv8>>)

  /** getmac_and_mask: one of the names Unicast, Multicast and Broadcast in
      any case, or an Ethernet address with an optional mask after the last
      slash (all ones by default).  The mask is stored before the address is
      read; the address is stored ANDed with the mask. */
  function MacAndMask(from: string): (r: MacStore)
    ensures r.addr.Some? ==> |r.addr.value| == EthAlen
    ensures r.mask.Some? ==> |r.mask.value| == EthAlen
    ensures r.ok ==> r.addr.Some? && r.mask.Some?
  {
    if StrCaseEq(from, "Unicast") then MacStore(true, Some(UnicastMac), Some(UnicastMask))
    else if StrCaseEq(from, "Multicast") then MacStore(true, Some(MulticastMac), Some(MulticastMask))
    else if StrCaseEq(from, "Broadcast") then MacStore(true, Some(BroadcastMac), Some(BroadcastMask))
    else
      var (text, maskText) := CutAtLastSlash(from);
      var mask := if maskText.None? then Some(Fill(EthAlen, 0xFF)) else EtherAton(maskText.value);
      if mask.None? then MacStore(false, None, None)
      else
        match EtherAton(text)
        case None => MacStore(false, None, mask)
        case Some(a) => MacStore(true, Some(AndBytes(a, mask.value)), mask)
  }

  /** A stored address never has a bit outside its mask, and both are six
      bytes long. */
  lemma MacWithinMask(from: string)
    requires MacAndMask(from).ok
    ensures var r := MacAndMask(from);
            r.addr.Some? && r.mask.Some? && |r.addr.value| == EthAlen && |r.mask.value| == EthAlen &&
            forall i :: 0 <= i < EthAlen ==> r.addr.value[i] & !r.mask.value[i] == 0
  {
    if !(StrCaseEq(from, "Unicast") || StrCaseEq(from, "Multicast") || StrCaseEq(from, "Broadcast")) {
      ParsedMacWithinMask(from);
    }
  }

  lemma ParsedMacWithinMask(from: string)
    requires !StrCaseEq(from, "Unicast") && !StrCaseEq(from, "Multicast") && !StrCaseEq(from, "Broadcast")
    requires MacAndMask(from).ok
    ensures var r := MacAndMask(from);
            r.addr.Some? && r.mask.Some? &&
            forall i :: 0 <= i < EthAlen ==> r.addr.value[i] & !r.mask.value[i] == 0
  {
    var (text, maskText) := CutAtLastSlash(from);
    var m := if maskText.None? then Some(Fill(EthAlen, 0xFF)) else EtherAton(maskText.value);
    var a := EtherAton(text);
    MacSteps(from, text, maskText, m, a);
    forall i | 0 <= i < EthAlen
      ensures AndBytes(a.value, m.value)[i] & !m.value[i] == 0
    {
      AndWithinMask(a.value[i], m.value[i]);
    }
  }

  lemma AndWithinMask(x: bv8, m: bv8)
    ensures (x & m) & !m == 0
  {
  }

  /** Apart from the three names, the parse succeeds exactly when the
      address and the mask (if any) are Ethernet addresses; no mask means
      all ones, so the address is stored as written. */
  lemma MacAndMaskSpec(from: string)
    requires !StrCaseEq(from, "Unicast") && !StrCaseEq(from, "Multicast") && !StrCaseEq(from, "Broadcast")
    ensures var (text, maskText) := CutAtLastSlash(from);
            var r := MacAndMask(from);
            (r.ok <==> EtherAton(text).Some? && (maskText.None? || EtherAton(maskText.value).Some?)) &&
            (r.ok && maskText.None? ==> r.addr == EtherAton(text) && r.mask == Some(Fill(EthAlen, 0xFF))) &&
            (!r.ok ==> r.addr.None?)
  {
    var (text, maskText) := CutAtLastSlash(from);
    var m := if maskText.None? then Some(Fill(EthAlen, 0xFF)) else EtherAton(maskText.value);
    var a := EtherAton(text);
    MacSteps(from, text, maskText, m, a);
    if a.Some? {
      AndAllOnes(a.value);
    }
  }

  lemma AndAllOnes(a: seq<bv8>)
    ensures AndBytes(a, Fill(|a|, 0xFF)) == a
  {
    forall i | 0 <= i < |a|
      ensures AndBytes(a, Fill(|a|, 0xFF))[i] == a[i]
    {
      AllOnesKeeps(a[i]);
    }
  }

  lemma AllOnesKeeps(x: bv8)
    ensures x & 0xFF == x
  {
  }

  /** The first six bytes of a buffer replaced by what was stored, if anything. */
  function Overlay(buf: seq<bv8>, w: Option<seq<bv8>>): (r: seq<bv8>)
    requires |buf| >= EthAlen && (w.Some? ==> |w.value| == EthAlen)
    ensures |r| == |buf|
  {
    if w.None? then buf else seq(|buf|, k requires 0 <= k < |buf| => if k < EthAlen then w.value[k] else buf[k])
  }

  /** MacAndMask for a text that is none of the three names, step by step. */
  lemma MacSteps(from: string, text: string, maskText: Option<string>, m: Option<seq<bv8>>, a: Option<seq<bv8>>)
    requires !StrCaseEq(from, "Unicast") && !StrCaseEq(from, "Multicast") && !StrCaseEq(from, "Broadcast")
    requires (text, maskText) == CutAtLastSlash(from)
    requires m == if maskText.None? then Some(Fill(EthAlen, 0xFF)) else EtherAton(maskText.value)
    requires a == EtherAton(text)
    ensures MacAndMask(from) == if m.None? then MacStore(false, None, None)
                                else if a.None? then MacStore(false, None, m)
                                else MacStore(true, Some(AndBytes(a.value, m.value)), m)
  {
  }

  /** Writing the first six bytes leaves them equal to what was written
      and the rest as it was. */
  lemma OverlayParts(buf: seq<bv8>, x: seq<bv8>)
    requires |buf| >= EthAlen && |x| == EthAlen
    ensures Overlay(buf, Some(x))[..EthAlen] == x
    ensures Overlay(buf, Some(x))[EthAlen..] == buf[EthAlen..]
  {
    var o := Overlay(buf, Some(x));
    assert forall k :: 0 <= k < EthAlen ==> o[..EthAlen][k] == x[k];
    assert forall k :: 0 <= k < |buf| - EthAlen ==> o[EthAlen..][k] == buf[EthAlen..][k];
  }

  /** Writing the first six bytes twice leaves the second write. */
  lemma OverlayTwice(buf: seq<bv8>, x: seq<bv8>, y: seq<bv8>)
    requires |buf| >= EthAlen && |x| == EthAlen && |y| == EthAlen
    ensures Overlay(Overlay(buf, Some(x)), Some(y)) == Overlay(buf, Some(y))
    ensures Overlay(buf, Some(x))[..EthAlen] == x
  {
  }

  /** getmac_and_mask on the address and mask buffers of a rule. */
  method GetMacAndMask(from: string, to: array<bv8>, mask: array<bv8>) returns (ok: bool)
    requires to.Length >= EthAlen && mask.Length >= EthAlen && to != mask
    modifies to, mask
    ensures ok == MacAndMask(from).ok
    ensures to[..] == Overlay(old(to[..]), MacAndMask(from).addr)
    ensures mask[..] == Overlay(old(mask[..]), MacAndMask(from).mask)
  {
    if StrCaseEq(from, "Unicast") {
      CopySix(to, UnicastMac);
      CopySix(mask, UnicastMask);
      return true;
    }
    if StrCaseEq(from, "Multicast") {
      CopySix(to, MulticastMac);
      CopySix(mask, MulticastMask);
      return true;
    }
    if StrCaseEq(from, "Broadcast") {
      CopySix(to, BroadcastMac);
      CopySix(mask, BroadcastMask);
      return true;
    }
    ghost var to0 := to[..];
    var (text, maskText) := CutAtLastSlash(from);
    var m := if maskText.None? then Some(Fill(EthAlen, 0xFF)) else EtherAton(maskText.value);
    if maskText.Some? {
      if m.None? {
        MacSteps(from, text, maskText, m, EtherAton(text));
        return false;
      }
      CopySix(mask, m.value);
    } else {
      SetRange(mask, 0, EthAlen, 0xFF);
      assert mask[..] == Overlay(old(mask[..]), m);
    }
    var a := EtherAton(text);
    MacSteps(from, text, maskText, m, a);
    if a.None? {
      return false;
    }
    CopySix(to, a.value);
    OverlayTwice(to0, a.value, a.value);
    OverlayTwice(old(mask[..]), m.value, m.value);
    AndSix(to, mask);
    OverlayTwice(to0, a.value, AndBytes(a.value, m.value));
    ok := true;
  }

  /** `for (i = 0; i < ETH_ALEN; i++) to[i] &= mask[i];` */
  method AndSix(to: array<bv8>, mask: array<bv8>)
    requires to.Length >= EthAlen && mask.Length >= EthAlen && to != mask
    modifies to
    ensures to[..] == Overlay(old(to[..]), Some(AndBytes(old(to[..EthAlen]), mask[..EthAlen])))
  {
    var i := 0;
    while i < EthAlen
      invariant 0 <= i <= EthAlen
      invariant forall k :: 0 <= k < to.Length ==> to[k] == if k < i then old(to[k]) & mask[k] else old(to[k])
    {
      to[i] := to[i] & mask[i];
      i := i + 1;
    }
  }

  /** `memcpy(buf, bytes, ETH_ALEN)` */
  method CopySix(buf: array<bv8>, bytes: seq<bv8>)
    requires buf.Length >= EthAlen && |bytes| == EthAlen
    modifies buf
    ensures buf[..] == Overlay(old(buf[..]), Some(bytes))
  {
    var i := 0;
    while i < EthAlen
      invariant 0 <= i <= EthAlen
      invariant forall k :: 0 <= k < buf.Length ==> buf[k] == if k < i then bytes[k] else old(buf[k])
    {
      buf[i] := bytes[i];
      i := i + 1;
    }
  }

  // ---------------------------------------------------------------------
  // Interfaces

  /** The mask parse_interface builds: none for an empty name; the bytes
      before a trailing `+` (so that any name with that prefix matches);
      otherwise the name and its terminating NUL. */
  function InterfaceMask(arg: string): (m: seq<bv8>)
    requires |arg| < IfNameSize
    ensures |m| == IfNameSize
  {
    if |arg| == 0 then Fill(IfNameSize, 0)
    else if arg[|arg| - 1] == '+' then seq(IfNameSize, k => if k < |arg| - 1 then 0xFF else 0)
    else seq(IfNameSize, k => if k <= |arg| then 0xFF else 0)
  }

  /** The name buffer: the name, then NULs. */
  function NameField(arg: string): (f: seq<char>)
    requires |arg| < IfNameSize
    ensures |f| == IfNameSize
  {
    arg + seq(IfNameSize - |arg|, _ => '\0')
  }

  /** The characters parse_interface accepts without a warning. */
  predicate PlainInterfaceChar(c: char) {
    IsAlnum(c) || c == '_' || c == '.'
  }

  /** How the kernel compares an interface name with a rule's name and mask. */
  predicate InterfaceMatches(ifname: seq<char>, vianame: seq<char>, mask: seq<bv8>)
    requires |ifname| == IfNameSize && |vianame| == IfNameSize && |mask| == IfNameSize
  {
    forall k :: 0 <= k < IfNameSize && mask[k] == 0xFF ==> ifname[k] == vianame[k]
  }

  /** A name ending in `+` matches every interface whose name starts with
      the part before the `+`; any other name matches that name only. */
  lemma InterfaceMaskMeaning(arg: string, other: string)
    requires 0 < |arg| < IfNameSize && |other| < IfNameSize && '\0' !in arg && '\0' !in other
    ensures arg[|arg| - 1] == '+' ==>
              (InterfaceMatches(NameField(other), NameField(arg), InterfaceMask(arg)) <==>
               |other| >= |arg| - 1 && other[..|arg| - 1] == arg[..|arg| - 1])
    ensures arg[|arg| - 1] != '+' ==>
              (InterfaceMatches(NameField(other), NameField(arg), InterfaceMask(arg)) <==> other == arg)
  {
    var n, o, m := NameField(arg), NameField(other), InterfaceMask(arg);
    if arg[|arg| - 1] == '+' {
      if |other| < |arg| - 1 {
        assert m[|other|] == 0xFF && o[|other|] != n[|other|];
      } else if InterfaceMatches(o, n, m) {
        forall k | 0 <= k < |arg| - 1
          ensures other[k] == arg[k]
        {
          assert o[k] == n[k];
        }
      }
    } else {
      if |other| < |arg| {
        assert m[|other|] == 0xFF && o[|other|] != n[|other|];
      } else if |other| > |arg| {
        assert m[|arg|] == 0xFF && o[|arg|] != n[|arg|];
      } else if InterfaceMatches(o, n, m) {
        forall k | 0 <= k < |arg|
          ensures other[k] == arg[k]
        {
          assert o[k] == n[k];
        }
      }
    }
  }

  /** parse_interface: both buffers are cleared first; a name of 16
      characters or more is refused; otherwise the name and its mask are
      stored.  `weird` says whether the warning about an unusual character is
      printed. */
  method ParseInterface(arg: string, vianame: array<char>, mask: array<bv8>)
    returns (res: Outcome, weird: bool)
    requires vianame.Length == IfNameSize && mask.Length == IfNameSize
    requires vianame as object != mask as object
    modifies vianame, mask
    ensures res.Fail? <==> |arg| + 1 > IfNameSize
    ensures res.Fail? ==> res.problem == InterfaceNameTooLong(arg) &&
                          vianame[..] == seq(IfNameSize, _ => '\0') && mask[..] == Fill(IfNameSize, 0)
    ensures res.Pass? ==> vianame[..] == NameField(arg) && mask[..] == InterfaceMask(arg)
    ensures weird <==> res.Pass? && 0 < |arg| && arg[|arg| - 1] != '+' &&
                       exists i :: 0 <= i < |arg| && !PlainInterfaceChar(arg[i])
  {
    SetRange(mask, 0, IfNameSize, 0);
    ClearName(vianame);
    weird := false;
    if |arg| + 1 > IfNameSize {
      assert vianame[..] == seq(IfNameSize, _ => '\0');
      assert mask[..] == Fill(IfNameSize, 0);
      return Fail(InterfaceNameTooLong(arg)), weird;
    }
    var i := 0;
    while i < |arg|
      invariant 0 <= i <= |arg|
      invariant forall k :: 0 <= k < IfNameSize ==> vianame[k] == if k < i then arg[k] else '\0'
      invariant forall k :: 0 <= k < IfNameSize ==> mask[k] == 0
    {
      vianame[i] := arg[i];
      i := i + 1;
    }
    assert vianame[..] == NameField(arg);
    if |arg| == 0 {
      SetRange(mask, 0, IfNameSize, 0);
    } else if vianame[|arg| - 1] == '+' {
      SetRange(mask, 0, |arg| - 1, 0xFF);
      SetRange(mask, |arg| - 1, IfNameSize, 0);
    } else {
      SetRange(mask, 0, |arg| + 1, 0xFF);
      SetRange(mask, |arg| + 1, IfNameSize, 0);
      var k := 0;
      while k < |arg|
        invariant 0 <= k <= |arg|
        invariant forall q :: 0 <= q < k ==> PlainInterfaceChar(arg[q])
      {
        if !PlainInterfaceChar(vianame[k]) {
          weird := true;
          break;
        }
        k := k + 1;
      }
    }
    assert mask[..] == InterfaceMask(arg);
    res := Pass;
  }

  /** `memset(vianame, 0, IFNAMSIZ)` */
  method ClearName(vianame: array<char>)
    modifies vianame
    ensures forall k :: 0 <= k < vianame.Length ==> vianame[k] == '\0'
  {
    var i := 0;
    while i < vianame.Length
      invariant 0 <= i <= vianame.Length
      invariant forall k :: 0 <= k < i ==> vianame[k] == '\0'
    {
      vianame[i] := '\0';
      i := i + 1;
    }
  }

  // ---------------------------------------------------------------------
  // Rule numbers and targets

  const IntMax: nat := 0x7FFF_FFFF

  /** parse_rulenumber: a whole number from 1 to INT_MAX. */
  function ParseRuleNumber(rule: string): (r: Result<nat>)
    ensures r.Ok? ==> 1 <= r.value <= IntMax
    ensures r.Err? ==> r.problem == InvalidRuleNumber(rule)
  {
    match StringToNumber(rule, 1, IntMax)
    case None => Err(InvalidRuleNumber(rule))
    case Some(n) => Ok(n)
  }

  /** Every rule number printed in decimal is read back. */
  lemma RuleNumberRoundTrip(n: nat)
    requires 1 <= n <= IntMax
    ensures ParseRuleNumber(Dec(n)) == Ok(n)
  {
    StringToNumberReadsDec(n, 1, IntMax);
  }

  /** The largest target or chain name: a chain label holds 31 characters
      and the NUL. */
  const MaxTargetNameLen: nat := ChainLabelSize - 1

  /** parse_target: a target name is one to 31 characters without blanks,
      and is returned unchanged; each refusal has its own error. */
  function CheckedTarget(name: string): (r: Result<string>)
    ensures r.Ok? <==> 1 <= |name| <= MaxTargetNameLen && forall i :: 0 <= i < |name| ==> !IsSpace(name[i])
    ensures r.Ok? ==> r.value == name
    ensures |name| < 1 ==> r == Err(TargetNameTooShort)
    ensures |name| > MaxTargetNameLen ==> r == Err(TargetNameTooLong(name))
    ensures 1 <= |name| <= MaxTargetNameLen && r.Err? ==> r == Err(InvalidTargetName(name))
  {
    if |name| < 1 then Err(TargetNameTooShort)
    else if |name| + 1 > ChainLabelSize then Err(TargetNameTooLong(name))
    else if exists i :: 0 <= i < |name| && IsSpace(name[i]) then Err(InvalidTargetName(name))
    else Ok(name)
  }

  /** parse_target's scan: the loop over the characters decides as
      CheckedTarget does. */
  method ParseTarget(name: string) returns (r: Result<string>)
    ensures r == CheckedTarget(name)
  {
    if |name| < 1 {
      return Err(TargetNameTooShort);
    }
    if |name| + 1 > ChainLabelSize {
      return Err(TargetNameTooLong(name));
    }
    var i := 0;
    while i < |name|
      invariant 0 <= i <= |name|
      invariant forall k :: 0 <= k < i ==> !IsSpace(name[k])
    {
      if IsSpace(name[i]) {
        return Err(InvalidTargetName(name));
      }
      i := i + 1;
    }
    return Ok(name);
  }
}

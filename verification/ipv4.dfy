/** IPv4 addresses as arptables reads and prints them: dotted quads, network
    masks given as dotted quads or prefix lengths, name resolution through a
    resolver given as data, and the in-place compaction of the address list a
    `host/mask` argument resolves to. */
module Ipv4 {
  import opened Common
  import opened Libc

  /** An IPv4 address in network byte order: the four bytes of `s_addr`,
      first byte on the wire first. */
  datatype Addr = Addr(b0: bv8, b1: bv8, b2: bv8, b3: bv8) {
    function Bytes(): (o: seq<bv8>)
      ensures |o| == 4
    {
      [b0, b1, b2, b3]
    }

    function Byte(i: nat): bv8
      requires i < 4
    {
      Bytes()[i]
    }
  }

  /** The address whose bytes are `o`. */
  function AddrOf(o: seq<bv8>): (a: Addr)
    requires |o| == 4
    ensures a.Bytes() == o
  {
    Addr(o[0], o[1], o[2], o[3])
  }

  const AnyAddr: Addr := Addr(0, 0, 0, 0)
  const AllOnes: Addr := Addr(0xFF, 0xFF, 0xFF, 0xFF)

  // ---------------------------------------------------------------------
  // Dotted quads

  /** The components of `s` between dots, as `strchr` finds them. */
  function Split(s: string): (parts: seq<string>)
    ensures '.' !in s ==> parts == [s]
    ensures '.' in s ==> |parts| >= 2
    decreases |s|
  {
    match StrChr(s, '.')
    case None => [s]
    case Some(k) => [s[..k]] + Split(s[k + 1..])
  }

  /** The octet loop of dotted_to_addr: `dots` components ended by a dot, then
      a last one, each a number from 0 to 255. */
  function Octets(s: string, dots: nat): (r: Option<seq<bv8>>)
    ensures r.Some? ==> |r.value| == dots + 1
    decreases dots
  {
    if dots == 0 then
      match StringToNumber(s, 0, 255)
      case None => None
      case Some(n) => Some([n as bv8])
    else
      match StrChr(s, '.')
      case None => None
      case Some(k) => PrependOctet(StringToNumber(s[..k], 0, 255), Octets(s[k + 1..], dots - 1))
  }

  /** One octet in front of the ones after it, when both were read. */
  function PrependOctet(head: Option<nat>, rest: Option<seq<bv8>>): (r: Option<seq<bv8>>)
    requires head.Some? ==> head.value <= 255
    ensures r.Some? <==> head.Some? && rest.Some?
  {
    if head.None? || rest.None? then None else Some([head.value as bv8] + rest.value)
  }

  /** dotted_to_addr.  The source copies the text into a 20-byte buffer
      without terminating it, so only texts shorter than 19 characters have a
      defined meaning. */
  function DottedToAddr(dotted: string): (r: Option<Addr>)
    requires |dotted| < 19
  {
    match Octets(dotted, 3)
    case None => None
    case Some(o) => Some(AddrOf(o))
  }

  /** The dotted-quad reading is exactly "four dot-separated numbers from 0 to 255". */
  ghost predicate IsDottedQuad(s: string)
  {
    NumericParts(Split(s), 4)
  }

  /** The octets read by `Octets` are the numbers between the dots. */
  ghost predicate NumericParts(parts: seq<string>, n: nat)
  {
    |parts| == n && forall i :: 0 <= i < n ==> StringToNumber(parts[i], 0, 255).Some?
  }

  ghost predicate OctetsOfParts(o: seq<bv8>, parts: seq<string>)
    requires NumericParts(parts, |parts|)
  {
    |o| == |parts| && forall i :: 0 <= i < |o| ==> o[i] == StringToNumber(parts[i], 0, 255).value as bv8
  }

  lemma {:induction false} OctetsSplit(s: string, dots: nat)
    ensures Octets(s, dots).Some? <==> NumericParts(Split(s), dots + 1)
    ensures Octets(s, dots).Some? ==> OctetsOfParts(Octets(s, dots).value, Split(s))
    decreases dots
  {
    if dots == 0 {
      if StringToNumber(s, 0, 255).Some? {
        NumberHasNoSeparator(s, 0, 255);
        assert Split(s) == [s];
      } else if '.' !in s {
        assert Split(s)[0] == s;
      }
    } else {
      match StrChr(s, '.')
      case None =>
        assert Split(s) == [s];
      case Some(k) =>
        OctetsTail(s, dots, k);
    }
  }

  lemma {:induction false} OctetsTail(s: string, dots: nat, k: nat)
    requires dots > 0 && StrChr(s, '.') == Some(k)
    ensures Octets(s, dots).Some? <==> NumericParts(Split(s), dots + 1)
    ensures Octets(s, dots).Some? ==> OctetsOfParts(Octets(s, dots).value, Split(s))
    decreases dots, 0
  {
    var tail := s[k + 1..];
    var n := dots - 1;
    OctetsSplit(tail, n);
    SplitAtDot(s, k);
    OctetsAtDot(s, dots, k);
    PrependParts(s[..k], Split(tail), Octets(tail, n), n + 1);
  }

  /** Reading one more component in front keeps the octets in step with the parts. */
  lemma PrependParts(h: string, rest: seq<string>, o: Option<seq<bv8>>, dots: nat)
    requires o.Some? <==> NumericParts(rest, dots)
    requires o.Some? ==> OctetsOfParts(o.value, rest)
    ensures PrependOctet(StringToNumber(h, 0, 255), o).Some? <==> NumericParts([h] + rest, dots + 1)
    ensures PrependOctet(StringToNumber(h, 0, 255), o).Some? ==>
              OctetsOfParts(PrependOctet(StringToNumber(h, 0, 255), o).value, [h] + rest)
  {
    NumericPartsCons(h, rest, dots);
    if StringToNumber(h, 0, 255).Some? && o.Some? {
      OctetsOfPartsCons(h, rest, o.value);
    }
  }

  lemma NumericPartsCons(h: string, rest: seq<string>, n: nat)
    ensures NumericParts([h] + rest, n + 1) <==> StringToNumber(h, 0, 255).Some? && NumericParts(rest, n)
  {
    var parts := [h] + rest;
    assert parts[0] == h;
    assert forall i :: 0 <= i < |rest| ==> parts[i + 1] == rest[i];
  }

  lemma OctetsOfPartsCons(h: string, rest: seq<string>, o: seq<bv8>)
    requires StringToNumber(h, 0, 255).Some? && NumericParts(rest, |rest|)
    requires OctetsOfParts(o, rest)
    ensures NumericParts([h] + rest, |rest| + 1)
    ensures OctetsOfParts([StringToNumber(h, 0, 255).value as bv8] + o, [h] + rest)
  {
    NumericPartsCons(h, rest, |rest|);
    var parts := [h] + rest;
    var r := [StringToNumber(h, 0, 255).value as bv8] + o;
    forall i | 0 <= i < |r|
      ensures r[i] == StringToNumber(parts[i], 0, 255).value as bv8
    {
      if i > 0 {
        assert parts[i] == rest[i - 1];
        assert r[i] == o[i - 1];
      }
    }
  }

  lemma SplitAtDot(s: string, k: nat)
    requires StrChr(s, '.') == Some(k)
    ensures Split(s) == [s[..k]] + Split(s[k + 1..])
  {
  }

  lemma OctetsAtDot(s: string, dots: nat, k: nat)
    requires dots > 0 && StrChr(s, '.') == Some(k)
    ensures Octets(s, dots) == PrependOctet(StringToNumber(s[..k], 0, 255), Octets(s[k + 1..], dots - 1))
  {
  }

  /** dotted_to_addr accepts exactly the dotted quads and reads their four numbers. */
  lemma DottedToAddrSpec(s: string)
    requires |s| < 19
    ensures DottedToAddr(s).Some? <==> IsDottedQuad(s)
    ensures DottedToAddr(s).Some? ==> OctetsOfParts(DottedToAddr(s).value.Bytes(), Split(s))
  {
    OctetsSplit(s, 3);
  }

  /** addr_to_dotted: the four bytes in decimal, separated by dots. */
  function AddrToDotted(a: Addr): (s: string)
    ensures 7 <= |s| <= 15
  {
    OctetWidth(a.b0);
    OctetWidth(a.b1);
    OctetWidth(a.b2);
    OctetWidth(a.b3);
    Dec(a.b0 as nat) + "." + (Dec(a.b1 as nat) + "." + (Dec(a.b2 as nat) + "." + Dec(a.b3 as nat)))
  }

  /** An octet prints as one to three digits. */
  lemma OctetWidth(x: bv8)
    ensures 1 <= |Dec(x as nat)| <= 3
  {
    DecShape(x as nat);
  }

  lemma PeelOctet(x: bv8, rest: string)
    ensures var t := Dec(x as nat) + "." + rest;
            var d := |Dec(x as nat)|;
            StrChr(t, '.') == Some(d) && t[..d] == Dec(x as nat) && t[d + 1..] == rest
  {
    var t := Dec(x as nat) + "." + rest;
    var d := |Dec(x as nat)|;
    assert t[d] == '.';
    assert t[..d] == Dec(x as nat);
    assert '.' !in t[..d];
  }

  lemma ReadOctet(x: bv8)
    ensures StringToNumber(Dec(x as nat), 0, 255) == Some(x as nat)
    ensures (x as nat) as bv8 == x
  {
    StringToNumberReadsDec(x as nat, 0, 255);
  }

  /** Reading one printed octet in front of a dot. */
  lemma ReadDottedOctet(x: bv8, rest: string, dots: nat, tail: seq<bv8>)
    requires dots > 0 && Octets(rest, dots - 1) == Some(tail)
    ensures Octets(Dec(x as nat) + "." + rest, dots) == Some([x] + tail)
  {
    var t := Dec(x as nat) + "." + rest;
    PeelOctet(x, rest);
    ReadOctet(x);
    OctetsAtDot(t, dots, |Dec(x as nat)|);
  }

  /** Octets printed in decimal and joined by dots. */
  function JoinOctets(o: seq<bv8>): string
    requires |o| >= 1
  {
    if |o| == 1 then Dec(o[0] as nat) else Dec(o[0] as nat) + "." + JoinOctets(o[1..])
  }

  lemma {:induction false} OctetsOfJoin(o: seq<bv8>)
    requires |o| >= 1
    ensures Octets(JoinOctets(o), |o| - 1) == Some(o)
    decreases |o|
  {
    if |o| == 1 {
      OctetsOfJoinOne(o);
    } else {
      var t := o[1..];
      OctetsOfJoin(t);
      OctetsOfJoinStep(o, t);
    }
  }

  lemma OctetsOfJoinOne(o: seq<bv8>)
    requires |o| == 1
    ensures Octets(JoinOctets(o), 0) == Some(o)
  {
    LastOctet(o[0]);
    assert [o[0]] == o;
    assert JoinOctets(o) == Dec(o[0] as nat);
  }

  lemma OctetsOfJoinStep(o: seq<bv8>, t: seq<bv8>)
    requires |o| > 1 && t == o[1..]
    requires Octets(JoinOctets(t), |t| - 1) == Some(t)
    ensures Octets(JoinOctets(o), |o| - 1) == Some(o)
  {
    JoinUnfold(o);
    ReadDottedOctets(o, JoinOctets(t), JoinOctets(o));
  }

  lemma JoinUnfold(o: seq<bv8>)
    requires |o| > 1
    ensures JoinOctets(o) == Dec(o[0] as nat) + "." + JoinOctets(o[1..])
  {
  }

  lemma ReadDottedOctets(o: seq<bv8>, rest: string, t: string)
    requires |o| > 1
    requires Octets(rest, |o| - 2) == Some(o[1..])
    requires t == Dec(o[0] as nat) + "." + rest
    ensures Octets(t, |o| - 1) == Some(o)
  {
    ReadDottedOctet(o[0], rest, |o| - 1, o[1..]);
    assert [o[0]] + o[1..] == o;
  }

  /** Printing an address and reading it back gives the address again. */
  lemma DottedRoundTrip(a: Addr)
    ensures DottedToAddr(AddrToDotted(a)) == Some(a)
  {
    var o := a.Bytes();
    OctetsOfJoin(o);
    var j3 := JoinOctets(o[3..]);
    assert j3 == Dec(a.b3 as nat);
    assert o[2..][1..] == o[3..];
    var j2 := JoinOctets(o[2..]);
    assert j2 == Dec(a.b2 as nat) + "." + j3;
    assert o[1..][1..] == o[2..];
    var j1 := JoinOctets(o[1..]);
    assert j1 == Dec(a.b1 as nat) + "." + j2;
    assert JoinOctets(o) == Dec(a.b0 as nat) + "." + j1;
    assert AddrToDotted(a) == JoinOctets(o);
  }

  lemma LastOctet(x: bv8)
    ensures Octets(Dec(x as nat), 0) == Some([x])
  {
    ReadOctet(x);
  }

  // ---------------------------------------------------------------------
  // Host and network byte order, prefix masks

  /** htonl: the bytes of a host-order word as they lie in `s_addr`. */
  function ToNetwork(w: bv32): (a: Addr)
  {
    Addr((w >> 24) as bv8, ((w >> 16) & 0xFF) as bv8, ((w >> 8) & 0xFF) as bv8, (w & 0xFF) as bv8)
  }

  /** ntohl: the host-order word whose network bytes are `a`. */
  function FromNetwork(a: Addr): (w: bv32)
  {
    ((a.b0 as bv32) << 24) | ((a.b1 as bv32) << 16) | ((a.b2 as bv32) << 8) | (a.b3 as bv32)
  }

  lemma NetworkOrderRoundTrip(w: bv32, a: Addr)
    ensures FromNetwork(ToNetwork(w)) == w
    ensures ToNetwork(FromNetwork(a)) == a
  {
  }

  /** Bit `k` of a word, counting from the most significant bit. */
  predicate WordBit(w: bv32, k: bv5)
  {
    (w >> (31 - k)) & 1 == 1
  }

  /** Bit `k` of an address as it goes on the wire: byte k/8, most significant bit first. */
  predicate AddrBit(a: Addr, k: bv5)
  {
    (a.Byte((k / 8) as nat) >> (7 - (k % 8) as bv8)) & 1 == 1
  }

  /** The word of a /n prefix: n one bits followed by zeros. */
  function PrefixWord(n: nat): (w: bv32)
    requires n <= 32
  {
    if n == 0 then 0 else (PrefixWord(n - 1) >> 1) | 0x8000_0000
  }

  /** The /n network mask in network byte order. */
  function PrefixMask(n: nat): (m: Addr)
    requires n <= 32
  {
    ToNetwork(PrefixWord(n))
  }

  /** `0xFFFFFFFF << (32 - bits)`, the way parse_mask computes a nonzero
      prefix on unsigned 32-bit words. */
  function ShiftedOnes(bits: bv32): (w: bv32)
    requires 1 <= bits <= 32
  {
    0xFFFF_FFFF << (32 - bits)
  }

  lemma ShiftedOnesStep(bits: bv32)
    requires 2 <= bits <= 32
    ensures ShiftedOnes(bits) == (ShiftedOnes(bits - 1) >> 1) | 0x8000_0000
  {
  }

  lemma LengthPredecessor(b: bv6)
    requires 1 <= b <= 32
    ensures (b - 1) as nat == b as nat - 1
    ensures (b as bv32) - 1 == (b - 1) as bv32
  {
  }

  /** The recursive prefix word is the shifted word parse_mask builds. */
  lemma {:induction false} ShiftedOnesIsPrefix(b: bv6)
    requires 1 <= b <= 32
    ensures PrefixWord(b as nat) == ShiftedOnes(b as bv32)
    decreases b as nat
  {
    LengthPredecessor(b);
    if b > 1 {
      ShiftedOnesIsPrefix(b - 1);
      ShiftedOnesStep(b as bv32);
    }
  }

  lemma ShiftedOnesBits(bits: bv32, k: bv32)
    requires 1 <= bits <= 32 && k < 32
    ensures (ShiftedOnes(bits) >> (31 - k)) & 1 == 1 <==> k < bits
  {
  }

  lemma LengthConversions(n: nat, k: bv5)
    requires n <= 32
    ensures (n as bv6) as nat == n
    ensures (k as bv32) < ((n as bv6) as bv32) <==> (k as nat) < n
    ensures WordBitOf(k) == 31 - k as bv32
  {
  }

  /** The shift amount WordBit uses, widened to a word. */
  function WordBitOf(k: bv5): bv32
  {
    (31 - k) as bv32
  }

  lemma WordBitWidening(w: bv32, k: bv5)
    ensures WordBit(w, k) <==> (w >> WordBitOf(k)) & 1 == 1
  {
  }

  /** A /n prefix word has exactly its n leading bits set. */
  lemma PrefixWordBits(n: nat, k: bv5)
    requires n <= 32
    ensures WordBit(PrefixWord(n), k) <==> (k as nat) < n
  {
    if n > 0 {
      LengthConversions(n, k);
      var b := n as bv6;
      ShiftedOnesIsPrefix(b);
      WordBitWidening(PrefixWord(n), k);
      ShiftedOnesBits(b as bv32, k as bv32);
    }
  }

  lemma ToNetworkBits(w: bv32, k: bv5)
    ensures AddrBit(ToNetwork(w), k) == WordBit(w, k)
  {
  }

  /** A /n mask has exactly its first n wire bits set. */
  lemma PrefixMaskBits(n: nat, k: bv5)
    requires n <= 32
    ensures AddrBit(PrefixMask(n), k) <==> (k as nat) < n
  {
    PrefixWordBits(n, k);
    ToNetworkBits(PrefixWord(n), k);
  }

  lemma BitIndex(n: nat)
    requires n < 32
    ensures (n as bv5) as nat == n
  {
  }

  /** A shorter prefix leaves clear the bit a longer one sets. */
  lemma PrefixWordsDiffer(a: nat, b: nat)
    requires a < b <= 32
    ensures PrefixWord(a) != PrefixWord(b)
  {
    BitIndex(a);
    PrefixWordBits(a, a as bv5);
    PrefixWordBits(b, a as bv5);
  }

  /** Different prefix lengths give different masks. */
  lemma PrefixWordInjective(a: nat, b: nat)
    requires a <= 32 && b <= 32 && PrefixWord(a) == PrefixWord(b)
    ensures a == b
  {
    if a < b {
      PrefixWordsDiffer(a, b);
    } else if b < a {
      PrefixWordsDiffer(b, a);
    }
  }

  lemma PrefixWordTop()
    ensures PrefixWord(32) == 0xFFFF_FFFF && PrefixWord(31) == 0xFFFF_FFFE
  {
    ShiftedOnesIsPrefix(32);
    ShiftedOnesIsPrefix(31);
  }

  /** Shifting a /n prefix word left by one gives the /n-1 word. */
  lemma PrefixWordStep(n: nat)
    requires 1 <= n <= 32
    ensures PrefixWord(n) << 1 == PrefixWord(n - 1)
  {
    if n > 1 {
      LengthConversions(n, 0);
      var b := n as bv6;
      LengthPredecessor(b);
      ShiftedOnesIsPrefix(b);
      ShiftedOnesIsPrefix(b - 1);
      ShiftedOnesLeft(b as bv32);
    }
  }

  lemma ShiftedOnesLeft(bits: bv32)
    requires 2 <= bits <= 32
    ensures ShiftedOnes(bits) << 1 == ShiftedOnes(bits - 1)
  {
  }

  // ---------------------------------------------------------------------
  // Masks

  /** parse_mask: no mask means /32; a dotted quad is taken as it is;
      otherwise a prefix length from 0 to 32.  `PrefixMask(bits)` is the
      `htonl(0xFFFFFFFF << (32 - bits))` of the source (ShiftedOnesIsPrefix). */
  function ParseMask(mask: Option<string>): (r: Result<Addr>)
    ensures r.Err? ==> mask.Some? && r.problem == InvalidMask(mask.value)
  {
    match mask
    case None => Ok(AllOnes)
    case Some(m) =>
      if |m| < 19 && DottedToAddr(m).Some? then Ok(DottedToAddr(m).value)
      else
        match StringToNumber(m, 0, 32)
        case None => Err(InvalidMask(m))
        case Some(bits) =>
          if bits != 0 then Ok(PrefixMask(bits)) else Ok(AnyAddr)
  }

  /** No mask at all means /32, and a dotted quad is the mask it spells. */
  lemma ParseMaskDefaultAndDotted(m: string)
    ensures ParseMask(None) == Ok(PrefixMask(32))
    ensures |m| < 19 && DottedToAddr(m).Some? ==> ParseMask(Some(m)) == Ok(DottedToAddr(m).value)
  {
    PrefixWordTop();
  }

  lemma PrefixMaskZero()
    ensures PrefixMask(0) == AnyAddr
  {
  }

  /** A text without a dot is never a dotted quad. */
  lemma UndottedText(s: string)
    requires |s| < 19 && '.' !in s
    ensures DottedToAddr(s).None?
  {
  }

  /** Any other text must be a prefix length from 0 to 32, and then means
      that prefix's mask. */
  lemma ParseMaskNumber(m: string)
    requires !(|m| < 19 && DottedToAddr(m).Some?)
    ensures ParseMask(Some(m)).Ok? <==> StringToNumber(m, 0, 32).Some?
    ensures ParseMask(Some(m)).Ok? ==>
              var bits := StringToNumber(m, 0, 32).value;
              bits <= 32 && ParseMask(Some(m)).value == PrefixMask(bits)
  {
    PrefixMaskZero();
  }

  /** A prefix length printed in decimal is read back as that prefix. */
  lemma ParseMaskPrefix(n: nat)
    requires n <= 32
    ensures ParseMask(Some(Dec(n))) == Ok(PrefixMask(n))
  {
    var text := Dec(n);
    DecShape(n);
    UndottedText(text);
    StringToNumberReadsDec(n, 0, 32);
    ParseMaskNumber(text);
  }

  /** An address is the /n mask exactly when its host-order word is the /n word. */
  lemma MaskFromNetwork(mask: Addr, n: nat)
    requires n <= 32
    ensures mask == PrefixMask(n) <==> FromNetwork(mask) == PrefixWord(n)
  {
    NetworkOrderRoundTrip(PrefixWord(n), mask);
  }

  /** A mask whose word is the /len word is the /len mask and no other. */
  lemma OnlyPrefix(mask: Addr, len: nat)
    requires len <= 32 && FromNetwork(mask) == PrefixWord(len)
    ensures mask == PrefixMask(len)
    ensures forall n :: n <= 32 && mask == PrefixMask(n) ==> n == len
  {
    MaskFromNetwork(mask, len);
    forall n | n <= 32 && mask == PrefixMask(n)
      ensures n == len
    {
      MaskFromNetwork(mask, n);
      PrefixWordInjective(n, len);
    }
  }

  lemma NoPrefix(mask: Addr)
    requires forall n :: n <= 32 ==> FromNetwork(mask) != PrefixWord(n)
    ensures forall n :: n <= 32 ==> mask != PrefixMask(n)
  {
    forall n | n <= 32
      ensures mask != PrefixMask(n)
    {
      MaskFromNetwork(mask, n);
    }
  }

  /** mask_to_dotted: nothing for /32, "/n" for any other prefix mask, and
      "/" followed by the dotted quad for a mask that is not a prefix. */
  method MaskToDotted(mask: Addr) returns (s: string)
    ensures forall n :: n <= 32 && mask == PrefixMask(n) ==>
              s == (if n == 32 then "" else "/" + Dec(n))
    ensures (forall n :: n <= 32 ==> mask != PrefixMask(n)) ==> s == "/" + AddrToDotted(mask)
  {
    var maskaddr := FromNetwork(mask);
    PrefixWordTop();
    if maskaddr == 0xFFFF_FFFF {
      OnlyPrefix(mask, 32);
      return "";
    }
    var i: int := 32;
    var bits: bv32 := 0xFFFF_FFFE;
    i := i - 1;
    while i >= 0 && maskaddr != bits
      invariant -1 <= i <= 31
      invariant i >= 0 ==> bits == PrefixWord(i)
      invariant forall n :: i < n <= 32 ==> maskaddr != PrefixWord(n)
      decreases i
    {
      if i >= 1 {
        PrefixWordStep(i);
      }
      bits := bits << 1;
      i := i - 1;
    }
    if i >= 0 {
      OnlyPrefix(mask, i);
      s := "/" + Dec(i);
    } else {
      NoPrefix(mask);
      s := "/" + AddrToDotted(mask);
    }
  }

  // ---------------------------------------------------------------------
  // Name resolution

  /** The name service as data: getnetbyname's IPv4 networks and
      gethostbyname's IPv4 hosts with their address lists. */
  datatype Resolver = Resolver(networks: map<string, Addr>, hosts: map<string, seq<Addr>>)

  /** parse_hostnetwork: a dotted quad, else a network name, else a host
      name with all its addresses. */
  function ParseHostNetwork(name: string, r: Resolver): (res: Result<seq<Addr>>)
    ensures |name| < 19 && DottedToAddr(name).Some? ==> res == Ok([DottedToAddr(name).value])
    ensures res.Err? <==> !(|name| < 19 && DottedToAddr(name).Some?) && name !in r.networks && name !in r.hosts
    ensures res.Err? ==> res.problem == HostNotFound(name)
    ensures res.Ok? && !(|name| < 19 && DottedToAddr(name).Some?) ==>
              res.value == (if name in r.networks then [r.networks[name]] else r.hosts[name])
  {
    if |name| < 19 && DottedToAddr(name).Some? then Ok([DottedToAddr(name).value])
    else if name in r.networks then Ok([r.networks[name]])
    else if name in r.hosts then Ok(r.hosts[name])
    else Err(HostNotFound(name))
  }

  // ---------------------------------------------------------------------
  // host/mask arguments

  /** `s_addr &= mask` */
  function MaskAddr(a: Addr, m: Addr): Addr
  {
    Addr(a.b0 & m.b0, a.b1 & m.b1, a.b2 & m.b2, a.b3 & m.b3)
  }

  lemma MaskAddrIdempotent(a: Addr, m: Addr)
    ensures MaskAddr(MaskAddr(a, m), m) == MaskAddr(a, m)
  {
  }

  function MaskEach(s: seq<Addr>, m: Addr): (r: seq<Addr>)
    ensures |r| == |s|
    ensures forall i :: 0 <= i < |s| ==> r[i] == MaskAddr(s[i], m)
  {
    seq(|s|, i requires 0 <= i < |s| => MaskAddr(s[i], m))
  }

  /** No address occurs twice among the first `p`. */
  ghost predicate DistinctPrefix(s: seq<Addr>, p: nat)
    requires p <= |s|
  {
    forall a, b :: 0 <= a < b < p ==> s[a] != s[b]
  }

  function FirstRepeatFrom(s: seq<Addr>, i: nat): (p: nat)
    requires i <= |s|
    ensures i <= p <= |s|
    ensures forall q :: i <= q < p ==> s[q] !in s[..q]
    ensures p < |s| ==> s[p] in s[..p]
    decreases |s| - i
  {
    if i == |s| then |s|
    else if s[i] in s[..i] then i
    else FirstRepeatFrom(s, i + 1)
  }

  /** The first position whose address already occurred earlier, or |s|. */
  function FirstRepeat(s: seq<Addr>): (p: nat)
    ensures p <= |s|
    ensures DistinctPrefix(s, p)
    ensures p < |s| ==> s[p] in s[..p]
  {
    var p := FirstRepeatFrom(s, 0);
    forall a, b | 0 <= a < b < p
      ensures s[a] != s[b]
    {
      assert s[a] == s[..b][a];
    }
    p
  }

  /** The address list after the compaction loop of parse_hostnetworkmask:
      the loop masks the slot at its write position but never moves an
      address into it, so once a masked duplicate is met every later round
      masks that same slot again.  Slots up to the first repeat end up
      masked, the rest keep their resolved value. */
  function Compacted(orig: seq<Addr>, m: Addr): (r: seq<Addr>)
    ensures |r| == |orig|
  {
    var p := FirstRepeat(MaskEach(orig, m));
    seq(|orig|, k requires 0 <= k < |orig| => if k <= p then MaskAddr(orig[k], m) else orig[k])
  }

  /** The array during the compaction: the first `d` slots masked, the rest
      as resolved. */
  ghost function Layout(orig: seq<Addr>, ms: seq<Addr>, d: nat): seq<Addr>
    requires |ms| == |orig| && d <= |orig|
  {
    seq(|orig|, k requires 0 <= k < |orig| => if k < d then ms[k] else orig[k])
  }

  /** Masking slot `j` of a layout whose masked part ends at `j` or `j + 1`
      extends the masked part to `j + 1`. */
  lemma MaskSlot(orig: seq<Addr>, mask: Addr, d: nat, j: nat)
    requires j < |orig| && (d == j || d == j + 1)
    ensures var ms := MaskEach(orig, mask);
            var l := Layout(orig, ms, d);
            l[j := MaskAddr(l[j], mask)] == Layout(orig, ms, j + 1)
  {
    MaskAddrIdempotent(orig[j], mask);
  }

  /** Slots before the end of the masked part hold the masked addresses. */
  lemma LayoutPrefix(orig: seq<Addr>, ms: seq<Addr>, d: nat, j: nat)
    requires |ms| == |orig| && j < d <= |orig|
    ensures Layout(orig, ms, d)[..j] == ms[..j] && Layout(orig, ms, d)[j] == ms[j]
  {
  }

  /** Up to the first repeat, a slot repeats an earlier one exactly at the
      first repeat. */
  lemma RepeatAt(ms: seq<Addr>, q: nat)
    requires q < |ms| && q <= FirstRepeat(ms)
    ensures ms[q] in ms[..q] <==> q == FirstRepeat(ms)
  {
    if q < FirstRepeat(ms) {
      forall w | 0 <= w < q
        ensures ms[..q][w] != ms[q]
      {
        assert ms[..q][w] == ms[w];
      }
    }
  }

  /** One round of the compaction loop: slot `j` gets masked, and it
      repeats an earlier slot exactly at the first repeat. */
  lemma Round(orig: seq<Addr>, mask: Addr, d: nat, j: nat, before: seq<Addr>, after: seq<Addr>, dup: bool)
    requires j < |orig| && (d == j || d == j + 1) && j <= FirstRepeat(MaskEach(orig, mask))
    requires before == Layout(orig, MaskEach(orig, mask), d)
    requires after == before[j := MaskAddr(before[j], mask)]
    requires dup <==> after[j] in after[..j]
    ensures after == Layout(orig, MaskEach(orig, mask), j + 1)
    ensures dup <==> j == FirstRepeat(MaskEach(orig, mask))
  {
    var ms := MaskEach(orig, mask);
    MaskSlot(orig, mask, d, j);
    LayoutPrefix(orig, ms, j + 1, j);
    RepeatAt(ms, j);
  }

  /** At the end the layout is the compacted list. */
  lemma LayoutDone(orig: seq<Addr>, mask: Addr, d: nat)
    requires d == var p := FirstRepeat(MaskEach(orig, mask)); if |orig| <= p then |orig| else p + 1
    ensures Layout(orig, MaskEach(orig, mask), d) == Compacted(orig, mask)
  {
  }

  /** The compaction loop, in place, with the count it leaves in `*naddrs`. */
  method Compact(addrp: array<Addr>, mask: Addr) returns (naddrs: nat)
    modifies addrp
    ensures naddrs == FirstRepeat(MaskEach(old(addrp[..]), mask))
    ensures addrp[..] == Compacted(old(addrp[..]), mask)
  {
    ghost var orig := addrp[..];
    ghost var ms := MaskEach(orig, mask);
    ghost var p := FirstRepeat(ms);
    var n := addrp.Length;
    naddrs := n;
    var i, j := 0, 0;
    ghost var d := 0;
    while i < n
      invariant 0 <= j <= i <= n && j <= d <= n
      invariant i <= p ==> j == i && d == i
      invariant i > p ==> j == p && d == p + 1
      invariant naddrs == n - i + j
      invariant addrp[..] == Layout(orig, ms, d)
    {
      ghost var before := addrp[..];
      addrp[j] := MaskAddr(addrp[j], mask);
      j := j + 1;
      var dup := SeenBefore(addrp, j - 1);
      Round(orig, mask, d, j - 1, before, addrp[..], dup);
      d := j;
      if dup {
        naddrs := naddrs - 1;
        j := j - 1;
      }
      i := i + 1;
    }
    LayoutDone(orig, mask, d);
  }

  /** The inner loop of the compaction: does the address at `last` occur
      in an earlier slot? */
  method SeenBefore(addrp: array<Addr>, last: nat) returns (dup: bool)
    requires last < addrp.Length
    ensures dup <==> addrp[last] in addrp[..last]
  {
    var k := 0;
    while k < last
      invariant 0 <= k <= last
      invariant addrp[last] !in addrp[..k]
    {
      if addrp[k] == addrp[last] {
        assert addrp[..last][k] == addrp[last];
        return true;
      }
      assert addrp[..k + 1] == addrp[..k] + [addrp[k]];
      k := k + 1;
    }
    return false;
  }

  /** The host part and mask part of a `host/mask` argument: the first 255
      characters, split at the last slash. */
  function SplitHostMask(name: string): (string, Option<string>)
  {
    CutAtLastSlash(if |name| <= 255 then name else name[..255])
  }

  /** What a `host/mask` argument resolves to before compaction. */
  datatype Resolution = Resolution(addrs: seq<Addr>, mask: Addr)

  /** The text a zero mask puts in place of the host. */
  const AnyHost: string := "0.0.0.0"

  lemma AnyHostResolves(r: Resolver)
    ensures ParseHostNetwork(AnyHost, r) == Ok([AnyAddr])
  {
    AnyHostText();
    DottedResolves(AnyAddr, r);
  }

  lemma AnyHostText()
    ensures AddrToDotted(AnyAddr) == AnyHost
  {
  }

  /** A printed address names itself, whatever the name service holds. */
  lemma DottedResolves(a: Addr, r: Resolver)
    ensures ParseHostNetwork(AddrToDotted(a), r) == Ok([a])
  {
    DottedRoundTrip(a);
  }

  /** The parsing steps of parse_hostnetworkmask: the mask first, then the
      host, which a zero mask replaces by 0.0.0.0. */
  function Resolve(name: string, r: Resolver): (res: Result<Resolution>)
    ensures res.Ok? ==> ParseMask(SplitHostMask(name).1) == Ok(res.value.mask)
    ensures res.Ok? && res.value.mask != AnyAddr ==>
              ParseHostNetwork(SplitHostMask(name).0, r) == Ok(res.value.addrs)
    ensures ParseMask(SplitHostMask(name).1) == Ok(AnyAddr) ==> res == Ok(Resolution([AnyAddr], AnyAddr))
    ensures ParseMask(SplitHostMask(name).1).Err? ==> res == Err(ParseMask(SplitHostMask(name).1).problem)
  {
    var (host, maskText) := SplitHostMask(name);
    match ParseMask(maskText)
    case Err(p) => Err(p)
    case Ok(m) =>
      var h := if m == AnyAddr then AnyHost else host;
      AnyHostResolves(r);
      match ParseHostNetwork(h, r)
      case Err(p) => Err(p)
      case Ok(addrs) => Ok(Resolution(addrs, m))
  }

  lemma ResolveMaskFails(name: string, r: Resolver, mask: Result<Addr>)
    requires mask == ParseMask(SplitHostMask(name).1) && mask.Err?
    ensures Resolve(name, r) == Err(mask.problem)
  {
  }

  lemma ResolveSteps(name: string, r: Resolver, m: Addr, buf: string, found: Result<seq<Addr>>)
    requires ParseMask(SplitHostMask(name).1) == Ok(m)
    requires buf == if m == AnyAddr then AnyHost else SplitHostMask(name).0
    requires found == ParseHostNetwork(buf, r)
    ensures Resolve(name, r) == if found.Err? then Err(found.problem) else Ok(Resolution(found.value, m))
  {
  }

  /** parse_hostnetworkmask: the resolved addresses compacted in place in a
      new array, the mask, and the number of addresses kept. */
  method ParseHostNetworkMask(name: string, r: Resolver)
    returns (res: Result<Addr>, addrs: array<Addr>, naddrs: nat)
    ensures Resolve(name, r).Err? ==> res == Err(Resolve(name, r).problem)
    ensures Resolve(name, r).Ok? ==>
              var v := Resolve(name, r).value;
              res == Ok(v.mask) && addrs[..] == Compacted(v.addrs, v.mask) &&
              naddrs == FirstRepeat(MaskEach(v.addrs, v.mask))
  {
    addrs := new Addr[0];
    naddrs := 0;
    var (host, maskText) := SplitHostMask(name);
    var mask := ParseMask(maskText);
    if mask.Err? {
      ResolveMaskFails(name, r, mask);
      return Err(mask.problem), addrs, naddrs;
    }
    var m := mask.value;
    var buf := host;
    if m == AnyAddr {
      buf := AnyHost;
    }
    var found := ParseHostNetwork(buf, r);
    ResolveSteps(name, r, m, buf, found);
    if found.Err? {
      return Err(found.problem), addrs, naddrs;
    }
    addrs := ArrayOf(found.value);
    naddrs := Compact(addrs, m);
    res := Ok(m);
  }

  /** A fresh array holding the addresses of a list. */
  method ArrayOf(s: seq<Addr>) returns (a: array<Addr>)
    ensures fresh(a) && a[..] == s
  {
    a := new Addr[|s|](k requires 0 <= k < |s| => s[k]);
  }

  // ---------------------------------------------------------------------
  // Properties of the compaction

  /** A zero mask makes any host mean the single address 0.0.0.0. */
  lemma ZeroMaskMeansAnyHost(name: string, r: Resolver)
    requires ParseMask(SplitHostMask(name).1) == Ok(AnyAddr)
    ensures Resolve(name, r) == Ok(Resolution([AnyAddr], AnyAddr))
    ensures Compacted([AnyAddr], AnyAddr) == [AnyAddr]
    ensures FirstRepeat(MaskEach([AnyAddr], AnyAddr)) == 1
  {
    var ms := MaskEach([AnyAddr], AnyAddr);
    assert MaskAddr(AnyAddr, AnyAddr) == AnyAddr;
    assert ms == [AnyAddr];
    assert ms[..0] == [];
  }

  /** The count lies between 1 and the number of resolved addresses. */
  lemma CompactCountBounds(s: seq<Addr>, m: Addr)
    ensures FirstRepeat(MaskEach(s, m)) <= |s|
    ensures |s| > 0 ==> FirstRepeat(MaskEach(s, m)) >= 1
  {
    var ms := MaskEach(s, m);
    if |s| > 0 {
      assert ms[..0] == [];
    }
  }

  /** Every address is kept exactly when no two masked addresses coincide. */
  lemma CompactKeepsAllIffDistinct(s: seq<Addr>, m: Addr)
    ensures FirstRepeat(MaskEach(s, m)) == |s| <==> DistinctPrefix(MaskEach(s, m), |s|)
  {
    var ms := MaskEach(s, m);
    var p := FirstRepeat(ms);
    if p < |s| {
      var w :| 0 <= w < p && ms[..p][w] == ms[p];
      assert ms[w] == ms[p];
    }
  }

  /** The addresses counted are masked, pairwise different, and have no bit
      outside the mask. */
  lemma CompactedAddressesMasked(s: seq<Addr>, m: Addr)
    ensures var c := Compacted(s, m);
            var p := FirstRepeat(MaskEach(s, m));
            DistinctPrefix(c, p) &&
            (forall k :: 0 <= k < p ==> c[k] == MaskAddr(s[k], m) && MaskAddr(c[k], m) == c[k])
  {
    var c := Compacted(s, m);
    var p := FirstRepeat(MaskEach(s, m));
    forall k | 0 <= k < p
      ensures MaskAddr(c[k], m) == c[k]
    {
      MaskAddrIdempotent(s[k], m);
    }
  }

  /** A duplicate stops the compaction: for a, b, a, c (masked values, the
      first two different) the count is 2, and c is left out even when it is
      new. */
  lemma CompactStopsAtFirstDuplicate(a: Addr, b: Addr, c: Addr, m: Addr)
    requires MaskAddr(a, m) != MaskAddr(b, m)
    ensures FirstRepeat(MaskEach([a, b, a, c], m)) == 2
    ensures Compacted([a, b, a, c], m) == [MaskAddr(a, m), MaskAddr(b, m), MaskAddr(a, m), c]
  {
    var ms := MaskEach([a, b, a, c], m);
    assert ms[..1] == [ms[0]];
    assert ms[..2] == [ms[0], ms[1]];
    assert ms[2] == ms[..2][0];
  }
}

/** The rule record the front end assembles and hands to the table engine,
    and the comparison mask a delete by specification is matched with. */
module Rule {
  import opened Common
  import opened Ipv4
  import opened ArpFields
  import opened Extensions

  /** A device address and its mask, ARPT_DEV_ADDR_LEN_MAX bytes each. */
  datatype DevAddr = DevAddr(addr: seq<bv8>, mask: seq<bv8>)

  /** The ARP part of a rule: addresses and masks, the header fields with
      their masks (16-bit fields in network order), interfaces and their
      wildcard masks, and the inversion flags. */
  datatype ArpMatch = ArpMatch(
    src: Addr, tgt: Addr, smsk: Addr, tmsk: Addr,
    arhln: Byte, arhlnMask: Byte,
    srcDevaddr: DevAddr, tgtDevaddr: DevAddr,
    arpop: Net16, arpopMask: Net16,
    arhrd: Net16, arhrdMask: Net16,
    arpro: Net16, arproMask: Net16,
    iniface: seq<char>, outiface: seq<char>,
    inifaceMask: seq<bv8>, outifaceMask: seq<bv8>,
    flags: bv8, invflags: bv16)

  /** A rule: the ARP part, the offsets of the target block and of the next
      rule, the packet and byte counters, and the bytes after the fixed
      part (here only the target block). */
  datatype Entry = Entry(arp: ArpMatch, targetOffset: nat, nextOffset: nat, comefrom: nat,
                         pcnt: nat, bcnt: nat, elems: seq<bv8>)

  const NoDevAddr: DevAddr := DevAddr(Fill(DevAddrLen, 0), Fill(DevAddrLen, 0))
  const NoName: seq<char> := seq(IfNameSize, _ => '\0')

  /** The rule as `memset(&fw, 0, sizeof(fw))` leaves it. */
  const ZeroEntry: Entry :=
    Entry(ArpMatch(AnyAddr, AnyAddr, AnyAddr, AnyAddr, 0, 0, NoDevAddr, NoDevAddr,
                   Net16(0, 0), Net16(0, 0), Net16(0, 0), Net16(0, 0), Net16(0, 0), Net16(0, 0),
                   NoName, NoName, Fill(IfNameSize, 0), Fill(IfNameSize, 0), 0, 0),
          0, 0, 0, 0, 0, [])

  /** Where the entry says its target block lies, when that lies inside the
      entry. */
  function TargetOf(e: Entry): (t: Option<seq<bv8>>)
    ensures t.Some? ==> |t.value| == e.nextOffset - e.targetOffset
  {
    if EntrySize <= e.targetOffset <= e.nextOffset <= EntrySize + |e.elems|
    then Some(e.elems[e.targetOffset - EntrySize .. e.nextOffset - EntrySize])
    else None
  }

  /** generate_entry: a copy of the rule followed by the target block; the
      match blocks are not copied, so the target follows the fixed part
      directly. */
  function GenerateEntry(fw: Entry, target: seq<bv8>): (e: Entry)
    ensures e.arp == fw.arp && e.comefrom == fw.comefrom && e.pcnt == fw.pcnt && e.bcnt == fw.bcnt
  {
    fw.(targetOffset := EntrySize, nextOffset := EntrySize + |target|, elems := target)
  }

  /** The generated rule ends where its target block ends, and reading the
      target block at the recorded offsets gives back the block. */
  lemma GeneratedLayout(fw: Entry, target: seq<bv8>)
    ensures var e := GenerateEntry(fw, target);
            e.targetOffset == EntrySize && e.nextOffset == e.targetOffset + |target| &&
            e.nextOffset == EntrySize + |e.elems| && TargetOf(e) == Some(target)
  {
    var e := GenerateEntry(fw, target);
    assert e.elems[0..|target|] == target;
  }

  // ---------------------------------------------------------------------
  // The target block

  /** What strncpy with bound `n` copies of a NUL-free name: at most its
      first `n` characters. */
  function Truncated(name: string, n: nat): (r: string)
    ensures |r| == if |name| <= n then |name| else n
    ensures r <= name
  {
    if |name| <= n then name else name[..n]
  }

  /** A target block of `size` bytes as do_command fills it: zeroed by
      calloc, `u.target_size` as a 16-bit number in host (little-endian)
      order, the name copied from TargetNameOffset on with its NUL, then
      `u.user.revision` written over byte TargetRevisionOffset. A name that
      runs past the end of the block is cut there. */
  function TargetBlock(size: nat, name: string, revision: bv8): (b: seq<bv8>)
    ensures |b| == size
  {
    seq(size, k =>
      if k == 0 then (size % 256) as bv8
      else if k == 1 then (size / 256 % 256) as bv8
      else if k == TargetRevisionOffset then revision
      else if TargetNameOffset <= k < TargetNameOffset + |name| then CharByte(name[k - TargetNameOffset])
      else 0)
  }

  /** The length of the NUL-terminated string at the start of `s`, or
      `|s|` when `s` holds no NUL. */
  function NulAt(s: seq<bv8>): (i: nat)
    ensures i <= |s| && (i < |s| ==> s[i] == 0)
    ensures forall k :: 0 <= k < i ==> s[k] != 0
  {
    if s == [] || s[0] == 0 then 0 else 1 + NulAt(s[1..])
  }

  /** The name a target block carries, as the kernel and the listing read
      it: the name field up to its first NUL. */
  function BlockName(b: seq<bv8>): (n: seq<bv8>)
    requires |b| >= TargetHeaderSize
    ensures |n| <= TargetNameSize
  {
    var field := b[TargetNameOffset .. TargetNameOffset + TargetNameSize];
    field[..NulAt(field)]
  }

  /** The size of a target block as its first two bytes record it. */
  function BlockSize(b: seq<bv8>): nat
    requires |b| >= TargetHeaderSize
  {
    b[0] as nat + 256 * b[1] as nat
  }

  /** The first two bytes of a block record its size modulo 2^16, as the
      16-bit `u.target_size` does. */
  lemma BlockSizeRecorded(size: nat, name: string, revision: bv8)
    requires size >= TargetHeaderSize
    ensures BlockSize(TargetBlock(size, name, revision)) == size % 0x1_0000
  {
    var b := TargetBlock(size, name, revision);
    ByteHolds(size % 256);
    ByteHolds(size / 256 % 256);
    assert b[0] as nat == size % 256;
    assert b[1] as nat == size / 256 % 256;
    LowHigh(size);
  }

  /** A number modulo 2^16 is its low byte plus 256 times its next byte. */
  lemma LowHigh(n: nat)
    ensures n % 0x1_0000 == n % 256 + 256 * (n / 256 % 256)
  {
    var q, r := n / 256, n % 256;
    var q1, q0 := q / 256, q % 256;
    assert n == 0x1_0000 * q1 + (256 * q0 + r);
  }

  /** A name of fewer than TargetNameSize characters is read back from the
      block it was written into. */
  lemma BlockNameRecorded(size: nat, name: string, revision: bv8)
    requires size >= TargetHeaderSize && |name| < TargetNameSize && CString(name)
    ensures BlockName(TargetBlock(size, name, revision)) == Bytes(name)
  {
    var b := TargetBlock(size, name, revision);
    var field := b[TargetNameOffset .. TargetNameOffset + TargetNameSize];
    assert field[|name|] == 0;
    forall k | 0 <= k < |name|
      ensures field[k] != 0 && field[k] == Bytes(name)[k]
    {
      assert field[k] == b[TargetNameOffset + k] == CharByte(name[k]);
    }
    NulAtFirst(field, |name|);
  }

  /** A block built for a name of fewer than TargetNameSize characters
      records its size modulo 2^16, carries the name NUL-padded to the end
      of the name field, and holds the revision in its last header byte and
      zero bytes after the header. */
  lemma TargetBlockLayout(size: nat, name: string, revision: bv8)
    requires size >= TargetHeaderSize && |name| < TargetNameSize && CString(name)
    ensures var b := TargetBlock(size, name, revision);
            BlockSize(b) == size % 0x1_0000 &&
            BlockName(b) == Bytes(name) &&
            (forall k :: TargetNameOffset + |name| <= k < TargetRevisionOffset ==> b[k] == 0) &&
            b[TargetRevisionOffset] == revision &&
            (forall k :: TargetHeaderSize <= k < size ==> b[k] == 0)
  {
    BlockSizeRecorded(size, name, revision);
    BlockNameRecorded(size, name, revision);
  }

  /** A rule generated around a target block carries that block where its
      offsets say; the block holds the revision and, for a short enough C
      string, the name. */
  lemma EntryBlock(fw: Entry, size: nat, name: string, revision: bv8)
    requires size >= TargetHeaderSize
    ensures var b := TargetBlock(size, name, revision);
            TargetOf(GenerateEntry(fw, b)) == Some(b) && b[TargetRevisionOffset] == revision &&
            (|name| < TargetNameSize && CString(name) ==> BlockName(b) == Bytes(name))
  {
    GeneratedLayout(fw, TargetBlock(size, name, revision));
    if |name| < TargetNameSize && CString(name) {
      BlockNameRecorded(size, name, revision);
    }
  }

  /** What strncpy copies of a C string is a C string. */
  lemma TruncatedCString(name: string, n: nat)
    requires CString(name)
    ensures CString(Truncated(name, n))
  {
    var r := Truncated(name, n);
    forall k | 0 <= k < |r|
      ensures 0 < r[k] as int < 256
    {
      assert r[k] == name[k];
    }
  }

  /** NulAt finds the first NUL. */
  lemma {:induction false} NulAtFirst(s: seq<bv8>, i: nat)
    requires i < |s| && s[i] == 0 && forall k :: 0 <= k < i ==> s[k] != 0
    ensures NulAt(s) == i
  {
    if i > 0 {
      NulAtFirst(s[1..], i - 1);
    }
  }

  /** Different C strings have different bytes. */
  lemma BytesInjective(n1: string, n2: string)
    requires CString(n1) && CString(n2) && Bytes(n1) == Bytes(n2)
    ensures n1 == n2
  {
    forall k | 0 <= k < |n1|
      ensures n1[k] == n2[k]
    {
      assert Bytes(n1)[k] == Bytes(n2)[k];
    }
  }

  /** Rules whose targets are named differently are different rules: the
      name written into the block tells ACCEPT, DROP and a chain jump
      apart, whatever the sizes and revisions. */
  lemma DistinctNamesDistinctEntries(fw: Entry, size1: nat, n1: string, r1: bv8,
                                     size2: nat, n2: string, r2: bv8)
    requires size1 >= TargetHeaderSize && |n1| < TargetNameSize && CString(n1)
    requires size2 >= TargetHeaderSize && |n2| < TargetNameSize && CString(n2)
    requires n1 != n2
    ensures GenerateEntry(fw, TargetBlock(size1, n1, r1)) != GenerateEntry(fw, TargetBlock(size2, n2, r2))
  {
    TargetBlockLayout(size1, n1, r1);
    TargetBlockLayout(size2, n2, r2);
    if Bytes(n1) == Bytes(n2) {
      BytesInjective(n1, n2);
    }
  }

  // ---------------------------------------------------------------------
  // The delete mask

  /** The room a match takes in a rule, if it is used. */
  function Span(m: Extension): nat {
    if m.used then Align(MatchHeaderSize) + m.size else 0
  }

  /** The room the used matches take, in list order. */
  function MatchSpan(ms: seq<Extension>): nat {
    if ms == [] then 0 else MatchSpan(ms[..|ms| - 1]) + Span(ms[|ms| - 1])
  }

  /** The matches whose compared part fits in their data. */
  predicate Sized(ms: seq<Extension>) {
    forall k :: 0 <= k < |ms| ==> ms[k].userspacesize <= ms[k].size
  }

  /** The mask of one match: its header and the part user space compares
      are compared, the rest is not. */
  function Region(m: Extension): (r: seq<bv8>)
    requires m.userspacesize <= m.size
    ensures |r| == Span(m)
  {
    if m.used then Fill(Align(MatchHeaderSize) + m.userspacesize, 0xFF) + Fill(m.size - m.userspacesize, 0)
    else []
  }

  function MatchMask(ms: seq<Extension>): (r: seq<bv8>)
    requires Sized(ms)
    ensures |r| == MatchSpan(ms)
  {
    if ms == [] then [] else MatchMask(ms[..|ms| - 1]) + Region(ms[|ms| - 1])
  }

  /** What make_delete_mask builds: the fixed part compared, then each used
      match's region, then a target region sized from the target at the
      head of the target list. */
  function DeleteMask(ms: seq<Extension>, head: Extension): (r: seq<bv8>)
    requires Sized(ms) && head.userspacesize <= head.size
  {
    Fill(EntrySize, 0xFF) + MatchMask(ms)
    + Fill(Align(TargetHeaderSize) + head.userspacesize, 0xFF) + Fill(head.size - head.userspacesize, 0)
  }

  /** The mask covers the fixed part, the used matches and a target of the
      head target's size; of the target region exactly the header and the
      part user space compares are compared. */
  lemma DeleteMaskLayout(ms: seq<Extension>, head: Extension)
    requires Sized(ms) && head.userspacesize <= head.size
    ensures var r := DeleteMask(ms, head);
            var t := EntrySize + MatchSpan(ms);
            |r| == t + Align(TargetHeaderSize) + head.size &&
            (forall k :: 0 <= k < EntrySize ==> r[k] == 0xFF) &&
            (forall k :: t <= k < |r| ==> (r[k] == 0xFF <==> k < t + Align(TargetHeaderSize) + head.userspacesize))
  {
  }

  /** With no match in use, the mask is as long as the generated rule exactly
      when the rule's target block has the size of the head target's block,
      whatever target the rule names. */
  lemma DeleteMaskFitsOnlyHeadTarget(ms: seq<Extension>, head: Extension, fw: Entry, target: seq<bv8>)
    requires Sized(ms) && head.userspacesize <= head.size
    requires forall k :: 0 <= k < |ms| ==> !ms[k].used
    ensures |DeleteMask(ms, head)| == GenerateEntry(fw, target).nextOffset
            <==> |target| == Align(TargetHeaderSize) + head.size
  {
    NoneUsed(ms);
  }

  lemma {:induction false} NoneUsed(ms: seq<Extension>)
    requires forall k :: 0 <= k < |ms| ==> !ms[k].used
    ensures MatchSpan(ms) == 0
  {
    if ms != [] {
      NoneUsed(ms[..|ms| - 1]);
    }
  }

  lemma {:induction false} SpanOfPrefix(ms: seq<Extension>, i: nat)
    requires i <= |ms|
    ensures MatchSpan(ms[..i]) <= MatchSpan(ms)
    decreases |ms|
  {
    if i < |ms| {
      assert ms[..|ms| - 1][..i] == ms[..i];
      SpanOfPrefix(ms[..|ms| - 1], i);
    } else {
      assert ms[..i] == ms;
    }
  }

  /** A byte range painted by two `memset`s extends what lies before it. */
  lemma Painted(a: seq<bv8>, p: nat, n: nat, z: nat, before: seq<bv8>)
    requires p + n + z <= |a| && a[..p] == before
    requires forall k :: p <= k < p + n ==> a[k] == 0xFF
    requires forall k :: p + n <= k < p + n + z ==> a[k] == 0
    ensures a[..p + n + z] == before + Fill(n, 0xFF) + Fill(z, 0)
  {
    var r := before + Fill(n, 0xFF) + Fill(z, 0);
    assert |r| == p + n + z;
    forall k | 0 <= k < p + n + z
      ensures a[k] == r[k]
    {
      if k < p {
        assert a[..p][k] == a[k];
      }
    }
  }

  /** One region of the mask: `n` compared bytes then `z` bytes left as
      `calloc` cleared them. */
  method Paint(mask: array<bv8>, p: nat, n: nat, z: nat)
    requires p + n + z <= mask.Length
    requires forall k :: p <= k < mask.Length ==> mask[k] == 0
    modifies mask
    ensures mask[..p + n + z] == old(mask[..p]) + Fill(n, 0xFF) + Fill(z, 0)
    ensures forall k :: p + n + z <= k < mask.Length ==> mask[k] == 0
  {
    ghost var before := mask[..p];
    SetRange(mask, p, p + n, 0xFF);
    Painted(mask[..], p, n, z, before);
    assert mask[..][..p + n + z] == mask[..p + n + z];
  }

  /** The sizing loop of make_delete_mask. */
  method MatchesSize(matches: seq<Extension>) returns (size: nat)
    ensures size == MatchSpan(matches)
  {
    size := 0;
    var i := 0;
    while i < |matches|
      invariant i <= |matches| && size == MatchSpan(matches[..i])
    {
      assert matches[..i + 1][..i] == matches[..i];
      if matches[i].used {
        size := size + Align(MatchHeaderSize) + matches[i].size;
      }
      i := i + 1;
    }
    assert matches[..i] == matches;
  }

  /** The mask up to the end of the matches' regions. */
  function MaskPrefix(ms: seq<Extension>): (r: seq<bv8>)
    requires Sized(ms)
    ensures |r| == EntrySize + MatchSpan(ms)
  {
    Fill(EntrySize, 0xFF) + MatchMask(ms)
  }

  lemma MaskPrefixStep(ms: seq<Extension>, i: nat)
    requires Sized(ms) && i < |ms|
    ensures Sized(ms[..i]) && Sized(ms[..i + 1])
    ensures MaskPrefix(ms[..i + 1]) == MaskPrefix(ms[..i]) + Region(ms[i])
    ensures MatchSpan(ms[..i + 1]) == MatchSpan(ms[..i]) + Span(ms[i])
    ensures ms[i].userspacesize <= ms[i].size
    ensures !ms[i].used ==> MaskPrefix(ms[..i + 1]) == MaskPrefix(ms[..i])
  {
    assert ms[..i + 1][..i] == ms[..i];
    if !ms[i].used {
      assert MaskPrefix(ms[..i]) + Region(ms[i]) == MaskPrefix(ms[..i]);
    }
  }

  /** One pass of the second loop of make_delete_mask: the region of match
      `i`, if it is used, after the regions of the matches before it. */
  method PaintMatch(mask: array<bv8>, matches: seq<Extension>, i: nat, p: nat) returns (q: nat)
    requires Sized(matches) && i < |matches| && p == EntrySize + MatchSpan(matches[..i])
    requires EntrySize + MatchSpan(matches) <= mask.Length && p <= mask.Length
    requires mask[..p] == MaskPrefix(matches[..i])
    requires forall k :: p <= k < mask.Length ==> mask[k] == 0
    modifies mask
    ensures q == EntrySize + MatchSpan(matches[..i + 1]) && q <= mask.Length
    ensures mask[..q] == MaskPrefix(matches[..i + 1])
    ensures forall k :: q <= k < mask.Length ==> mask[k] == 0
  {
    MaskPrefixStep(matches, i);
    SpanOfPrefix(matches, i + 1);
    var m := matches[i];
    q := p;
    if m.used {
      var header, rest := Align(MatchHeaderSize) + m.userspacesize, m.size - m.userspacesize;
      ghost var before := mask[..p];
      Paint(mask, p, header, rest);
      q := p + Align(MatchHeaderSize) + m.size;
      assert mask[..q] == before + Fill(header, 0xFF) + Fill(rest, 0);
      assert Region(m) == Fill(header, 0xFF) + Fill(rest, 0);
      assert before + Fill(header, 0xFF) + Fill(rest, 0) == before + Region(m);
    }
  }

  /** The second loop of make_delete_mask: each used match's region, from
      the end of the fixed part on. */
  method PaintMatches(mask: array<bv8>, matches: seq<Extension>, size: nat) returns (p: nat)
    requires Sized(matches) && size == MatchSpan(matches) && EntrySize + size <= mask.Length
    requires mask[..EntrySize] == Fill(EntrySize, 0xFF)
    requires forall k :: EntrySize <= k < mask.Length ==> mask[k] == 0
    modifies mask
    ensures p == EntrySize + size && mask[..p] == MaskPrefix(matches)
    ensures forall k :: p <= k < mask.Length ==> mask[k] == 0
  {
    assert MaskPrefix(matches[..0]) == Fill(EntrySize, 0xFF);
    p := EntrySize;
    var i := 0;
    while i < |matches|
      invariant i <= |matches| && p == EntrySize + MatchSpan(matches[..i]) && p <= mask.Length
      invariant mask[..p] == MaskPrefix(matches[..i])
      invariant forall k :: p <= k < mask.Length ==> mask[k] == 0
    {
      p := PaintMatch(mask, matches, i, p);
      i := i + 1;
    }
    assert matches[..i] == matches;
  }

  /** make_delete_mask */
  method MakeDeleteMask(matches: seq<Extension>, targets: seq<Extension>) returns (mask: array<bv8>)
    requires |targets| > 0 && Sized(matches) && targets[0].userspacesize <= targets[0].size
    ensures fresh(mask) && mask[..] == DeleteMask(matches, targets[0])
  {
    var size := MatchesSize(matches);
    var head := targets[0];
    mask := new bv8[EntrySize + size + Align(TargetHeaderSize) + head.size](_ => 0);
    Paint(mask, 0, EntrySize, 0);
    assert Fill(EntrySize, 0xFF) + Fill(0, 0) == Fill(EntrySize, 0xFF);
    var p := PaintMatches(mask, matches, size);
    Paint(mask, p, Align(TargetHeaderSize) + head.userspacesize, head.size - head.userspacesize);
    assert mask[..] == mask[..mask.Length];
  }
}

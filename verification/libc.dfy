/** Small models of the C library routines the front end leans on:
    `strtol`, `sscanf("%" PRIu64)`, `ether_aton`, `strcasecmp`, `isspace`,
    `isalnum` and the `%d` conversion of `sprintf`.  Strings are the
    characters before the terminating NUL, so "the end pointer is at the NUL"
    reads "the end index is |s|". */
module Libc {
  import opened Common

  const LongMax: int := 0x7FFF_FFFF_FFFF_FFFF
  const LongMin: int := -0x8000_0000_0000_0000
  const U64Max: int := 0xFFFF_FFFF_FFFF_FFFF

  /** isspace in the C locale: blank, \t, \n, \v, \f, \r. */
  predicate IsSpace(c: char) {
    c == ' ' || ('\t' <= c <= '\r')
  }

  /** isalnum in the C locale. */
  predicate IsAlnum(c: char) {
    '0' <= c <= '9' || 'a' <= c <= 'z' || 'A' <= c <= 'Z'
  }

  /** tolower in the C locale. */
  function ToLower(c: char): (r: char)
    ensures 'A' <= c <= 'Z' ==> 'a' <= r <= 'z'
    ensures !('A' <= c <= 'Z') ==> r == c
  {
    if 'A' <= c <= 'Z' then (c as int - 'A' as int + 'a' as int) as char else c
  }

  /** strcasecmp(a, b) == 0 */
  predicate StrCaseEq(a: string, b: string) {
    |a| == |b| && forall i :: 0 <= i < |a| ==> ToLower(a[i]) == ToLower(b[i])
  }

  /** The value of `c` as a digit in any base up to 36, or 36 when `c` is not
      a digit at all. */
  function DigitValue(c: char): (v: nat)
    ensures v <= 36
    ensures v < 10 <==> '0' <= c <= '9'
  {
    if '0' <= c <= '9' then c as int - '0' as int
    else if 'a' <= c <= 'z' then c as int - 'a' as int + 10
    else if 'A' <= c <= 'Z' then c as int - 'A' as int + 10
    else 36
  }

  /** The character at `i`, or NUL past the end. */
  function CharAt(s: string, i: nat): char {
    if i < |s| then s[i] else '\0'
  }

  /** Index of the first non-blank at or after `i`. */
  function SkipSpaces(s: string, i: nat): (j: nat)
    requires i <= |s|
    ensures i <= j <= |s|
    ensures forall k :: i <= k < j ==> IsSpace(s[k])
    ensures j < |s| ==> !IsSpace(s[j])
    decreases |s| - i
  {
    if i < |s| && IsSpace(s[i]) then SkipSpaces(s, i + 1) else i
  }

  /** End of the longest run of digits of `base` that starts at `i`. */
  function DigitRunEnd(s: string, i: nat, base: nat): (j: nat)
    requires i <= |s|
    ensures i <= j <= |s|
    ensures forall k :: i <= k < j ==> DigitValue(s[k]) < base
    ensures j < |s| ==> DigitValue(s[j]) >= base
    decreases |s| - i
  {
    if i < |s| && DigitValue(s[i]) < base then DigitRunEnd(s, i + 1, base) else i
  }

  /** The number that a digit string denotes in `base`, most significant
      digit first. */
  function Value(ds: string, base: nat): nat {
    if ds == [] then 0 else Value(ds[..|ds| - 1], base) * base + DigitValue(ds[|ds| - 1])
  }

  /** What `strtol` reports: the value, the end index, and whether it set
      ERANGE. */
  datatype Conversion = Conversion(value: int, end: nat, overflow: bool)

  /** `strtol(s, &end, base)` as glibc implements it: leading blanks, an
      optional sign, a `0x` prefix in bases 0 and 16, an octal leading zero in
      base 0, then digits; no digits means no conversion (end at the start of
      `s`, or just after the `0` of a bare `0x`); out-of-range values clamp to
      LONG_MAX / LONG_MIN with ERANGE. */
  function Strtol(s: string, base: nat): (r: Conversion)
    requires base == 0 || 2 <= base <= 36
    ensures r.end <= |s|
    ensures LongMin <= r.value <= LongMax
    ensures r.overflow ==> r.end > 0
  {
    var h := StrtolHead(s, base);
    var j := DigitRunEnd(s, h.start, h.base);
    if j == h.start then
      (if h.hex then Conversion(0, h.start - 1, false) else Conversion(0, 0, false))
    else
      var mag: int := Value(s[h.start..j], h.base);
      var v := if h.neg then -mag else mag;
      if v > LongMax then Conversion(LongMax, j, true)
      else if v < LongMin then Conversion(LongMin, j, true)
      else Conversion(v, j, false)
  }

  /** What `strtol` decides before it reads the first digit: the sign, the
      base in force, whether a `0x` prefix was skipped, and where the digits
      start. */
  datatype Head = Head(neg: bool, hex: bool, base: nat, start: nat)

  function StrtolHead(s: string, base: nat): (h: Head)
    requires base == 0 || 2 <= base <= 36
    ensures 2 <= h.base <= 36 && h.start <= |s|
    ensures h.hex ==> h.start >= 2 && h.base == 16 && s[h.start - 2] == '0'
  {
    var i := SkipSpaces(s, 0);
    var neg := i < |s| && s[i] == '-';
    var i1 := if i < |s| && (s[i] == '-' || s[i] == '+') then i + 1 else i;
    var hex := (base == 0 || base == 16) && i1 + 1 < |s| && s[i1] == '0'
               && (s[i1 + 1] == 'x' || s[i1 + 1] == 'X');
    var b := if base != 0 then base
             else if hex then 16
             else if i1 < |s| && s[i1] == '0' then 8
             else 10;
    Head(neg, hex, b, if hex then i1 + 2 else i1)
  }

  /** The conversion of a `long` to `int` that gcc performs: reduction
      modulo 2^32 into the signed range. */
  function Int32Of(v: int): (r: int)
    ensures -0x8000_0000 <= r < 0x8000_0000
    ensures (r - v) % 0x1_0000_0000 == 0
  {
    (v + 0x8000_0000) % 0x1_0000_0000 - 0x8000_0000
  }

  /** A value that fits in an `int` is kept as it is. */
  lemma Int32OfInRange(v: int)
    requires -0x8000_0000 <= v < 0x8000_0000
    ensures Int32Of(v) == v
  {
  }

  /** `sscanf(s, "%" PRIu64, &x) == 1`, and the value stored: blanks, an
      optional sign, at least one decimal digit (trailing text is ignored); a
      minus sign negates modulo 2^64 and an overflowing magnitude stores
      UINT64_MAX. */
  function ScanU64(s: string): (r: Option<nat>)
    ensures r.Some? ==> r.value <= U64Max
  {
    var i := SkipSpaces(s, 0);
    var neg := i < |s| && s[i] == '-';
    var start := if i < |s| && (s[i] == '-' || s[i] == '+') then i + 1 else i;
    var j := DigitRunEnd(s, start, 10);
    if j == start then None
    else
      var mag := Value(s[start..j], 10);
      Some(if mag > U64Max then U64Max
           else if neg then (U64Max + 1 - mag) % (U64Max + 1)
           else mag)
  }

  /** `ether_aton` as glibc implements it: six groups of one or two hex
      digits (either case) separated by `:`. A sixth group of one digit
      must be followed by the end of the text or a blank; after a sixth
      group of two digits anything may follow, so `aa:bb:cc:dd:ee:ffzz`
      is accepted. */
  function EtherAton(s: string): (r: Option<seq<bv8>>)
    ensures r.Some? ==> |r.value| == EthAlen
  {
    EtherOctets(s, 0, 0)
  }

  function EtherOctets(s: string, pos: nat, cnt: nat): (r: Option<seq<bv8>>)
    requires cnt <= 6
    ensures r.Some? ==> |r.value| == 6 - cnt
    decreases 6 - cnt
  {
    if cnt == 6 then Some([])
    else
      var c1 := ToLower(CharAt(s, pos));
      if DigitValue(c1) >= 16 then None
      else
        var c2 := ToLower(CharAt(s, pos + 1));
        var single := if cnt < 5 then c2 == ':' else c2 == '\0' || IsSpace(c2);
        if single then
          match EtherOctets(s, pos + 2, cnt + 1)
          case None => None
          case Some(rest) => Some([DigitValue(c1) as bv8] + rest)
        else if DigitValue(c2) >= 16 then None
        else if cnt < 5 && CharAt(s, pos + 2) != ':' then None
        else
          match EtherOctets(s, pos + 3, cnt + 1)
          case None => None
          case Some(rest) => Some([(DigitValue(c1) * 16 + DigitValue(c2)) as bv8] + rest)
  }

  function DigitChar(d: nat): (c: char)
    requires d < 10
    ensures DigitValue(c) == d
  {
    ('0' as int + d) as char
  }

  /** `sprintf("%d", n)` for a non-negative `n`. */
  function Dec(n: nat): (s: string)
    ensures |s| >= 1
    ensures forall k :: 0 <= k < |s| ==> '0' <= s[k] <= '9'
    decreases n
  {
    if n < 10 then [DigitChar(n)] else Dec(n / 10) + [DigitChar(n % 10)]
  }

  lemma {:induction false} DecValue(n: nat)
    ensures Value(Dec(n), 10) == n
    decreases n
  {
    if n >= 10 {
      DecValue(n / 10);
      assert Dec(n)[..|Dec(n)| - 1] == Dec(n / 10);
    }
  }

  lemma {:induction false} DecShape(n: nat)
    ensures n == 0 <==> Dec(n)[0] == '0'
    ensures n < 256 ==> |Dec(n)| <= 3
    decreases n
  {
    if n >= 10 {
      DecShape(n / 10);
      assert Dec(n)[0] == Dec(n / 10)[0];
    }
  }

  /** `strtol` reads back what `%d` printed. */
  lemma StrtolHeadOfDec(n: nat, base: nat)
    requires base == 0 || base == 10
    ensures StrtolHead(Dec(n), base) == Head(false, false, if n == 0 && base == 0 then 8 else 10, 0)
  {
    var s := Dec(n);
    DecShape(n);
    assert !IsSpace(s[0]);
    assert SkipSpaces(s, 0) == 0;
    assert n == 0 ==> |s| == 1;
  }

  lemma StrtolReadsDec(n: nat, base: nat)
    requires n <= LongMax && (base == 0 || base == 10)
    ensures Strtol(Dec(n), base) == Conversion(n, |Dec(n)|, false)
  {
    var s := Dec(n);
    StrtolHeadOfDec(n, base);
    DecValue(n);
    var b := if n == 0 && base == 0 then 8 else 10;
    DecShape(n);
    assert n == 0 ==> s == "0";
    assert DigitRunEnd(s, 0, b) == |s|;
    assert s[0..|s|] == s;
    if n == 0 {
      assert Value(s, b) == Value([], b) * b + DigitValue('0') == 0;
    }
    assert Value(s[0..|s|], b) == n;
  }

  /** string_to_number(s, min, max, &ret): `s` must be one whole number
      (any base `strtol` recognises with base 0) within [min, max]. */
  function StringToNumber(s: string, min: nat, max: nat): (r: Option<nat>)
    ensures r.Some? ==> min <= r.value <= max && |s| > 0
  {
    var c := Strtol(s, 0);
    if c.end == |s| && c.end != 0 && !c.overflow && min <= c.value <= max
    then Some(c.value as nat)
    else None
  }

  /** A text string_to_number accepts holds no dot and no slash, so the
      callers' splitting at those characters is unambiguous. */
  lemma NumberHasNoSeparator(s: string, min: nat, max: nat)
    requires StringToNumber(s, min, max).Some?
    ensures '.' !in s && '/' !in s
  {
    forall k | 0 <= k < |s|
      ensures s[k] != '.' && s[k] != '/'
    {
      StrtolStopsAtPunctuation(s, 0, k);
    }
  }

  lemma StringToNumberReadsDec(n: nat, min: nat, max: nat)
    requires min <= n <= max <= LongMax
    ensures StringToNumber(Dec(n), min, max) == Some(n)
  {
    StrtolReadsDec(n, 0);
  }

  /** Everything `strtol` consumes is a blank, a sign, the `x` of a prefix or
      a digit; in particular it never reads past a `.` or a `/`. */
  lemma StrtolStopsAtPunctuation(s: string, base: nat, k: nat)
    requires base == 0 || 2 <= base <= 36
    requires k < Strtol(s, base).end
    ensures s[k] != '.' && s[k] != '/'
  {
  }
  /** strchr: index of the first `c` in `s`. */
  function StrChr(s: string, c: char): (r: Option<nat>)
    ensures r.Some? ==> r.value < |s| && s[r.value] == c && c !in s[..r.value]
    ensures r.None? <==> c !in s
  {
    if |s| == 0 then None
    else if s[0] == c then Some(0)
    else match StrChr(s[1..], c)
      case None => None
      case Some(k) =>
        assert s[..k + 1] == [s[0]] + s[1..][..k];
        Some(k + 1)
  }

  /** strrchr: index of the last `c` in `s`. */
  function StrRChr(s: string, c: char): (r: Option<nat>)
    ensures r.Some? ==> r.value < |s| && s[r.value] == c && c !in s[r.value + 1..]
    ensures r.None? <==> c !in s
  {
    if |s| == 0 then None
    else if s[|s| - 1] == c then Some(|s| - 1)
    else match StrRChr(s[..|s| - 1], c)
      case None =>
        assert s == s[..|s| - 1] + [s[|s| - 1]];
        None
      case Some(k) =>
        assert s[k + 1..] == s[..|s| - 1][k + 1..] + [s[|s| - 1]];
        Some(k)
  }

  /** The text before and after the last `/`, as `p = strrchr(s, '/');
      *p = '\0'` leaves them; no slash leaves the text whole. */
  function CutAtLastSlash(s: string): (parts: (string, Option<string>))
    ensures parts.1.None? <==> '/' !in s
    ensures parts.1.None? ==> parts.0 == s
    ensures parts.1.Some? ==> parts.0 + "/" + parts.1.value == s && '/' !in parts.1.value
  {
    match StrRChr(s, '/')
    case None => (s, None)
    case Some(k) =>
      assert s == s[..k] + "/" + s[k + 1..];
      (s[..k], Some(s[k + 1..]))
  }
}

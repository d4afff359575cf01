/** The registry of match and target extensions and the option table that
    grows as targets are loaded.  The source keeps the extensions in two
    linked lists; here each list is a sequence and a pointer into a list is
    an index. */
module Extensions {
  import opened Common

  /** An entry of a getopt option table; the table ends at the first entry
      without a name. */
  datatype OptionEntry = OptionEntry(name: Option<string>, hasArg: nat, val: int)

  /** The all-zero entry that ends a table. */
  const Terminator: OptionEntry := OptionEntry(None, 0, 0)

  /** The window between the option codes of two merges. */
  const OptionOffset: nat := 256

  /** What the front end keeps of a match or target extension: its name,
      version and revision, the size of its data and of the part user space
      compares, the loaded and used marks, its flags word, the code offset
      of its options and its option table. */
  datatype Extension = Extension(name: string, version: string, revision: bv8,
                                 size: nat, userspacesize: nat,
                                 loaded: bool, used: bool, flags: nat, optionOffset: nat,
                                 extraOpts: seq<OptionEntry>)

  /** How hard a lookup tries: DONT_LOAD only sees loaded extensions,
      TRY_LOAD loads what it finds, LOAD_MUST_SUCCEED also fails when
      nothing is found. */
  datatype TryLoad = DontLoad | TryLoad | LoadMustSucceed

  // ---------------------------------------------------------------------
  // Lookup

  /** The first entry of the list with this name. */
  function FirstNamed(list: seq<Extension>, name: string): (r: Option<nat>)
    ensures r.Some? ==> r.value < |list| && list[r.value].name == name &&
                        forall k :: 0 <= k < r.value ==> list[k].name != name
    ensures r.None? ==> forall k :: 0 <= k < |list| ==> list[k].name != name
  {
    if list == [] then None
    else if list[0].name == name then Some(0)
    else match FirstNamed(list[1..], name)
         case None => None
         case Some(k) => Some(k + 1)
  }

  /** The result of a lookup and the list afterwards. */
  datatype Found = Found(index: Option<nat>, list: seq<Extension>)

  /** find_match / find_target after the name mapping: the first extension
      of that name, if it is loaded or may be loaded now; what is returned
      is marked loaded and used. */
  function Find(list: seq<Extension>, name: string, tryload: TryLoad, missing: Problem): (r: Result<Found>)
  {
    var p := FirstNamed(list, name);
    var hit := if p.Some? && !list[p.value].loaded && tryload == DontLoad then None else p;
    if hit.None? then
      if tryload == LoadMustSucceed then Err(missing) else Ok(Found(None, list))
    else
      Ok(Found(hit, list[hit.value := list[hit.value].(loaded := true, used := true)]))
  }

  /** A lookup fails only when it must succeed and finds nothing loadable;
      it returns the first extension of that name, which afterwards is
      loaded and used; nothing else in the list changes. */
  lemma FindMeaning(list: seq<Extension>, name: string, tryload: TryLoad, missing: Problem)
    ensures var r := Find(list, name, tryload, missing);
            var p := FirstNamed(list, name);
            var visible := p.Some? && (tryload != DontLoad || list[p.value].loaded);
            (r.Err? <==> tryload == LoadMustSucceed && !visible) &&
            (r.Err? ==> r.problem == missing) &&
            (r.Ok? ==> |r.value.list| == |list| && (r.value.index.Some? <==> visible)) &&
            (r.Ok? && visible ==> r.value.index == p && r.value.list[p.value].loaded && r.value.list[p.value].used) &&
            (r.Ok? ==> forall k :: 0 <= k < |list| && Some(k) != r.value.index ==> r.value.list[k] == list[k])
  {
  }

  /** The names find_target treats as the standard target. */
  predicate IsStandardName(name: string) {
    name == "" || name == "ACCEPT" || name == "DROP" || name == "QUEUE" || name == "RETURN"
  }

  function TargetName(name: string): string {
    if IsStandardName(name) then "standard" else name
  }

  // ---------------------------------------------------------------------
  // Option tables

  /** The table has an end entry. */
  predicate Terminated(opts: seq<OptionEntry>) {
    exists i :: 0 <= i < |opts| && opts[i].name.None?
  }

  /** The number of entries before the end entry. */
  function Count(opts: seq<OptionEntry>): (n: nat)
    requires Terminated(opts)
    ensures n < |opts| && opts[n].name.None? && forall k :: 0 <= k < n ==> opts[k].name.Some?
  {
    if opts[0].name.None? then 0
    else
      assert Terminated(opts[1..]) by {
        var i :| 0 <= i < |opts| && opts[i].name.None?;
        assert opts[1..][i - 1].name.None?;
      }
      Count(opts[1..]) + 1
  }

  /** An option entry whose code is moved into a window. */
  function Shifted(e: OptionEntry, offset: nat): OptionEntry {
    e.(val := e.val + offset)
  }

  /** What merge_options builds: the old entries, then the new ones with
      their codes moved up by the offset, then an end entry. */
  function Merged(oldopts: seq<OptionEntry>, newopts: seq<OptionEntry>, offset: nat): (m: seq<OptionEntry>)
    requires Terminated(oldopts) && Terminated(newopts)
  {
    oldopts[..Count(oldopts)] + seq(Count(newopts), i requires 0 <= i < Count(newopts) => Shifted(newopts[i], offset))
    + [Terminator]
  }

  /** The merged table is again a table, of the old and the new entries: the
      old ones unchanged, the new ones with the same names and their codes
      moved into the window above the offset when they were below 256. */
  lemma MergedTable(oldopts: seq<OptionEntry>, newopts: seq<OptionEntry>, offset: nat)
    requires Terminated(oldopts) && Terminated(newopts)
    ensures var m := Merged(oldopts, newopts, offset);
            Terminated(m) && Count(m) == Count(oldopts) + Count(newopts) &&
            (forall k :: 0 <= k < Count(oldopts) ==> m[k] == oldopts[k]) &&
            (forall k :: 0 <= k < Count(newopts) ==>
               m[Count(oldopts) + k].name == newopts[k].name &&
               m[Count(oldopts) + k].val == newopts[k].val + offset &&
               (0 <= newopts[k].val < OptionOffset ==> offset <= m[Count(oldopts) + k].val < offset + OptionOffset))
  {
    var m := Merged(oldopts, newopts, offset);
    var n := Count(oldopts) + Count(newopts);
    assert m[n].name.None?;
    CountIs(m, n);
  }

  /** A table whose first `n` entries are named and whose entry `n` is not
      has `n` entries. */
  lemma {:induction false} CountIs(opts: seq<OptionEntry>, n: nat)
    requires n < |opts| && opts[n].name.None? && forall k :: 0 <= k < n ==> opts[k].name.Some?
    ensures Terminated(opts) && Count(opts) == n
  {
    assert Terminated(opts);
    if n > 0 {
      assert opts[1..][n - 1] == opts[n];
      CountIs(opts[1..], n - 1);
    }
  }

  // ---------------------------------------------------------------------
  // The registry

  /** The extension lists, the option table in force and the last window
      handed out. */
  class Registry {
    var matches: seq<Extension>
    var targets: seq<Extension>
    var globalOptionOffset: nat
    const programVersion: string

    constructor(version: string)
      ensures matches == [] && targets == [] && globalOptionOffset == 0 && programVersion == version
    {
      matches := [];
      targets := [];
      globalOptionOffset := 0;
      programVersion := version;
    }

    /** The list walk of find_match and find_target. */
    static method Walk(list: seq<Extension>, name: string) returns (i: nat)
      ensures FirstNamed(list, name).Some? ==> i == FirstNamed(list, name).value
      ensures FirstNamed(list, name).None? ==> i == |list|
    {
      i := 0;
      while i < |list| && list[i].name != name
        invariant i <= |list|
        invariant forall k :: 0 <= k < i ==> list[k].name != name
      {
        i := i + 1;
      }
    }

    /** The steps after the walk, shared by both lookups. */
    static method Settle(list: seq<Extension>, name: string, tryload: TryLoad, missing: Problem)
      returns (r: Result<Option<nat>>, list': seq<Extension>)
      ensures Find(list, name, tryload, missing).Err? ==> r == Err(missing)
      ensures Find(list, name, tryload, missing).Ok? ==>
                r == Ok(Find(list, name, tryload, missing).value.index) &&
                list' == Find(list, name, tryload, missing).value.list
    {
      var i := Walk(list, name);
      var hit: Option<nat> := if i < |list| then Some(i) else None;
      list' := list;
      if hit.Some? && !list[i].loaded {
        if tryload != DontLoad {
          list' := list'[i := list'[i].(loaded := true)];
        } else {
          hit := None;
        }
      }
      if hit.None? && tryload == LoadMustSucceed {
        return Err(missing), list';
      }
      if hit.Some? {
        list' := list'[i := list'[i].(used := true)];
      }
      r := Ok(hit);
    }

    /** find_match */
    method FindMatch(name: string, tryload: TryLoad) returns (r: Result<Option<nat>>)
      modifies this
      ensures var f := Find(old(matches), name, tryload, CouldNotFindMatch(name));
              (f.Err? ==> r == Err(CouldNotFindMatch(name)) && matches == old(matches)) &&
              (f.Ok? ==> r == Ok(f.value.index) && matches == f.value.list)
      ensures targets == old(targets) && globalOptionOffset == old(globalOptionOffset)
    {
      var list';
      r, list' := Settle(matches, name, tryload, CouldNotFindMatch(name));
      if r.Ok? {
        matches := list';
      }
    }

    /** find_target: the names of the built-in verdicts and the empty name
        all stand for the standard target. */
    method FindTarget(name: string, tryload: TryLoad) returns (r: Result<Option<nat>>)
      modifies this
      ensures var f := Find(old(targets), TargetName(name), tryload, CouldNotFindTarget(TargetName(name)));
              (f.Err? ==> r == Err(CouldNotFindTarget(TargetName(name))) && targets == old(targets)) &&
              (f.Ok? ==> r == Ok(f.value.index) && targets == f.value.list)
      ensures matches == old(matches) && globalOptionOffset == old(globalOptionOffset)
    {
      var n := if IsStandardName(name) then "standard" else name;
      var list';
      r, list' := Settle(targets, n, tryload, CouldNotFindTarget(n));
      if r.Ok? {
        targets := list';
      }
    }

    /** register_match: the version must be the program's, no loaded match
        may have the name, and the size must be aligned; the match is
        appended with its flags cleared. */
    method RegisterMatch(me: Extension) returns (res: Outcome)
      modifies this
      ensures var seen := Find(old(matches), me.name, DontLoad, CouldNotFindMatch(me.name)).value;
              (me.version != programVersion ==> res == Fail(VersionMismatch(me.name)) && matches == old(matches)) &&
              (me.version == programVersion && seen.index.Some? ==>
                 res == Fail(AlreadyRegistered(me.name)) && matches == seen.list) &&
              (me.version == programVersion && seen.index.None? && me.size != Align(me.size) ==>
                 res == Fail(InvalidSize(me.name)) && matches == old(matches)) &&
              (res.Pass? <==> me.version == programVersion && seen.index.None? && me.size == Align(me.size)) &&
              (res.Pass? ==> matches == old(matches) + [me.(flags := 0)])
      ensures targets == old(targets) && globalOptionOffset == old(globalOptionOffset)
    {
      if me.version != programVersion {
        return Fail(VersionMismatch(me.name));
      }
      var seen := FindMatch(me.name, DontLoad);
      if seen.Ok? && seen.value.Some? {
        return Fail(AlreadyRegistered(me.name));
      }
      if me.size != Align(me.size) {
        return Fail(InvalidSize(me.name));
      }
      matches := matches + [me.(flags := 0)];
      res := Pass;
    }

    /** register_target: the same checks; the target is prepended with its
        flags cleared. */
    method RegisterTarget(me: Extension) returns (res: Outcome)
      modifies this
      ensures var n := TargetName(me.name);
              var seen := Find(old(targets), n, DontLoad, CouldNotFindTarget(n)).value;
              (me.version != programVersion ==> res == Fail(VersionMismatch(me.name)) && targets == old(targets)) &&
              (me.version == programVersion && seen.index.Some? ==>
                 res == Fail(AlreadyRegistered(me.name)) && targets == seen.list) &&
              (me.version == programVersion && seen.index.None? && me.size != Align(me.size) ==>
                 res == Fail(InvalidSize(me.name)) && targets == old(targets)) &&
              (res.Pass? <==> me.version == programVersion && seen.index.None? && me.size == Align(me.size)) &&
              (res.Pass? ==> targets == [me.(flags := 0)] + old(targets))
      ensures matches == old(matches) && globalOptionOffset == old(globalOptionOffset)
    {
      if me.version != programVersion {
        return Fail(VersionMismatch(me.name));
      }
      var seen := FindTarget(me.name, DontLoad);
      if seen.Ok? && seen.value.Some? {
        return Fail(AlreadyRegistered(me.name));
      }
      if me.size != Align(me.size) {
        return Fail(InvalidSize(me.name));
      }
      targets := [me.(flags := 0)] + targets;
      res := Pass;
    }

    /** merge_options: hands out the next window of option codes and builds
        the table of the old options followed by the new ones moved into
        that window. */
    method MergeOptions(oldopts: array<OptionEntry>, newopts: array<OptionEntry>)
      returns (merge: array<OptionEntry>, optionOffset: nat)
      requires Terminated(oldopts[..]) && Terminated(newopts[..])
      modifies this
      ensures globalOptionOffset == old(globalOptionOffset) + OptionOffset
      ensures optionOffset == globalOptionOffset
      ensures fresh(merge) && merge[..] == Merged(oldopts[..], newopts[..], optionOffset)
      ensures matches == old(matches) && targets == old(targets)
    {
      var numOld := CountEntries(oldopts);
      var numNew := CountEntries(newopts);
      globalOptionOffset := globalOptionOffset + OptionOffset;
      optionOffset := globalOptionOffset;
      merge := Build(oldopts, numOld, newopts, numNew, optionOffset);
    }

    /** The copying loops of merge_options. */
    static method Build(oldopts: array<OptionEntry>, numOld: nat, newopts: array<OptionEntry>, numNew: nat, optionOffset: nat)
      returns (merge: array<OptionEntry>)
      requires Terminated(oldopts[..]) && Terminated(newopts[..])
      requires numOld == Count(oldopts[..]) && numNew == Count(newopts[..])
      ensures fresh(merge) && merge[..] == Merged(oldopts[..], newopts[..], optionOffset)
    {
      merge := new OptionEntry[numOld + numNew + 1](_ => Terminator);
      CopyShifted(merge, 0, oldopts, numOld, 0);
      CopyShifted(merge, numOld, newopts, numNew, optionOffset);
      ghost var m := Merged(oldopts[..], newopts[..], optionOffset);
      assert |m| == merge.Length;
      forall k | 0 <= k < merge.Length
        ensures merge[k] == m[k]
      {
        if k < numOld {
          assert m[k] == oldopts[k];
        } else if k < numOld + numNew {
          assert m[k] == Shifted(newopts[k - numOld], optionOffset);
        } else {
          assert m[k] == Terminator;
        }
      }
      assert merge[..] == m;
    }
    /** One copying loop of merge_options: `n` entries of `src` go to `dst`
        from `at` on, their codes moved up by `offset`. */
    static method CopyShifted(dst: array<OptionEntry>, at: nat, src: array<OptionEntry>, n: nat, offset: nat)
      requires at + n <= dst.Length && n <= src.Length && dst != src
      modifies dst
      ensures forall k :: 0 <= k < dst.Length ==>
                dst[k] == if at <= k < at + n then Shifted(src[k - at], offset) else old(dst[k])
    {
      var i := 0;
      while i < n
        invariant i <= n
        invariant forall k :: 0 <= k < dst.Length ==>
                    dst[k] == if at <= k < at + i then Shifted(src[k - at], offset) else old(dst[k])
      {
        dst[at + i] := src[i];
        dst[at + i] := dst[at + i].(val := dst[at + i].val + offset);
        i := i + 1;
      }
    }

    /** The counting loop of merge_options. */
    static method CountEntries(opts: array<OptionEntry>) returns (n: nat)
      requires Terminated(opts[..])
      ensures n == Count(opts[..])
    {
      n := 0;
      while opts[n].name.Some?
        invariant n <= Count(opts[..])
        decreases Count(opts[..]) - n
      {
        n := n + 1;
      }
    }

    /** The part of do_command's start that concerns the registry: the
        option windows start again from zero, and every target's flags and
        used mark are cleared. */
    method ResetForParse()
      modifies this
      ensures globalOptionOffset == 0
      ensures targets == seq(|old(targets)|, k requires 0 <= k < |old(targets)| => Unused(old(targets)[k]))
      ensures matches == old(matches)
    {
      globalOptionOffset := 0;
      var i := 0;
      ghost var before := targets;
      while i < |targets|
        invariant |targets| == |before| && i <= |targets|
        invariant forall k :: 0 <= k < |targets| ==> targets[k] == if k < i then Unused(before[k]) else before[k]
        invariant matches == old(matches) && globalOptionOffset == 0
      {
        targets := targets[i := targets[i].(flags := 0, used := false)];
        i := i + 1;
      }
    }
  }

  /** A target as the reset leaves it. */
  function Unused(t: Extension): (u: Extension)
    ensures u.name == t.name && u.size == t.size && u.loaded == t.loaded
    ensures !u.used && u.flags == 0
  {
    t.(flags := 0, used := false)
  }

  // ---------------------------------------------------------------------
  // Properties of the lists

  /** A match registered after another of the same name is never found:
      the lookup stops at the earlier one. */
  lemma LaterMatchIsShadowed(list: seq<Extension>, me: Extension)
    requires FirstNamed(list, me.name).Some?
    ensures FirstNamed(list + [me.(flags := 0)], me.name) == FirstNamed(list, me.name)
  {
    FirstNamedAt(list + [me.(flags := 0)], me.name, FirstNamed(list, me.name).value);
  }

  /** A match registered under a new name is found at the end of the list. */
  lemma NewMatchIsFoundLast(list: seq<Extension>, me: Extension)
    requires FirstNamed(list, me.name).None?
    ensures FirstNamed(list + [me.(flags := 0)], me.name) == Some(|list|)
  {
    FirstNamedAt(list + [me.(flags := 0)], me.name, |list|);
  }

  /** A target registered later is always the one found under its name. */
  lemma LaterTargetShadows(list: seq<Extension>, me: Extension)
    ensures FirstNamed([me.(flags := 0)] + list, me.name) == Some(0)
  {
  }

  /** The first entry of a name is the one at `i` when `i` has the name and
      no earlier entry has. */
  lemma FirstNamedAt(list: seq<Extension>, name: string, i: nat)
    requires i < |list| && list[i].name == name && forall k :: 0 <= k < i ==> list[k].name != name
    ensures FirstNamed(list, name) == Some(i)
  {
  }

  /** Once registered and loaded, an extension is found by every later
      lookup of its name, whatever the loading mode. */
  lemma LoadedIsFound(list: seq<Extension>, name: string, tryload: TryLoad, missing: Problem)
    requires FirstNamed(list, name).Some? && list[FirstNamed(list, name).value].loaded
    ensures Find(list, name, tryload, missing).Ok?
    ensures Find(list, name, tryload, missing).value.index == FirstNamed(list, name)
  {
  }
}

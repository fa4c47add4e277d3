/** The accept/reject logic of `parse_arguments`, over options already
    decoded by `getopt_long`, `strtoul` and `atoi`. */
module Options {
  import opened Bytes

  type i32 = x: int | -0x8000_0000 <= x < 0x8000_0000

  /** One recognised long option with its decoded argument: `strtoul(_, 16)`
      for the addresses, `atoi` for the two integers. */
  datatype CliOption =
    | OverrideOpt(addr: u64)
    | WithOpt(addr: u64)
    | StackIdxOpt(n: i32)
    | AddrSizeOpt(n: i32)

  /** The four globals `parse_arguments` assigns. */
  datatype Globals = Globals(overrideAddr: u64, jmpAddr: u64, idxStack: u32, addressSize: i32)

  /** The globals at process start: zero, and an address size of 4. */
  const DEFAULT_GLOBALS: Globals := Globals(0, 0, 0, 4)

  /** The loop's globals together with its three `*_set` flags. */
  datatype ScanState = ScanState(g: Globals, overrideSet: bool, withSet: bool, stackIdxSet: bool)

  /** `atoi`'s `int` stored into the `unsigned int` `idx_stack_g`. */
  function ToUnsigned32(n: i32): u32
  {
    n % UINT32_RANGE
  }

  /** One pass of the option loop; `None` is the early `return -1` for an
      address size outside [1, 8]. */
  function ApplyOption(s: ScanState, o: CliOption): Option<ScanState>
  {
    match o
    case OverrideOpt(a) => Some(s.(g := s.g.(overrideAddr := a), overrideSet := true))
    case WithOpt(a) => Some(s.(g := s.g.(jmpAddr := a), withSet := true))
    case StackIdxOpt(n) => Some(s.(g := s.g.(idxStack := ToUnsigned32(n)), stackIdxSet := true))
    case AddrSizeOpt(n) => if n < 1 || n > 8 then None else Some(s.(g := s.g.(addressSize := n)))
  }

  datatype Option<T> = None | Some(value: T)

  /** The option loop over the options in the order `getopt_long` returns them. */
  function ScanOptions(s0: ScanState, opts: seq<CliOption>): Option<ScanState>
  {
    if opts == [] then Some(s0)
    else match ScanOptions(s0, opts[..|opts| - 1])
      case None => None
      case Some(s) => ApplyOption(s, opts[|opts| - 1])
  }

  /** `parse_arguments` as a whole: the globals it leaves on success (return
      value 0), `None` for a return value of -1. */
  function Parse(g0: Globals, opts: seq<CliOption>, operandsLeft: nat): Option<Globals>
  {
    match ScanOptions(ScanState(g0, false, false, false), opts)
    case None => None
    case Some(s) =>
      if operandsLeft > 0 then None
      else if !s.overrideSet || !s.stackIdxSet || !s.withSet then None
      else Some(s.g)
  }

  predicate AddrSizesInRange(opts: seq<CliOption>)
  {
    forall i :: 0 <= i < |opts| && opts[i].AddrSizeOpt? ==> 1 <= opts[i].n <= 8
  }

  /** The four options, by kind. */
  datatype Kind = OverrideKind | WithKind | StackIdxKind | AddrSizeKind

  function KindOf(o: CliOption): Kind
  {
    match o
    case OverrideOpt(_) => OverrideKind
    case WithOpt(_) => WithKind
    case StackIdxOpt(_) => StackIdxKind
    case AddrSizeOpt(_) => AddrSizeKind
  }

  /** An option of kind k occurs in opts. */
  predicate Has(opts: seq<CliOption>, k: Kind)
  {
    exists i :: 0 <= i < |opts| && KindOf(opts[i]) == k
  }

  /** The loop finishes exactly when every address size is in range, and it
      then has set each flag exactly when that option occurred. */
  lemma {:induction false} ScanOptionsSpec(s0: ScanState, opts: seq<CliOption>)
    ensures ScanOptions(s0, opts).Some? <==> AddrSizesInRange(opts)
    ensures ScanOptions(s0, opts).Some? ==>
              var s := ScanOptions(s0, opts).value;
              && (s.overrideSet <==> s0.overrideSet || Has(opts, OverrideKind))
              && (s.withSet <==> s0.withSet || Has(opts, WithKind))
              && (s.stackIdxSet <==> s0.stackIdxSet || Has(opts, StackIdxKind))
  {
    if opts != [] {
      var init := opts[..|opts| - 1];
      var last := opts[|opts| - 1];
      ScanOptionsSpec(s0, init);
      assert forall i :: 0 <= i < |init| ==> init[i] == opts[i];
      if AddrSizesInRange(opts) {
        assert AddrSizesInRange(init);
      }
      if ScanOptions(s0, opts).Some? {
        assert Has(opts, OverrideKind) <==> Has(init, OverrideKind) || last.OverrideOpt?;
        assert Has(opts, WithKind) <==> Has(init, WithKind) || last.WithOpt?;
        assert Has(opts, StackIdxKind) <==> Has(init, StackIdxKind) || last.StackIdxOpt?;
      }
    }
  }

  /** `parse_arguments` returns 0 exactly when every address size given is in
      [1, 8], no operand is left after the options, and each of `--override`,
      `--with` and `--stackidx` occurred. */
  lemma ParseAccepts(g0: Globals, opts: seq<CliOption>, operandsLeft: nat)
    ensures Parse(g0, opts, operandsLeft).Some?
            <==> AddrSizesInRange(opts) && operandsLeft == 0
                 && Has(opts, OverrideKind) && Has(opts, WithKind) && Has(opts, StackIdxKind)
  {
    ScanOptionsSpec(ScanState(g0, false, false, false), opts);
  }

  /** The loop over all options is the loop over all but the last, then one
      more pass. */
  lemma ScanOptionsLast(s0: ScanState, opts: seq<CliOption>)
    requires opts != [] && ScanOptions(s0, opts).Some?
    ensures ScanOptions(s0, opts[..|opts| - 1]).Some?
    ensures ApplyOption(ScanOptions(s0, opts[..|opts| - 1]).value, opts[|opts| - 1])
            == ScanOptions(s0, opts)
  {
  }

  /** The last option of kind k in opts, if any. */
  function LastOf(opts: seq<CliOption>, k: Kind): (r: Option<CliOption>)
    ensures r.Some? ==> KindOf(r.value) == k
  {
    if opts == [] then None
    else if KindOf(opts[|opts| - 1]) == k then Some(opts[|opts| - 1])
    else LastOf(opts[..|opts| - 1], k)
  }

  /** No option of kind k follows position i (i = -1: none at all). */
  predicate NoneAfter(opts: seq<CliOption>, i: int, k: Kind)
  {
    forall j :: 0 <= j < |opts| && i < j ==> KindOf(opts[j]) != k
  }

  /** An option that is not of kind k keeps a kind-free suffix kind-free. */
  lemma NoneAfterExtended(opts: seq<CliOption>, i: int, k: Kind)
    requires opts != [] && KindOf(opts[|opts| - 1]) != k
    requires NoneAfter(opts[..|opts| - 1], i, k)
    ensures NoneAfter(opts, i, k)
  {
    var init := opts[..|opts| - 1];
    forall j | 0 <= j < |opts| && i < j
      ensures KindOf(opts[j]) != k
    {
      if j < |opts| - 1 {
        assert opts[j] == init[j];
      }
    }
  }

  /** LastOf finds an option exactly when one of its kind occurs, and the one
      it finds has no option of its kind after it. */
  lemma {:induction false} LastOfSpec(opts: seq<CliOption>, k: Kind)
    ensures LastOf(opts, k).Some? <==> Has(opts, k)
    ensures LastOf(opts, k).None? ==> NoneAfter(opts, -1, k)
    ensures LastOf(opts, k).Some? ==>
              exists i :: 0 <= i < |opts| && opts[i] == LastOf(opts, k).value && NoneAfter(opts, i, k)
  {
    if opts != [] {
      var n := |opts| - 1;
      if KindOf(opts[n]) == k {
        assert NoneAfter(opts, n, k);
      } else {
        var init := opts[..n];
        LastOfSpec(init, k);
        if LastOf(init, k).Some? {
          var i :| 0 <= i < |init| && init[i] == LastOf(init, k).value && NoneAfter(init, i, k);
          NoneAfterExtended(opts, i, k);
          assert opts[i] == init[i];
        } else {
          NoneAfterExtended(opts, -1, k);
        }
      }
    }
  }

  /** After the loop each global holds the argument of the last option that
      sets it, or its earlier value when there is none. */
  lemma {:induction false} ScanOptionsLastOf(s0: ScanState, opts: seq<CliOption>)
    requires ScanOptions(s0, opts).Some?
    ensures var g := ScanOptions(s0, opts).value.g;
            && g.overrideAddr == (match LastOf(opts, OverrideKind)
                                  case Some(o) => o.addr case None => s0.g.overrideAddr)
            && g.jmpAddr == (match LastOf(opts, WithKind)
                             case Some(o) => o.addr case None => s0.g.jmpAddr)
            && g.idxStack == (match LastOf(opts, StackIdxKind)
                              case Some(o) => ToUnsigned32(o.n) case None => s0.g.idxStack)
            && g.addressSize == (match LastOf(opts, AddrSizeKind)
                                 case Some(o) => o.n case None => s0.g.addressSize)
  {
    if opts != [] {
      ScanOptionsLast(s0, opts);
      ScanOptionsLastOf(s0, opts[..|opts| - 1]);
    }
  }

  /** After the loop `override_addr_g` holds the argument of the last
      `--override`, or its earlier value when there is none. */
  lemma OverrideLastWins(s0: ScanState, opts: seq<CliOption>)
    requires ScanOptions(s0, opts).Some?
    ensures var a := ScanOptions(s0, opts).value.g.overrideAddr;
            if Has(opts, OverrideKind) then
              exists i :: 0 <= i < |opts| && opts[i] == OverrideOpt(a) && NoneAfter(opts, i, OverrideKind)
            else a == s0.g.overrideAddr
  {
    ScanOptionsLastOf(s0, opts);
    LastOfSpec(opts, OverrideKind);
  }

  /** After the loop `jmp_addr_g` holds the argument of the last `--with`,
      or its earlier value when there is none. */
  lemma WithLastWins(s0: ScanState, opts: seq<CliOption>)
    requires ScanOptions(s0, opts).Some?
    ensures var a := ScanOptions(s0, opts).value.g.jmpAddr;
            if Has(opts, WithKind) then
              exists i :: 0 <= i < |opts| && opts[i] == WithOpt(a) && NoneAfter(opts, i, WithKind)
            else a == s0.g.jmpAddr
  {
    ScanOptionsLastOf(s0, opts);
    LastOfSpec(opts, WithKind);
  }

  /** After the loop `idx_stack_g` holds the argument of the last
      `--stackidx`, stored into the `unsigned int`, or its earlier value when
      there is none. */
  lemma StackIdxLastWins(s0: ScanState, opts: seq<CliOption>)
    requires ScanOptions(s0, opts).Some?
    ensures var x := ScanOptions(s0, opts).value.g.idxStack;
            if Has(opts, StackIdxKind) then
              exists i :: 0 <= i < |opts| && opts[i].StackIdxOpt? && ToUnsigned32(opts[i].n) == x
                          && NoneAfter(opts, i, StackIdxKind)
            else x == s0.g.idxStack
  {
    ScanOptionsLastOf(s0, opts);
    LastOfSpec(opts, StackIdxKind);
  }

  /** After the loop `address_size_g` holds the argument of the last
      `--addrsize`, or its earlier value when there is none. */
  lemma AddrSizeLastWins(s0: ScanState, opts: seq<CliOption>)
    requires ScanOptions(s0, opts).Some?
    ensures var w := ScanOptions(s0, opts).value.g.addressSize;
            if Has(opts, AddrSizeKind) then
              exists i :: 0 <= i < |opts| && opts[i] == AddrSizeOpt(w) && NoneAfter(opts, i, AddrSizeKind)
            else w == s0.g.addressSize
  {
    ScanOptionsLastOf(s0, opts);
    LastOfSpec(opts, AddrSizeKind);
  }

  /** A successful parse leaves an address size in [1, 8]. */
  lemma ParsedAddressSize(g0: Globals, opts: seq<CliOption>, operandsLeft: nat)
    requires 1 <= g0.addressSize <= 8
    requires Parse(g0, opts, operandsLeft).Some?
    ensures 1 <= Parse(g0, opts, operandsLeft).value.addressSize <= 8
  {
    var s0 := ScanState(g0, false, false, false);
    ScanOptionsSpec(s0, opts);
    AddrSizeLastWins(s0, opts);
  }

  /** Once the loop has returned early, later options change nothing. */
  lemma {:induction false} ScanOptionsRejectStays(s0: ScanState, opts: seq<CliOption>, k: nat)
    requires k <= |opts| && ScanOptions(s0, opts[..k]).None?
    ensures ScanOptions(s0, opts).None?
  {
    if k < |opts| {
      assert opts[..|opts| - 1][..k] == opts[..k];
      ScanOptionsRejectStays(s0, opts[..|opts| - 1], k);
    } else {
      assert opts[..k] == opts;
    }
  }

  /** The usage errors of the command-line surface. */
  lemma UsageErrors(a: u64, b: u64)
    ensures Parse(DEFAULT_GLOBALS, [OverrideOpt(a), StackIdxOpt(6)], 0).None?
    ensures Parse(DEFAULT_GLOBALS, [OverrideOpt(a), WithOpt(b), StackIdxOpt(6), AddrSizeOpt(9)], 0).None?
    ensures Parse(DEFAULT_GLOBALS, [OverrideOpt(a), WithOpt(b), StackIdxOpt(6)], 1).None?
    ensures Parse(DEFAULT_GLOBALS, [OverrideOpt(a), WithOpt(b), StackIdxOpt(6)], 0)
            == Some(Globals(a, b, 6, 4))
  {
    ParseAccepts(DEFAULT_GLOBALS, [OverrideOpt(a), StackIdxOpt(6)], 0);
    var noWith := [OverrideOpt(a), StackIdxOpt(6)];
    assert !Has(noWith, WithKind) by {
      assert forall i :: 0 <= i < |noWith| ==> !noWith[i].WithOpt?;
    }
    var bad := [OverrideOpt(a), WithOpt(b), StackIdxOpt(6), AddrSizeOpt(9)];
    ParseAccepts(DEFAULT_GLOBALS, bad, 0);
    assert !AddrSizesInRange(bad) by { assert bad[3].AddrSizeOpt? && bad[3].n == 9; }
    var good := [OverrideOpt(a), WithOpt(b), StackIdxOpt(6)];
    var s0 := ScanState(DEFAULT_GLOBALS, false, false, false);
    assert good[..2][..1][..0] == [];
    assert ScanOptions(s0, good[..2][..1]) == Some(ScanState(Globals(a, 0, 0, 4), true, false, false));
    assert ScanOptions(s0, good[..2]) == Some(ScanState(Globals(a, b, 0, 4), true, true, false));
    assert ScanOptions(s0, good) == Some(ScanState(Globals(a, b, 6, 4), true, true, true));
  }
}

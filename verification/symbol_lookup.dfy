/**
  PatcherGetSymbolAddress: a name is resolved through the classic symbol
  table, and through the KXLD state only when that table is empty.
  Results are file offsets from the Mach header.
 */
module SymbolLookup {
  import opened Wrappers
  import opened EfiTypes
  import opened MachO
  import opened Patcher

  /** InternalKxldSolveSymbol: the address of a name in a KXLD state blob, 0 if absent. */
  type KxldSolver = (seq<uint8>, uint32, string) -> uint64

  /** An entry whose name is obtainable and equal to `name` (AsciiStrCmp == 0). */
  predicate Matches(sym: Symbol, name: string) {
    sym.name == Some(name)
  }

  /** Entry `k` matches and no entry before it does. */
  ghost predicate IsFirstMatch(symbols: seq<Symbol>, name: string, k: int) {
    && 0 <= k < |symbols|
    && Matches(symbols[k], name)
    && forall j | 0 <= j < k :: !Matches(symbols[j], name)
  }

  /** The index of the first entry named `name`, scanning in index order. */
  function FirstMatch(symbols: seq<Symbol>, name: string): (r: Option<nat>)
    ensures r.Some? ==> IsFirstMatch(symbols, name, r.value)
    ensures r.None? ==> forall j | 0 <= j < |symbols| :: !Matches(symbols[j], name)
  {
    if |symbols| == 0 then None
    else if Matches(symbols[0], name) then Some(0)
    else
      match FirstMatch(symbols[1..], name)
      case None => None
      case Some(k) => Some(k + 1)
  }

  /**
    Lines 188-215: the KXLD state's answer for `name`, translated to a
    file offset. Any failure is NotFound.
   */
  function KxldFallback(ctx: PatcherContext, name: string, solve: KxldSolver): (r: Result<uint32>)
    ensures r.Err? ==> r.error == NotFound
    ensures ctx.kxldState.None? ==> r.Err?
    ensures ctx.kxldState.Some? ==>
      var address := solve(ctx.kxldState.value, ctx.kxldStateSize, name);
      && (r.Ok? <==>
            && address != 0
            && (ctx.is32Bit ==> address < MAX_UINT32)
            && ctx.mach.directFileOffset(address).Some?)
      && (r.Ok? ==> r.value == ctx.mach.directFileOffset(address).value)
  {
    match ctx.kxldState
    case None => Err(NotFound)
    case Some(state) =>
      var address := solve(state, ctx.kxldStateSize, name);
      if address == 0 then Err(NotFound)
      else if ctx.is32Bit && address >= MAX_UINT32 then Err(NotFound)
      else
        match ctx.mach.directFileOffset(address)
        case None => Err(NotFound)
        case Some(offset) => Ok(offset)
  }

  /**
    The outcome of PatcherGetSymbolAddress as an offset from the header.
    The first entry named `name` decides; the KXLD state is consulted only
    when the table has no entry at all.
   */
  function GetSymbolAddress(ctx: PatcherContext, name: string, solve: KxldSolver): (r: Result<uint32>)
    // the first match decides: its offset, or InvalidParameter when it has none
    ensures forall k | IsFirstMatch(ctx.mach.symbols, name, k) ::
      r == (if ctx.mach.symbols[k].fileOffset.Some? then Ok(ctx.mach.symbols[k].fileOffset.value)
            else Err(InvalidParameter))
    // a non-empty table without a match is NotFound, with no fallback
    ensures |ctx.mach.symbols| > 0 && (forall j | 0 <= j < |ctx.mach.symbols| :: !Matches(ctx.mach.symbols[j], name)) ==>
      r == Err(NotFound)
    // an empty table defers to the KXLD state
    ensures |ctx.mach.symbols| == 0 ==> r == KxldFallback(ctx, name, solve)
    ensures r.Err? ==> r.error == NotFound || r.error == InvalidParameter
    // InvalidParameter only ever comes from a matched entry without a location
    ensures r == Err(InvalidParameter) ==>
      exists k :: IsFirstMatch(ctx.mach.symbols, name, k) && ctx.mach.symbols[k].fileOffset.None?
  {
    match FirstMatch(ctx.mach.symbols, name)
    case Some(k) =>
      (match ctx.mach.symbols[k].fileOffset
       case Some(offset) => Ok(offset)
       case None => Err(InvalidParameter))
    case None =>
      if |ctx.mach.symbols| == 0 then KxldFallback(ctx, name, solve) else Err(NotFound)
  }

  /** Entries after the first match are never examined: replacing them changes nothing. */
  lemma {:induction false} FirstMatchIgnoresLaterEntries(symbols: seq<Symbol>, name: string, k: nat, tail: seq<Symbol>)
    requires IsFirstMatch(symbols, name, k)
    ensures FirstMatch(symbols[..k + 1] + tail, name) == Some(k)
  {
    var s := symbols[..k + 1] + tail;
    if k == 0 {
      assert s[0] == symbols[0];
    } else {
      assert s[0] == symbols[0];
      assert !Matches(symbols[0], name);
      assert s[1..] == symbols[1..][..k] + tail;
      assert IsFirstMatch(symbols[1..], name, k - 1) by {
        forall j | 0 <= j < k - 1
          ensures !Matches(symbols[1..][j], name)
        {
          assert symbols[1..][j] == symbols[j + 1];
        }
      }
      FirstMatchIgnoresLaterEntries(symbols[1..], name, k - 1, tail);
    }
  }

  /** The same, stated for the resolver's outcome. */
  lemma GetSymbolAddressIgnoresLaterEntries(ctx: PatcherContext, name: string, solve: KxldSolver, k: nat, tail: seq<Symbol>)
    requires IsFirstMatch(ctx.mach.symbols, name, k)
    ensures GetSymbolAddress(ctx.(mach := ctx.mach.(symbols := ctx.mach.symbols[..k + 1] + tail)), name, solve)
         == GetSymbolAddress(ctx, name, solve)
  {
    FirstMatchIgnoresLaterEntries(ctx.mach.symbols, name, k, tail);
  }

  /**
    The loop of lines 172-240: fetch the entry at `index`; at the end of
    the table try KXLD if `index` is 0, else fail; on a name match take its
    offset or fail; otherwise move on.
   */
  method ScanSymbolTable(ctx: PatcherContext, name: string, solve: KxldSolver) returns (r: Result<uint32>)
    ensures r == GetSymbolAddress(ctx, name, solve)
  {
    var symbols := ctx.mach.symbols;
    var index := 0;
    while true
      invariant 0 <= index <= |symbols|
      invariant forall j | 0 <= j < index :: !Matches(symbols[j], name)
      decreases |symbols| - index
    {
      if index == |symbols| {
        if index == 0 && ctx.kxldState.Some? {
          var address := solve(ctx.kxldState.value, ctx.kxldStateSize, name);
          if address != 0 {
            if ctx.is32Bit && address < MAX_UINT32 && ctx.mach.directFileOffset(address).Some? {
              return Ok(ctx.mach.directFileOffset(address).value);
            } else if !ctx.is32Bit && ctx.mach.directFileOffset(address).Some? {
              return Ok(ctx.mach.directFileOffset(address).value);
            }
          }
        }
        return Err(NotFound);
      }
      var symbol := symbols[index];
      if symbol.name.Some? && symbol.name.value == name {
        if symbol.fileOffset.Some? {
          return Ok(symbol.fileOffset.value);
        }
        return Err(InvalidParameter);
      }
      index := index + 1;
    }
  }
}

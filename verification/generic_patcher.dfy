/**
  PatcherApplyGenericPatch: re-root at an optional anchor symbol, then
  either overwrite unconditionally or hand a window to ApplyPatch.
 */
module GenericPatcher {
  import opened Wrappers
  import opened EfiTypes
  import opened Bytes
  import opened Patcher
  import opened SymbolLookup

  /** PATCHER_GENERIC_PATCH. `find == None` selects the unconditional overwrite. */
  datatype GenericPatch = GenericPatch(
    comment: Option<string>,
    base: Option<string>,
    find: Option<seq<uint8>>,
    mask: Option<seq<uint8>>,
    replace: seq<uint8>,
    replaceMask: Option<seq<uint8>>,
    size: uint32,
    count: uint32,
    skip: uint32,
    limit: uint32)

  /** The caller's side of the descriptor: pattern and replacement hold `size` bytes. */
  predicate WellFormedPatch(p: GenericPatch) {
    && |p.replace| == p.size
    && (p.find.Some? ==> |p.find.value| == p.size)
  }

  /** The arguments of one ApplyPatch call; `data` is the window it may rewrite. */
  datatype PatchRequest = PatchRequest(
    pattern: seq<uint8>,
    patternMask: Option<seq<uint8>>,
    patternSize: uint32,
    replace: seq<uint8>,
    replaceMask: Option<seq<uint8>>,
    data: seq<uint8>,
    count: uint32,
    skip: uint32)

  /** What ApplyPatch reports: the number of replacements, and the window afterwards. */
  datatype PatchReply = PatchReply(replaceCount: uint32, data: seq<uint8>)

  /** ApplyPatch (in the miscellaneous library), left uninterpreted. */
  type PatchApplier = PatchRequest -> PatchReply

  /** ApplyPatch rewrites its window in place, so the window keeps its length. */
  ghost predicate KeepsLength(apply: PatchApplier) {
    forall q: PatchRequest :: |apply(q).data| == |q.data|
  }

  /** A region [base, base + size) of the image. */
  datatype Window = Window(base: uint32, size: uint32)

  /**
    Lines 254-270: the whole image, or, with an anchor, the rest of the
    image from the anchor's offset. A failed lookup is returned as is.
   */
  function ResolveAnchor(ctx: PatcherContext, anchor: Option<string>, solve: KxldSolver): (r: Result<Window>)
    requires SymbolOffsetsInImage(ctx)
    ensures anchor.None? ==> r == Ok(Window(0, FileSize(ctx)))
    ensures anchor.Some? && GetSymbolAddress(ctx, anchor.value, solve).Err? ==>
      r == Err(GetSymbolAddress(ctx, anchor.value, solve).error)
    ensures anchor.Some? && GetSymbolAddress(ctx, anchor.value, solve).Ok? ==>
      r.Ok? && r.value.base == GetSymbolAddress(ctx, anchor.value, solve).value
    // the UINT32 subtraction never wraps: the window ends exactly at the end of the image
    ensures r.Ok? ==> r.value.base + r.value.size == |ctx.image|
  {
    match anchor
    case None => Ok(Window(0, FileSize(ctx)))
    case Some(name) =>
      match GetSymbolAddress(ctx, name, solve)
      case Err(e) => Err(e)
      case Ok(offset) =>
        AnchorWithinImage(ctx, name, solve);
        Ok(Window(offset, Sub32(FileSize(ctx), offset)))
  }

  /** A resolved anchor lies within the image, by the reader's guarantee. */
  lemma AnchorWithinImage(ctx: PatcherContext, name: string, solve: KxldSolver)
    requires SymbolOffsetsInImage(ctx)
    requires GetSymbolAddress(ctx, name, solve).Ok?
    ensures GetSymbolAddress(ctx, name, solve).value <= |ctx.image|
  {
  }

  /** Lines 286-288: a non-zero Limit below the size shrinks the window to it. */
  function ClampToLimit(size: uint32, limit: uint32): (r: uint32)
    ensures r <= size
    ensures limit > 0 ==> r <= limit
    ensures r == size || r == limit
    ensures limit == 0 ==> r == size
  {
    if limit > 0 && limit < size then limit else size
  }

  /** The ApplyPatch call line 290 makes on window `w`. */
  function FindRequest(ctx: PatcherContext, patch: GenericPatch, w: Window): PatchRequest
    requires patch.find.Some?
    requires w.base + w.size <= |ctx.image|
  {
    PatchRequest(
      patch.find.value, patch.mask, patch.size, patch.replace, patch.replaceMask,
      ctx.image[w.base..w.base + w.size], patch.count, patch.skip)
  }

  /** The search window of find mode: from the anchor, clamped to Limit. */
  function SearchWindow(w: Window, patch: GenericPatch): (r: Window)
    ensures r.base == w.base && r.size <= w.size
    ensures patch.limit > 0 ==> r.size <= patch.limit
    ensures r.size == w.size || r.size == patch.limit
    ensures patch.limit == 0 ==> r.size == w.size
  {
    Window(w.base, ClampToLimit(w.size, patch.limit))
  }

  /** PatcherApplyGenericPatch on a context, returning the status and the image afterwards. */
  function ApplyGenericPatch(ctx: PatcherContext, patch: GenericPatch, solve: KxldSolver, apply: PatchApplier): (r: Patched)
    requires SymbolOffsetsInImage(ctx)
    requires WellFormedPatch(patch)
    requires KeepsLength(apply)
    ensures |r.image| == |ctx.image|
    // a failed anchor lookup: that status, nothing written
    ensures ResolveAnchor(ctx, patch.base, solve).Err? ==>
      r == Patched(ResolveAnchor(ctx, patch.base, solve).error, ctx.image)
    // unconditional mode
    ensures ResolveAnchor(ctx, patch.base, solve).Ok? && patch.find.None? ==>
      var w := ResolveAnchor(ctx, patch.base, solve).value;
      && (w.size < patch.size ==> r == Patched(NotFound, ctx.image))
      && (w.size >= patch.size ==>
            && r.status == Success
            && r.image[w.base..w.base + patch.size] == patch.replace
            && UnchangedOutside(ctx.image, r.image, w.base, w.base + patch.size))
    // find mode
    ensures ResolveAnchor(ctx, patch.base, solve).Ok? && patch.find.Some? ==>
      var w := SearchWindow(ResolveAnchor(ctx, patch.base, solve).value, patch);
      var reply := apply(FindRequest(ctx, patch, w));
      && (r.status == Success <==> reply.replaceCount > 0)
      && (r.status != Success ==> r.status == NotFound)
      && r.image[w.base..w.base + w.size] == reply.data
      && UnchangedOutside(ctx.image, r.image, w.base, w.base + w.size)
  {
    match ResolveAnchor(ctx, patch.base, solve)
    case Err(e) => Patched(e, ctx.image)
    case Ok(w) =>
      if patch.find.None? then
        if w.size < patch.size then Patched(NotFound, ctx.image)
        else Patched(Success, Overwrite(ctx.image, w.base, patch.replace))
      else
        var sw := SearchWindow(w, patch);
        var reply := apply(FindRequest(ctx, patch, sw));
        Patched(if reply.replaceCount > 0 then Success else NotFound, Overwrite(ctx.image, sw.base, reply.data))
  }

  /** Applying the same unconditional patch twice leaves the image as one application does. */
  lemma UnconditionalIdempotent(ctx: PatcherContext, patch: GenericPatch, solve: KxldSolver, apply: PatchApplier)
    requires SymbolOffsetsInImage(ctx)
    requires WellFormedPatch(patch) && patch.find.None?
    requires KeepsLength(apply)
    ensures var once := ApplyGenericPatch(ctx, patch, solve, apply);
      && SymbolOffsetsInImage(ctx.(image := once.image))
      && ApplyGenericPatch(ctx.(image := once.image), patch, solve, apply) == once
  {
  }

  /** Without a find pattern, ReplaceMask, Limit, Count and Skip have no effect, nor does ApplyPatch. */
  lemma UnconditionalIgnoresSearchFields(
    ctx: PatcherContext, patch: GenericPatch, solve: KxldSolver, apply: PatchApplier,
    replaceMask: Option<seq<uint8>>, limit: uint32, count: uint32, skip: uint32, apply': PatchApplier)
    requires SymbolOffsetsInImage(ctx)
    requires WellFormedPatch(patch) && patch.find.None?
    requires KeepsLength(apply) && KeepsLength(apply')
    ensures ApplyGenericPatch(ctx, patch.(replaceMask := replaceMask, limit := limit, count := count, skip := skip), solve, apply')
         == ApplyGenericPatch(ctx, patch, solve, apply)
  {
  }
}

/**
 * The critical sections of core/NormalRga.cpp as they are written: globals changed step by
 * step, with every exit unwinding what it acquired. Each method is proved to have exactly
 * the effect that the machine in DeviceContext takes as one atomic step.
 */
module ContextGlobals {
  import opened Common
  import opened DeviceContext
  import Versions

  const ENOMEM := 12
  const ENODEV := 19

  class Globals {
    var rgaCtx: Option<Addr>
    var refCount: int
    var activeOperations: int
    var contextClosing: bool
    var blocks: map<Addr, Fd>
    var fds: set<Fd>
    ghost var gen: nat

    ghost function View(): Shared
      reads this
    {
      Shared(rgaCtx, refCount, activeOperations, contextClosing, blocks, fds, gen)
    }

    constructor ()
      ensures View() == Initial.sh
    {
      rgaCtx, refCount, activeOperations, contextClosing := None, 0, 0, false;
      blocks, fds, gen := map[], {}, 0;
    }

    /** NormalRgaOpen past its wait: every failure exit leaves the state exactly as it was. */
    method OpenLocked(e: OpenEnv) returns (ret: int, handle: Option<Addr>)
      requires !contextClosing && Fresh(View(), e)
      modifies this
      ensures View() == OpenSection(old(View()), e)
      ensures ret >= 0 <==> Opens(old(View()), e)
      ensures ret >= 0 <==>
                || old(rgaCtx).Some?
                || (&& e.block.Some? && e.fd.Some?
                    && (if e.driverVersion >= 0 then e.hwVersions >= 0 else e.rga2Version >= 0 || e.rga1Version >= 0))
      ensures refCount == old(refCount) + (if ret >= 0 then 1 else 0)
      ensures ret >= 0 ==> rgaCtx == if old(rgaCtx).Some? then old(rgaCtx) else e.block
      ensures ret < 0 ==> rgaCtx == old(rgaCtx) && blocks == old(blocks) && fds == old(fds)
      ensures handle == if ret >= 0 then rgaCtx else None
    {
      ret, handle := 0, None;
      if rgaCtx.None? {
        if e.block.None? {
          return -ENOMEM, None;
        }
        var ctx := e.block.value;
        blocks := blocks[ctx := 0];
        if e.fd.None? {
          Free(ctx);
          return -ENODEV, None;
        }
        var fd := e.fd.value;
        fds := fds + {fd};
        blocks := blocks[ctx := fd];
        ret := e.driverVersion;
        if ret >= 0 {
          ret := e.hwVersions;
        } else {
          ret := e.rga2Version;
          if ret < 0 {
            ret := e.rga1Version;
          }
        }
        if ret < 0 {
          fds := fds - {fd};
          Free(ctx);
          return;
        }
        rgaCtx := Some(ctx);
        gen := gen + 1;
      }
      refCount := refCount + 1;
      handle := rgaCtx;
    }

    method Free(ctx: Addr)
      modifies this`blocks
      ensures blocks == old(blocks) - {ctx}
    {
      blocks := blocks - {ctx};
    }

    /** NormalRgaClose up to its return or its wait. Zero references left with an operation
        running is the only case in which it waits. */
    method CloseLocked(handle: Option<Addr>) returns (ret: int, waits: bool)
      modifies this
      ensures EffectiveClose(old(View()), handle) <==> handle.Some? && handle == old(rgaCtx) && old(refCount) > 0
      ensures !EffectiveClose(old(View()), handle) ==> View() == old(View()) && !waits
      ensures EffectiveClose(old(View()), handle) ==>
                && refCount == old(refCount) - 1 && activeOperations == old(activeOperations)
                && rgaCtx == (if refCount > 0 || waits then old(rgaCtx) else None)
                && contextClosing == (if refCount > 0 then old(contextClosing) else waits)
      ensures EffectiveClose(old(View()), handle) ==> ret == 0
      ensures EffectiveClose(old(View()), handle) ==> waits == (old(refCount) <= 1 && old(activeOperations) != 0)
      ensures EffectiveClose(old(View()), handle) ==>
                View() == if old(refCount) <= 1 && !waits then Teardown(Release(old(View())), handle.value)
                          else Release(old(View()))
      ensures ret != 0 <==> old(rgaCtx).None? || handle != old(rgaCtx)
    {
      waits := false;
      if rgaCtx.None? || handle.None? || handle != rgaCtx {
        return -ENODEV, false;
      }
      if refCount <= 0 {
        return 0, false;
      }
      refCount := refCount - 1;
      if refCount > 0 {
        return 0, false;
      }
      contextClosing := true;
      waits := CloseDrained(handle.value);
      ret := 0;
    }

    /** One pass of the wait loop and, once nothing is active, the teardown. */
    method CloseDrained(ctx: Addr) returns (waits: bool)
      modifies this
      ensures waits == (old(activeOperations) != 0)
      ensures View() == if waits then old(View()) else Teardown(old(View()), ctx)
    {
      waits := activeOperations != 0;
      if !waits {
        rgaCtx := None;
        if ctx in blocks {
          fds := fds - {blocks[ctx]};
        }
        Free(ctx);
        contextClosing := false;
      }
    }

    /** RgaContextUse: an operation is admitted exactly when a context is visible. */
    method UseBegin() returns (ctx: Option<Addr>)
      modifies this`activeOperations
      ensures ctx == Visible(old(View()))
      ensures ctx == old(rgaCtx) <==> !old(contextClosing) || old(rgaCtx).None?
      ensures old(contextClosing) ==> ctx.None?
      ensures View() == old(View()).(active := old(View()).active + (if ctx.Some? then 1 else 0))
    {
      ctx := if contextClosing then None else rgaCtx;
      if ctx.Some? {
        activeOperations := activeOperations + 1;
      }
    }

    /** ~RgaContextUse: reports whether it must broadcast. */
    method UseEnd(ctx: Option<Addr>) returns (broadcast: bool)
      modifies this`activeOperations
      ensures View() == old(View()).(active := old(View()).active - (if ctx.Some? then 1 else 0))
      ensures broadcast <==> ctx.Some? && activeOperations == 0
    {
      broadcast := false;
      if ctx.Some? {
        activeOperations := activeOperations - 1;
        broadcast := activeOperations == 0;
      }
    }

    /** RgaInit: with the shipped driver table the version check never takes the reference
        back, so one is added exactly when the result is not negative. */
    method Init(e: OpenEnv, driver: Versions.Version) returns (ret: int, handle: Option<Addr>)
      requires !contextClosing && Fresh(View(), e)
      modifies this
      ensures View() == OpenSection(old(View()), e)
      ensures refCount == old(refCount) + (if ret >= 0 then 1 else 0)
      ensures ret >= 0 <==> handle.Some? && handle == rgaCtx
    {
      ret, handle := OpenLocked(e);
      if ret < 0 {
        return;
      }
      Versions.ShippedTables(driver);
      ret := Versions.CheckDriver(driver);
      if ret == ERROR_VERSION {
        assert false;
      }
    }
  }
}

/** The global evaluation flags of the tensor package (`src/mode.ts`): one
    shared configuration object, lazy and gradient-recording by default,
    whose lazy flag can be switched; the gradient flag has no setter. */
module TensorMode {

  /** The shared configuration object. */
  class Config {
    /** `LAZY_MODE`: ops build unrealised nodes. */
    var lazyMode: bool
    /** `REQUIRES_GRAD`: eager ops keep their node instead of detaching it. */
    var requiresGrad: bool

    /** The defaults: both flags on. */
    constructor()
      ensures lazyMode && requiresGrad
    {
      lazyMode := true;
      requiresGrad := true;
    }

    /** `isLazyMode()`. */
    function IsLazyMode(): bool
      reads this
    {
      lazyMode
    }

    /** `setLazyMode(mode)`: the lazy flag becomes `mode`; the gradient flag
        is untouched. */
    method SetLazyMode(mode: bool)
      modifies this
      ensures IsLazyMode() == mode
      ensures requiresGrad == old(requiresGrad)
    {
      lazyMode := mode;
    }
  }

  /** The module holding the singleton. */
  class Mode {
    const singleton: Config

    constructor()
      ensures fresh(singleton) && singleton.lazyMode && singleton.requiresGrad
    {
      singleton := new Config();
    }

    /** `getConfig()`: always the same object, so a caller that keeps it
        sees every later change. */
    method GetConfig() returns (c: Config)
      ensures c == singleton
    {
      c := singleton;
    }

    /** `setLazyMode(mode)` on the singleton. */
    method SetLazyMode(mode: bool)
      modifies singleton
      ensures singleton.IsLazyMode() == mode
      ensures singleton.requiresGrad == old(singleton.requiresGrad)
    {
      singleton.SetLazyMode(mode);
    }

    /** `isLazyMode()` of the singleton. */
    function IsLazyMode(): bool
      reads singleton
    {
      singleton.IsLazyMode()
    }
  }

  /** The tensor test of the lazy flag: setting it on and then off is seen
      by the caller, and also through a configuration captured before. */
  method LazyModeScenario() returns (captured: Config, first: bool, second: bool)
    ensures first && !second
    ensures captured.requiresGrad && !captured.lazyMode
  {
    var mode := new Mode();
    captured := mode.GetConfig();
    mode.SetLazyMode(true);
    first := mode.IsLazyMode();
    mode.SetLazyMode(false);
    second := mode.IsLazyMode();
  }
}

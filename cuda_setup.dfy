/**
 * Build-configuration resolution for the CUDA backend of Kokkos
 * (core/src/setup/Kokkos_Setup_Cuda.hpp).
 *
 * The header is one pass of preprocessor conditionals over the macros the
 * build defines.  Here the macros it tests form a Config value and the macros
 * it defines form a Setup value; every #error it can reach becomes a
 * SetupError.  GCC and Clang keep going after an #error and report each one
 * they meet, so Resolve fails with the list of all diagnostics, in source
 * order, and succeeds only when that list is empty.  MSVC stops at the first
 * #error, so there only the head of that list is reported.
 */
module CudaSetup {
  import opened Wrappers

  // ---------------------------------------------------------------------------
  // Architecture selectors and capability codes
  // ---------------------------------------------------------------------------

  /** The KOKKOS_ARCH_* selectors the header recognises. */
  datatype Arch =
    | Kepler30 | Kepler32 | Kepler35 | Kepler37
    | Maxwell50 | Maxwell52 | Maxwell53
    | Pascal60 | Pascal61
    | Volta70 | Volta72
    | Turing75
    | Ampere80 | Ampere86
    | Ada89
    | Hopper90

  /** The value KOKKOS_IMPL_ARCH_NVIDIA_GPU takes for a selector. */
  function ArchCode(arch: Arch): (code: nat)
    ensures 30 <= code <= 90
  {
    match arch
    case Kepler30 => 30
    case Kepler32 => 32
    case Kepler35 => 35
    case Kepler37 => 37
    case Maxwell50 => 50
    case Maxwell52 => 52
    case Maxwell53 => 53
    case Pascal60 => 60
    case Pascal61 => 61
    case Volta70 => 70
    case Volta72 => 72
    case Turing75 => 75
    case Ampere80 => 80
    case Ampere86 => 86
    case Ada89 => 89
    case Hopper90 => 90
  }

  /** The order in which the #if/#elif chain tests the selectors. */
  const SelectorOrder: seq<Arch> := [
    Kepler30, Kepler32, Kepler35, Kepler37,
    Maxwell50, Maxwell52, Maxwell53,
    Pascal60, Pascal61,
    Volta70, Volta72,
    Turing75,
    Ampere80, Ampere86,
    Ada89,
    Hopper90
  ]

  /** Where a selector stands in the chain. */
  function Position(arch: Arch): (i: nat)
    ensures i < |SelectorOrder| && SelectorOrder[i] == arch
  {
    match arch
    case Kepler30 => 0
    case Kepler32 => 1
    case Kepler35 => 2
    case Kepler37 => 3
    case Maxwell50 => 4
    case Maxwell52 => 5
    case Maxwell53 => 6
    case Pascal60 => 7
    case Pascal61 => 8
    case Volta70 => 9
    case Volta72 => 10
    case Turing75 => 11
    case Ampere80 => 12
    case Ampere86 => 13
    case Ada89 => 14
    case Hopper90 => 15
  }

  /** Along the chain the codes increase strictly. */
  lemma CodesIncreaseAlongOrder(i: nat, j: nat)
    requires i < j < |SelectorOrder|
    ensures ArchCode(SelectorOrder[i]) < ArchCode(SelectorOrder[j])
  {
  }

  /** The chain tests all sixteen selectors, each exactly once. */
  lemma SelectorOrderComplete()
    ensures |SelectorOrder| == 16
    ensures forall arch: Arch :: arch in SelectorOrder
    ensures forall i, j :: 0 <= i < j < |SelectorOrder| ==> SelectorOrder[i] != SelectorOrder[j]
  {
    forall arch: Arch
      ensures arch in SelectorOrder
    {
      var i := Position(arch);
    }
    forall i, j | 0 <= i < j < |SelectorOrder|
      ensures SelectorOrder[i] != SelectorOrder[j]
    {
      CodesIncreaseAlongOrder(i, j);
    }
  }

  /** Distinct selectors give distinct codes. */
  lemma ArchCodeInjective(x: Arch, y: Arch)
    ensures ArchCode(x) == ArchCode(y) ==> x == y
  {
    var i, j := Position(x), Position(y);
    if i < j {
      CodesIncreaseAlongOrder(i, j);
    } else if j < i {
      CodesIncreaseAlongOrder(j, i);
    }
  }

  /**
   * The position of the first selector of order that is defined, or |order|
   * when none is: the branch the #if/#elif chain takes.
   */
  function FirstDefined(order: seq<Arch>, defined: set<Arch>): (k: nat)
    ensures k <= |order|
    ensures forall m :: 0 <= m < k ==> order[m] !in defined
    ensures k < |order| ==> order[k] in defined
  {
    if order == [] then 0
    else if order[0] in defined then 0
    else 1 + FirstDefined(order[1..], defined)
  }

  /** The selector the chain picks from the defined ones, if any. */
  function SelectedArch(defined: set<Arch>): (r: Option<Arch>)
    ensures r.None? <==> defined == {}
    ensures r.Some? ==> r.value in defined
  {
    var k := FirstDefined(SelectorOrder, defined);
    if k < |SelectorOrder| then Some(SelectorOrder[k])
    else
      SelectorOrderComplete();
      assert forall arch :: arch in SelectorOrder ==> arch !in defined;
      None
  }

  /**
   * When several selectors are defined the chain picks the oldest one: its
   * code is the smallest code among the defined selectors.
   */
  lemma SelectedArchHasLeastCode(defined: set<Arch>)
    requires defined != {}
    ensures SelectedArch(defined).Some?
    ensures forall arch :: arch in defined ==> ArchCode(SelectedArch(defined).value) <= ArchCode(arch)
  {
    var k := FirstDefined(SelectorOrder, defined);
    forall arch | arch in defined
      ensures ArchCode(SelectedArch(defined).value) <= ArchCode(arch)
    {
      var m := Position(arch);
      if k < m {
        CodesIncreaseAlongOrder(k, m);
      }
    }
  }

  /** With exactly one selector defined, the chain picks that one. */
  lemma SelectedArchSingle(arch: Arch)
    ensures SelectedArch({arch}) == Some(arch)
  {
  }

  // ---------------------------------------------------------------------------
  // Placement tags and lambda macros
  // ---------------------------------------------------------------------------

  datatype Inlining = NoHint | Inline | ForceInline

  /** What a placement macro expands to: the host and device attributes and the inlining hint. */
  datatype Placement = Placement(host: bool, device: bool, inlining: Inlining)

  /** The KOKKOS_IMPL_* placement macros. */
  datatype Tag =
    | ForceInlineFunction   // KOKKOS_IMPL_FORCEINLINE_FUNCTION
    | ForceInlineOnly       // KOKKOS_IMPL_FORCEINLINE
    | InlineFunction        // KOKKOS_IMPL_INLINE_FUNCTION
    | Function              // KOKKOS_IMPL_FUNCTION
    | HostFunction          // KOKKOS_IMPL_HOST_FUNCTION
    | DeviceFunction        // KOKKOS_IMPL_DEVICE_FUNCTION

  /** The fixed expansion of each placement macro. */
  function TagPlacement(tag: Tag): (p: Placement)
    ensures p.host && p.device <==> tag in {ForceInlineFunction, InlineFunction, Function}
    ensures p.host && !p.device <==> tag == HostFunction
    ensures !p.host && p.device <==> tag == DeviceFunction
    ensures p.inlining == ForceInline <==> tag in {ForceInlineFunction, ForceInlineOnly}
    ensures p.inlining == Inline <==> tag == InlineFunction
  {
    match tag
    case ForceInlineFunction => Placement(true, true, ForceInline)
    case ForceInlineOnly => Placement(false, false, ForceInline)
    case InlineFunction => Placement(true, true, Inline)
    case Function => Placement(true, true, NoHint)
    case HostFunction => Placement(true, false, NoHint)
    case DeviceFunction => Placement(false, true, NoHint)
  }

  /** Every tag has its own expansion. */
  lemma TagPlacementInjective(t: Tag, u: Tag)
    ensures TagPlacement(t) == TagPlacement(u) ==> t == u
  {
  }

  /** The capture list of a lambda macro: [=] or [=, *this]. */
  datatype Capture = ByValue | ByValueWithThisCopy

  /** A lambda macro: its capture list and its host/device attributes. */
  datatype LambdaMacro = LambdaMacro(capture: Capture, host: bool, device: bool)

  // ---------------------------------------------------------------------------
  // Resolution
  // ---------------------------------------------------------------------------

  /** The macros the header tests. */
  datatype Config = Config(
    cudaEnabled: bool,          // KOKKOS_ENABLE_CUDA
    cudacc: bool,               // __CUDACC__
    cudaVersion: Option<int>,   // CUDA_VERSION, as <cuda.h> left it
    cudaArch: Option<int>,      // __CUDA_ARCH__, defined only when compiling for the device
    cudaLambda: bool,           // KOKKOS_ENABLE_CUDA_LAMBDA
    dispatchLambda: bool,       // KOKKOS_ENABLE_CXX11_DISPATCH_LAMBDA on entry
    win32: bool,                // _WIN32
    archs: set<Arch>)           // the KOKKOS_ARCH_* selectors defined

  /** The #error directives of the header. */
  datatype SetupError =
    | CudaNotEnabled                   // KOKKOS_ENABLE_CUDA was not defined
    | CudaccNotDefined                 // the compiler does not define __CUDACC__
    | CudaVersionMissing               // <cuda.h> did not define CUDA_VERSION
    | DeviceCapabilityTooLow           // __CUDA_ARCH__ below 300
    | ArchNotRecognized                // no KOKKOS_ARCH_* selector defined

  /** The macros the header defines (or undefines) on success. */
  datatype Setup = Setup(
    windowsCuda: bool,                 // KOKKOS_IMPL_WINDOWS_CUDA
    lambda: Option<LambdaMacro>,       // KOKKOS_LAMBDA
    classLambda: Option<LambdaMacro>,  // KOKKOS_CLASS_LAMBDA
    dispatchLambda: bool,              // KOKKOS_ENABLE_CXX11_DISPATCH_LAMBDA afterwards
    archCode: nat)                     // KOKKOS_IMPL_ARCH_NVIDIA_GPU

  /** The minimum __CUDA_ARCH__ for device code (capability 3.0). */
  const MinDeviceArch: int := 300

  /** The device-capability gate: skipped in host passes, otherwise __CUDA_ARCH__ >= 300. */
  predicate DeviceArchSupported(cudaArch: Option<int>)
  {
    cudaArch.None? || cudaArch.value >= MinDeviceArch
  }

  /** Every #error the header reaches for cfg, in source order. */
  function Diagnostics(cfg: Config): (errs: seq<SetupError>)
    ensures errs == [] <==>
              cfg.cudaEnabled && cfg.cudacc && cfg.cudaVersion.Some?
              && DeviceArchSupported(cfg.cudaArch) && cfg.archs != {}
  {
    (if !cfg.cudaEnabled then [CudaNotEnabled] else [])
    + (if cfg.cudaEnabled && !cfg.cudacc then [CudaccNotDefined] else [])
    + (if cfg.cudaVersion.None? then [CudaVersionMissing] else [])
    + (if !DeviceArchSupported(cfg.cudaArch) then [DeviceCapabilityTooLow] else [])
    + (if SelectedArch(cfg.archs).None? then [ArchNotRecognized] else [])
  }

  /** The whole header: the macros it defines, or every diagnostic it emits. */
  function Resolve(cfg: Config): (r: Result<Setup, seq<SetupError>>)
    ensures r.Failure? <==> Diagnostics(cfg) != []
    ensures r.Failure? ==> r.error == Diagnostics(cfg)
  {
    var errs := Diagnostics(cfg);
    if errs != [] then Failure(errs)
    else
      Success(Setup(
        windowsCuda := cfg.win32,
        lambda := if cfg.cudaLambda then Some(LambdaMacro(ByValue, true, true)) else None,
        classLambda := if cfg.cudaLambda then Some(LambdaMacro(ByValueWithThisCopy, true, true)) else None,
        dispatchLambda := cfg.cudaLambda && cfg.dispatchLambda,
        archCode := ArchCode(SelectedArch(cfg.archs).value)))
  }

  // ---------------------------------------------------------------------------
  // Properties of resolution
  // ---------------------------------------------------------------------------

  /** Resolution succeeds exactly when every check of the header passes. */
  lemma ResolveSucceedsIff(cfg: Config)
    ensures Resolve(cfg).Success? <==>
              cfg.cudaEnabled && cfg.cudacc && cfg.cudaVersion.Some?
              && DeviceArchSupported(cfg.cudaArch) && cfg.archs != {}
  {
  }

  /** Without KOKKOS_ENABLE_CUDA the first diagnostic is that one. */
  lemma NotEnabledFails(cfg: Config)
    requires !cfg.cudaEnabled
    ensures Resolve(cfg).Failure? && Resolve(cfg).error[0] == CudaNotEnabled
    ensures CudaccNotDefined !in Resolve(cfg).error
  {
  }

  /** CUDA enabled without __CUDACC__ fails, with that diagnostic first. */
  lemma NoCudaccFails(cfg: Config)
    requires cfg.cudaEnabled && !cfg.cudacc
    ensures Resolve(cfg).Failure? && Resolve(cfg).error[0] == CudaccNotDefined
  {
  }

  /** A missing CUDA_VERSION fails. */
  lemma NoCudaVersionFails(cfg: Config)
    requires cfg.cudaVersion.None?
    ensures Resolve(cfg).Failure? && CudaVersionMissing in Resolve(cfg).error
  {
  }

  /**
   * The device-capability gate: a device pass below 300 fails with the
   * capability diagnostic; a device pass at 300 or above, and every host pass,
   * gets no such diagnostic.
   */
  lemma DeviceGate(cfg: Config)
    ensures cfg.cudaArch.Some? && cfg.cudaArch.value < 300 ==>
              Resolve(cfg).Failure? && DeviceCapabilityTooLow in Resolve(cfg).error
    ensures Resolve(cfg).Failure? && DeviceCapabilityTooLow in Resolve(cfg).error ==>
              cfg.cudaArch.Some? && cfg.cudaArch.value < 300
  {
  }

  /** The boundary of the gate: 300 passes, 299 fails. */
  lemma DeviceGateBoundary()
    ensures DeviceArchSupported(Some(300))
    ensures !DeviceArchSupported(Some(299))
    ensures DeviceArchSupported(None)
  {
  }

  /** No selector defined fails. */
  lemma NoArchFails(cfg: Config)
    requires cfg.archs == {}
    ensures Resolve(cfg).Failure? && ArchNotRecognized in Resolve(cfg).error
  {
  }

  /**
   * On success: the capability code is that of the first defined selector in
   * chain order (the smallest defined code), the Windows flag mirrors _WIN32,
   * both lambda macros exist exactly when KOKKOS_ENABLE_CUDA_LAMBDA is set,
   * and without it KOKKOS_ENABLE_CXX11_DISPATCH_LAMBDA ends up undefined.
   */
  lemma ResolvedSetup(cfg: Config)
    requires Resolve(cfg).Success?
    ensures var s := Resolve(cfg).value;
            && s.archCode == ArchCode(SelectorOrder[FirstDefined(SelectorOrder, cfg.archs)])
            && (forall arch :: arch in cfg.archs ==> s.archCode <= ArchCode(arch))
            && (exists arch :: arch in cfg.archs && s.archCode == ArchCode(arch))
            && 30 <= s.archCode <= 90
            && (s.windowsCuda <==> cfg.win32)
            && (s.lambda.Some? <==> cfg.cudaLambda)
            && (s.classLambda.Some? <==> cfg.cudaLambda)
            && (cfg.cudaLambda ==> s.lambda.value == LambdaMacro(ByValue, true, true))
            && (cfg.cudaLambda ==> s.classLambda.value == LambdaMacro(ByValueWithThisCopy, true, true))
            && (cfg.cudaLambda ==> s.dispatchLambda == cfg.dispatchLambda)
            && (!cfg.cudaLambda ==> !s.dispatchLambda)
  {
    SelectedArchHasLeastCode(cfg.archs);
  }

  /**
   * The host pass and each device pass of one build resolve to the same
   * macros: __CUDA_ARCH__ only decides whether the build fails.
   */
  lemma PassesAgree(cfg: Config, cudaArch: Option<int>)
    requires Resolve(cfg).Success? && Resolve(cfg.(cudaArch := cudaArch)).Success?
    ensures Resolve(cfg).value == Resolve(cfg.(cudaArch := cudaArch)).value
  {
  }

  /** Volta70 alone gives 70. */
  lemma ResolveVolta70(cfg: Config)
    requires cfg.cudaEnabled && cfg.cudacc && cfg.cudaVersion.Some? && DeviceArchSupported(cfg.cudaArch)
    requires cfg.archs == {Volta70}
    ensures Resolve(cfg).Success? && Resolve(cfg).value.archCode == 70
  {
    SelectedArchSingle(Volta70);
  }

  /** Hopper90 alone gives 90. */
  lemma ResolveHopper90(cfg: Config)
    requires cfg.cudaEnabled && cfg.cudacc && cfg.cudaVersion.Some? && DeviceArchSupported(cfg.cudaArch)
    requires cfg.archs == {Hopper90}
    ensures Resolve(cfg).Success? && Resolve(cfg).value.archCode == 90
  {
    SelectedArchSingle(Hopper90);
  }
}

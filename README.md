# unique_copy and CUDA backend setup of Kokkos, in Dafny

This project models two pieces of the Kokkos performance-portability library.

- **`unique_copy`** (module `UniqueCopy`, file `unique_copy.dfy`). This is the
  standard-algorithm kernel in `Kokkos_UniqueCopy.hpp`. It copies an input range
  to a destination and drops every element that the binary predicate relates to
  its successor. The last element is always copied. The kernel returns the
  destination iterator one past the last slot written. The kernel has two
  forms:
  - The execution-space form (`unique_copy_exespace_impl`). It runs a
    `parallel_scan` with `StdUniqueCopyFunctor` over the first `n - 1` indices,
    then copies the last element with `copy_exespace_impl`.
  - The team form (`unique_copy_team_impl`). Inside `Kokkos::single`, it walks
    the range serially with a running counter.

  Each form also has an overload without a predicate, which uses
  `StdAlgoEqualBinaryPredicate` (`==`).

  Iterators are modelled as an `array` plus an index: the input is
  `src[first..last)` and the destination starts at `dst[dFirst]`. The kernels
  are methods that mutate `dst`. Each is proved against one specification
  function on sequences, `UniqueCopyOf`. The postcondition of every kernel
  states the whole new destination: `dst[..] == WrittenAt(old(dst[..]), dFirst,
  UniqueCopyOf(old(src[first..last]), pred))`. So slot `dFirst + j` holds
  output element `j`, and every slot outside `[dFirst, dLast)` keeps its old
  value. Two specification helpers carry this: `KeptPrefix(a, pred, k)` is
  what the team loop has written after k iterations (lines 151-157), and
  `WrittenAt(d, at, r)` is `d` with `r` written from slot `at` and nothing
  else changed. Every array read is bounds-checked by the verifier, including the
  reads of `first[i]` and `first[i + 1]`.

- **CUDA setup** (module `CudaSetup`, file `cuda_setup.dfy`). This is the
  preprocessor header `Kokkos_Setup_Cuda.hpp`.
  - The macros the header tests form a `Config`.
  - The build-dependent macros it defines form a `Setup`: the Windows flag, the
    two lambda macros, the dispatch-lambda flag and the architecture code.
  - The six placement macros (`KOKKOS_IMPL_FORCEINLINE_FUNCTION` and the
    others) expand the same way in every build. They are outside `Setup` and
    are modelled by `TagPlacement`.
  - Each `#error` it can reach is a `SetupError`.

  `Resolve` returns either the `Setup` or the list of every diagnostic the
  header emits, in source order. GCC and Clang report an `#error` and keep
  going, so the list can hold several. MSVC stops at the first `#error`.

`wrappers.dfy` holds the `Option` and `Result` datatypes.

## Model

| member | source | states |
|---|---|---|
| UniqueCopy.Keeps | algorithms/src/std_algorithms/impl/Kokkos_UniqueCopy.hpp:54-59 | a[i] is copied exactly when the predicate does not relate it to a[i + 1] (the test at lines 54, 59 and 154) |
| UniqueCopy.ScanWrites | algorithms/src/std_algorithms/impl/Kokkos_UniqueCopy.hpp:53-57 | the destination after the final pass over indices 0..k-1: each kept a[i] stored at dFirst + its prefix count, no other slot changed; its length is the destination's |
| UniqueCopy.Equal | algorithms/src/std_algorithms/impl/Kokkos_UniqueCopy.hpp:113 | the default predicate StdAlgoEqualBinaryPredicate: true exactly when the two values are equal |
| UniqueCopy.UniqueCopyOf | algorithms/src/std_algorithms/impl/Kokkos_UniqueCopy.hpp:76-96 | empty input gives empty output; one element gives that element; otherwise the output is non-empty, no longer than the input, and ends with the input's last element |
| UniqueCopy.PrefixCount | algorithms/src/std_algorithms/impl/Kokkos_UniqueCopy.hpp:88-92 | the exclusive prefix sum handed to index k is at most k |
| UniqueCopy.KeptPrefixLength | algorithms/src/std_algorithms/impl/Kokkos_UniqueCopy.hpp:87-92 | the number of kept elements before index k equals the scan's running count at k |
| UniqueCopy.UniqueCopyLength | algorithms/src/std_algorithms/impl/Kokkos_UniqueCopy.hpp:77-95 | the returned distance is 0 for empty input, else the number of kept elements among the first n-1 plus one |
| UniqueCopy.PrefixCountMonotone | algorithms/src/std_algorithms/impl/Kokkos_UniqueCopy.hpp:59-61 | the running count never decreases and rises strictly past a kept index |
| UniqueCopy.ScanSlotsDistinct | algorithms/src/std_algorithms/impl/Kokkos_UniqueCopy.hpp:53-57 | two distinct kept indices write distinct destination slots, so the scan's stores never collide |
| UniqueCopy.KeptAt | algorithms/src/std_algorithms/impl/Kokkos_UniqueCopy.hpp:53-57 | a kept element a[i] lands at position PrefixCount(i) of the kept prefix |
| UniqueCopy.KeptFrom | algorithms/src/std_algorithms/impl/Kokkos_UniqueCopy.hpp:53-57 | every position of the kept prefix holds some kept a[i] whose prefix count is that position |
| UniqueCopy.UniqueCopyElements | algorithms/src/std_algorithms/impl/Kokkos_UniqueCopy.hpp:53-61 | each kept-or-last a[i] is at output slot PrefixCount(i), and those slots strictly increase with i, so input order is kept |
| UniqueCopy.UniqueCopySlot | algorithms/src/std_algorithms/impl/Kokkos_UniqueCopy.hpp:94-95 | every output slot holds some kept-or-last input element, so nothing else is written |
| UniqueCopy.ScanWritesKept | algorithms/src/std_algorithms/impl/Kokkos_UniqueCopy.hpp:151-157 | the scan's stores, made at the prefix counts, leave the same destination as the team loop's counter-driven stores |
| UniqueCopy.KeptPrefixNoAdjacentRelated | algorithms/src/std_algorithms/impl/Kokkos_UniqueCopy.hpp:151-160 | for a symmetric, transitive predicate, no two neighbours of the kept prefix followed by the current element are related |
| UniqueCopy.UniqueCopyNoAdjacentRelated | algorithms/src/std_algorithms/impl/Kokkos_UniqueCopy.hpp:67-97 | for a symmetric, transitive predicate, no two adjacent output elements are related |
| UniqueCopy.UniqueCopyNoAdjacentEqual | algorithms/src/std_algorithms/impl/Kokkos_UniqueCopy.hpp:183-184 | with the default == predicate, adjacent output elements differ |
| UniqueCopy.ScanFunctorApply | algorithms/src/std_algorithms/impl/Kokkos_UniqueCopy.hpp:48-62 | the running value rises by one exactly when a[i] is kept; in the final pass a kept a[i] is stored at dFirst+update, and nothing else changes |
| UniqueCopy.ParallelScan | algorithms/src/std_algorithms/impl/Kokkos_UniqueCopy.hpp:87-92 | after the scan over n-1 indices, count is the number of kept elements and the destination holds them, in order, from dFirst |
| UniqueCopy.CopyExespace | algorithms/src/std_algorithms/impl/Kokkos_UniqueCopy.hpp:80-81 | the range is copied to dFirst, the end iterator is returned, and other slots are unchanged |
| UniqueCopy.UniqueCopyExespace | algorithms/src/std_algorithms/impl/Kokkos_UniqueCopy.hpp:67-97 | returns dFirst plus the output length and leaves exactly UniqueCopyOf(input) at dFirst, with every other slot unchanged (sizes 0, 1 and larger) |
| UniqueCopy.ScanThenCopyLast | algorithms/src/std_algorithms/impl/Kokkos_UniqueCopy.hpp:82-96 | the scan followed by copying the last element to dFirst+count produces UniqueCopyOf(input) |
| UniqueCopy.UniqueCopyExespaceDefault | algorithms/src/std_algorithms/impl/Kokkos_UniqueCopy.hpp:99-118 | same as the predicate form with ==, and adjacent written elements differ |
| UniqueCopy.UniqueCopyTeam | algorithms/src/std_algorithms/impl/Kokkos_UniqueCopy.hpp:126-168 | returns dFirst plus the output length and leaves exactly UniqueCopyOf(input) at dFirst, with every other slot unchanged (sizes 0, 1 and larger) |
| UniqueCopy.TeamSerialCopy | algorithms/src/std_algorithms/impl/Kokkos_UniqueCopy.hpp:147-161 | the serial loop plus the store of the last element writes UniqueCopyOf(input), and the final counter is its length |
| UniqueCopy.UniqueCopyTeamDefault | algorithms/src/std_algorithms/impl/Kokkos_UniqueCopy.hpp:170-189 | same as the predicate form with ==, and adjacent written elements differ |
| CudaSetup.ArchCode | core/src/setup/Kokkos_Setup_Cuda.hpp:72-103 | every selector's KOKKOS_IMPL_ARCH_NVIDIA_GPU value lies between 30 and 90 |
| CudaSetup.SelectorOrder | core/src/setup/Kokkos_Setup_Cuda.hpp:72-103 | the order in which the #if/#elif chain tests the sixteen KOKKOS_ARCH_* selectors |
| CudaSetup.Position | core/src/setup/Kokkos_Setup_Cuda.hpp:72-103 | every selector occurs in the #if/#elif chain |
| CudaSetup.CodesIncreaseAlongOrder | core/src/setup/Kokkos_Setup_Cuda.hpp:72-103 | along the chain the codes strictly increase |
| CudaSetup.SelectorOrderComplete | core/src/setup/Kokkos_Setup_Cuda.hpp:72-103 | the chain tests all 16 selectors, each exactly once |
| CudaSetup.ArchCodeInjective | core/src/setup/Kokkos_Setup_Cuda.hpp:72-103 | distinct selectors define distinct codes |
| CudaSetup.FirstDefined | core/src/setup/Kokkos_Setup_Cuda.hpp:72-106 | the branch taken is the first defined selector: all before it are undefined |
| CudaSetup.SelectedArch | core/src/setup/Kokkos_Setup_Cuda.hpp:72-106 | a selector is chosen exactly when one is defined, and the chosen one is defined |
| CudaSetup.SelectedArchHasLeastCode | core/src/setup/Kokkos_Setup_Cuda.hpp:72-103 | with several selectors defined, the chosen code is the smallest defined code |
| CudaSetup.SelectedArchSingle | core/src/setup/Kokkos_Setup_Cuda.hpp:72-103 | a single defined selector is the one chosen |
| CudaSetup.TagPlacement | core/src/setup/Kokkos_Setup_Cuda.hpp:65-70 | which placement macros carry __host__ and __device__, and which carry __forceinline__ or inline (each as an if-and-only-if) |
| CudaSetup.TagPlacementInjective | core/src/setup/Kokkos_Setup_Cuda.hpp:65-70 | the six placement macros have pairwise distinct expansions |
| CudaSetup.DeviceArchSupported | core/src/setup/Kokkos_Setup_Cuda.hpp:51 | the device gate passes in a host pass (__CUDA_ARCH__ undefined) and in a device pass with __CUDA_ARCH__ at least 300 |
| CudaSetup.Diagnostics | core/src/setup/Kokkos_Setup_Cuda.hpp:20-106 | no diagnostic exactly when CUDA is enabled, __CUDACC__ and CUDA_VERSION are defined, the device gate passes and a selector is defined |
| CudaSetup.Resolve | core/src/setup/Kokkos_Setup_Cuda.hpp:17-108 | fails exactly when some diagnostic is emitted, and then returns all of them |
| CudaSetup.ResolveSucceedsIff | core/src/setup/Kokkos_Setup_Cuda.hpp:20-106 | success if and only if every check of the header passes |
| CudaSetup.NotEnabledFails | core/src/setup/Kokkos_Setup_Cuda.hpp:20-30 | without KOKKOS_ENABLE_CUDA the first diagnostic is that one, and the __CUDACC__ check is skipped |
| CudaSetup.NoCudaccFails | core/src/setup/Kokkos_Setup_Cuda.hpp:25-30 | CUDA enabled without __CUDACC__ fails with that diagnostic first |
| CudaSetup.NoCudaVersionFails | core/src/setup/Kokkos_Setup_Cuda.hpp:47-49 | a missing CUDA_VERSION fails with that diagnostic |
| CudaSetup.DeviceGate | core/src/setup/Kokkos_Setup_Cuda.hpp:51-54 | a device pass below 300 fails with the fixed capability diagnostic, and that diagnostic appears only for such a pass |
| CudaSetup.DeviceGateBoundary | core/src/setup/Kokkos_Setup_Cuda.hpp:51-54 | 300 passes the gate, 299 does not, a host pass always passes |
| CudaSetup.NoArchFails | core/src/setup/Kokkos_Setup_Cuda.hpp:104-106 | no selector defined fails with "arch not recognized" |
| CudaSetup.ResolvedSetup | core/src/setup/Kokkos_Setup_Cuda.hpp:43-106 | on success: the code is the first defined selector's (the smallest defined one); the Windows flag mirrors _WIN32; both lambda macros exist iff KOKKOS_ENABLE_CUDA_LAMBDA is set; the dispatch-lambda macro survives only with it |
| CudaSetup.PassesAgree | core/src/setup/Kokkos_Setup_Cuda.hpp:51-54 | the host pass and the device passes of one build define the same macros |
| CudaSetup.ResolveVolta70 | core/src/setup/Kokkos_Setup_Cuda.hpp:90-91 | a valid build with only KOKKOS_ARCH_VOLTA70 gets code 70 |
| CudaSetup.ResolveHopper90 | core/src/setup/Kokkos_Setup_Cuda.hpp:102-103 | a valid build with only KOKKOS_ARCH_HOPPER90 gets code 90 |

## Left out

- The parallel dispatch is modelled by its serial meaning:
  - `parallel_scan` becomes an in-order loop of final-pass functor calls, each receiving the exclusive prefix sum. `ScanSlotsDistinct` shows the stores never collide, so the order is irrelevant to the result.
  - `Kokkos::single` becomes one thread running the loop, and that thread's final count is the result.
  - In the team form, `count` is a local of each team member, wrapped by an unmanaged `View` (`Kokkos_UniqueCopy.hpp` lines 147-150). Only the member that runs the `single(PerTeam)` body updates its own copy, so other members would return `d_first + 0` at line 166. This was found by reading the code, not by running it. The model describes the member that runs the body.
  - `team_barrier` and the `View` wrapping the counter are not modelled.
  - Other threads, memory ordering and scan partitioning are not modelled.
- The label string and the execution-space and team-handle arguments are not modelled. They do not affect the result.
- The compile-time `static_assert` checks on iterator categories and difference types are not modelled.
- `expect_valid_range` becomes the precondition `first <= last`.
- The destination must have room for `last - first` elements. The source leaves this to the caller; the model requires it.
- The model requires `src != dst`. This excludes overlapping ranges, and it also excludes disjoint input and output ranges inside one array, which `unique_copy` accepts. Neither case is modelled.
- `copy_exespace_impl` is modelled as a serial element-by-element copy. Its own parallel dispatch is not modelled.
- `StdAlgoEqualBinaryPredicate` is modelled as `==` on a single element type. Mixed input and output value types are not modelled.
- The iterator's integer width is not modelled. Indices are unbounded naturals.
- CUDA setup: the `#include <cuda_runtime.h>` and `<cuda.h>` lines are not modelled. Their only effect here is to define `CUDA_VERSION`, which is a field of `Config`.
- CUDA setup: the `#define __CUDACC__` placed after the `__CUDACC__` error is not modelled. It only affects headers included later.
- CUDA setup: `CUDA_VERSION` is only tested for being defined. The header enforces no minimum version, so the model has none either.
- CUDA setup: the comments relate `__CUDA_ARCH__` to the compute capability, but the header never checks that against the chosen `KOKKOS_IMPL_ARCH_NVIDIA_GPU`. The model does not check it either.
- CUDA setup: when several `KOKKOS_ARCH_*` selectors are defined, the `#if/#elif` chain takes the first one and reports nothing. `SelectedArch` does the same, and `SelectedArchHasLeastCode` states which selector wins.
- Resolve: the full diagnostic list is what GCC and Clang report. MSVC treats `#error` as fatal (C1189) and stops at the first, so a Windows build reports only `Diagnostics(cfg)[0]`. The model does not distinguish compilers. Whether the build fails, and which diagnostic comes first, are the same either way.
- The predicate is assumed pure: `pred` is a total function `(T, T) -> bool`. The functor calls `m_pred` twice per index (`Kokkos_UniqueCopy.hpp` lines 54 and 59). A stateful predicate object could answer differently the two times, so the store and the increment could disagree. The model does not cover that case.
- CUDA setup: the exact spelling of the macro expansions, such as the token order of `[=] __host__ __device__`, is reduced to the `LambdaMacro` and `Placement` values.

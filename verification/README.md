# Verified models of the renderer's bookkeeping

These Dafny modules model the parts of the engine whose correctness is bookkeeping rather than
rendering: which pass runs when and what the reports say about it, which framebuffer a pass draws
into while the swapchain and the shared depth buffer are replaced under it, what a mesh file decodes
to, which particle slot is in use, and two lookups that are faster than their definitions. Every
model takes the form of the code it stands for: structs whose methods update them
are classes, loops are loops proved against a specification function, and the theorems are lemmas
about those functions.

`dafny verify dfyconfig.toml` checks the whole project.

| file | what it models |
|---|---|
| `Schedule.dfy` | what a sorted execution order is: placements, layers, cycles, uniqueness |
| `RenderGraph.dfy` | the render graph: sort, dispatch loops, counters and reports |
| `Device.dfy` | the graphics device reduced to object lifetimes: creation may be refused, releases are counted when double or early |
| `Targets.dfy`, `TargetPasses.dfy` | presentation, shared depth, and the forward and composite framebuffer caches, as functions and as the classes that update in place |
| `TargetSafety.dfy` | the renderer as a step machine over those: over every run, exactly when a cached framebuffer is what building it now would give |
| `TargetFailures.dfy` | the runs in which those caches fail |
| `DepthSwaps.dfy`, `DepthMarks.dfy` | swaps of the shared depth handle, and what its written flag is worth |
| `TargetLeaks.dfy`, `TargetReleases.dfy` | what those runs leave behind, and what they release too early |
| `GeometryTargets.dfy` | the geometry pass's own framebuffer and depth image, and every release it makes |
| `GeometryHistory.dfy` | that pass beside the renderer that replaces the chain under it |
| `GeometryPins.dfy` | that pass under pins, and exactly when one leads to an early release |
| `GeometryCommands.dfy` | the geometry pass's command stream read back as draws, and the matrices they read |
| `Base64.dfy`, `Glb.dfy`, `Accessors.dfy` | the glTF byte decoders |
| `Fbx.dfy`, `Obj.dfy`, `Polygons.dfy` | polygon streams, face references and fan triangulation |
| `MeshTopology.dfy` | the generated cylinder and sphere as oriented surfaces |
| `EmissionClock.dfy`, `Emitter.dfy` | the emitter's time accumulators and its slot pool |
| `WireAudit.dfy` | the whole-word search of the wire audit |
| `Probes.dfy` | the light probe grid |
| `Basics.dfy`, `Bytes.dfy` | sequences, counting and little-endian numbers used by the others |

## What turned out not to hold

Where the code does less than its comments say, the model follows the code, a lemma shows the failing
case, and another says exactly when the code does meet the property.

- A failed resize, `rebuild_presentation` and `attach_presentation` replace or republish the swapchain
  views without moving the generation the caches are keyed on, although the comment at
  src/render/passes/particle_composite.rs:367-372 relies on it for a chain rebuilt at the same size. Over
  every run an answer of the forward or the composite pass is fresh exactly when a chain is attached and the
  pass does not reuse a framebuffer older than the latest of these steps
  (`TargetSafety.FreshIffNotReusedOlder`). One of the same size serves a framebuffer over a view that is no
  longer published, in both passes (`TargetFailures.SameSizeReplacementServesStale`, `RebuildRun` and their
  `Composite` versions); after an attach whose chain is refused no answer is fresh until an attach is granted
  (`TargetSafety.RefusedAttachNeverFresh`, `TargetFailures.RefusedAttachRun`); a successful resize sets
  everything right (`TargetSafety.ResizeHeals`).
- The geometry pass is keyed on the same generation. Over every run its unpinned answer is current exactly
  when a chain is attached and it does not reuse a framebuffer older than the latest rebuilt or attached
  chain (`GeometryHistory.CurrentIffNotReusedOlder`); attach, draw, rebuild, draw serves the first chain's
  framebuffer (`SilentReplacementServesOld`, `RebuildServesOld`), and so does a refused attach
  (`RefusedAttachRun`).
- Swapping the shared depth handle goes unnoticed exactly when the cached framebuffer is otherwise reusable
  and the two buffers have been recreated equally often (`DepthSwaps.SwapStaleIffCountsAgree`; over every
  run, `FreshIffOverSwaps`), as after the first frame (`NewDepthAfterFirstFrameIgnored`).
- The shared depth's flag (src/render/passes/depth_target.rs:148-151) says that there is something to read.
  The forward pass sets it after a draw into a pinned framebuffer as well, so it can stand with no image:
  exactly while nothing has been created and a draw has been recorded (`DepthMarks.FlagWithoutImageIff`,
  `PinnedDrawMarks`). Over every run it stands exactly when no recreation followed the latest recorded draw
  (`WrittenIffMarked`), and behind an unpinned draw it tells the truth (`UnpinnedFlagIsTrue`).
- The forward pass, the composite pass and the shared depth release nothing they replace, and publishing new
  views releases old ones under the framebuffers built over them. Over every run the number left behind is the
  sum of what each step leaves (`TargetLeaks.RunLeaves`), and the early releases are exactly the views that
  live framebuffers attach when others are published (`TargetReleases.RunReleases`,
  `ResizeAfterDrawReleasesEarly`).
- The comment on the geometry pass's `set_framebuffer` (src/render/passes/geometry.rs:706-707) says that
  None hands control back to the acquired image; the code pins None (lines 721-724,
  `GeometryPins.PinnedAnswers`). A pin or its removal also drops the cached framebuffer without releasing
  it. Over every run of frames, pins and removals something is released early exactly when the depth is
  replaced at any time after such a drop (`GeometryPins.ReleasesEarlyIff`,
  `PinThenResizeReleasesEarlyIff`).
- When the device grants a depth image and refuses its view, the geometry pass loses that image
  (src/render/passes/geometry.rs:625-643): the live count is off by one per refusal
  (`GeometryTargets.EveryRunReleasesSafely`), and returns to the same value when every creation is granted
  (`LiveCountReturns`).
- The wire audit's jump past a rejected match is harmless for ASCII identifiers, but the item collector
  accepts any alphabetic character (Tool/wireaudit/src/main.rs:190-193), and in general the search agrees
  with its definition exactly for names whose overlapping copies are preceded by an identifier byte
  (`WireAudit.AgreesIffSkipSafe`).
- The probe grid is built z-fastest and read x-fastest, so every cell is answered with its own probe exactly
  when the grid is a line and its layers meet (`Probes.OwnProbesIffLine`); a fractional size can leave cells
  unanswered, exactly when the layer stride is not a whole layer (`Probes.EveryCellAnsweredIff`).
- The guard on the number of probes casts and multiplies in 64 bits; it means the true count exactly when the
  product of the casts fits or wraps to something still too large (`Probes.GuardHoldsIff`). 2^32 x 2^32 x 1
  cells pass it (`WrappedCountPasses`), and so do 10^20 x 10^20 x 1 (`SaturatedCountPasses`).
- Emission is independent of the frame rate exactly when from no tick on more particles come in than the
  remaining ticks can ask for with 32 bits each (`EmissionClock.FrameRateIndependentIff`); a tick charging
  2^32 or more fails (`LongTickFallsBehind`, `HalvedTickDoesNot`), ticks charging at most 2^32 - 1 never
  do (`ModestTicksKeepUp`). Bursts follow an interval of at least a millisecond, whatever is configured.
- Skip reasons are kept by name, and two passes may share one: a listed pass shows the reason it gave last,
  over all frames, exactly when it is disabled or no other listed and enabled pass has its name
  (`RenderGraph.OwnReasonIff`, `NamesakeShows`).
- The comment on `passes_without_work` (src/render/graph/graph.rs:693-699) speaks of passes that never
  contributed anything; the code also lists those that contributed to some of their dispatches only
  (line 706, `RenderGraph.WorkedYetListed`). The comment holds exactly when every pass has recorded either
  nothing or on each of its dispatches (`NeverContributedIff`).

## Model

| member | source | states |
|---|---|---|
| `RenderGraph.BuildAdjacency` | src/render/graph/graph.rs:336-347 | every resolvable dependency, self-waits and repeats included, puts the consumer in its producer's list exactly as often as it is declared, and the in-degree is the number of resolved waits |
| `RenderGraph.Decrement` | src/render/graph/graph.rs:360-365 | taking one wait off each listed neighbour subtracts its multiplicity without ever going below zero, and hands back, in ascending order, exactly the passes this brought to zero |
| `RenderGraph.Place` | src/render/graph/graph.rs:349-366 | the queue loop yields a placement: a pass enters once, when everything it waits for has been processed, in first-in-first-out order, and nothing that becomes ready is missed |
| `RenderGraph.AppendUnplaced` | src/render/graph/graph.rs:379-397 | the fallback appends exactly the passes the queue never reached, in the order they were added |
| `RenderGraph.SortNodes` | src/render/graph/graph.rs:331-400 | for any nodes and any name table, the order is a schedule and a permutation of all passes |
| `RenderGraph.ResolveNamesIn` | src/render/graph/graph.rs:340-347 | a pass waits exactly for the passes its declared names resolve to; unknown names add nothing |
| `RenderGraph.ResolveNamesCount` | src/render/graph/graph.rs:340-347 | and it waits for a pass as often as its declaration names it |
| `Schedule.EveryPassOnce` | src/render/graph/graph.rs:331-400 | a schedule lists every pass exactly once |
| `Schedule.UnplacedIffCyclic` | src/render/graph/graph.rs:379-397 | the passes left for the fallback are exactly those from which a chain of waits reaches a cycle |
| `Schedule.ProducerFirst` | src/render/graph/graph.rs:331-400 | a producer that is not downstream of a cycle stands before every consumer of it, cyclic or not |
| `Schedule.DepthRises` | src/render/graph/graph.rs:349-366 | along the placement the longest-dependency-path depth never falls |
| `Schedule.ShallowFirst` | src/render/graph/graph.rs:349-366 | layers: a pass of smaller depth always runs before a deeper one |
| `Schedule.EqualWaitsKeepOrder` | src/render/graph/graph.rs:349-397 | passes that wait for the same things run in the order they were added, in a cycle or not |
| `Schedule.EarlierReadyFirst` | src/render/graph/graph.rs:349-366 | first in, first out: a pass whose producers all stand before one of another's producers runs before that other |
| `Schedule.PlacementUnique` | src/render/graph/graph.rs:349-366 | two graphs with the same edges have the same placement, entry by entry |
| `Schedule.ScheduleUnique` | src/render/graph/graph.rs:331-400 | the execution order depends on the edges alone, not on how often each is declared |
| `RenderGraph.RenderGraph.AddPass` | src/render/graph/graph.rs:117-125 | appends the pass with zeroed counters, gives its name to it even when another pass had it, and keeps the class invariant |
| `RenderGraph.RenderGraph.SetEnabled` | src/render/graph/node.rs:205-208 | toggling a pass through its name changes that pass's flag only and leaves a sorted graph sorted |
| `RenderGraph.RenderGraph.Sort` | src/render/graph/graph.rs:331-400 | leaves a clean graph whose order is a schedule of its current dependencies, and does nothing when clean |
| `RenderGraph.RenderGraph.MarkDirty` | src/render/graph/graph.rs:774-776 | only asks for a new sort |
| `RenderGraph.RenderGraph.DispatchAll` | src/render/graph/graph.rs:434-464 | the recording is cut into one piece per listed pass, in their order, each the pass's own commands when it is enabled and empty when not; every enabled pass counts one dispatch and, if it recorded, one record; reasons are kept |
| `RenderGraph.CutMeans` | src/render/graph/graph.rs:434-455 | what those cuts say: from 0 to the end, rising, piece k being pass order[k]'s commands or nothing |
| `RenderGraph.RenderGraph.Dispatch` | src/render/graph/graph.rs:434-464 | the same over the execution order, and the counters still agree afterwards |
| `RenderGraph.RenderGraph.Execute` | src/render/graph/graph.rs:403-566 | both entry points: sorts first when dirty, moves no counter when the buffer cannot begin, and otherwise records the passes in execution order and counts every enabled one once, although the commands of a buffer that cannot finish are lost |
| `RenderGraph.ProducerRecordsFirst` | src/render/graph/graph.rs:403-566 | in the recording of a sorted graph a producer that is not downstream of a cycle has all its commands before its consumer's |
| `RenderGraph.StillAccounted` | src/render/graph/graph.rs:434-464 | a frame keeps recorded at most dispatched for every pass, and every pass with a nonzero count in the order the reports read |
| `RenderGraph.ReportsPartition` | src/render/graph/graph.rs:700-736 | every pass is in exactly one of never executed, dispatched with work missing, or worked on every dispatch |
| `RenderGraph.RenderGraph.CountsReport` | src/render/graph/graph.rs:645-691 | both count reports list every pass exactly once with its counter, in execution order and then in the order it was added |
| `RenderGraph.LabelledAt` | src/render/graph/graph.rs:645-691 | row k of a report is the k-th listed pass's name with its own counter |
| `RenderGraph.ReportRows` | src/render/graph/graph.rs:645-691 | the rows are the execution order's, then the others' in the order they were added |
| `RenderGraph.RenderGraph.PassesWithoutWork` | src/render/graph/graph.rs:700-718 | names exactly the passes dispatched more often than they recorded, each with the last reason given under its name |
| `RenderGraph.ExplainedAt` | src/render/graph/graph.rs:708-717 | each row is a name with the reason shown under it, or with "recorded nothing" |
| `RenderGraph.IdleInOrder` | src/render/graph/graph.rs:700-718 | and the rows come in execution order |
| `RenderGraph.ReasonIsLastGivers` | src/render/graph/graph.rs:456-463 | after a frame a name shows the reason of the last listed pass of that name to give one, and what it showed before when none did |
| `RenderGraph.OwnReasonIff` | src/render/graph/graph.rs:456-463 | over all frames, and whatever was shown before, a listed pass shows the reason it gave last exactly when it is disabled, and so gives none, or no other listed and enabled pass has its name |
| `RenderGraph.NamesakeShows` | src/render/graph/graph.rs:117-125 | for any order and any two listed, enabled passes of one name, the frames after which one shows the other's reason |
| `RenderGraph.NeverContributedIff` | src/render/graph/graph.rs:693-718 | the passes listed as without work have recorded nothing exactly when every pass has recorded either nothing or on each of its dispatches |
| `RenderGraph.WorkedYetListed` | src/render/graph/graph.rs:706 | a pass that records in one frame and nothing in the next is listed with a nonzero count |
| `RenderGraph.RenderGraph.NeverExecuted` | src/render/graph/graph.rs:730-736 | names exactly the passes whose dispatch count is zero |
| `RenderGraph.ZeroNamesAreNever` | src/render/graph/graph.rs:730-736 | filtering the listed counts by zero gives the names of the never-dispatched passes |
| `Devices.Create` | src/render/passes/depth_target.rs:90-121 | a granted creation returns an identity newer than every live object and records what it was built from; a refused one changes nothing that is alive |
| `Devices.ReleaseCounts` | src/render/passes/geometry.rs:561-600 | a release of something dead counts as double and one of something a live object was built from as early, and no other does |
| `Devices.ReleaseAll` | src/render/passes/geometry.rs:561-600 | a batch release ends the life of exactly the listed objects |
| `TargetPasses.DepthTarget.View` | src/render/passes/depth_target.rs:74-132 | recreates the image and its view exactly when the size differs, bumps the generation and forgets what was written only then, and keeps the old pair when either creation is refused |
| `Targets.DepthViewIs` | src/render/passes/depth_target.rs:74-132 | its three cases by size and by what the backend grants, image, view, count and flag included |
| `TargetPasses.ForwardPass.ResolveTarget` | src/render/passes/forward.rs:609-679 | the imperative cache with its four keys keeps the safety invariant, and its unpinned answer is what building now would give exactly when a chain is attached and it does not reuse a framebuffer older than the latest republication that left the generation alone; the device calls are those of the resolve function |
| `TargetPasses.ForwardPass.Draw` | src/render/passes/forward.rs:703-912 | a draw is the step of the run theorems: it records exactly when it has a target with a size and the encoder accepts its commands, and then leaves the shared depth marked, pinned target or not |
| `TargetPasses.ParticleCompositePass.Target` | src/render/passes/particle_composite.rs:348-407 | the same for the per-image map, which is cleared by a new generation or size and otherwise reused per image index |
| `TargetPasses.Renderer.PublishTypedViews` | src/render/core/renderer.rs:708-790 | publishes one view per swapchain image and none at all when one is refused or the format is unknown |
| `Targets.CreateViewsIs` | src/render/core/renderer.rs:745-789 | one view for each image, in the images' order, exactly when every request is granted |
| `TargetPasses.Renderer.ResizeTo` | src/render/core/renderer.rs:527-606 | the resolution is at least one pixel, a granted chain replaces the old one and moves the generation (which wraps at 2^64), a refused one republishes without moving it; published views stay alive over the attached chain |
| `TargetPasses.Renderer.RebuildPresentation` | src/render/core/renderer.rs:614-670 | replaces the chain and its views without moving the generation, and published views stay alive |
| `TargetPasses.Renderer.AttachPresentation` | src/render/core/renderer.rs:173-213 | attaches a chain without moving the generation; a refused chain has cost the old one, and its views stay published over nothing |
| `Targets.ReplacementsAsk` | src/render/core/renderer.rs:527-670 | with everything granted a resize and an attach ask for a chain and one view per image, a rebuild, which refreshes twice, for two |
| `TargetSafety.ForwardFreshIff` | src/render/passes/forward.rs:609-679 | in every state the invariant allows, an unpinned answer is the framebuffer that building now would give (live view of the acquired image, current extent, shared depth view of the current depth generation) exactly when a chain is attached and no framebuffer older than the latest unannounced republication is reused; and there is no answer only without an image, without a size, or after a refused creation |
| `TargetSafety.CompositeFreshIff` | src/render/passes/particle_composite.rs:348-407 | the same for the per-image map |
| `TargetSafety.StepKeepsInv` | src/render/core/renderer.rs:527-670 | every step, granted or refused, keeps the invariant: resizes, rebuilds, attaches, acquires, draws, pins and other users of the shared depth |
| `TargetSafety.RunKeepsInv` | src/render/core/renderer.rs:527-670 | so does every run of fewer than 2^64 steps |
| `TargetSafety.FreshIffNotReusedOlder` | src/render/core/renderer.rs:527-670 | the exact condition over all those runs, for both passes: fresh if and only if a chain is attached and the pass does not reuse a framebuffer older than the latest failed resize, rebuild or attach |
| `TargetSafety.CachesAlwaysFresh` | src/render/core/renderer.rs:527-606 | safety over every run whose chain replacements are successful resizes: whatever either pass answers unpinned is what building now gives |
| `TargetSafety.ResizeHeals` | src/render/core/renderer.rs:571-604 | and a successful resize makes every later answer of such a run fresh, whatever happened before it |
| `TargetSafety.FirstAttachOk` | src/render/core/renderer.rs:173-213 | the first attach of a window finds empty caches, granted or refused, so safe runs may start from it |
| `TargetFailures.SameSizeReplacementServesStale` | src/render/core/renderer.rs:614-670 | whenever such a replacement keeps size and image number, the framebuffer the forward pass drew into before is served again over a view that is no longer the image's |
| `TargetFailures.SameSizeReplacementServesStaleComposite` | src/render/passes/particle_composite.rs:367-383 | so is the composite pass's, the case its own comment relies on |
| `TargetFailures.RebuildRun` | src/render/core/renderer.rs:614-670 | the concrete run: attach, draw, rebuild at the same size, draw - for every shape of chain |
| `TargetFailures.RebuildRunComposite` | src/render/core/renderer.rs:614-670 | the same run for the composite pass |
| `TargetSafety.RefusedAttachNeverFresh` | src/render/core/renderer.rs:173-213 | an attach the backend refuses leaves views over a destroyed chain: over every run until an attach is granted, neither pass answers anything fresh |
| `TargetFailures.RefusedAttachServesStale` | src/render/core/renderer.rs:173-213 | and an answer there is: image 0 at the window's resolution is answered with the framebuffer drawn into over the lost chain |
| `TargetFailures.RefusedAttachRun` | src/render/core/renderer.rs:173-213 | the concrete run: attach, draw, be refused a second chain, draw |
| `TargetFailures.RefusedAttachRunComposite` | src/render/core/renderer.rs:173-213 | the same run for the composite pass |
| `DepthSwaps.SwapStaleIffCountsAgree` | src/render/passes/forward.rs:507-511 | with a chain attached, the next answer after the depth handle is swapped attaches the new buffer except exactly when the framebuffer is otherwise reusable and the two recreation counts happen to agree |
| `DepthSwaps.FreshIffOverSwaps` | src/render/passes/forward.rs:507-511 | over every run that also swaps among any number of buffers, others recreating them meanwhile: an unpinned answer is fresh if and only if a chain is attached and the pass does not reuse a framebuffer older than the latest unannounced republication or built over a buffer it no longer holds |
| `DepthSwaps.NewDepthAfterFirstFrameIgnored` | src/render/passes/forward.rs:636-646 | a buffer recreated once and a brand-new one agree, so that swap goes unnoticed |
| `TargetSafety.PinnedForwardAnswers` | src/render/passes/forward.rs:490-496 | over every run until the next pin or removal, the forward pass answers with the pinned framebuffer and asks nothing of the device or the depth |
| `TargetSafety.PinnedCompositeAnswers` | src/render/passes/particle_composite.rs:335-355 | so does the composite pass |
| `TargetSafety.UnpinnedBuildsAnew` | src/render/passes/forward.rs:490-496 | None empties the cache: the next answer is fresh whenever a chain is attached, even where an older framebuffer would have been reused |
| `DepthMarks.WrittenIffMarked` | src/render/passes/forward.rs:902-911 | over every run the written flag stands exactly when no recreation of the depth followed the latest recorded draw |
| `DepthMarks.UnpinnedFlagIsTrue` | src/render/passes/depth_target.rs:148-163 | and when that draw was not pinned, the depth view that stands is the one it drew over |
| `DepthMarks.FlagWithoutImageIff` | src/render/passes/forward.rs:902-911 | from start-up on, the flag stands with no image at all exactly while the depth has never been created and some draw has been recorded, every one of them into a pin |
| `DepthMarks.PinnedDrawMarks` | src/render/passes/forward.rs:902-911 | the input: a draw recorded into a pinned framebuffer before anything is created |
| `TargetLeaks.StepLeaves` | src/render/passes/forward.rs:609-679 | exactly which live objects a step leaves behind for good: the replaced depth pair or an image whose view was refused, the forgotten framebuffers, views forgotten for want of a format or made before a refused one |
| `TargetLeaks.RunLeaves` | src/render/core/renderer.rs:527-790 | over every run the live objects nobody refers to are those of the start and the sum of what the steps left, and none is ever released |
| `TargetReleases.RunReleases` | src/render/core/renderer.rs:720-735 | over every run nothing is released twice, and early go exactly the published views over which a live framebuffer was built, each time views are published in their place |
| `TargetReleases.ResizeAfterDrawReleasesEarly` | src/render/core/renderer.rs:720-735 | so a resize that follows a fresh draw releases early |
| `GeometryTargets.GeometryPass.ReplaceDepthImage` | src/render/passes/geometry.rs:548-646 | releases framebuffer, view and image in that order before asking for the new pair |
| `GeometryTargets.GeometryPass.BuildFramebuffer` | src/render/passes/geometry.rs:649-696 | builds first and releases the replaced framebuffer only on success |
| `GeometryTargets.GeometryPass.ResolveTarget` | src/render/passes/geometry.rs:510-697 | an unpinned frame leaves the pass sound, answers with what it holds, and releases nothing twice or early; its device calls are those of the resolve function |
| `GeometryTargets.ReplaceDepthFacts` | src/render/passes/geometry.rs:548-646 | replacing the depth image releases nothing twice and nothing that something live still refers to, under every pattern of refusals; only an image whose view was refused is lost |
| `GeometryTargets.ReplaceFramebufferFacts` | src/render/passes/geometry.rs:649-696 | replacing the framebuffer does the same and, granted, holds a complete set |
| `GeometryTargets.FrameFacts` | src/render/passes/geometry.rs:510-697 | one frame, whatever the backend answers |
| `GeometryTargets.AnsweredIff` | src/render/passes/geometry.rs:530-697 | a frame whose keys do not match is answered exactly when the acquired image exists, the format is known and every object it needs is granted |
| `GeometryTargets.EveryRunReleasesSafely` | src/render/passes/geometry.rs:543-697 | every unpinned run, every pattern of refusals: no double and no early release, and the live count is what was there, what the pass holds, and one image per refused view |
| `GeometryTargets.LiveCountReturns` | src/render/passes/geometry.rs:543-697 | when every creation is granted the live count is back at the same value after every frame with a target, however often the size changed |
| `GeometryHistory.AnswerCurrentIff` | src/render/passes/geometry.rs:510-697 | an unpinned answer carries the acquired image's view at the frame's size, with the pass's depth view of that size, exactly when a chain is attached and no framebuffer older than the latest chain that came without a new generation is reused |
| `GeometryHistory.CurrentIffNotReusedOlder` | src/render/core/renderer.rs:340-670 | the same over every run of fewer than 2^64 steps, with rebuilds, attaches, failed resizes, the other passes' draws and pins |
| `GeometryHistory.EveryAnswerCurrent` | src/render/core/renderer.rs:527-606 | so over every run whose chain replacements are successful resizes every unpinned answer is current |
| `GeometryHistory.SilentReplacementServesOld` | src/render/passes/geometry.rs:526-530 | a rebuilt or newly attached chain of the same size is answered with the framebuffer over the earlier chain's view |
| `GeometryHistory.RebuildServesOld` | src/render/core/renderer.rs:614-670 | the concrete run: attach, draw, rebuild, draw |
| `GeometryHistory.RefusedAttachServesOld` | src/render/core/renderer.rs:173-213 | with the chain lost to a refused attach the pass still answers image 0 at the window's resolution, over the lost chain's view |
| `GeometryHistory.RefusedAttachRun` | src/render/core/renderer.rs:173-213 | the concrete run: attach, draw, be refused a second chain, draw |
| `GeometryPins.ReleasesEarlyIff` | src/render/passes/geometry.rs:510-735 | over every run of frames, pins and removals and every pattern of refusals nothing is released twice, and something is released early exactly when the depth is replaced after a pin or a removal has dropped a framebuffer |
| `GeometryPins.StepFacts` | src/render/passes/geometry.rs:510-735 | step by step: one early release exactly at a frame that replaces the depth while a dropped framebuffer refers to it |
| `GeometryPins.PinThenResizeReleasesEarlyIff` | src/render/passes/geometry.rs:715-735 | one pin, its removal and one frame: early exactly when the pass had a framebuffer over its depth and the frame can be drawn at another size |
| `GeometryPins.PinnedAnswers` | src/render/passes/geometry.rs:715-726 | while pinned, None included, every frame is answered with the pin and costs no device call |
| `GeometryPins.UnpinnedBuildsAnew` | src/render/passes/geometry.rs:729-735 | after a removal the next answer is a new framebuffer over the acquired image |
| `GeometryCommands.RecordItem` | src/render/passes/geometry.rs:964-995 | one item binds its own set and buffers and draws with its own index type; read back as bind state it adds that draw and no other, and an 8-bit item adds none |
| `GeometryCommands.RecordPass` | src/render/passes/geometry.rs:919-998 | the recording begins with target, viewport, scissor and pipeline and ends the pass, is legal, and draws exactly the wanted items, in order; what a skipped item leaves bound reaches no later draw |
| `GeometryCommands.EveryItemHasDraw` | src/render/passes/geometry.rs:953-996 | each item with a set and a 16- or 32-bit index type is drawn once |
| `GeometryCommands.EveryDrawHasItem` | src/render/passes/geometry.rs:953-996 | and nothing else is |
| `GeometryCommands.Uniforms.Build` | src/render/passes/geometry.rs:1014-1078 | succeeds exactly when every request does, and then set k points at buffer k and the buffers are distinct |
| `GeometryCommands.Uniforms.Update` | src/render/passes/geometry.rs:752-796 | reports success exactly when every item has a buffer and every upload is accepted, and then buffer k holds projection x view x model k; no other buffer changes |
| `GeometryCommands.DrawsReadTheirOwnMatrix` | src/render/passes/geometry.rs:752-796 | after a successful build and update, the draw of item k reads projection x view x model k |
| `GeometryCommands.ApplyProduct` | src/render/passes/geometry.rs:779 | which applied to a vertex is the model matrix first, then the view, then the projection |
| `Base64.AccumulatorStep` | src/render/meshes/gltf.rs:283-291 | the 32-bit accumulator, although its high bits fall off, agrees with the pending bits it stands for and emits the same byte |
| `Base64.AlphabetIs` | src/render/meshes/gltf.rs:268-277 | the 64 letters and their values are table 1 of RFC 4648, by character codes |
| `Base64.Vectors` | src/render/meshes/gltf.rs:267-296 | the encoding that is inverted gives the vectors of section 10 of RFC 4648 |
| `Base64.Base64Decode` | src/render/meshes/gltf.rs:267-296 | inverts the encoding of section 4 of RFC 4648 for every byte string, padded or not, with whitespace anywhere |
| `Base64.DecodeEncode` | src/render/meshes/gltf.rs:267-296 | decoding inverts encoding |
| `Base64.AcceptedIff` | src/render/meshes/gltf.rs:267-296 | accepted exactly when everything before the first padding character is in the alphabet, and how many bytes come out |
| `Base64.BeforePadIs` | src/render/meshes/gltf.rs:284-286 | what is decoded is the text up to the first padding character |
| `Glb.SplitContainer` | src/render/meshes/gltf.rs:67-93 | bytes that do not begin with 67 6C 54 46, or are fewer than twelve, come back as they are; four such bytes, any version and length fields, any well-formed chunk list and a tail of fewer than eight bytes give the list's last JSON and last binary payload, or an error without JSON |
| `Glb.WalkChunks` | src/render/meshes/gltf.rs:73-92 | the offset loop is the walk, without a slice out of range |
| `Glb.SizeField` | src/render/meshes/gltf.rs:74 | a chunk's four size bytes are the little-endian length of its payload, and no others are |
| `Glb.WellFormedIsOk` | src/render/meshes/gltf.rs:74-88 | the chunks the walk takes are those of section 4.4 of glTF 2.0: a little-endian length, four bytes of type, padding to a multiple of four |
| `Glb.WalkSerialized` | src/render/meshes/gltf.rs:67-93 | walking any serialised list of typed chunks (section 4.4 of glTF 2.0) gives back its chunks |
| `Glb.KeepAllIsLast` | src/render/meshes/gltf.rs:80-89 | what is kept is the last JSON and the last binary payload; other kinds are skipped |
| `Glb.LastOfIs` | src/render/meshes/gltf.rs:80-89 | the last payload of a kind is that of the chunk behind which there is none of the kind |
| `Glb.WalkParses` | src/render/meshes/gltf.rs:67-93 | conversely, every accepted body is such a list, up to a tail of fewer than eight bytes or missing padding of the last chunk |
| `Glb.WalkAccepts` | src/render/meshes/gltf.rs:67-93 | and a body whose last chunk lacks some of its padding is accepted |
| `Accessors.ViewBytes` | src/render/meshes/gltf.rs:307-326 | a view is the stretch of its buffer from its offset on, of its length, and an error exactly when one of the two is missing or the stretch is not inside the buffer |
| `Accessors.AcceptedIff` | src/render/meshes/gltf.rs:438-502 | an accessor is accepted exactly when its view lies in its buffer, its shape is known, its stride holds an element, and its last element ends inside the view; and which of the two errors it is otherwise |
| `Accessors.Tables` | src/render/meshes/gltf.rs:299-304 | component sizes and shapes are those of section 3.6.2.2 of glTF 2.0, by their numbers |
| `Accessors.AcceptedIsInside` | src/render/meshes/gltf.rs:438-502 | an accepted accessor has every element inside its view, strided or packed |
| `Accessors.ReadVec3` | src/render/meshes/gltf.rs:329-360 | succeeds exactly on an accepted, unnormalised FLOAT accessor none of whose reads falls outside, always for VEC3; number c of value i is what four bytes of the buffer spell, at the sum of both offsets, i steps and 4c |
| `Accessors.ReadVec2` | src/render/meshes/gltf.rs:363-387 | the same for VEC2, whatever the normalised flag says |
| `Accessors.ReadIndices` | src/render/meshes/gltf.rs:391-431 | succeeds exactly on unsigned component types whose reads stay inside, always for SCALAR; index i is what one, two or four bytes of the buffer spell at its place |
| `Accessors.LayoutHolds` | src/render/meshes/gltf.rs:482-511 | any interleaving of the elements, the packed one and one cut after the last element included, holds them at its own step |
| `Accessors.EncodedIsAccepted` | src/render/meshes/gltf.rs:438-511 | an accessor over a stretch of a buffer that interleaves elements, at the view's stride or packed, is accepted, and its layout holds them |
| `Accessors.ReadBothVec3` | src/render/meshes/gltf.rs:329-360 | so any two layouts of the same elements, interleaved or packed, read back as the numbers the elements spell |
| `Accessors.ReadBothVec2` | src/render/meshes/gltf.rs:363-387 | the same for VEC2 |
| `Accessors.ReadBothIndices` | src/render/meshes/gltf.rs:391-431 | the same for indices of each unsigned width |
| `Fbx.TriangulateStream` | src/render/meshes/fbx.rs:73-112 | the in-place loop gives the fans of the polygons the stream reads as, or the error of the first bad corner, short or unfinished polygon, or empty result |
| `Fbx.ReadEncoded` | src/render/meshes/fbx.rs:73-112 | every list of polygons of three or more corners, encoded, reads back as itself |
| `Fbx.EncodedCorners` | src/render/meshes/fbx.rs:67-68 | the encoding is every corner's number from one, the last one negated |
| `Fbx.FaultIs` | src/render/meshes/fbx.rs:83-105 | which error it is: out of range for a number past the positions whatever its sign, degenerate for a polygon of fewer than three corners or an unfinished one |
| `Fbx.ZerosIgnored` | src/render/meshes/fbx.rs:75-79 | zeros anywhere change nothing |
| `Fbx.AcceptedIffEncoding` | src/render/meshes/fbx.rs:73-112 | a stream is accepted exactly when, zeros dropped, it is the encoding of such a list, and of one only |
| `Fbx.FansFacts` | src/render/meshes/fbx.rs:97-101 | three times the corners less two per polygon, every index in range |
| `Fbx.TriangleOf` | src/render/meshes/fbx.rs:97-101 | the triangles of each polygon stand behind those of the polygons before it, each over its first corner and two neighbours |
| `Polygons.EmitFan` | src/render/meshes/fbx.rs:97-101 | appends the fan, nothing for fewer than three corners |
| `Polygons.FanTriangles` | src/render/meshes/loader.rs:129-133 | triangle j is the first corner with corners j + 1 and j + 2 |
| `Polygons.FanPreservesArea` | src/render/meshes/loader.rs:129-133 | the fan triangles' signed areas sum to the polygon's own cyclic cross-product sum, for every corner count from three |
| `Obj.ResolveIff` | src/render/meshes/loader.rs:96-102 | a line is named by exactly two references, one from either end, and every other reference resolves to nothing |
| `Obj.LoadFace` | src/render/meshes/loader.rs:86-134 | a face loads exactly when every reference names a position, and then appends one vertex per corner at the position it names and the triangles of the fan over them, which preserve the polygon |
| `MeshTopology.CylinderIndices` | src/render/meshes/mesh.rs:614-685 | the two loops write, for three segments or more, the cap and the side triangles of every segment |
| `MeshTopology.CapIndicesAre` | src/render/meshes/mesh.rs:654-667 | the six cap indices of segment i |
| `MeshTopology.SideIndicesAre` | src/render/meshes/mesh.rs:670-680 | the six side indices of segment i, behind all caps |
| `MeshTopology.CylinderClosed` | src/render/meshes/mesh.rs:654-679 | for every segment count each directed edge occurs exactly once and so does its reverse |
| `MeshTopology.CylinderVertices` | src/render/meshes/mesh.rs:614-685 | the surface uses 2 + 2n vertices, never the seam copies, and V - E + F = 2 |
| `MeshTopology.SphereIndices` | src/render/meshes/mesh.rs:553-571 | the loops write the two triangles of every cell |
| `MeshTopology.SphereIndicesAre` | src/render/meshes/mesh.rs:553-571 | the six indices of cell (i, j) |
| `MeshTopology.SphereSurface` | src/render/meshes/mesh.rs:553-571 | no directed edge repeats, and an edge has its reverse exactly when it is not on the border of the grid |
| `MeshTopology.SphereInRange` | src/render/meshes/mesh.rs:553-571 | all indices are below (stacks+1)(sectors+1) |
| `EmissionClock.Bursts` | src/render/particles/emitter.rs:275-281 | the burst loop terminates and leaves less than an interval |
| `EmissionClock.BurstsAreFloor` | src/render/particles/emitter.rs:275-281 | one tick fires the whole intervals that fit the timer and leaves the rest |
| `EmissionClock.RequestsConserve` | src/render/particles/emitter.rs:260-262 | requests and carry together are the charge, even when a tick saturates its 32 bits |
| `EmissionClock.RequestsAreLeastBound` | src/render/particles/emitter.rs:260-262 | what a run requests, from its charges alone: the least, over the moments before, between and after its ticks, of the whole particles come in by then plus 2^32 - 1 for each later tick |
| `EmissionClock.FrameRateIndependentIff` | src/render/particles/emitter.rs:260-262 | a split of the time requests floor(rate x time) exactly when from no tick on more comes in than the remaining ticks can ask for, and exactly then the carry ends below one |
| `EmissionClock.LongTickFallsBehind` | src/render/particles/emitter.rs:260-262 | a single tick charging 2^32 or more does not keep up and requests 2^32 - 1 |
| `EmissionClock.HalvedTickDoesNot` | src/render/particles/emitter.rs:260-262 | the concrete input: at 2^32 particles a second, one second in one tick requests one particle fewer than in two |
| `EmissionClock.ModestTicksKeepUp` | src/render/particles/emitter.rs:260-262 | ticks that each charge at most 2^32 - 1 always keep up |
| `EmissionClock.RequestsAreWholePart` | src/render/particles/emitter.rs:260-262 | a split that keeps up requests the whole part and carries the rest |
| `EmissionClock.SplitsAgree` | src/render/particles/emitter.rs:260-262 | beside one that keeps up, another split of the same time requests the same and carries the same exactly when it keeps up too |
| `EmissionClock.BurstsAreWholeIntervals` | src/render/particles/emitter.rs:274-281 | the bursts fired are floor(time / interval) for any split, the timer staying in [0, interval) |
| `Emitter.ParticleEmitter.constructor` | src/render/particles/emitter.rs:116-144 | every slot free, nothing emitted |
| `Emitter.ParticleEmitter.EmitParticle` | src/render/particles/emitter.rs:285-323 | moves the top free slot to the live list with a newborn particle, and does nothing on an empty stack |
| `Emitter.ParticleEmitter.Burst` | src/render/particles/emitter.rs:462-466 | moves the top min(count, free) slots, in order; no other particle changes |
| `Emitter.ParticleEmitter.Reset` | src/render/particles/emitter.rs:443-459 | all slots free in ascending order, all accumulators and counters zero |
| `Emitter.ParticleEmitter.AgeParticles` | src/render/particles/emitter.rs:219-240 | one visit per live slot |
| `Emitter.ParticleEmitter.RecycleDead` | src/render/particles/emitter.rs:244-254 | keeps the live in order and stacks the dead behind the free |
| `Emitter.ParticleEmitter.Update` | src/render/particles/emitter.rs:210-283 | the whole frame: a stopped emitter changes nothing; a running one asks for a tick's particles while it emits and loops, never ends or is before the end of its duration, for none after, and for neither particles nor bursts when it does not emit; the pool after recycling and both kinds of emission; the pool invariant and emitted = active + recycled (mod 2^32) hold |
| `Emitter.Drive` | src/render/particles/emitter.rs:210-283 | any run of updates, whatever the looping and the duration: each frame's clocks, requests and bursts follow from the frame before |
| `Emitter.RunIsTotal` | src/render/particles/emitter.rs:259-282 | the run law: particles are asked for by exactly the ticks that end before the emission does, floor(rate x their time) of them exactly when they keep up, and floor(time / interval) bursts by the whole run |
| `Emitter.VolleyIsProduct` | src/render/particles/emitter.rs:277-280 | what the fired bursts ask for together is their number times the configured count |
| `Emitter.PartitionMeans` | src/render/particles/emitter.rs:88-89 | the pool invariant: both lists duplicate-free, disjoint, together all slots |
| `Emitter.PopKeepsPartition` | src/render/particles/emitter.rs:290-321 | taking a slot keeps it |
| `Emitter.RetainKeepsPartition` | src/render/particles/emitter.rs:244-254 | recycling keeps it |
| `Emitter.SortedIsRetain` | src/render/particles/emitter.rs:245-253 | exactly the slots of live particles stay |
| `Emitter.SortedKeepsOrder` | src/render/particles/emitter.rs:245-253 | and in the order they stood in |
| `Emitter.DrawnMeans` | src/render/particles/emitter.rs:290-321 | drawing takes the top of the free stack, top first, as many as asked for or all there are |
| `Emitter.AgedOnce` | src/render/particles/emitter.rs:219-222 | every live particle ages once a frame, no free one ever |
| `WireAudit.LineMentions` | Tool/wireaudit/src/main.rs:228-239 | the scanning loop decides the skip-past-each-match search |
| `WireAudit.ScanIsSearch` | Tool/wireaudit/src/main.rs:230-239 | for a name whose overlapping copies are always preceded by an identifier byte the jumps lose nothing |
| `WireAudit.WordIsInALine` | Tool/wireaudit/src/main.rs:227 | splitting into lines loses and adds no word |
| `WireAudit.FileMentions` | Tool/wireaudit/src/main.rs:226-242 | for a non-empty name of ASCII identifier bytes it is true exactly when some occurrence in the whole text has no identifier byte on either side |
| `WireAudit.WordMeans` | Tool/wireaudit/src/main.rs:234-243 | a word: a copy of the name with no ASCII letter, digit or underscore on either side |
| `WireAudit.LinesAre` | Tool/wireaudit/src/main.rs:227 | lines end at line feeds, which are dropped with one carriage return before them |
| `WireAudit.AgreesIffSkipSafe` | Tool/wireaudit/src/main.rs:226-242 | on all texts the scan agrees with that definition exactly for the names above |
| `WireAudit.ReferencedOutside` | Tool/wireaudit/src/main.rs:214-224 | some file other than the defining one has the name as a word |
| `Probes.TryNew` | src/render/lighting/probe.rs:180-210 | a grid without a whole cell, with flat cells or with what its 64-bit product says is too many probes is refused, every other is built |
| `Probes.GuardHoldsIff` | src/render/lighting/probe.rs:202-208 | for every size of at least one cell the guard means the true count exactly when the product of what the casts leave fits 64 bits or wraps to something still too large |
| `Probes.WrappedCountPasses` | src/render/lighting/probe.rs:202-208 | 2^32 x 2^32 x 1 cells wrap to none |
| `Probes.SaturatedCountPasses` | src/render/lighting/probe.rs:202-208 | 10^20 x 10^20 x 1 cells are cast and multiply out to one |
| `Probes.NewUnchecked` | src/render/lighting/probe.rs:212-236 | exactly one probe per cell, each at its own place, z fastest |
| `Probes.ProbeIsInItsCell` | src/render/lighting/probe.rs:219-224 | a probe stands at its cell's near corner, in that cell |
| `Probes.CoordIff` | src/render/lighting/probe.rs:265-280 | a coordinate is answered with i exactly when it lies in cell i of the box |
| `Probes.NoAliases` | src/render/lighting/probe.rs:286 | two cells never share an index, fractional sizes included |
| `Probes.EveryCellAnsweredIff` | src/render/lighting/probe.rs:286-287 | every cell finds a probe exactly when the layer stride is a whole layer or there is one layer |
| `Probes.AnsweredInside` | src/render/lighting/probe.rs:256-288 | nothing outside the box is answered, and everything inside it is under that condition |
| `Probes.AnswerIsOfTheCell` | src/render/lighting/probe.rs:256-288 | a position is answered with its cell's entry of the table |
| `Probes.EntryIs` | src/render/lighting/probe.rs:286-287 | that entry is number x + y times the width + z times the whole part of the layer's size, or none past the end |
| `Probes.WholeLayer` | src/render/lighting/probe.rs:286 | whole sizes meet the condition |
| `Probes.EveryProbeAnswers` | src/render/lighting/probe.rs:286-287 | when the layers meet every probe answers for some cell |
| `Probes.GapAnswersNothing` | src/render/lighting/probe.rs:286-287 | otherwise the probe after the first layer answers for none |
| `Probes.OwnProbesIffLine` | src/render/lighting/probe.rs:212-288 | for every size, fractional ones included, every cell is answered with its own probe exactly when at most one side of the box is longer than a cell and the layer stride is a whole layer or there is one layer |

## Left out

- Floating point: times, rates, sizes and matrix entries are real numbers; rounding, NaN and infinities are not modelled, and an infinite emission duration is `None`.
- Counters: the graph's 64-bit pass counters and the depth buffer's 64-bit generation do not wrap; the swapchain generation does, and the safety theorem bounds the run by it.
- Locks: the mutexes around pass state and depth buffer are taken to be uncontended and not poisoned.
- RenderGraph.RenderGraph.Execute: submission, resources and `count_draws` are not modelled, and a pass's own work is what its outcome and its commands say it is.
- RenderGraph.RenderGraph.SetEnabled: editing a pass's dependencies through `get_pass_mut` without marking the graph dirty is not modelled; `RenderPassNode::execute` repeats the enabled test and adds nothing.
- Devices.Create: dropping a handle releases nothing, as in the backend; memory, formats and usage flags are not modelled.
- TargetPasses.ForwardPass.Draw: the skips for missing items, shadow maps, lights or clusters come before the target is resolved and change nothing; the recorded commands are not modelled.
- DepthMarks.WrittenIffMarked: swaps of the depth handle are not among its steps.
- TargetLeaks.RunLeaves: swaps of the depth handle and the geometry pass are not among its steps; the latter has its own account.
- TargetReleases.RunReleases: the same steps.
- TargetPasses.ParticleCompositePass.Target: which of the pass's render passes the framebuffer is built for is not modelled.
- GeometryHistory.CurrentIffNotReusedOlder: the chain's own views are told apart by the chain they belong to; a driver that hands out an old handle again is not modelled.
- GeometryCommands.RecordPass: viewport and scissor rectangles, clear values and the encoder are not modelled; `items_for_scene` and `update_models` only copy fields into the item list.
- GeometryCommands.Uniforms.Update: the light and colour constants behind the matrix, and the difference between the 256-byte buffer and the 112 bytes written, are not modelled.
- Accessors.AcceptedIsInside: sums and products of offsets are unbounded; the source adds them in `usize` unchecked.
- Accessors.ReadVec3: numbers are kept as bit patterns; reading them as floats, the JSON tree, missing attributes and generated normals are not modelled.
- Glb.SplitContainer: the container's version and total length fields are read by nothing and so not modelled.
- Fbx.TriangulateStream: takes values within 32 bits; finding and parsing the text of the arrays, vertex positions and face normals are not modelled.
- Obj.LoadFace: takes at least one corner (with none the source's loop bound underflows) and fewer than 2^31 positions; normals, texture coordinates, the other line kinds and number parsing are not modelled.
- MeshTopology.CylinderIndices: indices are not cut to 32 bits, which a cylinder of 2^31 segments or more would need; vertex positions, normals and the winding's outward sense are not modelled.
- MeshTopology.SphereIndices: takes grids whose vertices 32 bits can number.
- Emitter.ParticleEmitter.Update: position, velocity, rotation, gravity, drag, colour, size and the emitter's shape are not modelled; a particle is its age, its limit and its owner.
- Emitter.ParticleEmitter.Reset: changing `max_particles` through `config_mut` is not modelled; a reset after raising it lists slots the pool does not have.
- WireAudit.FileMentions: works on bytes; walking directories and recognising item declarations are not modelled.
- Probes.NewUnchecked: its loop bounds are not cut at 2^64 - 1 as the casts cut them; baking, probe types and names are not modelled, a probe's cell standing for its name.
- Probes.TryNew: the product wraps as in an optimised build; a checked build panics instead.
- Transparent, water, shadow and post-process passes, materials, settings, cameras and culling: field copies, device calls or floating-point geometry.
- The orchestrator, the control client, the dashboard, windows and examples: processes, sockets and terminal I/O.

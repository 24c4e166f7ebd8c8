# Verified models of the Arborcore runtime

This project models nine algorithmic cores of Arborcore in Dafny and proves what the C code
promises its callers. Each module follows one component of the runtime.

* **Capability catalog** (`DependencyOrder`, `CapabilityModel`, `CapabilityKernel`,
  `CapabilityCatalog`). Modules export and require typed capabilities. Preparation resolves each
  requirement to one export, orders the modules with the least ready index first and publishes
  three tables; a separate validator checks them again. The two agree exactly, and a missing
  order is exactly a cycle.
* **Service runtime** (`ServiceModel`, `ServiceRuntime`). Lifecycle callbacks over the catalog.
  Callback results are arbitrary; a ghost trace records every call. Preparation, rollback and
  stop have their traces fixed for every sequence of results.
* **Geometry** (`Rounding`, `Affine`, `Rotation`, `Turns`, `TurnTable`, `RotationAngle`,
  `DeviceScale`). Q32.32 arithmetic with one exact rounding at each step, fused affine maps that
  act on points, inverse error bounds, bounding rectangles, the 31-step rotation, and rational
  scales in lowest terms. The rotation is measured against a circle: `Turns` has the powers of one
  point on the unit circle, which turns by almost exactly 2^-32 of it, `TurnTable` shows by a chain
  of certified products that every table entry is the nearest raw angle to its step, and
  `RotationAngle` follows the vector through the steps to the addition law.
* **Raster coverage** (`Raster`). Tight pixel bounds and rounded area coverage, with conservation
  of area.
* **Configuration** (`ConfigText`, `ConfigSchema`, `ConfigSources`, `ConfigResolve`,
  `ConfigStore`). Schema, three sources, precedence, packed storage and the result validator.
* **Connection host** (`ConnectionHost`). Accepting, draining against a deadline and closing,
  with the operating system, the clock and the connection routines answering anything. Ghost logs
  record what the clock, the waits and the accepts answered, which slots were stepped and what was
  closed; a drain is judged by them.
* **Host and Connection fields** (`UriHost`, `ConnectionField`). Recognisers proved against the
  grammars of section 3.2.2 of RFC 3986 and section 5.6.1 of RFC 9110.
* **Event journal and unit of work** (`EventJournal`, `UnitOfWork`). A packed log that refines a
  list of events, generation-stamped checkpoints, and transactions over it.
* **Timing window** (`TimingWindow`). A ring of 128 samples with running sum and extremes and
  nearest-rank percentiles.

`Native` holds status values and integer limits. Code that changes state step by step is a
method over arrays or a class, proved against a specification that is a predicate or function;
the lemmas are about those. Where the width of a C integer matters, the model states it as a
bound and shows that checked and unchecked sums and products stay inside.

Results that say when the code does *not* do what one might expect, each with the exact
condition:

* A rewind with a checkpoint of the current generation can succeed and restore other events than
  the checkpoint saw, because only clearing changes the generation. `RewindRestores` gives the
  exact condition and `ShorterLogMayDiffer` the counterexample.
* A unit of work whose journal is cleared while it is active can never be committed, rolled back
  or reset again (`StaleForever`, `Commit`, `Rollback`, `Reset`).
* Closing a connection does not empty its buffers (`src/asm/server.asm:620-669`), but full host
  validation wants idle slots empty (`src/c/linux_http_mvc_host.c:186-200`). In every reachable
  state validation passes exactly when the host is closed or no idle slot holds bytes, so draining
  and closing an otherwise healthy host are refused exactly in that case; `Run` then returns while
  still accepting. Under the assumption `tidy`, that closed connections leave their buffers
  empty, the case cannot arise; without it, `BytesLeftBehind` reaches it.
* The stored minimum of a timing stage that was never reset starts from zero. It is right exactly
  when the stage was ever cleared, or a sample that was zero or the maximum of a full window has
  been replaced, or the window holds a zero; otherwise zero is answered (`Stage.Min`, with
  `Rescanned` over the accepted samples). One sample is enough to see it (`FreshMinimum`).
* Scale composition overflows for some scales that were not made by the constructor although the
  product is representable (`UnmadeScaleOverflows`). It fails exactly when a product of the
  cross-reduced terms does not fit, and is the product whenever it does not fail
  (`ComposeMatchesProduct`); for made scales the two never differ (`ComposeIsProduct`).
* A commit or rollback callback runs while its unit is still active, so it can end the unit
  itself; the outer call then overwrites the state, and more than one end callback has run
  (`Commit`, `Rollback`, `EndCallback`). A callback that makes no such attempt is the only one,
  and one that begins with an attempt never is; in between, an attempt takes effect exactly when
  the unit is still active and its checkpoint accepted (`Perform`). `RolledBackCommit` reports a
  commit after a rollback.
* The portable 128-bit divider is proved equal to the general one on every input but -2^127
  divided by -1, the only quotient that signed 128-bit division does not define.

Where code and documentation differ, the model follows the code: the host document says that a
drain ends closed by completion or by deadline and does not mention that the code refuses to
start it in the case above.

## Model

| member | source | states |
|---|---|---|
| `DependencyOrder.CanonicalUnique` | src/c/capability_kernel.c:542-584 | At every length there is at most one least-index topological prefix, so builder and checker cannot disagree about the order |
| `DependencyOrder.CanonicalSound` | src/c/capability_kernel.c:542-584 | A least-index prefix repeats no module and puts every provider before its consumers |
| `DependencyOrder.CanonicalOrderIsPermutation` | src/c/capability_kernel.c:542-584 | A complete order is a permutation of the modules with every provider before its consumers |
| `DependencyOrder.StuckHasCycle` | src/c/capability_kernel.c:557-572 | When no unselected module is ready, some module needs itself, directly or through others |
| `DependencyOrder.CanonicalOrderExcludesCycle` | src/c/capability_kernel.c:542-584 | A complete order exists only without cycles (self-supply is a cycle) |
| `DependencyOrder.AcyclicHasOrder` | src/c/capability_kernel.c:542-584 | Without cycles, every least-index prefix can be completed |
| `DependencyOrder.OrderIffAcyclic` | src/c/capability_kernel.c:542-584 | A complete order exists if and only if the provider graph has no cycle |
| `CapabilityModel.BindingAt` | src/c/capability_kernel.c:457-471 | Each export of each module is published at the index counted over all earlier exports |
| `CapabilityModel.BindingCarries` | src/c/capability_kernel.c:586-644 | The binding of an export carries its identifier, version, interface size, table and context, and the module that exports it |
| `CapabilityModel.BindingOrigin` | src/c/capability_kernel.c:586-644 | Every published binding is the binding of exactly some export, at its index |
| `CapabilityModel.VersionOrder` | src/c/capability_kernel.c:57-62 | Satisfaction is an order on the versions of each major number: transitive, antisymmetric, and any two of one major number compare |
| `CapabilityModel.UpgradeKeeps` | src/c/capability_kernel.c:473-540 | Raising minor versions or interface sizes of exports loses no consumer: every requirement that was met still is, by the same export |
| `CapabilityModel.AnswerUnique` | src/c/capability_kernel.c:398-455 | With distinct export identifiers, an identifier names at most one binding |
| `CapabilityModel.GraphWellFormed` | src/c/capability_kernel.c:473-540 | When every requirement is met, the supply graph names modules of the set only |
| `CapabilityModel.PublicationUnique` | src/c/capability_kernel.c:586-644 | A set of modules has at most one publication: bindings, resolutions and order are all determined |
| `CapabilityModel.PublicationExists` | src/c/capability_kernel.c:646-685 | It has one if and only if every requirement is met and no module needs itself |
| `CapabilityModel.PublishedOrderSound` | src/c/capability_kernel.c:586-644 | In a publication all modules are ordered once, and the supplier of each requirement starts before the module that states it |
| `CapabilityKernel.CountsMeasure` | src/c/capability_kernel.c:120-151 | Counts every export and requirement; fails exactly on a malformed module header or a count that does not fit |
| `CapabilityKernel.DeclarationsValidate` | src/c/capability_kernel.c:398-455 | Accepts the declarations of a module exactly when they are well formed and its identifiers clash with no earlier one |
| `CapabilityKernel.EarlierExportExists` | src/c/capability_kernel.c:398-455 | True exactly when an export before this one, in module then position order, has the same identifier |
| `CapabilityKernel.DescriptorSetValidate` | src/c/capability_kernel.c:398-455 | Accepts exactly the well-formed sets with distinct module and export identifiers; each failure names a fault that is there |
| `CapabilityKernel.BindingIndexForExport` | src/c/capability_kernel.c:457-471 | The flat index of an export never overflows once the counts fit |
| `CapabilityKernel.ProviderScan` | src/c/capability_kernel.c:473-540 | The scan tells 'no such identifier' from 'incompatible version or size', and a compatible hit is an answer to the requirement |
| `CapabilityKernel.RequirementResolve` | src/c/capability_kernel.c:473-540 | Gives the unique supplier, else -EPROTONOSUPPORT or -ENOENT as specified |
| `CapabilityKernel.RequirementsResolve` | src/c/capability_kernel.c:473-540 | Succeeds exactly when all requirements are met, with each module's indegree its number of requirements; otherwise the status is that of the first unmet requirement |
| `CapabilityKernel.FindReady` | src/c/capability_kernel.c:557-568 | Finds the least-index ready module, or proves that nothing is ready |
| `CapabilityKernel.ReleaseConsumer` | src/c/capability_kernel.c:569-582 | Indegree stays the number of outstanding providers, so it is positive whenever it is lowered: the inner -EINVAL is unreachable |
| `CapabilityKernel.ReleaseConsumers` | src/c/capability_kernel.c:569-582 | After a selection every indegree again counts the providers still missing |
| `CapabilityKernel.SelectModule` | src/c/capability_kernel.c:566-582 | Selecting appends exactly the chosen module and keeps the degree accounts |
| `CapabilityKernel.TopologicalOrderBuild` | src/c/capability_kernel.c:542-584 | Ends with the canonical order of all modules if and only if there is no cycle, else with -ELOOP |
| `CapabilityKernel.PublishCatalog` | src/c/capability_kernel.c:586-644 | Writes exactly the publication, and nothing behind it in the caller's arrays |
| `CapabilityKernel.Prepare` | src/c/capability_kernel.c:646-685 | Succeeds exactly when counts, room, declarations, requirements and acyclicity allow and publishes a valid catalog; a failure is named in the order of the checks (malformed module, count overflow, room, declaration fault, first unmet requirement, cycle) and leaves storage and output as they were |
| `CapabilityCatalog.ModulePosition` | src/c/capability_kernel.c:703-715 | The first position of a module in the order, or an error when it is missing |
| `CapabilityCatalog.InOrderPrefix` | src/c/capability_kernel.c:717-728 | Membership in a prefix of the order |
| `CapabilityCatalog.ModuleReadyAtPosition` | src/c/capability_kernel.c:730-781 | The checker's own readiness test equals readiness in the supply graph |
| `CapabilityCatalog.CanonicalModuleOrderValidate` | src/c/capability_kernel.c:783-812 | Accepts an order exactly when it is the least-index topological order |
| `CapabilityCatalog.BindingsValidate` | src/c/capability_kernel.c:814-919 | Accepts exactly the bindings that the modules' exports determine |
| `CapabilityCatalog.ResolutionsValidate` | src/c/capability_kernel.c:814-919 | Accepts exactly the determined resolutions, each provider placed before its consumer |
| `CapabilityCatalog.CanonicalPlaces` | src/c/capability_kernel.c:814-919 | The extra position test rejects nothing that the recomputed order accepts |
| `CapabilityCatalog.Validate` | src/c/capability_kernel.c:814-919 | Accepts a catalog if and only if it is the publication of its own modules under an acceptable header |
| `CapabilityCatalog.AcceptedIsPublished` | src/c/capability_kernel.c:814-919 | Two accepted catalogs of the same modules are equal table by table; what validation accepts is what preparation would publish |
| `CapabilityCatalog.FindModule` | src/c/capability_kernel.c:921-943 | In a valid catalog: found exactly when the identifier is present |
| `CapabilityCatalog.Find` | src/c/capability_kernel.c:945-976 | In a valid catalog: the unique answer to the query, or the status that says why there is none |
| `CapabilityCatalog.Resolve` | src/c/capability_kernel.c:978-1010 | Succeeds exactly for stated requirements of valid catalogs, with a supplier that starts earlier |
| `Rounding.RoundingUnique` | src/c/geometry.c:47-119 | Each rounding mode, stated by inequalities, allows one quotient |
| `Rounding.RoundedIsRounding` | src/c/geometry.c:47-119 | The specified rounding satisfies the inequalities of its mode, for either sign of either operand |
| `Rounding.RoundDivCorrect` | src/c/geometry.c:47-119 | The general divider gives the exact rounding, or overflow exactly when that rounding is not 64-bit, in all four modes |
| `Rounding.ShiftEqualsGeneral` | src/c/geometry.c:242-280 | The shift-by-32 path equals the general nearest-even divider in status and value for every 128-bit numerator |
| `Rounding.DivqEqualsGeneral` | src/c/geometry.c:131-197 | The divq path equals the general divider for every 128-bit numerator and 64-bit divisor; its early exit is taken only for quotients that cannot fit |
| `Rounding.PortableEqualsGeneral` | src/c/geometry.c:199-239 | The portable path agrees too, on every input but -2^127 divided by -1, the one quotient that signed 128-bit division does not define |
| `Rounding.RoundedMonotone` | src/c/geometry.c:47-119 | Nearest-even rounding is monotone in the numerator |
| `Rounding.RoundedError` | src/c/geometry.c:47-119 | The rounding error is at most half a unit |
| `Affine.AddSubExact` | src/c/geometry.c:444-474 | Addition and subtraction overflow exactly when the true result does not fit |
| `Affine.MulDivExact` | src/c/geometry.c:500-520 | Multiplication and division round the exact product or quotient once |
| `Affine.IntegerRoundTrip` | src/c/geometry.c:398-442 | An integer that converts to Q32.32 comes back unchanged in every rounding mode |
| `Affine.WideCannotRound` | src/c/geometry.c:316-334 | A sum that leaves 128 bits could not have rounded to 64 bits |
| `Affine.FusedExact` | src/c/geometry.c:299-334 | Both fused sums equal the once-rounded exact value, and overflow exactly when that is not a coordinate |
| `Affine.IdentityNeutral` | src/c/geometry.c:756-764 | The identity is neutral for composition on both sides, without rounding |
| `Affine.TransformPointExact` | src/c/geometry.c:975-989 | The image of a point is the matrix ((a, c, tx), (b, d, ty)) applied to it, each coordinate rounded once; it fails exactly when a rounded coordinate does not fit |
| `Affine.ComposeActs` | src/c/geometry.c:902-925 | Transforming by a composition is transforming by the right map and then by the left one, up to 3/2 raw units plus (the sum of abs x, abs y and the left row)/2^33 |
| `Affine.InvertOutcome` | src/c/geometry.c:927-973 | Singular exactly for the exact determinant zero; an inverse exactly when that determinant is 128-bit and not zero and every rounded entry fits; overflow otherwise |
| `Affine.InverseEntries` | src/c/geometry.c:927-973 | The entries of an inverse are the rounded cofactor quotients of the determinant |
| `Affine.InverseNearIdentity` | src/c/geometry.c:902-973 | A computed inverse composed with its map differs from the identity by at most (abs a + abs b)/2^33 + 1/2 raw units in the first column and (abs c + abs d)/2^33 + 1/2 in the second, and not at all in the translation |
| `Affine.RowExtremes` | src/c/geometry.c:991-1029 | Over a rectangle, a row of the map takes its extremes at corners |
| `Affine.RowWithin` | src/c/geometry.c:991-1029 | When the corners round into bounds, every point of the rectangle does |
| `Affine.Extent` | src/c/geometry.c:1017-1027 | Least and greatest coordinates of the four images, each attained |
| `Affine.RectEdgesExact` | src/c/geometry.c:336-361 | The far edges are the exact sums; an invalid argument is reported exactly for a negative extent and an overflow exactly when an edge does not fit |
| `Affine.RectFromEdgesExact` | src/c/geometry.c:565-588 | A rectangle built from ordered edges has exactly these edges, and exists exactly when its extents fit |
| `Affine.TransformRectBounds` | src/c/geometry.c:991-1029 | Succeeds exactly when the corners map and span a representable rectangle; then every lattice point maps (by the rows that TransformPointExact gives), lands inside, and each edge is touched |
| `Rotation.ShiftIsFloor` | src/c/geometry.c:363-386 | The arithmetic shift is floor division by the power of two, also for negative values |
| `Rotation.AngleShrinks` | src/c/geometry.c:831-865 | After i steps the residual angle is within the table bound for i |
| `Rotation.ResidualAngle` | src/c/geometry.c:831-865 | After the last step at most one raw unit of angle is left, either way |
| `Rotation.FinalNorm` | src/c/geometry.c:17-29 | The starting constant makes the exact final squared length 2^124 up to a stated remainder |
| `Rotation.StepNorm` | src/c/geometry.c:831-865 | One step keeps the squared length on the exact norm up to the accumulated margin |
| `Rotation.RunNorm` | src/c/geometry.c:831-865 | So do all steps, for every angle |
| `Rotation.RunStaysInRange` | src/c/geometry.c:831-865 | No intermediate position or angle leaves 64 bits |
| `Rotation.UnitLength` | src/c/geometry.c:831-889 | The rounded cosine and sine have a squared sum within the stated error of 2^64 |
| `Rotation.RotationNearUnit` | src/c/geometry.c:784-900 | The same for every turn value |
| `Rotation.QuarterTurns` | src/c/geometry.c:784-830 | Whole turns change nothing and a quarter turn is an exact quarter rotation |
| `Rotation.QuarterComposes` | src/c/geometry.c:784-900 | Turning a quarter further equals composing with the exact quarter rotation |
| `Rotation.QuarterMoves` | src/c/geometry.c:784-900 | Transforming by a quarter rotation sends (x, y) to (-y, x) exactly |
| `Rotation.Cordic` | src/c/geometry.c:831-889 | The loop computes the specified vector, the one RunPoints follows, with every checked operation succeeding |
| `Rotation.RotationTurns` | src/c/geometry.c:784-900 | Never fails, and gives the rotation whose coefficients CosSinBearing and AngleAddition measure, for every 64-bit turn value |
| `Turns.CisAdd` | src/c/geometry.c:17-28 | Turning on the circle is additive, forwards and backwards: the reference against which the step table and the rotation are measured |
| `TurnTable.TableOk` | src/c/geometry.c:17-28 | Every entry of the step table is the nearest raw angle to its step (1, 2^-i): turned by the entry, that vector is level to less than half a raw turn, and it points forward |
| `RotationAngle.StepExact` | src/c/geometry.c:835-852 | One step turns the vector by (1, 2^-i) in the sense of the residual angle, up to two raw units for the discarded fractions |
| `RotationAngle.RunPoints` | src/c/geometry.c:831-852 | For every starting angle and after each step, the vector points where the angle spent so far says, up to a drift stated for that step |
| `RotationAngle.CosSinBearing` | src/c/geometry.c:784-900 | For every turn value, cosine and sine lie within 105 raw units of the point of the circle of that angle |
| `RotationAngle.AngleAddition` | src/c/geometry.c:784-900 | Turning by s + t is turning by s and by t: the coefficients of the sum are the complex product of the two pairs up to 316 raw units, for all turn values (s = t doubles an angle) |
| `RotationAngle.FirstQuadrant` | src/c/geometry.c:831-889 | Inside the first quarter both coefficients are non-negative, up to 105 raw units |
| `RotationAngle.Reflection` | src/c/geometry.c:831-889 | At a quarter minus f the coefficients are those at f exchanged, up to 210 raw units |
| `RotationAngle.EighthTurn` | src/c/geometry.c:831-889 | At an eighth turn both coefficients are within 105 raw units of 3037000500, half the square root of two |
| `DeviceScale.GcdSound` | src/c/geometry.c:388-396 | Euclid's recursion gives a common divisor divisible by every common divisor |
| `DeviceScale.U64Gcd` | src/c/geometry.c:388-396 | The loop terminates with that divisor |
| `DeviceScale.ReducedIsLowest` | src/c/geometry.c:1036-1054 | Dividing by the gcd keeps the ratio and leaves coprime terms |
| `DeviceScale.LowestTermsUnique` | src/c/geometry.c:1036-1054 | A ratio has one form in lowest terms |
| `DeviceScale.DeviceScaleMake` | src/c/geometry.c:1036-1054 | Makes exactly the ratio in lowest terms, and refuses zero terms |
| `DeviceScale.CrossReduced` | src/c/geometry.c:1056-1093 | Cross-reducing two ratios in lowest terms gives coprime products |
| `DeviceScale.ComposeIsProduct` | src/c/geometry.c:1056-1093 | For made scales, composition is the exact product in lowest terms and overflows exactly when that does not fit |
| `DeviceScale.ComposeMatchesProduct` | src/c/geometry.c:1056-1093 | For any two scales with nonzero terms, composition fails exactly when the products of the cross-reduced terms do not fit, what it returns is the exact product, and so it is the product exactly when those terms fit or the product does not fit either |
| `DeviceScale.ComposedIsExact` | src/c/geometry.c:1056-1093 | Whatever composition returns is exact, also for scales that were not made |
| `DeviceScale.UnmadeScaleOverflows` | src/c/geometry.c:1056-1093 | An input where composition overflows although the product is one |
| `DeviceScale.DeviceScaleCompose` | src/c/geometry.c:1056-1093 | Refuses zero terms, overflows exactly when the cross-reduced terms do not fit, and otherwise returns the product in lowest terms |
| `DeviceScale.ScaleCoordExact` | src/c/geometry.c:1115-1129 | Refuses exactly a scale out of range; otherwise the result is value times numerator over denominator to half a unit, and fails exactly when that does not fit |
| `DeviceScale.MapPointExact` | src/c/geometry.c:1131-1154 | Each device coordinate minus its own origin is within half a unit of value times scale; a point is refused exactly for a scale out of range and overflows exactly when a scaled or moved coordinate does not fit |
| `DeviceScale.MapRectCorners` | src/c/geometry.c:1156-1197 | A mapped rectangle runs exactly from the image of its near corner to the image of its far one, and exists exactly when both map and its extents fit |
| `DeviceScale.MapRectEncloses` | src/c/geometry.c:1156-1197 | A mapped rectangle holds the image, as MapPointExact gives it, of every point of the closed rectangle |
| `DeviceScale.MapRectExtentNonNegative` | src/c/geometry.c:1156-1197 | The final negative-extent test never fires: success depends only on edges and extents fitting |
| `ServiceModel.ManagerUnique` | src/c/application_service.c:456-499 | A module has at most one managing descriptor and a descriptor manages one module |
| `ServiceModel.PlanOrigin` | src/c/application_service.c:780-856 | Every planned slot comes from one position of the catalog order |
| `ServiceModel.PlanDistinct` | src/c/application_service.c:780-856 | No descriptor and no module is planned twice |
| `ServiceModel.PlanComplete` | src/c/application_service.c:780-856 | Every descriptor is planned exactly once |
| `ServiceModel.ProviderPlannedEarlier` | src/c/application_service.c:780-856 | A managed provider is planned before every planned module that needs it |
| `ServiceModel.ActiveBelowSound` | src/c/application_service.c:1098-1220 | The callback indices are exactly the active records, in increasing order |
| `ServiceRuntime.Callbacks.Prepare` | src/c/application_service.c:1098-1220 | At each prepare callback all earlier records are ready and the module map is exact (its precondition) |
| `ServiceRuntime.Callbacks.Stop` | src/c/application_service.c:1553-1608 | At each stop callback the runtime passes validation in the stopping state (its precondition) |
| `ServiceRuntime.InterfaceValidate` | src/c/application_service.c:329-357 | Accepts exactly the sound interface tables, and reports a foreign version exactly when the table has one and everything checked before it is sound |
| `ServiceRuntime.BindingForServiceExport` | src/c/application_service.c:359-397 | Looking an export up by its own identifier and version finds that export |
| `ServiceRuntime.ModuleIndexDirect` | src/c/application_service.c:261-277 | Finds a module by identifier, or reports its absence |
| `ServiceRuntime.DescriptorValidate` | src/c/application_service.c:399-454 | Accepts exactly the descriptors of a catalog module that declare distinct existing exports with sound tables |
| `ServiceRuntime.ServiceSetValidate` | src/c/application_service.c:456-499 | Accepts exactly the sets of such descriptors for distinct modules over a valid catalog |
| `ServiceRuntime.BuildModuleMap` | src/c/application_service.c:780-814 | Maps each module to its one manager, else to the marker |
| `ServiceRuntime.BuildRecords` | src/c/application_service.c:815-856 | Writes the filtered catalog order as empty records |
| `ServiceRuntime.RollbackDownUndoes` | src/c/application_service.c:1034-1054 | Walking records downwards undoes the active ones in reverse, once each |
| `ServiceRuntime.RollbackPreparedPrefix` | src/c/application_service.c:1034-1054 | Exactly the active records before the failed one are rolled back, last first; later records are not touched |
| `ServiceRuntime.PrepareRecord` | src/c/application_service.c:1098-1220 | One record: its callback runs at most once and a failure is normalised |
| `ServiceRuntime.PrepareRecords` | src/c/application_service.c:1098-1220 | Callbacks run in plan order up to the first failure, followed by the reverse rollback of exactly the earlier ones |
| `ServiceRuntime.ReadyRecordsValidate` | src/c/application_service.c:1056-1096 | The second look at the records always passes |
| `ServiceRuntime.Prepare` | src/c/application_service.c:1098-1220 | Publishes a valid ready runtime, or publishes nothing; the callback trace is fixed in every case, for every sequence of callback results |
| `ServiceRuntime.ManagedBindingValidate` | src/c/application_service.c:874-917 | A managed binding is usable exactly when its provider's record is ready |
| `ServiceRuntime.PrepareResolve` | src/c/application_service.c:974-1032 | Over a sound service set: refused exactly when the caller does not own the preparing record or the requirement does not exist, else the unique supplier, with -EAGAIN exactly when its record is not usable; from a prepare callback never -EAGAIN |
| `ServiceRuntime.RecordsValidate` | src/c/application_service.c:1380-1453 | Accepts records exactly when they follow the plan in states the runtime state allows |
| `ServiceRuntime.Validate` | src/c/application_service.c:1380-1453 | Accepts a runtime if and only if header, descriptors, plan and record states agree |
| `ServiceRuntime.FindReady` | src/c/application_service.c:1479-1551 | In a ready runtime, finds exactly the services that a managed module declares, with the unique binding; else says why not |
| `ServiceRuntime.FindRecord` | src/c/application_service.c:1455-1477 | A managed module has a record, which decides whether the binding is offered |
| `ServiceRuntime.StopRecord` | src/c/application_service.c:1573-1600 | One stop: the callback of an active module runs once, the result is kept, and the runtime stays valid |
| `ServiceRuntime.StopRecords` | src/c/application_service.c:1573-1600 | Every record is attempted once, last first, over any failures |
| `ServiceRuntime.Stop` | src/c/application_service.c:1553-1608 | Attempts each active module once in reverse, returns the first failure met, ends valid; a nested stop gets -EBUSY and later stops run no callback |
| `ServiceRuntime.FirstStopFailureSeen` | src/c/application_service.c:1553-1608 | The returned status is zero exactly when no callback failed |
| `ConfigText.ScalarDecides` | src/c/config.c:223-280 | Checking minimum, maximum and surrogates of the decoded scalar is checking the byte ranges of section 4 of RFC 3629 |
| `ConfigText.DecodeTail` | src/c/config.c:262-271 | Decodes the tail bytes, or reports one that is none |
| `ConfigText.ReadChar` | src/c/config.c:223-280 | Advances by exactly one character of the grammar |
| `ConfigText.Utf8Valid` | src/c/config.c:223-280 | Accepts exactly UTF8-octets of section 4 of RFC 3629 without NUL |
| `ConfigText.NameValid` | src/c/config.c:188-221 | Accepts exactly the names of 1 to 63 allowed bytes |
| `ConfigText.DecimalValue` | src/c/config.c:626-650 | Reads digits up to a limit; the division test detects overflow exactly |
| `ConfigText.DecimalRoundTrip` | src/c/config.c:626-650 | The decimal text of a number reads back as that number, and never looks signed |
| `ConfigSchema.DenotesCanonical` | src/c/config.c:613-770 | A text denotes at most one value, and that value is canonical for its descriptor |
| `ConfigSchema.CanonicalHasText` | src/c/config.c:613-770 | Every canonical value of every kind is denoted by a text: writing it out and reading it back gives the value |
| `ConfigSchema.NamesUnique` | src/c/config.c:299-312 | In a valid schema a name belongs to one descriptor |
| `ConfigSchema.ValueCanonical` | src/c/config.c:320-415 | Accepts exactly the values that use only their own field and satisfy their constraints |
| `ConfigSchema.ChoicesValid` | src/c/config.c:536-578 | Accepts exactly well-named choices with distinct names and values |
| `ConfigSchema.DescriptorValid` | src/c/config.c:449-608 | Accepts exactly descriptors that are required or have a canonical default, never both |
| `ConfigSchema.ValidateSchema` | src/c/config.c:417-611 | Accepts exactly schemas of valid descriptors whose names differ in each namespace |
| `ConfigSchema.FindDescriptor` | src/c/config.c:299-312 | The first descriptor of that name, or none |
| `ConfigSchema.ParseU64` | src/c/config.c:636-667 | Accepts exactly decimal numbers within 64 bits and the bounds |
| `ConfigSchema.ParseI64` | src/c/config.c:668-719 | The same with an optional minus, down to the most negative value |
| `ConfigSchema.ParseEnum` | src/c/config.c:743-759 | Accepts exactly the declared choices |
| `ConfigSchema.ParseTextValue` | src/c/config.c:613-770 | Accepts exactly the texts that denote a value, and returns it |
| `ConfigSources.LinesRebuild` | src/c/config.c:772-817 | Cutting a document into lines and endings loses nothing: put together they are the document |
| `ConfigSources.FileRecordNext` | src/c/config.c:772-817 | Yields the next physical line; refuses NUL and a lone carriage return |
| `ConfigSources.AssignmentFromFile` | src/c/config.c:819-847 | Splits at the first equals sign; blank and comment lines assign nothing |
| `ConfigSources.LineRebuilt` | src/c/config.c:819-847 | Name, equals sign and value of an assignment put together are its line; the name is not empty and holds no equals sign, and the offset is that of the value |
| `ConfigSources.FileSeenBefore` | src/c/config.c:897-931 | The rescan is true exactly when an earlier record assigned the key |
| `ConfigSources.RescanLine` | src/c/config.c:897-931 | A rescanned line hits exactly when it assigns the key |
| `ConfigSources.CheckRecord` | src/c/config.c:958-1012 | One more record is accepted exactly when the longer prefix is acceptable |
| `ConfigSources.ValidateFile` | src/c/config.c:958-1012 | Accepts exactly files of well-formed records that assign distinct known keys allowed values |
| `ConfigSources.VectorRecord` | src/c/config.c:849-895 | Accepts exactly well-formed entries, two dashes included for the command line, and splits them |
| `ConfigSources.EntryRebuilt` | src/c/config.c:849-895 | The same for an entry, with its two dashes on the command line |
| `ConfigSources.VectorSeenBefore` | src/c/config.c:933-956 | The rescan is true exactly when an earlier entry assigned the key |
| `ConfigSources.CheckEntry` | src/c/config.c:1014-1058 | One more entry is accepted exactly when the longer prefix is acceptable |
| `ConfigSources.ValidateVector` | src/c/config.c:1014-1058 | Accepts exactly vectors of well-formed entries that assign distinct known keys allowed values |
| `ConfigSources.ValidateSources` | src/c/config.c:1060-1086 | Accepts exactly when all three sources are acceptable, overridden or not |
| `ConfigSources.AssignmentsAppend` | src/c/config.c:958-1012 | A list extended by an assignment stays acceptable exactly when the key is new and the value allowed |
| `ConfigResolve.ResolveDescriptor` | src/c/config.c:1088-1183 | Command line, else environment, else file, else default decides, with that origin; else -ENOENT |
| `ConfigResolve.DecidedUnique` | src/c/config.c:1088-1183 | A key has at most one resolution, so measuring and preparing see the same value |
| `ConfigResolve.DecidedCanonical` | src/c/config.c:1088-1183 | A resolved value is canonical for its descriptor |
| `ConfigResolve.ScanFile` | src/c/config.c:1110-1139 | Reading the file overrides the default exactly when it assigns the key |
| `ConfigResolve.ScanVector` | src/c/config.c:1141-1176 | Reading a vector overrides what came before exactly when it assigns the key |
| `ConfigStore.Total` | src/c/config.c:1199-1216 | The running sum is the length of all string values, and overflows exactly when that does not fit |
| `ConfigStore.Measure` | src/c/config.c:1185-1243 | Succeeds exactly for acceptable, resolvable configurations whose sizes fit, and reports the exact sizes |
| `ConfigStore.Prepare` | src/c/config.c:1654-1737 | Succeeds exactly when measuring does and the storage is disjoint and large enough; publishes the resolved values, origins and strings packed back to back in exactly the measured bytes, and otherwise changes nothing |
| `ConfigStore.PublishNext` | src/c/config.c:1688-1727 | One key is published behind the earlier ones and nothing further is touched |
| `ConfigStore.PackedAt` | src/c/config.c:1688-1727 | Each string lies at the sum of the earlier lengths |
| `ConfigStore.PublishedReads` | src/c/config.c:1698-1713 | A published string reads exactly as its source text |
| `ConfigStore.PreparedIsValid` | src/c/config.c:1654-1737 | Everything prepare publishes passes validation |
| `ConfigStore.InPlaceValid` | src/c/config.c:1739-1750 | A string must be absent or lie in the store right behind the earlier ones |
| `ConfigStore.Validate` | src/c/config.c:1752-1822 | Accepts exactly results that are canonical, well attributed and packed without gaps |
| `ConfigStore.PrepareThenValidate` | src/c/config.c:1654-1822 | A successful prepare is always followed by a successful validate |
| `ConnectionHost.CountUpdate` | src/c/linux_http_mvc_host.c:537-554 | Changing one slot changes the number of active slots by that slot alone |
| `ConnectionHost.Prepare` | src/c/linux_http_mvc_host.c:329-420 | Accepts exactly options of this version, size and range, a valid application and idle empty slots, and starts in the prepared phase with those options |
| `ConnectionHost.Host.RuntimeValidate` | src/c/linux_http_mvc_host.c:236-302 | Every reachable state passes |
| `ConnectionHost.Host.Validate` | src/c/linux_http_mvc_host.c:422-454 | A reachable state passes if and only if it is closed or no idle slot has bytes left in its buffers |
| `ConnectionHost.Host.NoteFailure` | src/c/linux_http_mvc_host.c:511-522 | The first noted failure is kept for good, positive ones as -EIO |
| `ConnectionHost.Host.Increment` | src/c/linux_http_mvc_host.c:524-535 | A counter below the limit grows by one and notes nothing |
| `ConnectionHost.Host.CountActiveSlots` | src/c/linux_http_mvc_host.c:537-554 | Counts the active slots and cannot fail |
| `ConnectionHost.Host.FindFreeSlot` | src/c/linux_http_mvc_host.c:556-565 | The first idle slot, or none |
| `ConnectionHost.Host.FindConnectionSlot` | src/c/linux_http_mvc_host.c:567-579 | The first active slot of an event, or none |
| `ConnectionHost.Host.CloseSlot` | src/c/linux_http_mvc_host.c:581-595 | The slot becomes idle whatever closing answers, and its connection is closed exactly when it was still open; no other slot changes, and a connection that was closed already keeps what its buffers hold |
| `ConnectionHost.Host.Retire` | src/c/linux_http_mvc_host.c:633-652 | A failed connection leaves the active count and, while draining, enters the inactive count |
| `ConnectionHost.Host.StepConnection` | src/c/linux_http_mvc_host.c:607-657 | The slot's new state follows from the step's answer, and active plus inactive is conserved |
| `ConnectionHost.Host.AdvanceSlot` | src/c/linux_http_mvc_host.c:607-657 | The answer of the step decides what becomes of the slot: pending, open, finished, or failed and, while draining, noted; only that slot changes, none is opened, and the invariant is kept |
| `ConnectionHost.Host.AnyMoreWork` | src/c/linux_http_mvc_host.c:659-668 | True exactly when an active slot asked to be called again |
| `ConnectionHost.Host.WaitAccepting` | src/c/linux_http_mvc_host.c:878-890 | Does not wait while a connection asked to be called again, else for the configured time |
| `ConnectionHost.Host.Rearm` | src/c/linux_http_mvc_host.c:871-876 | A listener that was disarmed is armed again exactly when a slot is free |
| `ConnectionHost.Host.SetListenerReadable` | src/c/linux_http_mvc_host.c:670-693 | The flag changes only if the kernel accepted |
| `ConnectionHost.Host.AcceptReady` | src/c/linux_http_mvc_host.c:695-730 | Connections are accepted until none is left, an accept fails or no slot is free, each taken one adds one active slot, open ones are not touched, and a full host stops listening |
| `ConnectionHost.Host.AcceptInto` | src/c/linux_http_mvc_host.c:695-730 | A slot becomes active exactly when a connection was accepted; the status is that of the accept, nothing left being none |
| `ConnectionHost.Host.CloseListener` | src/c/linux_http_mvc_host.c:732-746 | The listener is gone whatever closing answers |
| `ConnectionHost.Host.Serve` | src/c/linux_http_mvc_host.c:899-903 | An event steps the first active slot of its address; a stale one is ignored |
| `ConnectionHost.Host.DispatchAccepting` | src/c/linux_http_mvc_host.c:892-904 | Every slot that an event of the batch is for is stepped, and a listener event is reported exactly when there is one |
| `ConnectionHost.Host.ServeAccepting` | src/c/linux_http_mvc_host.c:892-908 | A listener event on an armed listener is answered by accepting to the end; if it is still armed afterwards nothing was left to accept |
| `ConnectionHost.Host.ForceCloseActive` | src/c/linux_http_mvc_host.c:763-783 | Leaves no slot active, counts exactly those that were and closes every connection still open |
| `ConnectionHost.Host.FinishDrain` | src/c/linux_http_mvc_host.c:785-808 | Ends closed with inactive plus forced equal to the participants, reporting the first failure; forcing closes every open connection, and the event loop is closed last |
| `ConnectionHost.Host.StartClock` | src/c/linux_http_mvc_host.c:834-859 | With a good reading, a deadline that fits, time allowed and participants left it drains, with the deadline exactly that far off; else it ends closed: expired exactly if no time was allowed, with nothing forced if only the participants were missing, and otherwise with the failure noted |
| `ConnectionHost.Host.BeginDrain` | src/c/linux_http_mvc_host.c:810-859 | From accepting, fixes participants and deadline once or closes, which of the two decided by the clock reading, the time allowed and the participants; refuses, changing nothing, when an idle slot holds bytes; repeats change nothing |
| `ConnectionHost.Host.AdvanceMoreWork` | src/c/linux_http_mvc_host.c:865-869 | Steps every pending slot exactly once, in order |
| `ConnectionHost.Host.AcceptingStep` | src/c/linux_http_mvc_host.c:861-909 | Steps every pending slot and every slot an event is for, accepts after a listener event, passes on a failed wait, notes no failure and keeps the invariant |
| `ConnectionHost.Host.DrainNowOrEnforce` | src/c/linux_http_mvc_host.c:911-928 | Before the deadline nothing changes and the time left is exact; from the deadline on every active connection is forced and the drain counts as expired; a failing clock is noted and forces too |
| `ConnectionHost.Host.VerdictJoins` | src/c/linux_http_mvc_host.c:930-996 | Turns that went well before the last one do not change its verdict, so that it holds over whole runs |
| `ConnectionHost.Host.DispatchDraining` | src/c/linux_http_mvc_host.c:980-986 | Every slot that an event of the batch is for is stepped |
| `ConnectionHost.Host.DrainPending` | src/c/linux_http_mvc_host.c:933-952 | The first reading, then every pending slot once; closed only by deadline, noted failure or with no participant left |
| `ConnectionHost.Host.WaitAndServe` | src/c/linux_http_mvc_host.c:958-990 | Never waits past the deadline and not at all for pending work; every slot an event is for is stepped; a failed wait is noted and forces, and otherwise it ends closed only with nothing forced |
| `ConnectionHost.Host.DrainReady` | src/c/linux_http_mvc_host.c:954-994 | The second reading, then one wait whose events are all served; closed only by deadline, noted failure or with no participant left |
| `ConnectionHost.Host.DrainingStep` | src/c/linux_http_mvc_host.c:930-996 | While every reading is before the deadline and no clock or wait fails, nothing is forced and draining goes on as long as a participant is left; expired exactly if the last reading reached the deadline; opens nothing |
| `ConnectionHost.Host.Step` | src/c/linux_http_mvc_host.c:998-1012 | One turn keeps the invariant for every clock, poll and connection answer, steps every pending slot, and ends a drain only for the reasons of DrainingStep |
| `ConnectionHost.Host.CloseAfterFailure` | src/c/linux_http_mvc_host.c:1014-1030 | Closes with every active connection forced and reports the failure |
| `ConnectionHost.Host.Run` | src/c/linux_http_mvc_host.c:1032-1065 | Ends closed with the first failure, and a drain it began with only for the reasons of DrainingStep, over all its turns; the one exception is a stop requested while an idle slot holds bytes, which returns -EINVAL still accepting |
| `ConnectionHost.Host.Open` | src/c/linux_http_mvc_host.c:456-495 | Opens only a prepared host; the status is that of the last of the two descriptors asked for, a failure changes nothing, and one of the event loop closes the listener again |
| `ConnectionHost.Host.Close` | src/c/linux_http_mvc_host.c:1067-1095 | Closes from any phase unless an idle slot holds bytes; closing again does nothing |
| `ConnectionHost.Host.ShutdownResultGet` | src/c/linux_http_mvc_host.c:1097-1111 | Only when closed; inactive plus forced is the number of participants and the failure is the first one noted |
| `ConnectionHost.BytesLeftBehind` | src/asm/server.asm:620-669 | A host that satisfies the invariant while an idle slot holds bytes, and whose drain is therefore refused |
| `Raster.FloorCeilExact` | experiments/renderer/raster_foundation_candidates.h:149-167 | The corrected truncating divisions are floor and ceiling |
| `Raster.OverlapCounts` | experiments/renderer/raster_foundation_candidates.h:215-227 | Overlap is the number of raw positions that the two intervals share |
| `Raster.CoverageExact` | experiments/renderer/raster_foundation_candidates.h:229-323 | Coverage is the exact area rounded to half a unit, at most one, and the product overflows only where it is not computed |
| `Raster.OverlapTelescopes` | experiments/renderer/raster_foundation_candidates.h:215-227 | Overlaps of adjacent pixels add up to the overlap with their union |
| `Raster.BoundsExist` | experiments/renderer/raster_foundation_candidates.h:169-213 | Bounds exist exactly for extents that are not negative, edges that fit and a surface that is not too large |
| `Raster.BoundsTight` | experiments/renderer/raster_foundation_candidates.h:169-213 | For positive extents a pixel of the surface lies in the bounds exactly when its area in the rectangle is positive, so every edge row and column is touched |
| `Raster.AxisCovered` | experiments/renderer/raster_foundation_candidates.h:169-213 | The clamped pixel range sees the whole clipped extent, and pixels outside it overlap nothing |
| `Raster.AreaConserved` | experiments/renderer/raster_foundation_candidates.h:169-276 | Overlap products over the pixel bounds, the tight ones, sum exactly to the area clipped to the surface |
| `Raster.OutsideUncovered` | experiments/renderer/raster_foundation_candidates.h:169-323 | Pixels of the surface outside the bounds have zero coverage in both precisions |
| `Raster.CoverageConserved` | experiments/renderer/raster_foundation_candidates.h:229-323 | Summed rounded coverage is the clipped area up to half a unit per pixel, in both precisions |
| `UriHost.Ipv4OctetValid` | src/c/http.c:456-474 | Accepts exactly dec-octet of section 3.2.2 of RFC 3986 |
| `UriHost.Ipv4AddressValid` | src/c/http.c:476-494 | Accepts exactly IPv4address |
| `UriHost.H16Valid` | src/c/http.c:496-508 | Accepts exactly h16 |
| `UriHost.GroupsCounted` | src/c/http.c:510-581 | Counting groups decides each k( h16 ":" ) ls32 of the grammar |
| `UriHost.CompressedCounted` | src/c/http.c:510-581 | The eight alternatives with "::" together allow exactly seven groups or fewer around it |
| `UriHost.AcceptsRight` | src/c/http.c:510-581 | After the "::" the loop accepts exactly lists short enough |
| `UriHost.AcceptsLeft` | src/c/http.c:510-581 | Before it, exactly eight groups or a list split by one "::" |
| `UriHost.Ipv6Scanned` | src/c/http.c:510-581 | The loop's decision procedure is the grammar's nine alternatives |
| `UriHost.ScanGroups` | src/c/http.c:535-580 | The loop with its group counter and compression flag is that procedure |
| `UriHost.Ipv6AddressValid` | src/c/http.c:510-581 | Accepts exactly IPv6address of section 3.2.2 of RFC 3986 |
| `UriHost.IpvFutureValid` | src/c/http.c:583-609 | Accepts exactly IPvFuture |
| `UriHost.RegNameValid` | src/c/http.c:435-454 | Accepts exactly nonempty reg-name |
| `UriHost.IpLiteralValid` | src/c/http.c:611-617 | Accepts exactly the content of an IP-literal |
| `UriHost.BracketedHost` | src/c/http.c:627-638 | A bracketed host ends at the first closing bracket |
| `UriHost.NamedHost` | src/c/http.c:639-648 | Any other host ends at the first colon |
| `UriHost.HostValueValid` | src/c/http.c:619-659 | Accepts exactly a bracketed literal or nonempty reg-name with an optional colon and digits |
| `ConnectionField.ListStep` | src/c/http.c:716-758 | A list is acceptable exactly when its first element and the rest are |
| `ConnectionField.ElementOutcome` | src/c/http.c:731-753 | A token and white space are an element only in front of a comma or the end |
| `ConnectionField.ConnectionValueHasClose` | src/c/http.c:716-758 | Accepts exactly comma-separated lists of tokens with empty elements allowed, and finds the close option in any case |
| `ConnectionField.FieldValueValid` | src/c/http.c:201-216 | Accepts exactly field values without control bytes other than tab |
| `ConnectionField.AsciiEqualIgnoringCase` | src/c/http.c:130-152 | Equality up to ASCII case |
| `ConnectionField.ConnectionClose` | src/c/http.c:760-806 | All Connection fields count together, and one malformed field refuses the request |
| `EventJournal.GenerationCountsClears` | src/c/ddd_support.c:719-734 | Only clearing changes the generation, upwards, so an outdated checkpoint stays outdated |
| `EventJournal.Retained` | src/c/ddd_support.c:617-655 | Events below the lowest length ever reached are still those of the start |
| `EventJournal.RewindRestores` | src/c/ddd_support.c:617-655 | Rewinding restores the checkpoint's log if and only if there was no clear, the log is long enough and what was cut off came back unchanged; never shorter is enough |
| `EventJournal.ShorterLogMayDiffer` | src/c/ddd_support.c:617-655 | A log that was shorter in between can be rewound, with success, to other events |
| `EventJournal.PackedPrefix` | src/c/ddd_support.c:617-655 | Cutting records off leaves a packed log of the earlier events |
| `EventJournal.PackedAppend` | src/c/ddd_support.c:589-612 | A record behind the last one adds one event and keeps the packing |
| `EventJournal.CheckpointMeaning` | src/c/ddd_support.c:236-277 | Accepting a checkpoint in the packed form is accepting it in the list form |
| `EventJournal.Journal.Validate` | src/c/ddd_support.c:407-433 | Accepts exactly canonically packed journals |
| `EventJournal.Journal.TakeCheckpoint` | src/c/ddd_support.c:487-528 | Names the whole log, its size and its generation |
| `EventJournal.Journal.CheckpointValidate` | src/c/ddd_support.c:236-277 | Accepts exactly record boundaries of the current generation, and tells stale ones apart |
| `EventJournal.Journal.Append` | src/c/ddd_support.c:530-615 | Adds exactly one event at the end or changes nothing, with the status that says why |
| `EventJournal.Journal.Rewind` | src/c/ddd_support.c:617-655 | Cuts back to exactly the checkpoint's prefix or changes nothing |
| `EventJournal.Journal.View` | src/c/ddd_support.c:657-717 | Reads back the event that was appended at that place |
| `EventJournal.Journal.Clear` | src/c/ddd_support.c:719-734 | Empties the log under a new generation, unless generations are used up |
| `UnitOfWork.NeverShorterRestorable` | src/c/ddd_support.c:617-655 | A run that neither cleared the log nor ever made it shorter is restorable |
| `UnitOfWork.RewindOutcome` | src/c/ddd_support.c:989-1051 | A final rewind leaves the log of begin exactly when the run since then is restorable |
| `UnitOfWork.Unit.Begin` | src/c/ddd_support.c:850-987 | Activates only an empty unit over an intact journal, with a checkpoint of the journal as it was before the callback; once those hold, the status is what the begin callback returned, a positive result counting as a failure |
| `UnitOfWork.Unit.Work` | src/c/ddd_support.c:850-1051 | Any traffic on the journal keeps the unit of work's invariant |
| `UnitOfWork.Unit.ActiveValidate` | src/c/ddd_support.c:392-405 | Says exactly whether the unit is active and its checkpoint still good |
| `UnitOfWork.Unit.EndCallback` | src/c/ddd_support.c:1000-1035 | A callback finds the unit still active: any journal traffic and any commits and rollbacks of its own keep the invariant, and the callbacks that run inside are none without an attempt, some if it leads with one, and a known list when no traffic comes before an attempt |
| `UnitOfWork.Unit.Perform` | src/c/ddd_support.c:989-1051 | An attempt inside a callback takes effect exactly when the unit is still active and its checkpoint accepted; else the unit is unchanged |
| `UnitOfWork.Unit.Commit` | src/c/ddd_support.c:989-1019 | If the checkpoint is good the commit callback runs, else nothing does; the last callback decides the state, also over a callback that itself ended the unit; exactly one end callback runs if the callback makes no attempt to end the unit, and more if that is the first thing it does; a failure faults the unit and leaves the journal as at begin exactly when that is restorable |
| `UnitOfWork.Unit.Rollback` | src/c/ddd_support.c:1021-1051 | The same for rollback, under the same condition; rolled back means callback and rewind both succeeded |
| `UnitOfWork.Unit.StaleForever` | src/c/ddd_support.c:719-734 | Clearing the journal under a unit outdates it: no callback of it ever runs again |
| `UnitOfWork.Unit.Reset` | src/c/ddd_support.c:1129-1147 | Empties terminal units only |
| `UnitOfWork.RolledBackCommit` | src/c/ddd_support.c:989-1051 | A commit callback that rolls the unit back and reports success: two end callbacks run and the unit counts as committed |
| `TimingWindow.ExtremesSound` | src/c/browser_hardening_v2.c:161-225 | The specified minimum and maximum are members and bounds of the window |
| `TimingWindow.SafeSamples` | src/c/browser_hardening_v2.c:6-9 | A sample is accepted exactly when a full window of it does not overflow the sum |
| `TimingWindow.SumBetween` | src/c/browser_hardening_v2.c:221-225 | The sum lies between count times minimum and count times maximum, and so does the mean between them |
| `TimingWindow.SlideOne` | src/c/browser_hardening_v2.c:182-200 | Replacing a sample that is neither extreme needs no rescan |
| `TimingWindow.SortedUnique` | src/c/browser_hardening_v2.c:240-248 | A sorted permutation is unique |
| `TimingWindow.SortRotated` | src/c/browser_hardening_v2.c:239-248 | Sorting the ring is sorting the window |
| `TimingWindow.NearestRank` | src/c/browser_hardening_v2.c:250-253 | The percentile is the least sample that at least p thousandths do not exceed |
| `TimingWindow.PercentileMonotone` | src/c/browser_hardening_v2.c:250-253 | Percentiles never fall as p grows, start at the minimum and end at the maximum |
| `TimingWindow.RescannedAppend` | src/c/browser_hardening_v2.c:182-196 | A sample forces the first rescan of a stage that was never reset exactly when the one it replaces is zero or the maximum of a full window |
| `TimingWindow.FloorDecides` | src/c/browser_hardening_v2.c:12-24 | The stored minimum is the least sample of the window exactly when the stage was cleared or rescanned or the window holds a zero, and zero otherwise |
| `TimingWindow.Stage.constructor` | src/c/browser_hardening_v2.c:12-24 | Before any reset the stage is empty and was never cleared, so the stored minimum starts from zero |
| `TimingWindow.Stage.Clear` | src/c/browser_hardening_v2.c:36-45 | A reset empties the stage and marks it cleared, so the stored minimum starts from the greatest value |
| `TimingWindow.Stage.Record` | src/c/browser_hardening_v2.c:161-201 | Sum and maximum are those of the last 128 accepted samples, and so is the minimum from the value it started from; refuses exactly samples that could overflow the sum |
| `TimingWindow.Stage.Rescan` | src/c/browser_hardening_v2.c:190-195 | Minimum and maximum of the whole ring |
| `TimingWindow.Stage.Min` | src/c/browser_hardening_v2.c:209-213 | On a nonempty stage, the least sample of the window if the stage was ever cleared or rescanned, else zero; right exactly then or when the window holds a zero |
| `TimingWindow.Stage.Max` | src/c/browser_hardening_v2.c:215-219 | The maximum of the window |
| `TimingWindow.Stage.Mean` | src/c/browser_hardening_v2.c:221-225 | The floor of the window's mean |
| `TimingWindow.Stage.Percentile` | src/c/browser_hardening_v2.c:227-254 | The element of rank max(1, ceil(p * count / 1000)) of the sorted window |
| `TimingWindow.FreshMinimum` | src/c/browser_hardening_v2.c:161-213 | The first sample of a stage that was never reset: the minimum is five and zero is answered |
| `TimingWindow.InsertLast` | src/c/browser_hardening_v2.c:240-248 | One pass inserts into the sorted prefix and moves nothing else |
| `TimingWindow.SortPrefix` | src/c/browser_hardening_v2.c:240-248 | The scratch array ends as the sorted window |

## Left out

- Pointers: null checks, alignment, overlap of regions and address overflow. Distinct Dafny arrays stand for disjoint regions; `ConfigStore.Prepare` and the kernel's storage keep the one check that arrays can express.
- Concrete addresses: interface tables are numbered locations whose headers are read through a function.
- The published catalog, runtime inputs and configuration schema are values, so changing them behind the runtime's back is not modelled.
- Struct sizes: the constants of the x86-64 layout are used where the code compares them.
- Assembly routines, sockets, epoll, clocks, file reading and diagnostics callbacks: they are nondeterministic or absent. `http0_header_next_asm` and the response serialiser are not part of this model; fields arrive already split.
- ConnectionHost.Host.Run: a turn budget stands for the unbounded loop, because a host that is never stopped runs for ever; what holds after each turn and at every exit is stated.
- ConnectionHost.Prepare: the slot, event and application regions are not compared for overlap, their sizes are not multiplied out, and the application is only known to be valid or not.
- ConnectionField.ConnectionClose: takes the header fields already split; the assembly routine that splits them is not part of this model.
- Rounding.PortableEqualsGeneral: excludes the numerator -2^127 with the divisor -1, whose quotient signed 128-bit division does not define.
- Configuration diagnostics (code, record, offset): only statuses are modelled; the order of checks is kept.
- UnitOfWork.Unit.Begin: a begin callback that begins the same unit again is not modelled; it uses the journal only.
- UnitOfWork.Unit.Commit: callbacks may commit and roll back the unit again but not reset it, and then begin it, before they return; the transaction state buffer, its address and its alignment are not modelled.
- UnitOfWork.Unit.Rollback: the same callbacks as for commit.
- Rectangle construction, translation, intersection and union, ratios and line bounds in the geometry: field checks around the same arithmetic.
- Surface descriptors and pixel offsets of the renderer experiment, and everything from shading on.
- The lifecycle switch and event counters of the browser hardening module: a table without hidden state.
- Request target and Host count checks, response construction and reason phrases in the HTTP module.
- Measuring functions that only multiply a count by a size.

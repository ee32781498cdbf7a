# Verified model of the NFD RIB, its FIB updates and the ndn-cxx name types

This project states, in Dafny, what the RIB manager of NFD 0.5.0 and the name, Exclude and Interest types of
ndn-cxx 0.5.0 do, and proves what they keep. It follows the C++ code branch by branch; where the code and its
documentation or its own asserts disagree, the model follows the code, and a theorem says exactly when the two agree.

- **RIB.** `RibTable.dfy` holds the classes `RibEntry` and `Rib` with their mutable fields: route lists, capture
  counters, parent and child links, the ordered table, the face index. `RibModel.dfy` reads them as a value and
  defines what the FIB has to hold: own routes plus, per face, the nearest unblocked child-inherit ancestor route.
  `RibRoutes.dfy` and `RibRuns.dfy` are about the routes that insertions and erasures leave, and about their runs.
- **FIB updates.** `FibUpdating.dfy` holds the class that turns one RIB change into coalesced ADD and REMOVE commands.
  Its contracts say what is left at every name and face (`FibWalk.dfy`, `FibUpdates.dfy`); `FibAgreement.dfy` compares
  that with the definition, and `FibFlips.dfy` does so for a changed capture flag; `FibRecords.dfy` and `FibRuns.dfy`
  follow the inherited records, `FibSeveral.dfy` is about several routes on one face, and `FibLimits.dfy` holds the
  tables at which the code leaves the definition.
- **Protocol.** `UpdateProtocol.dfy` is a state machine over the queue of updates and the two phases of acknowledged
  commands; `ProtocolRuns.dfy` is about all its runs, up to the FIB after every batch,
  `ProtocolRetries.dfy` about retried removals, `ProtocolTimeouts.dfy` about the number of retries, `ProtocolFaces.dfy`
  about destroyed faces and the RIB at rest, and `ProtocolLimits.dfy` holds two runs that go wrong.
- **Names.** `Components.dfy`, `Names.dfy` (canonical order, successors, prefixes), `NameUri.dfy` (printer and parser),
  `UriForms.dfy` (which texts stand for which names), `Interests.dfy` (matching).
- **Exclude.** `ExcludeMaps.dfy` (the descending map and the effect of each operation), `ExcludeRanges.dfy` (the
  iterator), `ExcludeWires.dfy` (the wire form), `Excludes.dfy` (the class and its runs).
- **Propagation and ranges.** `Propagation.dfy` (the class that registers prefixes with the hub), `PropagationRuns.dfy`
  (which prefixes are registered, and when the asserts hold, over all runs), `PropagationCommands.dfy` (which commands
  are sent), `Networks.dfy` (CIDR).

Findings, each with its exact condition and a concrete input:

- Erasing the last route of a name gives nothing back to the names below if that route captured
  (`FibAgreement.UnregisterRoute`, `FibLimits.CaptureExample`); erasing one of several routes overwrites own routes
  below with an ancestor's (`FibLimits.GivenBackExample`).
- Turning capture on by a new route removes ancestor routes below even where the name hands down its own route on that
  face (`FibAgreement.RegisterNewFace`, `FibLimits.CaptureOnExample`), and so does turning it on by registering a route
  again (`FibFlips.RegisterFlip`, `FibLimits.FlipExample`).
- Registering a route again with another cost and another flag leaves the names below the old cost, and turning
  child-inherit off hands an ancestor's route past a capture (`FibAgreement.RegisterAgain`,
  `FibLimits.CostAndFlagExample`, `FibLimits.UncoveredExample`); raising a route's cost can dereference null
  (`FibUpdating.FibUpdater.CreateFibUpdatesForUpdatedRoute`, `FibLimits.NullExample`).
- Dropping child-inherit and adding capture at once can erase an inherited record that is not there
  (`FibRecords.RecordsApplicable`, `FibLimits.DoubleFlipExample`).
- With several routes on one face, erasing one that is not among the cheapest removes the next hop or leaves an
  ancestor's (`FibSeveral.OneOfSeveral`, `FibSeveral.OneOfSeveralExample`), and names below can be told to keep the
  erased route (`FibSeveral.DependentOfSeveral`, `FibSeveral.KeptBelowExample`); raising one above another leaves the
  names below at the old cost (`FibSeveral.ChangeDependent`, `FibSeveral.RaisedExample`).
- Flipping capture by re-registration breaks the capture counter, and it can wrap (`RibRuns.InsertCounter`,
  `RibRuns.CounterWraps`, `RibRuns.WrappingExample`).
- Two rejected commands of the batch face fail one batch twice (`UpdateProtocol.StepKeeps`,
  `ProtocolLimits.TwoRejections`).
- A timed-out removal is retried as an addition, which leaves a next hop of cost 0
  (`ProtocolRetries.AgreementWithoutRetries`, `ProtocolLimits.RetriedRemoval`).
- `excludeRange` truncates an enclosing range (`ExcludeMaps.RangeExact`, `Excludes.CuttingExample`), and a range that
  starts where another ends makes the iterator's assert fail (`ExcludeMaps.RangeKeeps`, `Excludes.TouchingExample`).
- The propagated prefix is not always the shortest one, contrary to the documentation (`Propagation.ShortestPrefix`,
  `PropagationRuns.LongerPrefixExample`), and it can outlive the last name that wants it (`PropagationRuns.StepExact`,
  `PropagationRuns.LingersExample`).
- The propagator's handlers fail their own asserts when a response is overtaken: by the hub's disconnection
  (`PropagationRuns.LateResponseExample`, `PropagationRuns.LateWithdrawalExample`), by a second command for the same
  prefix (`PropagationRuns.TwoResponsesExample`), or by a withdrawal that restarts a propagation whose refresh timer
  stays set (`PropagationRuns.RefreshExample`); `PropagationRuns.RunAsserts` says exactly when on every run, and
  `PropagationRuns.FirstFailure` which assert can be the first one.
- The comment that no name lies between a name and its successor fails at every extension, and there only
  (`Names.ExtensionsBelowSuccessor`, `Names.PrefixInterval`).

Conventions: bytes are integers below 256 in names and `bv8` in addresses; `size_t` and the 64-bit capture counter wrap
where the code lets them; exceptions are `Result` values; asserts are preconditions proved at every call, or, in the
propagator, flags that say exactly when they hold. A null dereference is a result of its own. The order among routes of
equal cost in `std::nth_element` is left open. The callbacks of a batch run before anything is submitted from within
them; submitting from within has the same effect as submitting right after.

## Model

| member | source | states |
|---|---|---|
| `Components.CompareSign` | ndn-cxx-ndn-cxx-0.5.0/src/name-component.cpp:385-409 | the sign of `compare` is the canonical order (type, then length, then the first differing byte), zero means equal, and `equals` agrees with it |
| `Components.BytesLessIsNumeric` | ndn-cxx-ndn-cxx-0.5.0/src/name-component.cpp:395-409 | values of one length are ordered as the big-endian numbers they spell |
| `Components.GetSuccessor` | ndn-cxx-ndn-cxx-0.5.0/src/name-component.cpp:411-437 | the byte loop from the back computes the carry-propagating increment, or one more byte of zeros on overflow; a 33-byte digest is refused |
| `Components.SuccessorIsNext` | ndn-cxx-ndn-cxx-0.5.0/src/name-component.cpp:411-437 | no component of any type or length lies strictly between a component and its successor |
| `Components.SuccessorThrows` | ndn-cxx-ndn-cxx-0.5.0/src/name-component.cpp:411-437 | `getSuccessor` throws exactly for the digest of 32 bytes 0xFF |
| `Names.CompareRanges` | ndn-cxx-ndn-cxx-0.5.0/src/name.cpp:323-338 | for positions within the names the sign of `compare` is the canonical order of the two sub-names, zero exactly if they are equal, up to a length difference beyond an int; a position that `at` reads as negative is compared from there to the end and on through the whole name, and any other throws or returns the wrapped counts truncated to an int, contrary to the documented equivalence with sub-names |
| `Names.IsPrefixOf` | ndn-cxx-ndn-cxx-0.5.0/src/name.cpp:307-321 | the loop decides the prefix relation, both ways |
| `Names.LessTotal` | ndn-cxx-ndn-cxx-0.5.0/src/name.cpp:323-338 | canonical order on names is a strict total order |
| `Names.GetSubName` | ndn-cxx-ndn-cxx-0.5.0/src/name.cpp:261-278 | the documented slice is returned exactly if start plus count does not wrap a `size_t` below the end; otherwise the result is empty |
| `Names.PrefixInterval` | ndn-cxx-ndn-cxx-0.5.0/src/name.cpp:280-291 | for a name that is not empty, X <= Z < successor(X) holds exactly if X is a prefix of Z, carry and length growth included |
| `Names.ExtensionsBelowSuccessor` | ndn-cxx-ndn-cxx-0.5.0/src/name.hpp:344-349 | the documented claim that nothing lies between X and its successor fails at every proper extension of X |
| `Names.EmptyNameSuccessor` | ndn-cxx-ndn-cxx-0.5.0/src/name.cpp:280-291 | the names of valid components before the successor of the empty name are the empty name and those that start with a digest or an empty generic component |
| `Names.ExtensionsContiguous` | ndn-cxx-ndn-cxx-0.5.0/src/name.cpp:307-338 | the extensions of a name are contiguous in canonical order |
| `NameUri.ToUri` | ndn-cxx-ndn-cxx-0.5.0/src/name-component.cpp:130-178 | the loops of `toUri` print digests in lower-case hex, all-dot values with three more dots, and other values escaped |
| `NameUri.UnescapeLoop` | ndn-cxx-ndn-cxx-0.5.0/src/util/string-helper.cpp:128-152 | the loop computes the recursive reading of percent escapes; an invalid escape keeps its three characters |
| `NameUri.ComponentRoundTrip` | ndn-cxx-ndn-cxx-0.5.0/src/name-component.cpp:91-178 | parsing a printed generic or 32-byte digest component gives it back, for any bytes, empty, all dots and `sha256digest=` included |
| `NameUri.PrintName` | ndn-cxx-ndn-cxx-0.5.0/src/name.cpp:340-355 | the stream operator writes a slash and the component for each component, and one slash for the empty name |
| `NameUri.NameFromUri` | ndn-cxx-ndn-cxx-0.5.0/src/name.cpp:62-109 | the constructor trims, strips scheme and authority, and splits at slashes, as `ParseName` does, which the theorems of `UriForms` are about; the first bad component is the error |
| `NameUri.ParseJoined` | ndn-cxx-ndn-cxx-0.5.0/src/name.cpp:97-108 | a text is split into exactly the pieces it was joined from, whatever parses them |
| `NameUri.NameRoundTrip` | ndn-cxx-ndn-cxx-0.5.0/src/name.cpp:62-109 | parsing a printed name gives the name back, for every sequence of valid components |
| `NameUri.PrintInjective` | ndn-cxx-ndn-cxx-0.5.0/src/name.cpp:340-355 | different names print differently |
| `UriForms.FullUri` | ndn-cxx-ndn-cxx-0.5.0/src/name.cpp:62-95 | a printed name is parsed as that name whatever scheme and authority stand before it, with white space before and after the whole and after the scheme |
| `UriForms.AuthorityAlone` | ndn-cxx-ndn-cxx-0.5.0/src/name.cpp:79-84 | an authority alone, after any scheme and white space, is the empty name |
| `UriForms.RelativeUri` | ndn-cxx-ndn-cxx-0.5.0/src/name.cpp:78-95 | without an authority the first slash may be missing |
| `UriForms.SplitAtSlashes` | ndn-cxx-ndn-cxx-0.5.0/src/name.cpp:97-108 | a text is split at exactly its slashes, empty pieces included but for one at the end; the first piece that is no component is the error |
| `UriForms.TrimAround` | ndn-cxx-ndn-cxx-0.5.0/src/util/string-helper.cpp:109-125 | trimming removes exactly the white space around a text |
| `UriForms.Spelling` | ndn-cxx-ndn-cxx-0.5.0/src/name-component.cpp:130-178 | the characters that are printed as they are, the upper- and lower-case hexadecimal digits, the white space and the digest prefix, as characters |
| `UriForms.InvalidEscapesStay` | ndn-cxx-ndn-cxx-0.5.0/src/util/string-helper.cpp:128-152 | a text without a valid escape is left as it is |
| `UriForms.InvalidEscapeSkipped` | ndn-cxx-ndn-cxx-0.5.0/src/util/string-helper.cpp:134-144 | an invalid escape is skipped as a whole, so that "%%41" stays although it ends in a valid one |
| `UriForms.DotsUri` | ndn-cxx-ndn-cxx-0.5.0/src/name-component.cpp:113-125 | up to two dots are an error; of more, three are removed |
| `UriForms.DigestUri` | ndn-cxx-ndn-cxx-0.5.0/src/name-component.cpp:97-111 | after the digest prefix exactly 64 hexadecimal digits of either case are accepted, two a byte, and anything else is an error |
| `Interests.DataMatchIsNameMatch` | ndn-cxx-ndn-cxx-0.5.0/src/interest.cpp:104-213 | for any packet for which `matchesData` answers, and every signed one, it says whether the full name is the Interest's name and a suffix within both limits whose first component is not excluded, and the key locator that is asked for is the packet's |
| `Interests.NameMatchMeaning` | ndn-cxx-ndn-cxx-0.5.0/src/interest.cpp:104-129 | `matchesName` holds exactly for the Interest's name followed by a suffix within both limits whose first component is not excluded |
| `Interests.UnsignedMatch` | ndn-cxx-ndn-cxx-0.5.0/src/interest.cpp:131-213 | for an unsigned packet `matchesData` raises an error exactly if the full name is needed, and otherwise answers as for any digest |
| `Networks.ParseNetwork` | NFD-NFD-0.5.0/core/network.cpp:80-128 | the mask built bit by bit in a byte array gives the smallest and largest address of the range; without a mask both are the address; a mask longer than the address writes out of bounds |
| `Networks.RangeExact` | NFD-NFD-0.5.0/core/network.cpp:80-128 | for every mask length up to the address length, the parsed range holds exactly the addresses of the same family that agree on the first mask bits |
| `Networks.IntervalIsProduct` | NFD-NFD-0.5.0/core/network.hpp:52-56 | the two comparisons of `doesContain` on whole addresses amount to one per byte |
| `Excludes.Exclude.IsExcluded` | ndn-cxx-ndn-cxx-0.5.0/src/exclude.cpp:216-223 | the floor lookup decides membership in the set that the map stands for |
| `Excludes.Exclude.ExcludeOne` | ndn-cxx-ndn-cxx-0.5.0/src/exclude.cpp:225-233 | the excluded set grows by exactly the component; order, cache and combined ranges are kept |
| `Excludes.Exclude.ExcludeRangeFrom` | ndn-cxx-ndn-cxx-0.5.0/src/exclude.cpp:259-293 | the in-place merge by two floor lookups, insertion and erasure computes `WithRange`; an inverted range throws and changes nothing |
| `Excludes.Exclude.ExcludeRange` | ndn-cxx-ndn-cxx-0.5.0/src/exclude.cpp:241-245 | the same for a range that starts at a component |
| `Excludes.Exclude.ExcludeBefore` | ndn-cxx-ndn-cxx-0.5.0/src/exclude.cpp:235-239 | the same for a range that starts at negative infinity |
| `Excludes.Exclude.ExcludeAfter` | ndn-cxx-ndn-cxx-0.5.0/src/exclude.cpp:295-315 | everything above the start entry is erased and the start carries ANY |
| `ExcludeMaps.RangeEffect` | ndn-cxx-ndn-cxx-0.5.0/src/exclude.cpp:259-293 | the effect of `excludeRange` on every single component, the lost ones included |
| `ExcludeMaps.RangeExact` | ndn-cxx-ndn-cxx-0.5.0/src/exclude.cpp:279-284 | `excludeRange` adds exactly the interval if and only if it does not cut off the rest of an enclosing range, stated by the next key |
| `ExcludeMaps.AfterEffect` | ndn-cxx-ndn-cxx-0.5.0/src/exclude.cpp:295-315 | `excludeAfter` adds exactly the components from its argument on |
| `ExcludeMaps.OneEffect` | ndn-cxx-ndn-cxx-0.5.0/src/exclude.cpp:225-233 | `excludeOne` adds exactly its component |
| `ExcludeMaps.RangeKeeps` | ndn-cxx-ndn-cxx-0.5.0/src/exclude.cpp:259-293 | the map stays ordered with ANY on negative infinity, and consecutive ranges stay combined if and only if the range does not start where another ends |
| `Excludes.CallExact` | ndn-cxx-ndn-cxx-0.5.0/src/exclude.cpp:225-315 | each of the four operations adds exactly what is asked for, if and only if it cuts no enclosing range |
| `Excludes.CallKeeps` | ndn-cxx-ndn-cxx-0.5.0/src/exclude.cpp:225-315 | each operation keeps the map in order, and keeps ranges combined if and only if it does not touch the end of one |
| `Excludes.RunExact` | ndn-cxx-ndn-cxx-0.5.0/src/exclude.cpp:216-315 | from the empty filter, exactly the components asked for are excluded throughout a run of operations, if and only if no operation cuts an enclosing range |
| `Excludes.RunEnumerable` | ndn-cxx-ndn-cxx-0.5.0/src/exclude.cpp:372-384 | from the empty filter, the assert of the iterator holds throughout a run, if and only if no operation touches the end of a range |
| `Excludes.Replay` | ndn-cxx-ndn-cxx-0.5.0/src/exclude.cpp:216-315 | any run of the four operations on a new filter leaves the map that the runs are about, and a cache that matches it |
| `Excludes.ReplayAndAsk` | ndn-cxx-ndn-cxx-0.5.0/src/exclude.cpp:216-315 | after a run that cuts no enclosing range, `isExcluded` answers whether some operation asked for the component |
| `Excludes.TouchingExample` | ndn-cxx-ndn-cxx-0.5.0/src/exclude.cpp:372-384 | `excludeBefore("b")` then `excludeRange("b", "d")` makes that assert fail |
| `Excludes.CuttingExample` | ndn-cxx-ndn-cxx-0.5.0/src/exclude.cpp:279-284 | `excludeAfter("b")` then `excludeRange("b", "c")` readmits "d" |
| `ExcludeRanges.RangeIterator.Next` | ndn-cxx-ndn-cxx-0.5.0/src/exclude.cpp:372-384 | one step of the iterator; it fails exactly at two consecutive ANY entries and otherwise shows the range at its new position |
| `ExcludeRanges.Enumerate` | ndn-cxx-ndn-cxx-0.5.0/src/exclude.cpp:364-424 | going from `begin` to `end` yields the recursive list of ranges, or fails where the assert fails |
| `ExcludeRanges.EnumerationExact` | ndn-cxx-ndn-cxx-0.5.0/src/exclude.cpp:364-424 | enumeration succeeds if and only if consecutive ranges are combined; then the ranges are ascending, pairwise disjoint, and in union what `isExcluded` accepts |
| `ExcludeWires.RoundTrip` | ndn-cxx-ndn-cxx-0.5.0/src/exclude.cpp:105-130 | decoding the elements of a map that is not empty restores the map, leading ANY and trailing open range included |
| `ExcludeWires.DecodeExact` | ndn-cxx-ndn-cxx-0.5.0/src/exclude.cpp:154-196 | an element sequence is decoded if and only if it is not empty, holds only components and ANY marks, and no two ANY marks in a row; which error is raised otherwise |
| `ExcludeWires.DecodeMeaning` | ndn-cxx-ndn-cxx-0.5.0/src/exclude.cpp:166-206 | in any order and with any repetition, each component is read with the ANY mark that follows its first occurrence, and a leading ANY as the range from negative infinity |
| `Excludes.Exclude.WireEncode` | ndn-cxx-ndn-cxx-0.5.0/src/exclude.cpp:105-152 | the cached form or the prepended entries decode to the entries; an empty filter throws |
| `Excludes.Exclude.WireDecode` | ndn-cxx-ndn-cxx-0.5.0/src/exclude.cpp:154-196 | the three errors, and on success the entries of the element sequence with a matching cache |
| `RibTable.RibEntry.InsertRoute` | NFD-NFD-0.5.0/rib/rib-entry.cpp:49-66 | a route of a known face and origin is refused; a new one is appended and counted if it captures |
| `RibTable.RibEntry.EraseRouteAt` | NFD-NFD-0.5.0/rib/rib-entry.cpp:113-129 | the route goes and the capture counter is decremented, wrapping, if it captured |
| `RibTable.RibEntry.AddChild` | NFD-NFD-0.5.0/rib/rib-entry.cpp:97-103 | the child is appended and points back; the assert on its parent is the precondition |
| `RibTable.RibEntry.RemoveChild` | NFD-NFD-0.5.0/rib/rib-entry.cpp:105-111 | the child leaves the list and points nowhere; the assert on its parent is the precondition |
| `RibTable.RibEntry.RemoveInheritedRoute` | NFD-NFD-0.5.0/rib/rib-entry.cpp:137-143 | the first record of the face goes; there has to be one |
| `RibTable.RibEntry.GetRouteWithLowestCostByFaceId` | NFD-NFD-0.5.0/rib/rib-entry.cpp:178-198 | a cheapest route on the face, none exactly if there is no route on it |
| `RibTable.RibEntry.GetRouteWithLowestCostAndChildInheritByFaceId` | NFD-NFD-0.5.0/rib/rib-entry.cpp:224-246 | a cheapest child-inherit route on the face, none exactly if there is none |
| `RibTable.SecondLowest` | NFD-NFD-0.5.0/rib/rib-entry.cpp:200-222 | a route that is second by cost on the face, none exactly if there are fewer than two |
| `RibTable.Rib.FindParent` | NFD-NFD-0.5.0/rib/rib.cpp:199-211 | the entry of the longest proper prefix in the table |
| `RibTable.Rib.FindDescendants` | NFD-NFD-0.5.0/rib/rib.cpp:213-233 | the contiguous scan yields exactly the full-table filter of extensions, minus the entry itself, in table order |
| `RibTable.Rib.DescendantsAreBelow` | NFD-NFD-0.5.0/rib/rib.cpp:213-233 | what the scan yields are exactly the entries strictly below the name |
| `RibTable.Rib.FindDescendantsForNonInsertedName` | NFD-NFD-0.5.0/rib/rib.cpp:235-247 | the filter over the whole table yields exactly the extensions, in table order |
| `RibTable.Rib.CollectAncestorRoutes` | NFD-NFD-0.5.0/rib/rib.cpp:289-335 | the set holds, per face, exactly the route of the nearest ancestor that offers one below the first capture |
| `RibTable.Rib.Insert` | NFD-NFD-0.5.0/rib/rib.cpp:83-156 | tree links, face index, route count and order are kept, and the routes become those of `Inserted` |
| `RibTable.Rib.EraseEntry` | NFD-NFD-0.5.0/rib/rib.cpp:249-287 | children move to the parent, the key goes, nothing else changes |
| `RibTable.Rib.Erase` | NFD-NFD-0.5.0/rib/rib.cpp:158-184 | tree links, face index, route count and order are kept, and the routes become those of `Erased` |
| `RibRoutes.InsertedAt` | NFD-NFD-0.5.0/rib/rib.cpp:83-116 | `insert` replaces the route of the same name, face and origin by the new one, flags, cost and expiry included, or adds it, and changes no other route |
| `RibRoutes.ErasedAt` | NFD-NFD-0.5.0/rib/rib.cpp:158-184 | `erase` takes exactly the route of the same name, face and origin |
| `RibTable.Rib.FindRoutesWithFaceId` | NFD-NFD-0.5.0/rib/rib.cpp:473-498 | as a set, exactly all routes on the face with their names |
| `RibTable.Rib.ModifyInheritedRoutes` | NFD-NFD-0.5.0/rib/rib.cpp:451-471 | the recorded changes in order, given that each finds its entry and record |
| `RibTable.Rib.OnFibUpdateSuccess` | NFD-NFD-0.5.0/rib/rib.cpp:407-435 | the update, then the recorded changes of inherited routes |
| `RibRuns.Replay` | NFD-NFD-0.5.0/rib/rib.cpp:83-184 | any run of `insert` and `erase` on a new RIB keeps the invariant, with the asserts of `addChild` and `removeChild` met throughout |
| `RibRuns.ParentMeaning` | NFD-NFD-0.5.0/rib/rib.cpp:119-148 | in every valid RIB an entry's parent is the entry of its longest proper prefix, null exactly if there is none |
| `RibRuns.ChildrenMeaning` | NFD-NFD-0.5.0/rib/rib.cpp:119-148 | in every valid RIB the children lists are exactly the inverse of the parent links, without repetition |
| `RibRuns.FaceIndexMeaning` | NFD-NFD-0.5.0/rib/rib.cpp:150-176 | in every valid RIB an entry is listed under a face exactly if it is in the table and holds a route on the face |
| `RibRuns.RoutesAfterRun` | NFD-NFD-0.5.0/rib/rib.cpp:83-184 | after any run, an entry has a route if and only if the last call about its name, face and origin inserted that very route, and a name has an entry if and only if it has a route |
| `RibRuns.InsertCounter` | NFD-NFD-0.5.0/rib/rib.cpp:111-116 | re-registration keeps the capture counter exact if and only if it does not flip the capture flag of the route |
| `RibRuns.CounterWraps` | NFD-NFD-0.5.0/rib/rib-entry.cpp:113-129 | a route that gained the capture flag by re-registration takes the counter of a capture-free entry to 2^64-1 when it is erased |
| `RibRuns.WrappingExample` | NFD-NFD-0.5.0/rib/rib.cpp:111-116 | four calls on an empty RIB that leave a capture route uncounted and then take the counter to 2^64-1 |
| `RibRuns.CountersAfterRun` | NFD-NFD-0.5.0/rib/rib.cpp:83-184 | every counter is the number of capture routes throughout a run, if and only if no call flips the capture flag of an existing route |
| `RibModel.NearestMeaning` | NFD-NFD-0.5.0/rib/rib.cpp:289-335 | the declarative reading of inheritance: a proper prefix with a child-inherit route and nothing below it that answers or blocks |
| `Routes.FindInheritIsFirst` | NFD-NFD-0.5.0/rib/rib.cpp:289-335 | of several child-inherit routes of an ancestor on a face the first one is inherited |
| `RibModel.ChildrenOfAbsentName` | NFD-NFD-0.5.0/rib/fib-updater.cpp:130-142 | for a name not in the table, the entries that share its future parent are exactly its future children |
| `FibUpdating.FibUpdater.AddFibUpdate` | NFD-NFD-0.5.0/rib/fib-updater.cpp:315-336 | replace the pending update of the same name and face in place, or append, in the list of its face |
| `FibUpdates.AddPending` | NFD-NFD-0.5.0/rib/fib-updater.cpp:315-336 | at most one pending update per name and face, lists split by the batch face, and only the added key changes |
| `FibUpdates.CoalescingSound` | NFD-NFD-0.5.0/rib/fib-updater.cpp:315-336 | sending the two lists in any order leaves the same FIB as applying the original updates in order |
| `FibUpdates.AnyOrderAt` | NFD-NFD-0.5.0/rib/fib-updater.cpp:190-232 | sending all pending updates in any order does at each name and face what its pending update says |
| `FibUpdating.FibUpdater.TraverseSubTree` | NFD-NFD-0.5.0/rib/fib-updater.cpp:639-697 | the recursive walk terminates and changes exactly the names that every entry on the way lets through, as `StepAt` says |
| `FibLimits.SubtreeEmits` | NFD-NFD-0.5.0/rib/fib-updater.cpp:649-697 | ADD for d exactly if no entry on the path down to and including d captures or hands down on the face and d has no own route there; REMOVE exactly under the same path conditions and a record at d |
| `FibUpdating.FibUpdater.ModifyChildrensInheritedRoutes` | NFD-NFD-0.5.0/rib/fib-updater.cpp:639-647 | the walk over all children reaches exactly the names strictly below |
| `FibUpdating.FibUpdater.CreateFibUpdatesForNewRibEntry` | NFD-NFD-0.5.0/rib/fib-updater.cpp:378-423 | the update and records at every name and face for a new name, for all four flag combinations |
| `FibUpdating.FibUpdater.CreateFibUpdatesForNewRoute` | NFD-NFD-0.5.0/rib/fib-updater.cpp:425-462 | the same for a new route of a known name |
| `FibUpdating.FibUpdater.CreateFibUpdatesForUpdatedRoute` | NFD-NFD-0.5.0/rib/fib-updater.cpp:464-561 | the same for a changed route, and exactly when the code dereferences null; `FibAgreement.RegisterAgain` and, for several routes on a face, `FibSeveral.ChangeOfSeveral` and `FibSeveral.ChangeDependent` say what that amounts to |
| `FibUpdating.FibUpdater.CreateFibUpdatesForErasedRoute` | NFD-NFD-0.5.0/rib/fib-updater.cpp:563-629 | the same for an erased route |
| `FibUpdating.FibUpdater.CreateFibUpdatesForErasedRibEntry` | NFD-NFD-0.5.0/rib/fib-updater.cpp:631-637 | a removal for every inherited record of the name, and nothing else |
| `FibUpdating.FibUpdater.FindNewChildren` | NFD-NFD-0.5.0/rib/fib-updater.cpp:128-142 | the descendants that share the future parent are the future children of the new name |
| `FibUpdating.FibUpdater.ComputeUpdatesForRegistration` | NFD-NFD-0.5.0/rib/fib-updater.cpp:94-146 | which of the three computations runs, and what it leaves at every name and face |
| `FibUpdating.FibUpdater.ComputeUpdatesForUnregistration` | NFD-NFD-0.5.0/rib/fib-updater.cpp:148-188 | the erased route on a copy, the second cheapest on its face, and the end of the entry, at every name and face |
| `FibUpdating.FibUpdater.ComputeRegistrationBatch` | NFD-NFD-0.5.0/rib/fib-updater.cpp:49-92 | the lists start empty and, for the changes of the agreement theorems, are what those theorems start from |
| `FibUpdating.FibUpdater.ComputeUnregistrationBatch` | NFD-NFD-0.5.0/rib/fib-updater.cpp:68-92 | the same for removals; for a destroyed face the updates of that face are dropped and no others |
| `FibUpdating.FibUpdater.ComputeBatch` | NFD-NFD-0.5.0/rib/fib-updater.cpp:49-66 | what is recorded for an update finds its entries and records in the RIB after it, if and only if the update erases no record twice |
| `FibUpdating.ApplyUpdate` | NFD-NFD-0.5.0/rib/rib.cpp:376-435 | one update, unless it erases a record twice, from the computation to the changed RIB |
| `FibRecords.RecordsApplicable` | NFD-NFD-0.5.0/rib/rib.cpp:451-471 | the assert of `modifyInheritedRoutes` always holds; a missing record is erased exactly if the update drops child-inherit and adds capture above a name with an own route and a single record on the face, where an ancestor offers the face too; otherwise each name has the records that its own changes leave |
| `FibLimits.DoubleFlipExample` | NFD-NFD-0.5.0/rib/fib-updater.cpp:464-561 | a table and an update that erases a record that is not there |
| `FibAgreement.RegisterNewName` | NFD-NFD-0.5.0/rib/fib-updater.cpp:378-423 | registering a route under a new name, any flags, takes a FIB equal to the definition to one equal to the definition for the enlarged RIB |
| `FibAgreement.RegisterNewFace` | NFD-NFD-0.5.0/rib/fib-updater.cpp:425-462 | a route on a face new to the name keeps agreement if and only if it does not turn capture on where dependent names use an own route on a face that ancestors offer too |
| `FibAgreement.RegisterAgain` | NFD-NFD-0.5.0/rib/fib-updater.cpp:464-561 | changing the only route of its face, capture flag aside, keeps agreement if and only if no dependent name is affected by two stated combinations |
| `FibFlips.RegisterFlip` | NFD-NFD-0.5.0/rib/fib-updater.cpp:464-561 | changing the capture flag of the only route of its face gives agreement with the definition for the new flags if and only if no name is affected by the stated combinations of flags, costs and ancestor routes |
| `FibAgreement.UnregisterRoute` | NFD-NFD-0.5.0/rib/fib-updater.cpp:563-637 | erasing the only route of its face keeps agreement if and only if no name goes wrong: for the last route of a name, a capture route above names that an ancestor route reaches; otherwise an own route overwritten by an ancestor's |
| `FibAgreement.UnregisterOnlyRoute` | NFD-NFD-0.5.0/rib/fib-updater.cpp:563-637 | erasing the only route of a name that has no capture flag restores for every descendant the ancestor routes it hid |
| `FibAgreement.RemoveDestroyedFace` | NFD-NFD-0.5.0/rib/fib-updater.cpp:68-92 | erasing a route of a destroyed face leaves the next hops of that face alone, and on the other faces keeps agreement if and only if no name goes wrong there |
| `FibLimits.CaptureExample` | NFD-NFD-0.5.0/rib/fib-updater.cpp:600-612 | a table at which erasing a capture-only route leaves a descendant without the route it should inherit |
| `FibLimits.CaptureOnExample` | NFD-NFD-0.5.0/rib/fib-updater.cpp:447-452 | a table at which turning capture on takes a descendant's route away that the name still hands down |
| `FibLimits.CostAndFlagExample` | NFD-NFD-0.5.0/rib/fib-updater.cpp:497-517 | a table at which a route that changes cost and another flag at once leaves a descendant the old cost |
| `FibLimits.FlipExample` | NFD-NFD-0.5.0/rib/fib-updater.cpp:541-550 | a table at which a route that gains the capture flag is taken from a descendant that it is still handed down to |
| `FibLimits.GivenBackExample` | NFD-NFD-0.5.0/rib/fib-updater.cpp:588-598 | a table at which erasing one route overwrites another own route below with an ancestor's |
| `FibLimits.UncoveredExample` | NFD-NFD-0.5.0/rib/fib-updater.cpp:519-543 | a table at which turning child-inherit off gives a descendant an ancestor route past a capture |
| `FibLimits.NullExample` | NFD-NFD-0.5.0/rib/fib-updater.cpp:484-494 | two routes without child-inherit on one face: raising the cheaper above the other dereferences null |
| `FibSeveral.OneOfSeveral` | NFD-NFD-0.5.0/rib/fib-updater.cpp:172-181 | with several routes on a face, the next hop gets the lowest cost left if and only if the erased route was a cheapest one, the two cheapest tie, or an ancestor offers the face at that very cost; otherwise an ancestor's route of another cost takes its place if nothing captures, and else it is removed |
| `FibSeveral.OneOfSeveralExample` | NFD-NFD-0.5.0/rib/fib-updater.cpp:172-181 | a table for each of the last two cases, at which cost 5 is left |
| `FibSeveral.DependentCell` | NFD-NFD-0.5.0/rib/fib-updater.cpp:172-181 | what a name below, which uses the face through this one, is told then: the second cheapest route if it is child-inherit and no child-inherit one left is cheaper, else an ancestor's if the erasure gives it back, else a removal if the erased route was child-inherit |
| `FibSeveral.DependentOfSeveral` | NFD-NFD-0.5.0/rib/fib-updater.cpp:563-598 | a name below then has the lowest child-inherit cost left, or what ancestors offer, exactly under the stated conditions on the flags and costs of the erased, the second and the ancestor's route |
| `FibSeveral.HandsDownIsPasses` | NFD-NFD-0.5.0/rib/fib-updater.cpp:563-598 | for one route per face that reading of what a name hands down is the definition that the FIB is compared with |
| `FibSeveral.KeptBelowExample` | NFD-NFD-0.5.0/rib/fib-updater.cpp:172-181 | a matching table at which a name below is told to keep the very route that was erased |
| `FibSeveral.ChangeOfSeveral` | NFD-NFD-0.5.0/rib/fib-updater.cpp:464-489 | registering again one of any number of routes on a face, where the code is defined, leaves the next hop at the lowest cost if and only if the route did not rise above a cheaper one while no cheapest route is child-inherit; which cost is sent in each case |
| `FibSeveral.ChangeDependent` | NFD-NFD-0.5.0/rib/fib-updater.cpp:492-543 | with the capture flag unchanged, a name below then has what the name hands down, except exactly if the route stays child-inherit while the lowest child-inherit cost changes otherwise than to its new cost with the same flags, or the last child-inherit route stops to be one below an ancestor's and past a capture |
| `FibSeveral.AnotherOnFace` | NFD-NFD-0.5.0/rib/fib-updater.cpp:425-462 | a route with a new origin on a face, whatever is on it already, leaves the next hop at the lowest cost |
| `FibSeveral.AnotherDependent` | NFD-NFD-0.5.0/rib/fib-updater.cpp:425-462 | a name below then has what the name hands down, except exactly if the route turns capture on, an ancestor offers the face, and the name hands down a cheaper route of its own |
| `FibSeveral.RaisedExample` | NFD-NFD-0.5.0/rib/fib-updater.cpp:484-507 | of two child-inherit routes the cheaper one rises above the other: the name is told the other's cost, and a name below is told nothing |
| `FibRuns.NewNameCount` | NFD-NFD-0.5.0/rib/fib-updater.cpp:403-413 | a new name leaves each name with a record exactly if it inherits, and one at most, unless its child-inherit route is recorded next to one of an ancestor |
| `FibRuns.NewFaceCount` | NFD-NFD-0.5.0/rib/fib-updater.cpp:425-462 | the same for a route on a new face, with the exact exceptions |
| `FibRuns.ChangeCount` | NFD-NFD-0.5.0/rib/fib-updater.cpp:464-561 | the same for a changed route |
| `FibRuns.DropCount` | NFD-NFD-0.5.0/rib/fib-updater.cpp:563-637 | the same for an erased route: which records are duplicated, stranded or taken over twice |
| `FibRuns.QuietChangeSettles` | NFD-NFD-0.5.0/rib/fib-updater.cpp:49-66 | a change takes matching FIB, records and RIB to matching FIB, records and RIB if and only if no name goes wrong or miscounts |
| `FibRuns.EmptySettled` | NFD-NFD-0.5.0/rib/rib.cpp:42-46 | an empty RIB and an empty FIB match, so such runs can start |
| `FibRuns.QuietRunSettles` | NFD-NFD-0.5.0/rib/fib-updater.cpp:49-66 | a run of changes keeps them matching throughout if and only if every change in it is such a change |
| `UpdateProtocol.StepKeeps` | NFD-NFD-0.5.0/rib/rib.cpp:364-449 | a step keeps one batch running at a time, its commands one for one with the live updates, and nothing queued at rest, if and only if it is not the rejection of a batch-face command while another command is under way |
| `UpdateProtocol.StepOutcome` | NFD-NFD-0.5.0/rib/fib-updater.cpp:263-313 | a step calls a failure callback exactly for a rejected batch-face command, once and first; every other callback is a success |
| `ProtocolRuns.BatchesInOrder` | NFD-NFD-0.5.0/rib/rib.cpp:376-449 | batches run one at a time in submission order, each with exactly one callback before the next starts, and at rest all that `ProtocolFaces.StepSubmits` says was submitted is served |
| `ProtocolRuns.RunKeeps` | NFD-NFD-0.5.0/rib/rib.cpp:364-449 | the invariant holds all along a run if and only if no batch-face command is rejected while another command is under way |
| `ProtocolRuns.BatchesSucceed` | NFD-NFD-0.5.0/rib/rib.cpp:376-449 | in every interleaving without a rejected batch-face command the callback of each batch is the success callback, exactly once and in order |
| `ProtocolRuns.TwoPhases` | NFD-NFD-0.5.0/rib/fib-updater.cpp:210-232 | commands for other faces are out only when all batch-face updates are acknowledged, and a running batch always awaits a response |
| `ProtocolRuns.RibChangesInCallback` | NFD-NFD-0.5.0/rib/rib.cpp:407-435 | a step changes the RIB only by calling a success callback |
| `ProtocolRuns.AgreementAtRest` | NFD-NFD-0.5.0/rib/fib-updater.cpp:263-313 | in every interleaving of reliable steps with quiet changes, the FIB equals the definition for the RIB after every batch and whenever no batch is under way |
| `ProtocolRetries.AgreementWithoutRetries` | NFD-NFD-0.5.0/rib/fib-updater.cpp:263-313 | in every interleaving without rejections, once no batch is under way: the FIB equalled the definition after every batch if and only if no timed-out removal was retried |
| `ProtocolLimits.RetriedRemoval` | NFD-NFD-0.5.0/rib/fib-updater.cpp:294-296 | a run from a settled RIB and FIB: the removal of the only route times out and is retried as an addition, and at rest the FIB has a next hop that the RIB does not want |
| `ProtocolLimits.TwoRejections` | NFD-NFD-0.5.0/rib/fib-updater.cpp:297-300 | a run from a settled RIB and FIB: two rejected batch-face commands call the failure callback of one batch twice |
| `ProtocolFaces.StepSubmits` | NFD-NFD-0.5.0/rib/rib.cpp:337-374 | a submission queues exactly its update, a destroyed face one removal for each route on it in the RIB of that moment and nothing else, and no other step queues anything |
| `ProtocolFaces.RoutesAtRest` | NFD-NFD-0.5.0/rib/rib.cpp:337-449 | on every run without failures, the RIB at rest has a route if and only if the last update about its name, face and origin registered that very route, or it was there at the start and there was no such update |
| `ProtocolFaces.FaceCleared` | NFD-NFD-0.5.0/rib/rib.cpp:349-362 | if no registration on a destroyed face was waiting or came later and no batch fails, then once the removals are served, and so at rest, no entry has a route on the face |
| `ProtocolTimeouts.TimeoutsCounted` | NFD-NFD-0.5.0/rib/fib-updater.cpp:234-261 | on every orderly run a command under way carries the number of time-outs that its update has had in its batch |
| `ProtocolTimeouts.AtMostTen` | NFD-NFD-0.5.0/rib/fib-updater.cpp:294-296 | no update of a batch is sent again more than ten times |
| `Propagation.AutoPrefixPropagator.GetPrefixPropagationParameters` | NFD-NFD-0.5.0/rib/auto-prefix-propagator.cpp:121-154 | the loop returns the choice and its prefix |
| `Propagation.Best` | NFD-NFD-0.5.0/rib/auto-prefix-propagator.cpp:131-141 | the chosen identity is the first of the least size among those that cover the name |
| `Propagation.ShortestPrefix` | NFD-NFD-0.5.0/rib/auto-prefix-propagator.cpp:131-141 | the chosen prefix is the shortest if and only if no identity as short ends in "nrd" while the chosen one does not |
| `PropagationRuns.LongerPrefixExample` | NFD-NFD-0.5.0/rib/auto-prefix-propagator.cpp:131-141 | two identities for which the chosen prefix is not the shortest |
| `Propagation.KeyIdempotent` | NFD-NFD-0.5.0/rib/auto-prefix-propagator.cpp:230-243 | the propagated prefix is the choice for itself, with the same signer |
| `Propagation.AutoPrefixPropagator.AfterInsertRibEntry` | NFD-NFD-0.5.0/rib/auto-prefix-propagator.cpp:156-187 | local names are ignored, the hub's name connects, others add their prefix once; exactly when the assert of the connection holds |
| `Propagation.AutoPrefixPropagator.AfterEraseRibEntry` | NFD-NFD-0.5.0/rib/auto-prefix-propagator.cpp:189-228 | local names are ignored, the hub's name disconnects, others release their prefix unless another RIB name keeps it |
| `Propagation.AutoPrefixPropagator.AfterRibInsert` | NFD-NFD-0.5.0/rib/auto-prefix-propagator.cpp:303-321 | the entry is new, or propagating with a command sent if a hub is connected |
| `Propagation.AutoPrefixPropagator.AfterRibErase` | NFD-NFD-0.5.0/rib/auto-prefix-propagator.cpp:323-346 | the entry goes, with a withdrawal if it was propagated to a connected hub |
| `Propagation.AutoPrefixPropagator.RedoPropagation` | NFD-NFD-0.5.0/rib/auto-prefix-propagator.cpp:245-266 | a prefix that works is registered again; otherwise the RIB names below it are handled anew |
| `Propagation.ReinsertKeys` | NFD-NFD-0.5.0/rib/auto-prefix-propagator.cpp:258-265 | after that exactly the prefixes of the signable names below the old one have been added |
| `Propagation.RedoneKeys` | NFD-NFD-0.5.0/rib/auto-prefix-propagator.cpp:245-266 | a prefix that no longer works goes, and exactly the prefixes of the signable names below it come |
| `Propagation.AutoPrefixPropagator.AfterHubConnect` | NFD-NFD-0.5.0/rib/auto-prefix-propagator.cpp:348-369 | every entry is handled once in some order, whether its prefix works or not; when all work, each is registered with the hub once |
| `Propagation.ConnectWorks` | NFD-NFD-0.5.0/rib/auto-prefix-propagator.cpp:348-369 | after a hub was connected every propagated prefix works, whatever the identities were before and whatever the order |
| `Propagation.AutoPrefixPropagator.AfterHubDisconnect` | NFD-NFD-0.5.0/rib/auto-prefix-propagator.cpp:371-379 | every entry becomes new, and exactly when the assert holds |
| `Propagation.AutoPrefixPropagator.AfterPropagateSucceed` | NFD-NFD-0.5.0/rib/auto-prefix-propagator.cpp:381-399 | a released prefix is withdrawn, another becomes propagated with a refresh timer; `PropagationCommands.RunSends` counts the withdrawals over runs, and `PropagationRuns.RunAsserts` says when its assert holds |
| `Propagation.AutoPrefixPropagator.AfterPropagateFail` | NFD-NFD-0.5.0/rib/auto-prefix-propagator.cpp:401-421 | an entry that is still there becomes failed, with a retry timer of the doubled and capped wait; its assert likewise |
| `Propagation.AutoPrefixPropagator.AfterRevokeSucceed` | NFD-NFD-0.5.0/rib/auto-prefix-propagator.cpp:423-442 | an entry that is there again and did not fail is registered again; the assert holds exactly if it is not new |
| `Propagation.AutoPrefixPropagator.OnRefreshTimer` | NFD-NFD-0.5.0/rib/auto-prefix-propagator.cpp:453-460 | a refresh registers the prefix again, or handles the names below it anew if it no longer works; the assert holds exactly if the entry is propagated |
| `Propagation.AutoPrefixPropagator.OnRetryTimer` | NFD-NFD-0.5.0/rib/auto-prefix-propagator.cpp:462-470 | the same for a retry, with its own wait and for an entry that failed |
| `PropagationRuns.StepExact` | NFD-NFD-0.5.0/rib/auto-prefix-propagator.cpp:156-266 | every event keeps the propagated prefixes exact, except if and only if an erasure leaves one lingering |
| `PropagationRuns.RunExact` | NFD-NFD-0.5.0/rib/auto-prefix-propagator.cpp:156-470 | after any run of RIB signals, hub changes, results and timers a prefix is propagated if and only if it is the choice for a signable name of the RIB that is neither below "/localhost" nor the hub's |
| `PropagationRuns.RunStatus` | NFD-NFD-0.5.0/rib/auto-prefix-propagator.cpp:348-470 | on every run, the status of an entry is what came last for it since it was created or the hub left: nothing, a register command, its success or its failure |
| `PropagationRuns.RunAsserts` | NFD-NFD-0.5.0/rib/auto-prefix-propagator.cpp:348-470 | on every run, the assert of a response holds if and only if its entry is gone or the last thing that came for it is a register command; that of the response to a withdrawal, if and only if the entry is gone or anything came for it since it was created or the hub left; that of a refresh or retry, if and only if its response came last; that of a connection, if and only if nothing came for any entry; that of a disconnection always |
| `PropagationRuns.FirstFailure` | NFD-NFD-0.5.0/rib/auto-prefix-propagator.cpp:348-470 | while no assert failed before: those of a connection, a disconnection and a retry hold; that of a withdrawal's response fails exactly for an entry that is there without a hub, that of a refresh exactly if a register command was sent since the entry was confirmed |
| `PropagationRuns.LingersExample` | NFD-NFD-0.5.0/rib/auto-prefix-propagator.cpp:217-225 | an identity that covers the hub's name keeps a prefix that no name wants |
| `PropagationRuns.LateResponseExample` | NFD-NFD-0.5.0/rib/auto-prefix-propagator.cpp:381-399 | a run of four events of which the last is the first to fail its assert: a success that arrives after the hub left |
| `PropagationRuns.TwoResponsesExample` | NFD-NFD-0.5.0/rib/auto-prefix-propagator.cpp:381-399 | with the hub connected throughout, a name that goes and comes back while its command is under way gets two successes, and the second fails the assert |
| `PropagationRuns.LateWithdrawalExample` | NFD-NFD-0.5.0/rib/auto-prefix-propagator.cpp:423-442 | a withdrawal that is confirmed after the hub left and the name came back fails the assert |
| `PropagationRuns.RefreshExample` | NFD-NFD-0.5.0/rib/auto-prefix-propagator.cpp:453-460 | a withdrawal confirmed after its prefix came back and was confirmed leaves a refresh timer that fails the assert |
| `PropagationCommands.RunSends` | NFD-NFD-0.5.0/rib/auto-prefix-propagator.cpp:156-470 | on every run each command, with its signer and wait, was sent exactly as often as an event was to send it: withdrawals for confirmed entries that go while the hub is connected and for successes that find no entry; registrations for new entries with a hub, for all entries when the hub comes, after withdrawals, and by timers |
| `PropagationCommands.RunTimer` | NFD-NFD-0.5.0/rib/auto-prefix-propagator.cpp:268-287 | on every run each entry has the timer that the last event about it set: a success a refresh, a failure a retry after twice the wait up to the limit |
| `PropagationCommands.RunSigned` | NFD-NFD-0.5.0/rib/auto-prefix-propagator.cpp:121-154 | on every run entries, timers and commands carry the identity that is chosen for their prefix |
| `PropagationCommands.SpecialNames` | NFD-NFD-0.5.0/rib/auto-prefix-propagator.cpp:40-42 | the names that are treated specially, spelled out |

## Left out

- The TLV byte codec, `Block` and encoding buffers: wire forms are sequences of typed elements.
- Routes' expiration events, logging, configuration and timers' clocks.
- Controller, faces, key chain and validators: commands, responses and the identity list are inputs.
- FibAgreement.UnregisterRoute: does not cover several routes on one face, nor does `FibAgreement.RegisterAgain`; the
  theorems of `FibSeveral` say what happens there to the name itself and to the names below.
- FibSeveral.ChangeDependent: does not cover a changed capture flag, which `FibFlips.RegisterFlip` treats for the only
  route of a face.
- FibUpdating.ApplyUpdate: excludes an update that erases a record twice, which is what `FibRecords.RecordsApplicable`
  shows to be undefined behaviour of the code.
- ProtocolRuns.AgreementAtRest: covers registrations and unregistrations, not destroyed faces, whose next hops the
  forwarder itself removes.
- UpdateProtocol.StepKeeps: errors of a command that throw end the run.
- ProtocolLimits.RetriedRemoval: a response that arrives after its command timed out is not modelled; the retry replaces
  the command.
- Networks.ParseNetwork: the text of addresses and masks; writing out of bounds stands as an error.
- Propagation.AutoPrefixPropagator.RedoPropagation: a prefix of the hub's own name that no longer works, where the code
  comes back to the handler of the hub's connection, within whose loop the iterators it holds can become invalid; so do
  the handlers that call it.
- PropagationRuns.RunExact: the identity list is fixed; `Propagation.ReinsertKeys` covers the branch for a changed list.
- Excludes.Exclude.WireDecode: malformed TLV inside the element, and the URI form of the filter.
- Interests.DataMatchIsNameMatch: SHA-256 is any 32-byte value, and a key locator is an opaque element.
- NameUri.NameFromUri: names from other encodings, and marker components.
- Name hashing, signatures, links and selectors as data types: thin wrappers.

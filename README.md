# TOSCA matchmaking, modelled in Dafny

The repository decides whether a TOSCA service template can stand in for a TOSCA node
type. It compares what the node type declares with what the service template's boundary
exposes, in five dimensions: capabilities, requirements, policies, properties and interfaces.
There are two matchmakers:

- The **exact matchmaker** compares names and type names. It requires equal counts in every
  dimension except policies.
- The **plug-in matchmaker** first runs the exact passes. It then re-runs only the failed
  dimensions, with relaxed predicates and no count condition:
  - capability and requirement types are compared by walking up their derivation chains;
  - property types are compared by assignability;
  - each interface operation is searched across every operation of the service template.

The model is layered like the program.

- `values.dfy`, `elements.dfy`: value kinds, capability and requirement type chains, and
  operations are datatypes. Definitions and boundary elements are classes, because the
  containers compare them by identity.
- `entity_type.dfy`, `node_type.dfy`, `policy_type.dfy`, `boundary.dfy`: the containers of
  node types, policy types and boundaries. Each is a class whose list is a `seq` field that
  its methods append to.
- `pairing.dfy`: the scan shared by every dimension pass. An outer loop runs over one list.
  An inner loop stops at the first partner in a second list. Each element is appended either
  to a matched list or to a new unmatched list.
- `predicates.dfy`: the exact and plug-in element predicates. It also holds the loops that
  compute them (type-chain walks, parameter and operation scans).
- `spec.dfy`: the matchmaker state as a value (`Report`). Each pass is a function from the
  state before it to the state after it, and `Run` is a whole `match()` call.
- `matchmaker.dfy`: the matchmakers as one class `Matchmaker`, whose fields are the Java
  fields. The `kind` constant says whether it is the exact or the plug-in matchmaker. Every
  pass method is proved to leave exactly the state the corresponding function describes.
- `verdicts.dfy`: the verdict of each matchmaker, and each dimension's flag, as a quantified
  formula over the input lists.
- `findings.dfy`: the places where the code does not do what its comments say. Each has the
  as-written behaviour and the evidently intended one.

The source's comments describe the plug-in matchmaker's first pass as an exact pass. Through
Java's dynamic dispatch, the code makes it a plug-in pass. The model follows the code, and
"Findings" records the difference.

## Model

| member | source | states |
|---|---|---|
| Values.AssignabilityIsPartialOrder | src/di/unipi/matchmaker/PlugInMatchmaker.java:252-257 | The assignability relation standing in for `isAssignableFrom` is reflexive, transitive and antisymmetric. |
| Values.CapabilityWalkVisitsLineage | src/di/unipi/matchmaker/PlugInMatchmaker.java:145-151 | The walk up a capability type's chain succeeds iff the name is on the chain, the type itself included. |
| Values.CapabilityAncestorIsFound | src/di/unipi/matchmaker/PlugInMatchmaker.java:145-151 | The walk from a type finds the name of any of its ancestors, the type itself included. |
| Values.CapabilityAncestorTransitive | src/di/unipi/matchmaker/PlugInMatchmaker.java:145-151 | An ancestor of an ancestor is an ancestor, so derivation over several steps is recognised. |
| Values.RequirementWalkVisitsLineage | src/di/unipi/matchmaker/PlugInMatchmaker.java:202-208 | The walk up a requirement type's chain succeeds iff the name is on the chain, the type itself included. |
| EntityTypes.PropertiesDefinition.constructor | src/di/unipi/model/tosca/EntityType.java:89-91 | A new property-definition list is empty. |
| EntityTypes.PropertiesDefinition.AddDefinition | src/di/unipi/model/tosca/EntityType.java:101-106 | It always succeeds: the duplicate test looks for a freshly built object. It appends exactly one new definition with the given name and kind and keeps the old ones in order. |
| EntityTypes.PropertiesDefinition.GetDefinition | src/di/unipi/model/tosca/EntityType.java:115-121 | It returns the first definition with that name, or None (null) iff there is none. |
| NodeTypes.RequirementDefinitions.constructor | src/di/unipi/model/tosca/NodeType.java:103-105 | A new requirement-definition list is empty. |
| NodeTypes.RequirementDefinitions.AddDefinition | src/di/unipi/model/tosca/NodeType.java:115-120 | It always succeeds and appends exactly one new definition with the given name and type. |
| NodeTypes.RequirementDefinitions.GetDefinition | src/di/unipi/model/tosca/NodeType.java:129-135 | It returns the first definition with that name, or None iff there is none. |
| NodeTypes.CapabilityDefinitions.constructor | src/di/unipi/model/tosca/NodeType.java:164-166 | A new capability-definition list is empty. |
| NodeTypes.CapabilityDefinitions.AddDefinition | src/di/unipi/model/tosca/NodeType.java:176-181 | It always succeeds and appends exactly one new definition with the given name and type. |
| NodeTypes.CapabilityDefinitions.GetDefinition | src/di/unipi/model/tosca/NodeType.java:190-196 | It returns the first definition with that name, or None iff there is none. |
| NodeTypes.Interfaces.constructor | src/di/unipi/model/tosca/NodeType.java:225-227 | A new interface list is empty. |
| NodeTypes.Interfaces.Add | src/di/unipi/model/tosca/NodeType.java:236-240 | It fails with the list unchanged iff that very interface object is already listed. Otherwise it appends it. |
| NodeTypes.NodeType.Derived | src/di/unipi/model/tosca/NodeType.java:38-43 | It records the parent and the name and starts with four fresh, empty lists. |
| NodeTypes.NodeType.constructor | src/di/unipi/model/tosca/NodeType.java:49-54 | It records no parent and starts with four fresh, empty lists. |
| PolicyTypes.UnrestrictedAppliesEverywhere | src/di/unipi/model/tosca/PolicyType.java:59-60 | A policy type with an empty applicability list applies to every node type. |
| PolicyTypes.RestrictedAppliesByName | src/di/unipi/model/tosca/PolicyType.java:61-64 | A policy type restricted to one node type applies exactly to the node types with that node type's name. |
| PolicyTypes.ApplicableGrows | src/di/unipi/model/tosca/PolicyType.java:58-65 | Adding a node type to a non-empty list never makes the policy type inapplicable. |
| PolicyTypes.AppliesTo.constructor | src/di/unipi/model/tosca/PolicyType.java:79-81 | A new applicability list is empty. |
| PolicyTypes.AppliesTo.Add | src/di/unipi/model/tosca/PolicyType.java:95-97 | It appends the node type with no duplicate check. |
| PolicyTypes.PolicyType.Derived | src/di/unipi/model/tosca/PolicyType.java:23-26 | It records the parent and starts with an empty applicability list. |
| PolicyTypes.PolicyType.constructor | src/di/unipi/model/tosca/PolicyType.java:32-35 | It records no parent and starts with an empty applicability list. |
| PolicyTypes.PolicyType.SetApplicableTo | src/di/unipi/model/tosca/PolicyType.java:47-51 | It fails with the list unchanged iff that very node-type object is already listed. Otherwise it appends it. |
| PolicyTypes.PolicyType.IsApplicableTo | src/di/unipi/model/tosca/PolicyType.java:58-65 | It returns true iff the list is empty or some listed node type has the node type's name. |
| Boundaries.Requirements.constructor | src/di/unipi/model/tosca/BoundaryDefinitions.java:150-152 | A new requirement list is empty. |
| Boundaries.Requirements.AddReference | src/di/unipi/model/tosca/BoundaryDefinitions.java:161-165 | It fails with the list unchanged iff that very requirement is present. Otherwise it appends it. |
| Boundaries.Requirements.GetReference | src/di/unipi/model/tosca/BoundaryDefinitions.java:174-180 | It returns the first requirement with that name, or None iff there is none. |
| Boundaries.Capabilities.constructor | src/di/unipi/model/tosca/BoundaryDefinitions.java:210-212 | A new capability list is empty. |
| Boundaries.Capabilities.AddReference | src/di/unipi/model/tosca/BoundaryDefinitions.java:221-225 | It fails with the list unchanged iff that very capability is present. Otherwise it appends it. |
| Boundaries.Capabilities.GetReference | src/di/unipi/model/tosca/BoundaryDefinitions.java:234-240 | It returns the first capability with that name, or None iff there is none. |
| Boundaries.Properties.constructor | src/di/unipi/model/tosca/BoundaryDefinitions.java:270-272 | A new property list is empty. |
| Boundaries.Properties.AddReference | src/di/unipi/model/tosca/BoundaryDefinitions.java:281-285 | It fails with the list unchanged iff that very property is present. Otherwise it appends it. |
| Boundaries.Properties.GetReference | src/di/unipi/model/tosca/BoundaryDefinitions.java:294-300 | It returns the first property with that name, or None iff there is none. |
| Boundaries.Policies.constructor | src/di/unipi/model/tosca/BoundaryDefinitions.java:330-332 | A new policy list is empty. |
| Boundaries.Policies.Add | src/di/unipi/model/tosca/BoundaryDefinitions.java:341-345 | It fails (AlreadyPresent) with the list unchanged iff that very policy is present. Otherwise it appends it. |
| Boundaries.Interfaces.constructor | src/di/unipi/model/tosca/BoundaryDefinitions.java:374-376 | A new interface list is empty. |
| Boundaries.Interfaces.Add | src/di/unipi/model/tosca/BoundaryDefinitions.java:385-389 | It fails (AlreadyDefined) with the list unchanged iff that very interface is present. Otherwise it appends it. |
| Boundaries.BoundaryDefinitions.constructor | src/di/unipi/model/tosca/BoundaryDefinitions.java:40-46 | A new boundary has five fresh, empty containers. |
| Boundaries.BoundaryDefinitions.AddRequirement | src/di/unipi/model/tosca/BoundaryDefinitions.java:92-94 | It has the requirement container's throw-or-append behaviour and leaves the other four containers unchanged. |
| Boundaries.BoundaryDefinitions.AddCapability | src/di/unipi/model/tosca/BoundaryDefinitions.java:101-103 | The same for capabilities. |
| Boundaries.BoundaryDefinitions.AddPolicy | src/di/unipi/model/tosca/BoundaryDefinitions.java:110-112 | The same for policies. |
| Boundaries.BoundaryDefinitions.AddProperty | src/di/unipi/model/tosca/BoundaryDefinitions.java:119-121 | The same for properties. |
| Boundaries.BoundaryDefinitions.AddInterface | src/di/unipi/model/tosca/BoundaryDefinitions.java:128-130 | The same for interfaces, failing with AlreadyDefined. |
| Boundaries.ServiceTemplate.constructor | src/di/unipi/model/tosca/ServiceTemplate.java:27-30 | A new service template has a fresh boundary exposing nothing. |
| Pairing.FirstPairing | src/di/unipi/matchmaker/ExactMatchmaker.java:89-95 | The inner scan finds a partner iff one exists, and what it finds is a partner from the scanned list. |
| Pairing.Pairings | src/di/unipi/matchmaker/ExactMatchmaker.java:87-98 | The partners recorded, plus the elements left unmatched, are as many as the elements scanned. Every partner comes from the other side. Which partner belongs to which element is stated by `PairingsAlign`. |
| Pairing.PairingsAlign | src/di/unipi/matchmaker/ExactMatchmaker.java:87-98 | There is one partner per matched element, and the j-th partner recorded is the first partner, in scan order, of the j-th matched element. So `exactlyMatchedCapabilities`, `exactlyMatchedProperties` and `exactlyMatchedInterfaces` hold the first partner of each matched element, in order. |
| Pairing.PairedOnes | src/di/unipi/matchmaker/ExactMatchmaker.java:137-149 | The elements recorded as matched, plus those left unmatched, are as many as the elements scanned. Which elements they are is stated by `PairedOnesMembers`. |
| Pairing.PairedOnesMembers | src/di/unipi/matchmaker/ExactMatchmaker.java:137-149 | An element is recorded as matched iff it was scanned and has a partner. This is what `exactlyMatchedRequirements` holds. |
| Pairing.UnpairedMembers | src/di/unipi/matchmaker/ExactMatchmaker.java:87-99 | An element is left unmatched iff it was scanned and has no partner. |
| Pairing.UnpairedEmptyIffAllPaired | src/di/unipi/matchmaker/ExactMatchmaker.java:99-107 | Nothing is left unmatched iff every scanned element has a partner. |
| Pairing.UnpairedAppend | src/di/unipi/matchmaker/ExactMatchmaker.java:87-98 | The elements left unmatched from a concatenation are those left from each part, in order. |
| Pairing.RerunOverUnpaired | src/di/unipi/matchmaker/PlugInMatchmaker.java:100-130 | Re-running a pass, with a predicate at least as permissive, over what a first pass left gives the same leftovers as running it over everything. |
| Pairing.RerunFindsNothing | src/di/unipi/matchmaker/PlugInMatchmaker.java:100-130 | Re-running a pass with the same predicate over its own leftovers finds no partner. |
| Pairing.NoPartnersNoPairings | src/di/unipi/matchmaker/ExactMatchmaker.java:87-98 | When no element has a partner, no partner is recorded. |
| Pairing.WeakerAllPaired | src/di/unipi/matchmaker/PlugInMatchmaker.java:140-152 | If every element has a partner under one predicate, it has one under any more permissive predicate. |
| MatchPredicates.ExactPairsArePlugInPairs | src/di/unipi/matchmaker/PlugInMatchmaker.java:140-152 | Every exact capability, requirement and property pair is also a plug-in pair (the walk's zero-step case, and the reflexivity of assignability). |
| MatchPredicates.PlugInCapabilityByLineage | src/di/unipi/matchmaker/PlugInMatchmaker.java:140-152 | A plug-in capability match holds iff the names are equal and the definition's type name is on the chain of the capability's type. |
| MatchPredicates.PlugInRequirementByLineage | src/di/unipi/matchmaker/PlugInMatchmaker.java:197-209 | A plug-in requirement match holds iff the names are equal and the requirement's type name is on the chain of the definition's type. |
| MatchPredicates.SpecialisedCapabilityPlugsIn | src/di/unipi/matchmaker/PlugInMatchmaker.java:140-152 | A capability whose type derives, over any number of steps, from a same-named definition's type plug-in matches it. |
| MatchPredicates.ThreeLevelChain | src/di/unipi/matchmaker/PlugInMatchmaker.java:140-152 | For the chain A <- B <- C, a capability typed C plug-in matches same-named definitions typed A, B or C and no others. It exactly matches only C. |
| MatchPredicates.AssignabilityDirection | src/di/unipi/matchmaker/PlugInMatchmaker.java:252-257 | A Number property plug-in matches an Integer definition. An Integer property does not match a Number definition. |
| MatchPredicates.OperationMatchAsWritten | src/di/unipi/matchmaker/ExactMatchmaker.java:321-358 | With unique parameter names, matching operations have the same input parameters. The first operation's outputs need only be among the second's. |
| MatchPredicates.OperationMatchIgnoresOutputCount | src/di/unipi/matchmaker/ExactMatchmaker.java:329-331 | An operation with one extra output still matches under the predicate as written, and not under the intended one. |
| MatchPredicates.IntendedOperationMatchPairsAllParameters | src/di/unipi/matchmaker/ExactMatchmaker.java:327-331 | Under the intended predicate, with unique names, matching operations have the same inputs and the same outputs. |
| MatchPredicates.MatchPlugInCapability | src/di/unipi/matchmaker/PlugInMatchmaker.java:140-152 | The name test followed by the `while` walk up the chain computes the plug-in capability predicate. |
| MatchPredicates.MatchPlugInRequirement | src/di/unipi/matchmaker/PlugInMatchmaker.java:197-209 | The name test followed by the walk up the definition's chain computes the plug-in requirement predicate. |
| MatchPredicates.AllParametersPresent | src/di/unipi/matchmaker/ExactMatchmaker.java:334-343 | The parameter loop returns true iff every parameter has a same-named, same-kind parameter on the other side. |
| MatchPredicates.MatchOperation | src/di/unipi/matchmaker/ExactMatchmaker.java:321-358 | The operation predicate: equal names, the input-size test as written, then inputs and outputs each present. |
| MatchPredicates.MatchInterface | src/di/unipi/matchmaker/ExactMatchmaker.java:294-319 | Two interfaces match iff the names and the operation counts are equal and every operation of the first matches one of the second. |
| MatchPredicates.Flat | src/di/unipi/matchmaker/PlugInMatchmaker.java:284-294 | Every operation of every service-template interface is among those the plug-in search visits. |
| MatchPredicates.FindOperation | src/di/unipi/matchmaker/PlugInMatchmaker.java:284-294 | The two nested loops with their two `break`s find the first matching operation over all interfaces, regardless of interface name. |
| MatchSpec.PoliciesPartition | src/di/unipi/matchmaker/ExactMatchmaker.java:187-192 | The matched and unmatched policies together are as many as the boundary's policies. A policy is matched iff it is listed with a type that applies to the node type, and unmatched iff it is listed with a type that does not. |
| MatchSpec.NoInapplicableIffAllApplicable | src/di/unipi/matchmaker/ExactMatchmaker.java:187-195 | No policy is left unmatched iff every policy's type applies to the node type. |
| MatchSpec.ElementPasses | src/di/unipi/matchmaker/PlugInMatchmaker.java:82-90 | The plug-in capability, requirement and property steps leave the unmatched interfaces alone. |
| Matchmakers.Matchmaker.Exact | src/di/unipi/matchmaker/Matchmaker.java:69-84 | A new exact matchmaker stores n and st, has every flag false and every list null. |
| Matchmakers.Matchmaker.PlugIn | src/di/unipi/matchmaker/PlugInMatchmaker.java:55-63 | A new plug-in matchmaker is the same, with its plug-in lists also null. |
| Matchmakers.Matchmaker.MatchCapability | src/di/unipi/matchmaker/ExactMatchmaker.java:118-121 | `match(cDef, c)` resolves to the predicate of the matchmaker's own class: exact or plug-in. |
| Matchmakers.Matchmaker.MatchRequirement | src/di/unipi/matchmaker/ExactMatchmaker.java:170-173 | `match(r, rDef)` resolves likewise. |
| Matchmakers.Matchmaker.MatchProperty | src/di/unipi/matchmaker/ExactMatchmaker.java:245-248 | `match(pDef, p)` resolves likewise. |
| Matchmakers.Matchmaker.FindCapability | src/di/unipi/matchmaker/ExactMatchmaker.java:89-95 | The inner loop stops at the first boundary capability the definition matches. |
| Matchmakers.Matchmaker.PairCapabilities | src/di/unipi/matchmaker/ExactMatchmaker.java:87-98 | The outer loop records, in order, the first partner of each matched definition and the definitions without one. |
| Matchmakers.Matchmaker.FindRequirementDefinition | src/di/unipi/matchmaker/ExactMatchmaker.java:139-145 | The inner loop stops at the first definition the requirement matches. |
| Matchmakers.Matchmaker.PairRequirements | src/di/unipi/matchmaker/ExactMatchmaker.java:137-149 | The outer loop records, in order, the requirements with a partner and those without. |
| Matchmakers.Matchmaker.SplitPolicies | src/di/unipi/matchmaker/ExactMatchmaker.java:187-192 | Each policy goes to exactly one list: matched if its type applies to n, unmatched otherwise, in order. |
| Matchmakers.Matchmaker.FindProperty | src/di/unipi/matchmaker/ExactMatchmaker.java:214-220 | The inner loop stops at the first boundary property the definition matches. |
| Matchmakers.Matchmaker.PairProperties | src/di/unipi/matchmaker/ExactMatchmaker.java:212-224 | The outer loop records the first partners and the definitions without one. |
| Matchmakers.Matchmaker.FindInterface | src/di/unipi/matchmaker/ExactMatchmaker.java:266-272 | The inner loop stops at the first boundary interface the interface matches. |
| Matchmakers.Matchmaker.PairInterfaces | src/di/unipi/matchmaker/ExactMatchmaker.java:264-275 | The outer loop records the first partners and the interfaces without one. |
| Matchmakers.Matchmaker.RecordCapabilities | src/di/unipi/matchmaker/ExactMatchmaker.java:74-108 | The capability pass sets the matched list, the unmatched list and a flag that is true iff the counts agree and nothing is left. Nothing else changes. |
| Matchmakers.Matchmaker.MatchCapabilities | src/di/unipi/matchmaker/ExactMatchmaker.java:74-108 | `matchCapabilities()` leaves the state `CapabilitiesPass` gives, and n and st unchanged. |
| Matchmakers.Matchmaker.RecordRequirements | src/di/unipi/matchmaker/ExactMatchmaker.java:124-160 | The requirement pass, run from the boundary's requirements towards n's definitions, with the count condition. |
| Matchmakers.Matchmaker.MatchRequirements | src/di/unipi/matchmaker/ExactMatchmaker.java:124-160 | `matchRequirements()` leaves the state `RequirementsPass` gives, and n and st unchanged. |
| Matchmakers.Matchmaker.RecordPolicies | src/di/unipi/matchmaker/ExactMatchmaker.java:176-196 | The policy pass. Its flag is true iff no policy is left, with no count condition. |
| Matchmakers.Matchmaker.MatchPolicies | src/di/unipi/matchmaker/ExactMatchmaker.java:176-196 | `matchPolicies()` leaves the state `PoliciesPass` gives, and n and st unchanged. |
| Matchmakers.Matchmaker.RecordProperties | src/di/unipi/matchmaker/ExactMatchmaker.java:199-235 | The property pass, with the count condition. |
| Matchmakers.Matchmaker.MatchProperties | src/di/unipi/matchmaker/ExactMatchmaker.java:199-235 | `matchProperties()` leaves the state `PropertiesPass` gives, and n and st unchanged. |
| Matchmakers.Matchmaker.RecordInterfaces | src/di/unipi/matchmaker/ExactMatchmaker.java:251-285 | The interface pass, with the count condition. |
| Matchmakers.Matchmaker.MatchInterfaces | src/di/unipi/matchmaker/ExactMatchmaker.java:251-285 | `matchInterfaces()` leaves the state `InterfacesPass` gives, and n and st unchanged. |
| Matchmakers.Matchmaker.SearchOperations | src/di/unipi/matchmaker/PlugInMatchmaker.java:282-303 | For one interface: the operations found, the operations appended as unmatched, and the interface appended once per operation processed after its first failure. |
| Matchmakers.Matchmaker.SearchInterfaces | src/di/unipi/matchmaker/PlugInMatchmaker.java:279-307 | The plug-in interface loop computes the synthesized interfaces, the missing operations, the new unmatched list and the flag as `Synthesized`, `MissingOperations`, `NewUnmatched` and `FlagAfter` define them. |
| Matchmakers.Matchmaker.PlugInRecordCapabilities | src/di/unipi/matchmaker/PlugInMatchmaker.java:100-130 | The plug-in capability pass runs over the definitions still unmatched, with no count condition. The flag is raised iff nothing is left and is never lowered. |
| Matchmakers.Matchmaker.PlugInMatchCapabilities | src/di/unipi/matchmaker/PlugInMatchmaker.java:100-130 | It leaves the state `PlugInCapabilitiesPass` gives. |
| Matchmakers.Matchmaker.PlugInRecordRequirements | src/di/unipi/matchmaker/PlugInMatchmaker.java:155-187 | The plug-in requirement pass, over the requirements still unmatched. |
| Matchmakers.Matchmaker.PlugInMatchRequirements | src/di/unipi/matchmaker/PlugInMatchmaker.java:155-187 | It leaves the state `PlugInRequirementsPass` gives. |
| Matchmakers.Matchmaker.PlugInRecordProperties | src/di/unipi/matchmaker/PlugInMatchmaker.java:212-241 | The plug-in property pass, over the definitions still unmatched. |
| Matchmakers.Matchmaker.PlugInMatchProperties | src/di/unipi/matchmaker/PlugInMatchmaker.java:212-241 | It leaves the state `PlugInPropertiesPass` gives. |
| Matchmakers.Matchmaker.PlugInRecordInterfaces | src/di/unipi/matchmaker/PlugInMatchmaker.java:261-308 | The plug-in interface pass sets its four fields as `PlugInInterfacesPass` defines them. |
| Matchmakers.Matchmaker.PlugInMatchInterfaces | src/di/unipi/matchmaker/PlugInMatchmaker.java:261-308 | It leaves the state `PlugInInterfacesPass` gives. |
| Matchmakers.Matchmaker.FirstPasses | src/di/unipi/matchmaker/ExactMatchmaker.java:55-65 | All five passes run, in order, with no short-circuit. |
| Matchmakers.Matchmaker.PlugInPasses | src/di/unipi/matchmaker/PlugInMatchmaker.java:82-93 | Only the dimensions whose flag is false are re-run, and policies never are. |
| Matchmakers.Matchmaker.Match | src/di/unipi/matchmaker/PlugInMatchmaker.java:66-96 | `match()` leaves the state `Run` gives and returns the conjunction of the five flags. The plug-in matchmaker returns after the first pass when that already matches. |
| MatchVerdicts.FailureTailZeroIff | src/di/unipi/matchmaker/PlugInMatchmaker.java:281-302 | An interface is appended to the new unmatched list iff one of its operations has no counterpart. |
| MatchVerdicts.NewUnmatchedMembers | src/di/unipi/matchmaker/PlugInMatchmaker.java:279-304 | The new unmatched interfaces are exactly the visited interfaces with an operation missing. |
| MatchVerdicts.NewUnmatchedEmptyIff | src/di/unipi/matchmaker/PlugInMatchmaker.java:279-304 | The new unmatched list ends empty iff every operation of every visited interface is found. |
| MatchVerdicts.FlagAfterClosedForm | src/di/unipi/matchmaker/PlugInMatchmaker.java:304-306 | The plug-in interface flag ends true iff it was already true or the first visited interface has all its operations found. |
| MatchVerdicts.MissingOperationsMembers | src/di/unipi/matchmaker/PlugInMatchmaker.java:295-300 | The unmatched operations are exactly the operations of visited interfaces that have no counterpart anywhere in the service template. |
| MatchVerdicts.SynthesizedFromBoundary | src/di/unipi/matchmaker/PlugInMatchmaker.java:295-296 | Every synthesized interface carries a visited interface's name and only the service template's operations. |
| MatchVerdicts.FirstPassFields | src/di/unipi/matchmaker/ExactMatchmaker.java:55-285 | After the first pass, each unmatched list and flag, in terms of the inputs. The plug-in lists are untouched. |
| MatchVerdicts.FirstPassLists | src/di/unipi/matchmaker/ExactMatchmaker.java:55-285 | After the first pass, each matched list, in terms of the inputs. |
| MatchVerdicts.SecondPassKeepsLists | src/di/unipi/matchmaker/PlugInMatchmaker.java:82-93 | The plug-in steps leave the first pass's matched lists alone. |
| MatchVerdicts.RunKeepsFirstPassLists | src/di/unipi/matchmaker/PlugInMatchmaker.java:66-96 | After `match()`, the matched lists are those of the first pass, for both matchmakers. |
| MatchVerdicts.SecondPassElementFlags | src/di/unipi/matchmaker/PlugInMatchmaker.java:82-90 | After the plug-in steps, each of the capability, requirement and property flags is its first-pass value or "nothing left under the plug-in predicate". |
| MatchVerdicts.SecondPassOtherFlags | src/di/unipi/matchmaker/PlugInMatchmaker.java:82-93 | After the plug-in steps, the interface flag is its first-pass value or the plug-in interface flag. The policy results are unchanged. |
| MatchVerdicts.ExactVerdictIff | src/di/unipi/matchmaker/ExactMatchmaker.java:55-285 | The exact matchmaker answers true iff every policy applies and each other dimension has equal counts and a partner for every element. |
| MatchVerdicts.PlugInRunFlags | src/di/unipi/matchmaker/PlugInMatchmaker.java:66-307 | After the plug-in `match()`, the capability, requirement and property flags are true iff every element has a plug-in partner, whatever the counts. Policies: iff every policy applies. Interfaces: the as-written condition. |
| MatchVerdicts.PlugInVerdictIff | src/di/unipi/matchmaker/PlugInMatchmaker.java:66-96 | The plug-in matchmaker's answer as one formula over the inputs. |
| MatchVerdicts.ExactImpliesPlugIn | src/di/unipi/matchmaker/PlugInMatchmaker.java:66-96 | From any starting state, an exact match is also a plug-in match. |
| MatchVerdicts.PoliciesDecidedOnce | src/di/unipi/matchmaker/PlugInMatchmaker.java:82-93 | For both matchmakers, the policy flag and the unmatched policies after `match()` are those of the first pass: iff every policy applies, and exactly the inapplicable ones. |
| MatchFindings.RerunMarksNothing | src/di/unipi/matchmaker/PlugInMatchmaker.java:155-187 | Re-running the requirement scan with the same predicate over its leftovers marks nothing as matched. |
| MatchFindings.PlugInListsStayEmpty | src/di/unipi/matchmaker/PlugInMatchmaker.java:66-96 | As written, the plug-in capability, requirement and property lists are never anything but null or empty, however often `match()` runs. |
| MatchFindings.DerivedCapabilityAsWritten | src/di/unipi/matchmaker/PlugInMatchmaker.java:68 | As written, a capability typed B (derived from A) is recorded as exactly matching a same-named definition typed A, although the exact predicate rejects the pair. |
| MatchFindings.DerivedCapabilityIntended | src/di/unipi/matchmaker/PlugInMatchmaker.java:68 | In the intended run, the same pair is recorded as plug-in matched, and the exactly-matched list is empty. |
| MatchFindings.StillUnmatchedMembers | src/di/unipi/matchmaker/PlugInMatchmaker.java:301-302 | The intended new unmatched list holds the same interfaces as the list written: those with an operation missing. |
| MatchFindings.StillUnmatchedEmptyIff | src/di/unipi/matchmaker/PlugInMatchmaker.java:304-306 | The intended list is empty iff every visited interface has all its operations. |
| MatchFindings.IntendedCapabilities | src/di/unipi/matchmaker/PlugInMatchmaker.java:66-130 | In the intended run, exact pairs are recorded as exactly matched and pairs only the plug-in predicate accepts as plug-in matched. What remains is what no predicate pairs. |
| MatchFindings.IntendedRequirements | src/di/unipi/matchmaker/PlugInMatchmaker.java:155-187 | The same for requirements. |
| MatchFindings.IntendedProperties | src/di/unipi/matchmaker/PlugInMatchmaker.java:212-241 | The same for properties. |
| MatchFindings.IntendedVerdictIff | src/di/unipi/matchmaker/PlugInMatchmaker.java:66-96 | The intended run's answer. Capabilities, requirements and properties are as in the run as written. Interfaces need every interface left by the first pass to have all its operations. |
| MatchFindings.FirstInterfaceDecides | src/di/unipi/matchmaker/PlugInMatchmaker.java:304-306 | As written, a fully found first interface raises the flag even when a second interface has a missing operation. The intended pass leaves that second interface, once. |
| MatchFindings.RepeatedInterface | src/di/unipi/matchmaker/PlugInMatchmaker.java:301-302 | As written, an interface with two missing operations is listed twice. The intended pass lists it once. |
| MatchFindings.CountMismatchNotRecovered | src/di/unipi/matchmaker/PlugInMatchmaker.java:279-307 | As written, interfaces that all match but are fewer than the service template's never get the flag raised. The intended pass raises it. |

## Left out

- The accessors (`getUnmatched*`, `getExactlyMatched*`, `getPlugInMatched*`, `getList`) only return a field. The model's fields are public, so a field read stands for each of them.
- Matchmakers.Matchmaker: the abstract class `Matchmaker` and its two subclasses are one class, with a `kind` constant. `unmatchedPolicies` starts as null (None), as a Java field without an initialiser does.
- Matchmakers.Matchmaker.RecordCapabilities: the source resets the flag, returns early on a count mismatch, and otherwise raises the flag when nothing is left. The model assigns the final value in one step. Requirements, properties and interfaces are modelled the same way.
- Each dimension's nested loop is split into a search method (the inner loop) and a pass method (the outer loop). Reading the lists and writing the fields are separate methods.
- `AlreadyDefinedException` and `AlreadyPresentException` are an `Outcome` value that the call returns. The list is left unchanged.
- Java `Class` values and `isAssignableFrom` are a closed enumeration of value kinds, with a fixed assignability relation over it.
- `Parameter.required`, `RequirementType.requiredCapabilityType` and the node type's parent link are never read by the matchmakers. The first two are left out, and the parent is stored but not used.
- In the plug-in interface pass, the entries added for one interface share that interface's operation list. The model gives each of those entries the list's final contents, which is what every one of them shows after the pass. It does not model the sharing itself.
- Example.java, the demo driver that prints to standard output, is not part of this model.
- Every `requires` on the pass methods (a list not null before a plug-in step) is met by the source's call order in `match()`, which `Match` follows.

## Findings

| source | as written | input that shows it | evidently intended | confidence | as-written member | corrected member |
|---|---|---|---|---|---|---|
| src/di/unipi/matchmaker/PlugInMatchmaker.java:68-72 | The "exact" first pass calls `super.match*()`, but its `match(cDef,c)`, `match(r,rDef)` and `match(pDef,p)` calls dispatch to the plug-in overrides. The first pass already matches by derivation and assignability, and the plug-in lists stay null or empty. | One capability typed B (derived from A), and a same-named definition typed A. | An exact first pass, with the derived pair recorded as plug-in matched. | not executed | MatchFindings.DerivedCapabilityAsWritten | MatchFindings.DerivedCapabilityIntended |
| src/di/unipi/matchmaker/PlugInMatchmaker.java:301-306 | The flag is raised after any interface that leaves the new unmatched list empty, which only the first interface can do. An interface is appended once per operation processed after its first failure. | Interfaces u1 (all operations found) and u2 (one operation missing): the flag ends true with u2 unmatched. | The flag is true iff no interface is left, and each interface is listed once. | not executed | MatchFindings.FirstInterfaceDecides | MatchFindings.StillUnmatchedEmptyIff |
| src/di/unipi/matchmaker/PlugInMatchmaker.java:279-307 | When the first pass failed only on the interface count, the loop has nothing to visit and the flag stays false. | A node type with no interfaces, against a service template exposing one. | The flag is raised, as for the other relaxed dimensions, which ignore counts. | not executed | MatchFindings.CountMismatchNotRecovered | MatchFindings.IntendedVerdictIff |
| src/di/unipi/matchmaker/ExactMatchmaker.java:329-331 | The size test compares the input counts twice and never the output counts. | Operations `Sum(a, b) -> sum` and `Sum(a, b) -> (sum, carry)` match. | Output counts are compared as input counts are. | not executed | MatchPredicates.OperationMatchIgnoresOutputCount | MatchPredicates.IntendedOperationMatchPairsAllParameters |

The `Matchmaker` class follows the code as written, since it models the program. The
corrected definitions sit beside it: `MatchPredicates.OperationsMatchIntended` and, in
`MatchFindings`, `IntendedInterfacesPass` and `IntendedRun` (an exact first pass, then the
plug-in steps with the intended interface pass). The lemmas in the corrected-member column
are proved about these definitions.

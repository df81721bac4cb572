/** The matchmakers themselves: one class for the exact matchmaker and the plug-in
    matchmaker that extends it, told apart by `kind`. Every pass is proved to leave the
    matchmaker in the state its function in MatchSpec describes. */
module Matchmakers {
  import opened Outcomes
  import opened Values
  import opened Elements
  import opened Pairing
  import opened MatchPredicates
  import opened NodeTypes
  import opened PolicyTypes
  import opened Boundaries
  import opened MatchSpec

  /** The applicability lists of the policies' types. */
  function ApplicabilityLists(pols: seq<Policy>): seq<AppliesTo> {
    seq(|pols|, i requires 0 <= i < |pols| => pols[i].policyType.appliesTo)
  }

  /** The boundary policies, each with the node types its type is restricted to. */
  ghost function PolicyEntries(pols: seq<Policy>): (r: seq<PolicyEntry>)
    reads ApplicabilityLists(pols)
    ensures |r| == |pols|
  {
    seq(|pols|, i reads ApplicabilityLists(pols) requires 0 <= i < |pols| =>
      PolicyEntry(pols[i], ApplicabilityLists(pols)[i].nodeTypeReference))
  }

  lemma InterfaceStep(us: seq<Interface>, flat: seq<Operation>, flag0: bool, i: nat)
    requires i < |us|
    ensures Synthesized(us[..i + 1], flat) ==
              Synthesized(us[..i], flat) +
              Repeat(MatchedInterface(us[i].name, Pairings(us[i].operations, flat, OperationsMatch)),
                     |Pairings(us[i].operations, flat, OperationsMatch)|)
    ensures MissingOperations(us[..i + 1], flat) ==
              MissingOperations(us[..i], flat) + Unpaired(us[i].operations, flat, OperationsMatch)
    ensures NewUnmatched(us[..i + 1], flat) ==
              NewUnmatched(us[..i], flat) + Repeat(us[i], FailureTail(us[i].operations, flat))
    ensures FlagAfter(us[..i + 1], flat, flag0) ==
              (FlagAfter(us[..i], flat, flag0) || NewUnmatched(us[..i + 1], flat) == [])
  {
    assert us[..i + 1][..i] == us[..i];
  }

  lemma MissingStep(ops: seq<Operation>, flat: seq<Operation>, j: nat, missing0: seq<Operation>)
    requires j < |ops|
    ensures missing0 + Unpaired(ops[..j + 1], flat, OperationsMatch) ==
              missing0 + Unpaired(ops[..j], flat, OperationsMatch) +
              if Paired(ops[j], flat, OperationsMatch) then [] else [ops[j]]
  {
    PassStep(ops, flat, OperationsMatch, j);
    var left := Unpaired(ops[..j], flat, OperationsMatch);
    if !Paired(ops[j], flat, OperationsMatch) {
      assert missing0 + (left + [ops[j]]) == missing0 + left + [ops[j]];
    }
  }

  lemma UnmatchedStep(infN: Interface, ops: seq<Operation>, flat: seq<Operation>, j: nat,
                      newUnmatched0: seq<Interface>)
    requires j < |ops|
    ensures newUnmatched0 + Repeat(infN, FailureTail(ops[..j + 1], flat)) ==
              newUnmatched0 + Repeat(infN, FailureTail(ops[..j], flat)) +
              if AllPaired(ops[..j + 1], flat, OperationsMatch) then [] else [infN]
  {
    AllOpsStep(ops, flat, j);
    var tail := FailureTail(ops[..j], flat);
    if !AllPaired(ops[..j + 1], flat, OperationsMatch) {
      assert Repeat(infN, tail + 1) == Repeat(infN, tail) + [infN];
      assert newUnmatched0 + (Repeat(infN, tail) + [infN]) == newUnmatched0 + Repeat(infN, tail) + [infN];
    }
  }

  lemma AllOpsStep(ops: seq<Operation>, flat: seq<Operation>, j: nat)
    requires j < |ops|
    ensures AllPaired(ops[..j + 1], flat, OperationsMatch) <==>
              AllPaired(ops[..j], flat, OperationsMatch) && Paired(ops[j], flat, OperationsMatch)
    ensures FailureTail(ops[..j + 1], flat) ==
              FailureTail(ops[..j], flat) + if AllPaired(ops[..j + 1], flat, OperationsMatch) then 0 else 1
  {
    var prefix := ops[..j + 1];
    assert prefix[..j] == ops[..j];
    assert prefix[j] == ops[j];
    if AllPaired(ops[..j], flat, OperationsMatch) && Paired(ops[j], flat, OperationsMatch) {
      forall k | 0 <= k < |prefix| ensures Paired(prefix[k], flat, OperationsMatch) {
        if k < j {
          assert prefix[k] == ops[..j][k];
        }
      }
    }
  }

  class Matchmaker {
    const kind: Kind
    /** The node type and the service template being matched. */
    const n: NodeType
    const st: ServiceTemplate

    var unmatchedCapabilities: Option<seq<CapabilityDefinition>>
    var unmatchedRequirements: Option<seq<Requirement>>
    var unmatchedPolicies: Option<seq<Policy>>
    var unmatchedProperties: Option<seq<PropertyDefinition>>
    var unmatchedInterfaces: Option<seq<Interface>>
    var capabilitiesMatched: bool
    var requirementsMatched: bool
    var propertiesMatched: bool
    var policiesMatched: bool
    var interfacesMatched: bool
    var exactlyMatchedCapabilities: Option<seq<Capability>>
    var exactlyMatchedRequirements: Option<seq<Requirement>>
    var exactlyMatchedProperties: Option<seq<Property>>
    var exactlyMatchedPolicies: Option<seq<Policy>>
    var exactlyMatchedInterfaces: Option<seq<Interface>>
    var pluginMatchedCapabilities: Option<seq<Capability>>
    var pluginMatchedRequirements: Option<seq<Requirement>>
    var pluginMatchedProperties: Option<seq<Property>>
    var pluginMatchedInterfaces: Option<seq<MatchedInterface>>
    var unmatchedOperations: Option<seq<Operation>>

    /** All fields, as a value. */
    ghost function State(): Report
      reads this
    {
      Report(unmatchedCapabilities, unmatchedRequirements, unmatchedPolicies, unmatchedProperties,
             unmatchedInterfaces, capabilitiesMatched, requirementsMatched, propertiesMatched,
             policiesMatched, interfacesMatched, exactlyMatchedCapabilities, exactlyMatchedRequirements,
             exactlyMatchedProperties, exactlyMatchedPolicies, exactlyMatchedInterfaces,
             pluginMatchedCapabilities, pluginMatchedRequirements, pluginMatchedProperties,
             pluginMatchedInterfaces, unmatchedOperations)
    }

    /** What the passes read of n and st. */
    ghost function Snapshot(): Inputs
      reads n.capabilityDefinitions, n.requirementDefinitions, n.propertiesDefinition, n.interfaces
      reads st.bounds.capabilities, st.bounds.requirements, st.bounds.policies
      reads st.bounds.properties, st.bounds.interfaces
      reads ApplicabilityLists(st.bounds.policies.pols)
    {
      Inputs(n, n.capabilityDefinitions.capDefs, n.requirementDefinitions.reqDefs,
             n.propertiesDefinition.properties, n.interfaces.interfaces,
             st.bounds.capabilities.caps, st.bounds.requirements.reqs,
             PolicyEntries(st.bounds.policies.pols), st.bounds.properties.props,
             st.bounds.interfaces.interfaces)
    }

    /** An exact matchmaker for n and st: nothing matched yet. */
    constructor Exact(n: NodeType, st: ServiceTemplate)
      ensures kind == MatchSpec.Exact && this.n == n && this.st == st
      ensures State() == Initial
    {
      kind := MatchSpec.Exact;
      this.n := n;
      this.st := st;
      unmatchedCapabilities, unmatchedRequirements, unmatchedPolicies := None, None, None;
      unmatchedProperties, unmatchedInterfaces := None, None;
      capabilitiesMatched, requirementsMatched, propertiesMatched := false, false, false;
      policiesMatched, interfacesMatched := false, false;
      exactlyMatchedCapabilities, exactlyMatchedRequirements, exactlyMatchedProperties := None, None, None;
      exactlyMatchedPolicies, exactlyMatchedInterfaces := None, None;
      pluginMatchedCapabilities, pluginMatchedRequirements, pluginMatchedProperties := None, None, None;
      pluginMatchedInterfaces, unmatchedOperations := None, None;
    }

    /** A plug-in matchmaker for n and st: nothing matched yet. */
    constructor PlugIn(n: NodeType, st: ServiceTemplate)
      ensures kind == MatchSpec.PlugIn && this.n == n && this.st == st
      ensures State() == Initial
    {
      kind := MatchSpec.PlugIn;
      this.n := n;
      this.st := st;
      unmatchedCapabilities, unmatchedRequirements, unmatchedPolicies := None, None, None;
      unmatchedProperties, unmatchedInterfaces := None, None;
      capabilitiesMatched, requirementsMatched, propertiesMatched := false, false, false;
      policiesMatched, interfacesMatched := false, false;
      exactlyMatchedCapabilities, exactlyMatchedRequirements, exactlyMatchedProperties := None, None, None;
      exactlyMatchedPolicies, exactlyMatchedInterfaces := None, None;
      pluginMatchedCapabilities, pluginMatchedRequirements, pluginMatchedProperties := None, None, None;
      pluginMatchedInterfaces, unmatchedOperations := None, None;
    }

    // ---- The overridable element predicates ----

    /** `match(cDef, c)`: resolved by the matchmaker's own class. */
    method MatchCapability(cDef: CapabilityDefinition, c: Capability) returns (b: bool)
      ensures b == CapabilityPredicate(kind)(cDef, c)
    {
      if kind == MatchSpec.Exact {
        b := ExactCapabilityMatch(cDef, c);
      } else {
        b := MatchPlugInCapability(cDef, c);
      }
    }

    /** `match(r, rDef)`: resolved by the matchmaker's own class. */
    method MatchRequirement(r: Requirement, rDef: RequirementDefinition) returns (b: bool)
      ensures b == RequirementPredicate(kind)(r, rDef)
    {
      if kind == MatchSpec.Exact {
        b := ExactRequirementMatch(r, rDef);
      } else {
        b := MatchPlugInRequirement(r, rDef);
      }
    }

    /** `match(pDef, p)`: resolved by the matchmaker's own class. */
    method MatchProperty(pDef: PropertyDefinition, p: Property) returns (b: bool)
      ensures b == PropertyPredicate(kind)(pDef, p)
    {
      if kind == MatchSpec.Exact {
        b := ExactPropertyMatch(pDef, p);
      } else {
        b := PlugInPropertyMatch(pDef, p);
      }
    }

    // ---- The first pass: the two nested loops of each dimension ----
    // Each inner loop (a scan for the first partner, left at the first hit) is its own
    // method; the outer loop records the partner or the element left unmatched.

    /** The first of st's capabilities that cDef matches, scanning in order. */
    method FindCapability(cDef: CapabilityDefinition, stCaps: seq<Capability>) returns (r: Option<Capability>)
      ensures r == FirstPairing(cDef, stCaps, CapabilityPredicate(kind))
    {
      ghost var m := CapabilityPredicate(kind);
      for j := 0 to |stCaps|
        invariant forall k :: 0 <= k < j ==> !m(cDef, stCaps[k])
      {
        var matched := MatchCapability(cDef, stCaps[j]);
        if matched {
          FirstPairingAt(cDef, stCaps, m, j);
          return Some(stCaps[j]);
        }
      }
      return None;
    }

    /** n's capability definitions against st's capabilities, with this matchmaker's predicate. */
    method PairCapabilities(defs: seq<CapabilityDefinition>, stCaps: seq<Capability>)
      returns (matchedCaps: seq<Capability>, newUnmatched: seq<CapabilityDefinition>)
      ensures matchedCaps == Pairings(defs, stCaps, CapabilityPredicate(kind))
      ensures newUnmatched == Unpaired(defs, stCaps, CapabilityPredicate(kind))
    {
      matchedCaps, newUnmatched := [], [];
      ghost var m := CapabilityPredicate(kind);
      for i := 0 to |defs|
        invariant matchedCaps == Pairings(defs[..i], stCaps, m)
        invariant newUnmatched == Unpaired(defs[..i], stCaps, m)
      {
        var found := FindCapability(defs[i], stCaps);
        PassStep(defs, stCaps, m, i);
        if found.Some? {
          matchedCaps := matchedCaps + [found.value];
        } else {
          newUnmatched := newUnmatched + [defs[i]];
        }
      }
      assert defs[..|defs|] == defs;
    }

    /** The first of n's requirement definitions that r matches, scanning in order. */
    method FindRequirementDefinition(r: Requirement, nReqDefs: seq<RequirementDefinition>)
      returns (found: Option<RequirementDefinition>)
      ensures found == FirstPairing(r, nReqDefs, RequirementPredicate(kind))
    {
      ghost var m := RequirementPredicate(kind);
      for j := 0 to |nReqDefs|
        invariant forall k :: 0 <= k < j ==> !m(r, nReqDefs[k])
      {
        var matched := MatchRequirement(r, nReqDefs[j]);
        if matched {
          FirstPairingAt(r, nReqDefs, m, j);
          return Some(nReqDefs[j]);
        }
      }
      return None;
    }

    /** st's requirements against n's requirement definitions; a requirement with a partner
        is itself recorded as matched. */
    method PairRequirements(reqs: seq<Requirement>, nReqDefs: seq<RequirementDefinition>)
      returns (matchedReqs: seq<Requirement>, newUnmatched: seq<Requirement>)
      ensures matchedReqs == PairedOnes(reqs, nReqDefs, RequirementPredicate(kind))
      ensures newUnmatched == Unpaired(reqs, nReqDefs, RequirementPredicate(kind))
    {
      matchedReqs, newUnmatched := [], [];
      ghost var m := RequirementPredicate(kind);
      for i := 0 to |reqs|
        invariant matchedReqs == PairedOnes(reqs[..i], nReqDefs, m)
        invariant newUnmatched == Unpaired(reqs[..i], nReqDefs, m)
      {
        var found := FindRequirementDefinition(reqs[i], nReqDefs);
        PassStep(reqs, nReqDefs, m, i);
        if found.Some? {
          matchedReqs := matchedReqs + [reqs[i]];
        } else {
          newUnmatched := newUnmatched + [reqs[i]];
        }
      }
      assert reqs[..|reqs|] == reqs;
    }

    /** st's policies split by whether their type is applicable to n. */
    method SplitPolicies(pols: seq<Policy>, ghost entries: seq<PolicyEntry>)
      returns (matchedPols: seq<Policy>, newUnmatched: seq<Policy>)
      requires entries == PolicyEntries(pols)
      ensures matchedPols == ApplicablePolicies(entries, n)
      ensures newUnmatched == InapplicablePolicies(entries, n)
    {
      matchedPols, newUnmatched := [], [];
      for i := 0 to |pols|
        invariant matchedPols == ApplicablePolicies(entries[..i], n)
        invariant newUnmatched == InapplicablePolicies(entries[..i], n)
      {
        var p := pols[i];
        var targets := p.policyType.appliesTo.nodeTypeReference;
        assert entries[i] == PolicyEntry(p, ApplicabilityLists(pols)[i].nodeTypeReference);
        var applicable := p.policyType.IsApplicableTo(n);
        assert applicable == Applicable(targets, n);
        PolicyStep(entries, n, i);
        if applicable {
          matchedPols := matchedPols + [p];
        } else {
          newUnmatched := newUnmatched + [p];
        }
      }
      assert entries[..|pols|] == entries;
    }

    /** The first of st's properties that pDef matches, scanning in order. */
    method FindProperty(pDef: PropertyDefinition, stProps: seq<Property>) returns (r: Option<Property>)
      ensures r == FirstPairing(pDef, stProps, PropertyPredicate(kind))
    {
      ghost var m := PropertyPredicate(kind);
      for j := 0 to |stProps|
        invariant forall k :: 0 <= k < j ==> !m(pDef, stProps[k])
      {
        var matched := MatchProperty(pDef, stProps[j]);
        if matched {
          FirstPairingAt(pDef, stProps, m, j);
          return Some(stProps[j]);
        }
      }
      return None;
    }

    /** n's property definitions against st's properties, with this matchmaker's predicate. */
    method PairProperties(defs: seq<PropertyDefinition>, stProps: seq<Property>)
      returns (matchedProps: seq<Property>, newUnmatched: seq<PropertyDefinition>)
      ensures matchedProps == Pairings(defs, stProps, PropertyPredicate(kind))
      ensures newUnmatched == Unpaired(defs, stProps, PropertyPredicate(kind))
    {
      matchedProps, newUnmatched := [], [];
      ghost var m := PropertyPredicate(kind);
      for i := 0 to |defs|
        invariant matchedProps == Pairings(defs[..i], stProps, m)
        invariant newUnmatched == Unpaired(defs[..i], stProps, m)
      {
        var found := FindProperty(defs[i], stProps);
        PassStep(defs, stProps, m, i);
        if found.Some? {
          matchedProps := matchedProps + [found.value];
        } else {
          newUnmatched := newUnmatched + [defs[i]];
        }
      }
      assert defs[..|defs|] == defs;
    }

    /** The first of st's interfaces that infN matches, scanning in order. */
    method FindInterface(infN: Interface, stInfs: seq<Interface>) returns (r: Option<Interface>)
      ensures r == FirstPairing(infN, stInfs, InterfacesMatch)
    {
      for j := 0 to |stInfs|
        invariant forall k :: 0 <= k < j ==> !InterfacesMatch(infN, stInfs[k])
      {
        var matched := MatchInterface(infN, stInfs[j]);
        if matched {
          FirstPairingAt(infN, stInfs, InterfacesMatch, j);
          return Some(stInfs[j]);
        }
      }
      return None;
    }

    /** n's interfaces against st's interfaces. */
    method PairInterfaces(infs: seq<Interface>, stInfs: seq<Interface>)
      returns (matchedInfs: seq<Interface>, newUnmatched: seq<Interface>)
      ensures matchedInfs == Pairings(infs, stInfs, InterfacesMatch)
      ensures newUnmatched == Unpaired(infs, stInfs, InterfacesMatch)
    {
      matchedInfs, newUnmatched := [], [];
      for i := 0 to |infs|
        invariant matchedInfs == Pairings(infs[..i], stInfs, InterfacesMatch)
        invariant newUnmatched == Unpaired(infs[..i], stInfs, InterfacesMatch)
      {
        var found := FindInterface(infs[i], stInfs);
        PassStep(infs, stInfs, InterfacesMatch, i);
        if found.Some? {
          matchedInfs := matchedInfs + [found.value];
        } else {
          newUnmatched := newUnmatched + [infs[i]];
        }
      }
      assert infs[..|infs|] == infs;
    }

    // ---- The first pass: each dimension's step ----

    /** The frame of Snapshot(): what it reads is held by n, st and the policies' types. */
    twostate lemma SnapshotKept()
      requires unchanged(n.capabilityDefinitions, n.requirementDefinitions, n.propertiesDefinition, n.interfaces)
      requires unchanged(st.bounds.capabilities, st.bounds.requirements, st.bounds.policies)
      requires unchanged(st.bounds.properties, st.bounds.interfaces)
      requires forall a | a in ApplicabilityLists(st.bounds.policies.pols) :: unchanged(a)
      ensures Snapshot() == old(Snapshot())
    {
      var pols := st.bounds.policies.pols;
      var lists := ApplicabilityLists(pols);
      forall i | 0 <= i < |pols|
        ensures PolicyEntries(pols)[i] == old(PolicyEntries(pols))[i]
      {
        assert lists[i] in lists;
        assert lists[i].nodeTypeReference == old(lists[i].nodeTypeReference);
      }
      assert PolicyEntries(pols) == old(PolicyEntries(pols));
    }

    /** `matchCapabilities()` over the lists it reads: the partners found, the definitions
        left, and the flag, set only when the two lists are equally long and none is left. */
    method RecordCapabilities(defs: seq<CapabilityDefinition>, stCaps: seq<Capability>)
      modifies this
      ensures State() == old(State()).(exactlyMatchedCapabilities := Some(Pairings(defs, stCaps, CapabilityPredicate(kind))),
                                       unmatchedCapabilities := Some(Unpaired(defs, stCaps, CapabilityPredicate(kind))),
                                       capabilitiesMatched := |defs| == |stCaps| &&
                                                              Unpaired(defs, stCaps, CapabilityPredicate(kind)) == [])
    {
      var matchedCaps, newUnmatched := PairCapabilities(defs, stCaps);
      exactlyMatchedCapabilities, unmatchedCapabilities, capabilitiesMatched :=
        Some(matchedCaps), Some(newUnmatched), |defs| == |stCaps| && newUnmatched == [];
    }

    method MatchCapabilities()
      modifies this
      ensures State() == CapabilitiesPass(old(State()), old(Snapshot()).capabilityDefinitions,
                                          old(Snapshot()).capabilities, kind)
      ensures Snapshot() == old(Snapshot())
    {
      RecordCapabilities(n.capabilityDefinitions.capDefs, st.bounds.capabilities.caps);
      SnapshotKept();
    }

    /** `matchRequirements()` over the lists it reads; the requirements themselves are
        recorded as matched. */
    method RecordRequirements(reqs: seq<Requirement>, nReqDefs: seq<RequirementDefinition>)
      modifies this
      ensures State() == old(State()).(exactlyMatchedRequirements := Some(PairedOnes(reqs, nReqDefs, RequirementPredicate(kind))),
                                       unmatchedRequirements := Some(Unpaired(reqs, nReqDefs, RequirementPredicate(kind))),
                                       requirementsMatched := |reqs| == |nReqDefs| &&
                                                              Unpaired(reqs, nReqDefs, RequirementPredicate(kind)) == [])
    {
      var matchedReqs, newUnmatched := PairRequirements(reqs, nReqDefs);
      exactlyMatchedRequirements, unmatchedRequirements, requirementsMatched :=
        Some(matchedReqs), Some(newUnmatched), |reqs| == |nReqDefs| && newUnmatched == [];
    }

    method MatchRequirements()
      modifies this
      ensures State() == RequirementsPass(old(State()), old(Snapshot()).requirements,
                                          old(Snapshot()).requirementDefinitions, kind)
      ensures Snapshot() == old(Snapshot())
    {
      RecordRequirements(st.bounds.requirements.reqs, n.requirementDefinitions.reqDefs);
      SnapshotKept();
    }

    /** `matchPolicies()` over the policies it reads, each with its type's restriction. */
    method RecordPolicies(pols: seq<Policy>, ghost entries: seq<PolicyEntry>)
      requires entries == PolicyEntries(pols)
      modifies this
      ensures State() == old(State()).(exactlyMatchedPolicies := Some(ApplicablePolicies(entries, n)),
                                       unmatchedPolicies := Some(InapplicablePolicies(entries, n)),
                                       policiesMatched := InapplicablePolicies(entries, n) == [])
    {
      var matchedPols, newUnmatched := SplitPolicies(pols, entries);
      exactlyMatchedPolicies, unmatchedPolicies, policiesMatched :=
        Some(matchedPols), Some(newUnmatched), newUnmatched == [];
    }

    method MatchPolicies()
      modifies this
      ensures State() == PoliciesPass(old(State()), old(Snapshot()).policies, n)
      ensures Snapshot() == old(Snapshot())
    {
      RecordPolicies(st.bounds.policies.pols, PolicyEntries(st.bounds.policies.pols));
      SnapshotKept();
    }

    /** `matchProperties()` over the lists it reads. */
    method RecordProperties(defs: seq<PropertyDefinition>, stProps: seq<Property>)
      modifies this
      ensures State() == old(State()).(exactlyMatchedProperties := Some(Pairings(defs, stProps, PropertyPredicate(kind))),
                                       unmatchedProperties := Some(Unpaired(defs, stProps, PropertyPredicate(kind))),
                                       propertiesMatched := |defs| == |stProps| &&
                                                            Unpaired(defs, stProps, PropertyPredicate(kind)) == [])
    {
      var matchedProps, newUnmatched := PairProperties(defs, stProps);
      exactlyMatchedProperties, unmatchedProperties, propertiesMatched :=
        Some(matchedProps), Some(newUnmatched), |defs| == |stProps| && newUnmatched == [];
    }

    method MatchProperties()
      modifies this
      ensures State() == PropertiesPass(old(State()), old(Snapshot()).propertyDefinitions,
                                        old(Snapshot()).properties, kind)
      ensures Snapshot() == old(Snapshot())
    {
      RecordProperties(n.propertiesDefinition.properties, st.bounds.properties.props);
      SnapshotKept();
    }

    /** `matchInterfaces()` over the lists it reads. */
    method RecordInterfaces(infs: seq<Interface>, stInfs: seq<Interface>)
      modifies this
      ensures State() == old(State()).(exactlyMatchedInterfaces := Some(Pairings(infs, stInfs, InterfacesMatch)),
                                       unmatchedInterfaces := Some(Unpaired(infs, stInfs, InterfacesMatch)),
                                       interfacesMatched := |infs| == |stInfs| &&
                                                            Unpaired(infs, stInfs, InterfacesMatch) == [])
    {
      var matchedInfs, newUnmatched := PairInterfaces(infs, stInfs);
      exactlyMatchedInterfaces, unmatchedInterfaces, interfacesMatched :=
        Some(matchedInfs), Some(newUnmatched), |infs| == |stInfs| && newUnmatched == [];
    }

    method MatchInterfaces()
      modifies this
      ensures State() == InterfacesPass(old(State()), old(Snapshot()).interfaces,
                                        old(Snapshot()).boundaryInterfaces)
      ensures Snapshot() == old(Snapshot())
    {
      RecordInterfaces(n.interfaces.interfaces, st.bounds.interfaces.interfaces);
      SnapshotKept();
    }

    // ---- The plug-in passes (plug-in matchmaker only) ----

    /** The inner loop of the plug-in interface pass for one interface infN: each operation
        looked up among `stInfs`' operations; the operations without counterpart are added
        to `missing0`, and infN is added to `newUnmatched0` once per operation processed
        from the first failure on. */
    method SearchOperations(infN: Interface, stInfs: seq<Interface>,
                            missing0: seq<Operation>, newUnmatched0: seq<Interface>)
      returns (matchedOps: seq<Operation>, missing: seq<Operation>, newUnmatched: seq<Interface>)
      ensures matchedOps == Pairings(infN.operations, Flat(stInfs), OperationsMatch)
      ensures missing == missing0 + Unpaired(infN.operations, Flat(stInfs), OperationsMatch)
      ensures newUnmatched == newUnmatched0 + Repeat(infN, FailureTail(infN.operations, Flat(stInfs)))
    {
      ghost var flat := Flat(stInfs);
      var ops := infN.operations;
      matchedOps, missing, newUnmatched := [], missing0, newUnmatched0;
      var matchedAll := true;
      for j := 0 to |ops|
        invariant matchedOps == Pairings(ops[..j], flat, OperationsMatch)
        invariant matchedAll == AllPaired(ops[..j], flat, OperationsMatch)
        invariant missing == missing0 + Unpaired(ops[..j], flat, OperationsMatch)
        invariant newUnmatched == newUnmatched0 + Repeat(infN, FailureTail(ops[..j], flat))
      {
        var found := FindOperation(ops[j], stInfs);
        PassStep(ops, flat, OperationsMatch, j);
        AllOpsStep(ops, flat, j);
        MissingStep(ops, flat, j, missing0);
        UnmatchedStep(infN, ops, flat, j, newUnmatched0);
        if found.Some? {
          matchedOps := matchedOps + [found.value];
        } else {
          missing := missing + [ops[j]];
          matchedAll := false;
        }
        if !matchedAll {
          newUnmatched := newUnmatched + [infN];
        }
      }
      assert ops[..|ops|] == ops;
    }

    /** The plug-in interface loop over the interfaces `us` left by the first pass. Returns
        the synthesized interfaces, the operations without counterpart, the new unmatched
        list and the interface flag, which starts at `flag0`. */
    method SearchInterfaces(us: seq<Interface>, stInfs: seq<Interface>, flag0: bool)
      returns (synthesized: seq<MatchedInterface>, missing: seq<Operation>,
               newUnmatched: seq<Interface>, flag: bool)
      ensures synthesized == Synthesized(us, Flat(stInfs))
      ensures missing == MissingOperations(us, Flat(stInfs))
      ensures newUnmatched == NewUnmatched(us, Flat(stInfs))
      ensures flag == FlagAfter(us, Flat(stInfs), flag0)
    {
      synthesized, missing, newUnmatched, flag := [], [], [], flag0;
      ghost var flat := Flat(stInfs);
      for i := 0 to |us|
        invariant synthesized == Synthesized(us[..i], flat)
        invariant missing == MissingOperations(us[..i], flat)
        invariant newUnmatched == NewUnmatched(us[..i], flat)
        invariant flag == FlagAfter(us[..i], flat, flag0)
      {
        var infN := us[i];
        var matchedOps;
        matchedOps, missing, newUnmatched := SearchOperations(infN, stInfs, missing, newUnmatched);
        InterfaceStep(us, flat, flag0, i);
        // every entry added for infN shows the same, final, list of found operations
        synthesized := synthesized + Repeat(MatchedInterface(infN.name, matchedOps), |matchedOps|);
        if newUnmatched == [] {
          flag := true;
        }
      }
      assert us[..|us|] == us;
    }

    /** The plug-in `matchCapabilities()`: the definitions left by the first pass against
        st's capabilities; the flag is raised, never lowered. */
    method PlugInRecordCapabilities(stCaps: seq<Capability>)
      requires kind == MatchSpec.PlugIn && unmatchedCapabilities.Some?
      modifies this
      ensures State() == old(State()).(pluginMatchedCapabilities := Some(Pairings(old(unmatchedCapabilities.value), stCaps, PlugInCapabilityMatch)),
                                       unmatchedCapabilities := Some(Unpaired(old(unmatchedCapabilities.value), stCaps, PlugInCapabilityMatch)),
                                       capabilitiesMatched := old(capabilitiesMatched) ||
                                         Unpaired(old(unmatchedCapabilities.value), stCaps, PlugInCapabilityMatch) == [])
    {
      var matchedCaps, newUnmatched := PairCapabilities(unmatchedCapabilities.value, stCaps);
      pluginMatchedCapabilities, unmatchedCapabilities, capabilitiesMatched :=
        Some(matchedCaps), Some(newUnmatched), capabilitiesMatched || newUnmatched == [];
    }

    method PlugInMatchCapabilities()
      requires kind == MatchSpec.PlugIn && unmatchedCapabilities.Some?
      modifies this
      ensures State() == PlugInCapabilitiesPass(old(State()), old(Snapshot()).capabilities)
      ensures Snapshot() == old(Snapshot())
    {
      PlugInRecordCapabilities(st.bounds.capabilities.caps);
      SnapshotKept();
    }

    /** The plug-in `matchRequirements()`. */
    method PlugInRecordRequirements(nReqDefs: seq<RequirementDefinition>)
      requires kind == MatchSpec.PlugIn && unmatchedRequirements.Some?
      modifies this
      ensures State() == old(State()).(pluginMatchedRequirements := Some(PairedOnes(old(unmatchedRequirements.value), nReqDefs, PlugInRequirementMatch)),
                                       unmatchedRequirements := Some(Unpaired(old(unmatchedRequirements.value), nReqDefs, PlugInRequirementMatch)),
                                       requirementsMatched := old(requirementsMatched) ||
                                         Unpaired(old(unmatchedRequirements.value), nReqDefs, PlugInRequirementMatch) == [])
    {
      var matchedReqs, newUnmatched := PairRequirements(unmatchedRequirements.value, nReqDefs);
      pluginMatchedRequirements, unmatchedRequirements, requirementsMatched :=
        Some(matchedReqs), Some(newUnmatched), requirementsMatched || newUnmatched == [];
    }

    method PlugInMatchRequirements()
      requires kind == MatchSpec.PlugIn && unmatchedRequirements.Some?
      modifies this
      ensures State() == PlugInRequirementsPass(old(State()), old(Snapshot()).requirementDefinitions)
      ensures Snapshot() == old(Snapshot())
    {
      PlugInRecordRequirements(n.requirementDefinitions.reqDefs);
      SnapshotKept();
    }

    /** The plug-in `matchProperties()`. */
    method PlugInRecordProperties(stProps: seq<Property>)
      requires kind == MatchSpec.PlugIn && unmatchedProperties.Some?
      modifies this
      ensures State() == old(State()).(pluginMatchedProperties := Some(Pairings(old(unmatchedProperties.value), stProps, PlugInPropertyMatch)),
                                       unmatchedProperties := Some(Unpaired(old(unmatchedProperties.value), stProps, PlugInPropertyMatch)),
                                       propertiesMatched := old(propertiesMatched) ||
                                         Unpaired(old(unmatchedProperties.value), stProps, PlugInPropertyMatch) == [])
    {
      var matchedProps, newUnmatched := PairProperties(unmatchedProperties.value, stProps);
      pluginMatchedProperties, unmatchedProperties, propertiesMatched :=
        Some(matchedProps), Some(newUnmatched), propertiesMatched || newUnmatched == [];
    }

    method PlugInMatchProperties()
      requires kind == MatchSpec.PlugIn && unmatchedProperties.Some?
      modifies this
      ensures State() == PlugInPropertiesPass(old(State()), old(Snapshot()).properties)
      ensures Snapshot() == old(Snapshot())
    {
      PlugInRecordProperties(st.bounds.properties.props);
      SnapshotKept();
    }

    /** The plug-in `matchInterfaces()`: the operations of the interfaces left by the first
        pass, looked up among all operations of st's interfaces. */
    method PlugInRecordInterfaces(stInfs: seq<Interface>)
      requires kind == MatchSpec.PlugIn && unmatchedInterfaces.Some?
      modifies this
      ensures State() == old(State()).(pluginMatchedInterfaces := Some(Synthesized(old(unmatchedInterfaces.value), Flat(stInfs))),
                                       unmatchedOperations := Some(MissingOperations(old(unmatchedInterfaces.value), Flat(stInfs))),
                                       unmatchedInterfaces := Some(NewUnmatched(old(unmatchedInterfaces.value), Flat(stInfs))),
                                       interfacesMatched := FlagAfter(old(unmatchedInterfaces.value), Flat(stInfs), old(interfacesMatched)))
    {
      var us := unmatchedInterfaces.value;
      var synthesized, missing, newUnmatched, flag := SearchInterfaces(us, stInfs, interfacesMatched);
      // with no interface to visit, the list stays the empty one it was
      pluginMatchedInterfaces, unmatchedOperations, unmatchedInterfaces, interfacesMatched :=
        Some(synthesized), Some(missing), Some(newUnmatched), flag;
    }

    method PlugInMatchInterfaces()
      requires kind == MatchSpec.PlugIn && unmatchedInterfaces.Some?
      modifies this
      ensures State() == PlugInInterfacesPass(old(State()), old(Snapshot()).boundaryInterfaces)
      ensures Snapshot() == old(Snapshot())
    {
      PlugInRecordInterfaces(st.bounds.interfaces.interfaces);
      SnapshotKept();
    }

    // ---- The whole match ----

    /** The five first-pass steps, in the order both matchmakers run them. */
    method FirstPasses()
      modifies this
      ensures State() == FirstPass(old(State()), old(Snapshot()), kind)
      ensures Snapshot() == old(Snapshot())
    {
      MatchCapabilities();
      MatchRequirements();
      MatchPolicies();
      MatchProperties();
      MatchInterfaces();
    }

    /** The plug-in steps, each run only for a dimension still unmatched. */
    method PlugInPasses()
      requires kind == MatchSpec.PlugIn
      requires unmatchedCapabilities.Some? && unmatchedRequirements.Some?
      requires unmatchedProperties.Some? && unmatchedInterfaces.Some?
      modifies this
      ensures State() == SecondPass(old(State()), old(Snapshot()))
    {
      if !capabilitiesMatched {
        PlugInMatchCapabilities();
      }
      if !requirementsMatched {
        PlugInMatchRequirements();
      }
      if !propertiesMatched {
        PlugInMatchProperties();
      }
      if !interfacesMatched {
        PlugInMatchInterfaces();
      }
    }

    /** `match()`: the five first-pass steps; the exact matchmaker answers with their flags,
        the plug-in one does too when they are all set, and otherwise re-runs, with its own
        predicates, each dimension left unmatched (policies excepted). */
    method Match() returns (b: bool)
      modifies this
      ensures State() == Run(old(State()), old(Snapshot()), kind)
      ensures b == Verdict(State())
    {
      FirstPasses();
      b := capabilitiesMatched && requirementsMatched && policiesMatched && propertiesMatched && interfacesMatched;
      if kind == MatchSpec.Exact || b {
        return;
      }
      PlugInPasses();
      b := capabilitiesMatched && requirementsMatched && policiesMatched && propertiesMatched && interfacesMatched;
    }
  }
}

/** The matchmakers' state as a value, and each matchmaking pass as a function from the state
    before it to the state after it. The Matchmaker class is proved to follow these
    functions; the properties of the matchmakers are proved here, about them. */
module MatchSpec {
  import opened Outcomes
  import opened Values
  import opened Elements
  import opened Pairing
  import opened MatchPredicates
  import opened NodeTypes
  import opened PolicyTypes

  /** Which matchmaker: the exact one, or the plug-in one that extends it. */
  datatype Kind = Exact | PlugIn

  /** A policy of the service template together with the node types its type is restricted to. */
  datatype PolicyEntry = PolicyEntry(policy: Policy, targets: seq<NodeType>)

  /** What the matchmakers read: the node type's definitions and the service template's
      boundary lists, as they are when matching runs. */
  datatype Inputs = Inputs(
    node: NodeType,
    capabilityDefinitions: seq<CapabilityDefinition>,
    requirementDefinitions: seq<RequirementDefinition>,
    propertyDefinitions: seq<PropertyDefinition>,
    interfaces: seq<Interface>,
    capabilities: seq<Capability>,
    requirements: seq<Requirement>,
    policies: seq<PolicyEntry>,
    properties: seq<Property>,
    boundaryInterfaces: seq<Interface>)

  /** An interface put together by the plug-in interface pass: the node type's interface name
      with the service template operations found for its operations. */
  datatype MatchedInterface = MatchedInterface(name: string, operations: seq<Operation>)

  /** Every field of a matchmaker; None stands for a list that is still null. */
  datatype Report = Report(
    unmatchedCapabilities: Option<seq<CapabilityDefinition>>,
    unmatchedRequirements: Option<seq<Requirement>>,
    unmatchedPolicies: Option<seq<Policy>>,
    unmatchedProperties: Option<seq<PropertyDefinition>>,
    unmatchedInterfaces: Option<seq<Interface>>,
    capabilitiesMatched: bool,
    requirementsMatched: bool,
    propertiesMatched: bool,
    policiesMatched: bool,
    interfacesMatched: bool,
    exactlyMatchedCapabilities: Option<seq<Capability>>,
    exactlyMatchedRequirements: Option<seq<Requirement>>,
    exactlyMatchedProperties: Option<seq<Property>>,
    exactlyMatchedPolicies: Option<seq<Policy>>,
    exactlyMatchedInterfaces: Option<seq<Interface>>,
    pluginMatchedCapabilities: Option<seq<Capability>>,
    pluginMatchedRequirements: Option<seq<Requirement>>,
    pluginMatchedProperties: Option<seq<Property>>,
    pluginMatchedInterfaces: Option<seq<MatchedInterface>>,
    unmatchedOperations: Option<seq<Operation>>)

  /** A freshly built matchmaker: nothing matched, every list null. */
  const Initial := Report(None, None, None, None, None, false, false, false, false, false,
                          None, None, None, None, None, None, None, None, None, None)

  /** The overall answer: all five dimensions matched. */
  predicate Verdict(r: Report) {
    r.capabilitiesMatched && r.requirementsMatched && r.policiesMatched &&
    r.propertiesMatched && r.interfacesMatched
  }

  // ---- Dispatch ----

  /** The capability predicate the first pass's call resolves to: the plug-in matchmaker
      overrides it, so its first pass already uses the plug-in predicate. */
  function CapabilityPredicate(k: Kind): (CapabilityDefinition, Capability) -> bool {
    if k == Exact then ExactCapabilityMatch else PlugInCapabilityMatch
  }

  function RequirementPredicate(k: Kind): (Requirement, RequirementDefinition) -> bool {
    if k == Exact then ExactRequirementMatch else PlugInRequirementMatch
  }

  function PropertyPredicate(k: Kind): (PropertyDefinition, Property) -> bool {
    if k == Exact then ExactPropertyMatch else PlugInPropertyMatch
  }

  // ---- Policies ----

  /** The policies whose type applies to the node type, in boundary order. */
  function ApplicablePolicies(ps: seq<PolicyEntry>, node: NodeType): seq<Policy> {
    if |ps| == 0 then []
    else
      var last := ps[|ps| - 1];
      ApplicablePolicies(ps[..|ps| - 1], node) + if Applicable(last.targets, node) then [last.policy] else []
  }

  /** The policies whose type does not apply to the node type, in boundary order. */
  function InapplicablePolicies(ps: seq<PolicyEntry>, node: NodeType): seq<Policy> {
    if |ps| == 0 then []
    else
      var last := ps[|ps| - 1];
      InapplicablePolicies(ps[..|ps| - 1], node) + if Applicable(last.targets, node) then [] else [last.policy]
  }

  predicate AllApplicable(ps: seq<PolicyEntry>, node: NodeType) {
    forall i :: 0 <= i < |ps| ==> Applicable(ps[i].targets, node)
  }

  lemma {:induction false} NoInapplicableIffAllApplicable(ps: seq<PolicyEntry>, node: NodeType)
    ensures InapplicablePolicies(ps, node) == [] <==> AllApplicable(ps, node)
  {
    if |ps| > 0 {
      var init := ps[..|ps| - 1];
      NoInapplicableIffAllApplicable(init, node);
      if InapplicablePolicies(ps, node) == [] {
        forall i | 0 <= i < |ps| ensures Applicable(ps[i].targets, node) {
          if i < |ps| - 1 {
            assert ps[i] == init[i];
          }
        }
      }
    }
  }

  /** Every boundary policy lands in exactly one of the two lists: the matched ones are the
      policies whose type applies to the node type, the unmatched ones those whose type does not. */
  lemma {:induction false} PoliciesPartition(ps: seq<PolicyEntry>, node: NodeType, p: Policy)
    ensures |ApplicablePolicies(ps, node)| + |InapplicablePolicies(ps, node)| == |ps|
    ensures p in ApplicablePolicies(ps, node) <==>
              exists i :: 0 <= i < |ps| && ps[i].policy == p && Applicable(ps[i].targets, node)
    ensures p in InapplicablePolicies(ps, node) <==>
              exists i :: 0 <= i < |ps| && ps[i].policy == p && !Applicable(ps[i].targets, node)
  {
    if |ps| > 0 {
      var init, last := ps[..|ps| - 1], ps[|ps| - 1];
      PoliciesPartition(init, node, p);
      assert forall i :: 0 <= i < |init| ==> init[i] == ps[i];
      if p in ApplicablePolicies(ps, node) && p !in ApplicablePolicies(init, node) {
        assert ps[|ps| - 1].policy == p;
      }
      if p in InapplicablePolicies(ps, node) && p !in InapplicablePolicies(init, node) {
        assert ps[|ps| - 1].policy == p;
      }
    }
  }

  lemma PolicyStep(ps: seq<PolicyEntry>, node: NodeType, i: nat)
    requires i < |ps|
    ensures ApplicablePolicies(ps[..i + 1], node) ==
              ApplicablePolicies(ps[..i], node) + if Applicable(ps[i].targets, node) then [ps[i].policy] else []
    ensures InapplicablePolicies(ps[..i + 1], node) ==
              InapplicablePolicies(ps[..i], node) + if Applicable(ps[i].targets, node) then [] else [ps[i].policy]
  {
    assert ps[..i + 1][..i] == ps[..i];
  }

  // ---- The first ("exact") pass, one function per dimension ----

  /** n's capability definitions against st's capabilities: partners found, definitions left,
      and the flag set only when the counts agree and nothing is left. */
  function CapabilitiesPass(r: Report, defs: seq<CapabilityDefinition>, caps: seq<Capability>, k: Kind): Report {
    var m := CapabilityPredicate(k);
    var left := Unpaired(defs, caps, m);
    r.(exactlyMatchedCapabilities := Some(Pairings(defs, caps, m)),
       unmatchedCapabilities := Some(left),
       capabilitiesMatched := |defs| == |caps| && left == [])
  }

  /** st's requirements against n's requirement definitions; the requirements themselves
      (not their partners) are recorded as matched. */
  function RequirementsPass(r: Report, reqs: seq<Requirement>, rDefs: seq<RequirementDefinition>, k: Kind): Report {
    var m := RequirementPredicate(k);
    var left := Unpaired(reqs, rDefs, m);
    r.(exactlyMatchedRequirements := Some(PairedOnes(reqs, rDefs, m)),
       unmatchedRequirements := Some(left),
       requirementsMatched := |reqs| == |rDefs| && left == [])
  }

  /** st's policies split by applicability to n; no count condition. */
  function PoliciesPass(r: Report, ps: seq<PolicyEntry>, node: NodeType): Report {
    var left := InapplicablePolicies(ps, node);
    r.(exactlyMatchedPolicies := Some(ApplicablePolicies(ps, node)),
       unmatchedPolicies := Some(left),
       policiesMatched := left == [])
  }

  /** n's property definitions against st's properties. */
  function PropertiesPass(r: Report, defs: seq<PropertyDefinition>, props: seq<Property>, k: Kind): Report {
    var m := PropertyPredicate(k);
    var left := Unpaired(defs, props, m);
    r.(exactlyMatchedProperties := Some(Pairings(defs, props, m)),
       unmatchedProperties := Some(left),
       propertiesMatched := |defs| == |props| && left == [])
  }

  /** n's interfaces against st's interfaces (the interface predicate is not overridden). */
  function InterfacesPass(r: Report, infs: seq<Interface>, stInfs: seq<Interface>): Report {
    var left := Unpaired(infs, stInfs, InterfacesMatch);
    r.(exactlyMatchedInterfaces := Some(Pairings(infs, stInfs, InterfacesMatch)),
       unmatchedInterfaces := Some(left),
       interfacesMatched := |infs| == |stInfs| && left == [])
  }

  /** The five first-pass steps in the order both matchmakers run them. */
  function FirstPass(r: Report, inp: Inputs, k: Kind): Report {
    var r1 := CapabilitiesPass(r, inp.capabilityDefinitions, inp.capabilities, k);
    var r2 := RequirementsPass(r1, inp.requirements, inp.requirementDefinitions, k);
    var r3 := PoliciesPass(r2, inp.policies, inp.node);
    var r4 := PropertiesPass(r3, inp.propertyDefinitions, inp.properties, k);
    InterfacesPass(r4, inp.interfaces, inp.boundaryInterfaces)
  }

  // ---- The plug-in passes over what the first pass left ----

  /** The plug-in capability pass: flag raised (never lowered) when nothing is left. */
  function PlugInCapabilitiesPass(r: Report, caps: seq<Capability>): Report
    requires r.unmatchedCapabilities.Some?
  {
    var ds := r.unmatchedCapabilities.value;
    var left := Unpaired(ds, caps, PlugInCapabilityMatch);
    r.(pluginMatchedCapabilities := Some(Pairings(ds, caps, PlugInCapabilityMatch)),
       unmatchedCapabilities := Some(left),
       capabilitiesMatched := r.capabilitiesMatched || left == [])
  }

  function PlugInRequirementsPass(r: Report, rDefs: seq<RequirementDefinition>): Report
    requires r.unmatchedRequirements.Some?
  {
    var ds := r.unmatchedRequirements.value;
    var left := Unpaired(ds, rDefs, PlugInRequirementMatch);
    r.(pluginMatchedRequirements := Some(PairedOnes(ds, rDefs, PlugInRequirementMatch)),
       unmatchedRequirements := Some(left),
       requirementsMatched := r.requirementsMatched || left == [])
  }

  function PlugInPropertiesPass(r: Report, props: seq<Property>): Report
    requires r.unmatchedProperties.Some?
  {
    var ds := r.unmatchedProperties.value;
    var left := Unpaired(ds, props, PlugInPropertyMatch);
    r.(pluginMatchedProperties := Some(Pairings(ds, props, PlugInPropertyMatch)),
       unmatchedProperties := Some(left),
       propertiesMatched := r.propertiesMatched || left == [])
  }

  /** x repeated n times. */
  function Repeat<T>(x: T, n: nat): (r: seq<T>)
    ensures |r| == n
  {
    if n == 0 then [] else Repeat(x, n - 1) + [x]
  }

  lemma {:induction false} RepeatElements<T>(x: T, n: nat)
    ensures forall i :: 0 <= i < n ==> Repeat(x, n)[i] == x
  {
    if n > 0 {
      RepeatElements(x, n - 1);
    }
  }

  /** How many times the interface pass appends an interface with operations `ops` to its
      new unmatched list: once for each operation processed at or after the first one with
      no counterpart in `flat`. */
  function FailureTail(ops: seq<Operation>, flat: seq<Operation>): nat {
    if |ops| == 0 then 0
    else FailureTail(ops[..|ops| - 1], flat) + if AllPaired(ops, flat, OperationsMatch) then 0 else 1
  }

  /** The plug-in interface pass's new unmatched list after the interfaces `us`. */
  function NewUnmatched(us: seq<Interface>, flat: seq<Operation>): seq<Interface> {
    if |us| == 0 then []
    else
      var last := us[|us| - 1];
      NewUnmatched(us[..|us| - 1], flat) + Repeat(last, FailureTail(last.operations, flat))
  }

  /** The interfaces the plug-in interface pass puts together after the interfaces `us`: for
      each interface, one entry per operation found, each showing all operations found for it. */
  function Synthesized(us: seq<Interface>, flat: seq<Operation>): seq<MatchedInterface> {
    if |us| == 0 then []
    else
      var last := us[|us| - 1];
      var found := Pairings(last.operations, flat, OperationsMatch);
      Synthesized(us[..|us| - 1], flat) + Repeat(MatchedInterface(last.name, found), |found|)
  }

  /** The operations of `us` with no counterpart in `flat`, in order. */
  function MissingOperations(us: seq<Interface>, flat: seq<Operation>): seq<Operation> {
    if |us| == 0 then []
    else
      var last := us[|us| - 1];
      MissingOperations(us[..|us| - 1], flat) + Unpaired(last.operations, flat, OperationsMatch)
  }

  /** The interface flag after the interfaces `us`: raised after any interface when the
      (cumulative) new unmatched list is still empty at that point. */
  function FlagAfter(us: seq<Interface>, flat: seq<Operation>, flag: bool): bool {
    if |us| == 0 then flag
    else FlagAfter(us[..|us| - 1], flat, flag) || NewUnmatched(us, flat) == []
  }

  /** The plug-in interface pass over the interfaces the first pass left unmatched. */
  function PlugInInterfacesPass(r: Report, stInfs: seq<Interface>): Report
    requires r.unmatchedInterfaces.Some?
  {
    var us := r.unmatchedInterfaces.value;
    var flat := Flat(stInfs);
    r.(pluginMatchedInterfaces := Some(Synthesized(us, flat)),
       unmatchedOperations := Some(MissingOperations(us, flat)),
       unmatchedInterfaces := Some(NewUnmatched(us, flat)),
       interfacesMatched := FlagAfter(us, flat, r.interfacesMatched))
  }

  /** The plug-in capability, requirement and property steps, each run only for a
      dimension the first pass did not match. */
  function ElementPasses(r1: Report, inp: Inputs): (r4: Report)
    requires r1.unmatchedCapabilities.Some? && r1.unmatchedRequirements.Some?
    requires r1.unmatchedProperties.Some?
    ensures r4.unmatchedInterfaces == r1.unmatchedInterfaces
  {
    var r2 := if r1.capabilitiesMatched then r1 else PlugInCapabilitiesPass(r1, inp.capabilities);
    var r3 := if r2.requirementsMatched then r2 else PlugInRequirementsPass(r2, inp.requirementDefinitions);
    if r3.propertiesMatched then r3 else PlugInPropertiesPass(r3, inp.properties)
  }

  /** The plug-in steps, each run only for a dimension the first pass did not match. */
  function SecondPass(r1: Report, inp: Inputs): Report
    requires r1.unmatchedCapabilities.Some? && r1.unmatchedRequirements.Some?
    requires r1.unmatchedProperties.Some? && r1.unmatchedInterfaces.Some?
  {
    var r4 := ElementPasses(r1, inp);
    if r4.interfacesMatched then r4 else PlugInInterfacesPass(r4, inp.boundaryInterfaces)
  }

  /** A whole `match()` call from state r0. */
  function Run(r0: Report, inp: Inputs, k: Kind): Report {
    var r1 := FirstPass(r0, inp, k);
    if k == Exact || Verdict(r1) then r1 else SecondPass(r1, inp)
  }
}

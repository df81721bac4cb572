/** What a whole `match()` call decides, in closed form: for each dimension and each
    matchmaker, the condition on the node type and the service template under which the
    dimension counts as matched, and the overall verdicts derived from them. */
module MatchVerdicts {
  import opened Outcomes
  import opened Values
  import opened Elements
  import opened Pairing
  import opened MatchPredicates
  import opened PolicyTypes
  import opened MatchSpec

  // ---- The plug-in interface pass ----

  /** An interface is appended to the new unmatched list at least once exactly when one of
      its operations has no counterpart. */
  lemma {:induction false} FailureTailZeroIff(ops: seq<Operation>, flat: seq<Operation>)
    ensures FailureTail(ops, flat) == 0 <==> AllPaired(ops, flat, OperationsMatch)
  {
    if |ops| > 0 {
      var init := ops[..|ops| - 1];
      FailureTailZeroIff(init, flat);
      if AllPaired(ops, flat, OperationsMatch) {
        forall i | 0 <= i < |init| ensures Paired(init[i], flat, OperationsMatch) {
          assert init[i] == ops[i];
        }
      }
    }
  }

  lemma RepeatMembers<T>(x: T, y: T, n: nat)
    ensures x in Repeat(y, n) <==> n > 0 && x == y
  {
    RepeatElements(y, n);
    if n > 0 {
      assert Repeat(y, n)[0] == y;
    }
  }

  /** The new unmatched list holds exactly the interfaces with an operation that has no
      counterpart among the service template's operations. */
  lemma {:induction false} NewUnmatchedMembers(us: seq<Interface>, flat: seq<Operation>, x: Interface)
    ensures x in NewUnmatched(us, flat) <==> x in us && !AllPaired(x.operations, flat, OperationsMatch)
  {
    if |us| > 0 {
      var init, last := us[..|us| - 1], us[|us| - 1];
      NewUnmatchedMembers(init, flat, x);
      RepeatMembers(x, last, FailureTail(last.operations, flat));
      FailureTailZeroIff(last.operations, flat);
      assert us == init + [last];
    }
  }

  /** The new unmatched list ends empty exactly when every operation of every interface
      visited has a counterpart. */
  lemma NewUnmatchedEmptyIff(us: seq<Interface>, flat: seq<Operation>)
    ensures NewUnmatched(us, flat) == [] <==>
              forall i :: 0 <= i < |us| ==> AllPaired(us[i].operations, flat, OperationsMatch)
  {
    var nu := NewUnmatched(us, flat);
    if nu == [] {
      forall i | 0 <= i < |us| ensures AllPaired(us[i].operations, flat, OperationsMatch) {
        NewUnmatchedMembers(us, flat, us[i]);
      }
    } else {
      NewUnmatchedMembers(us, flat, nu[0]);
    }
  }

  /** The interface flag after the plug-in interface pass: raised when it already was, or
      when the FIRST interface visited has all its operations found; what happens to the
      later interfaces cannot raise or lower it. */
  lemma {:induction false} FlagAfterClosedForm(us: seq<Interface>, flat: seq<Operation>, flag: bool)
    ensures FlagAfter(us, flat, flag) <==>
              flag || (|us| > 0 && AllPaired(us[0].operations, flat, OperationsMatch))
  {
    if |us| > 0 {
      var init := us[..|us| - 1];
      FlagAfterClosedForm(init, flat, flag);
      NewUnmatchedEmptyIff(us, flat);
      if |init| > 0 {
        assert init[0] == us[0];
      }
    }
  }

  /** The operations recorded as unmatched are exactly the operations of the visited
      interfaces with no counterpart, wherever in the service template it is looked for. */
  lemma {:induction false} MissingOperationsMembers(us: seq<Interface>, flat: seq<Operation>, op: Operation)
    ensures op in MissingOperations(us, flat) <==>
              (exists i :: 0 <= i < |us| && op in us[i].operations) && !Paired(op, flat, OperationsMatch)
  {
    if |us| > 0 {
      var init, last := us[..|us| - 1], us[|us| - 1];
      MissingOperationsMembers(init, flat, op);
      UnpairedMembers(last.operations, flat, OperationsMatch, op);
      if exists i :: 0 <= i < |us| && op in us[i].operations {
        var i :| 0 <= i < |us| && op in us[i].operations;
        if i < |us| - 1 {
          assert init[i] == us[i];
        }
      }
      if exists i :: 0 <= i < |init| && op in init[i].operations {
        var i :| 0 <= i < |init| && op in init[i].operations;
        assert us[i] == init[i];
      }
    }
  }

  /** Every interface put together by the plug-in pass carries the name of a visited
      interface and only operations of the service template. */
  lemma {:induction false} SynthesizedFromBoundary(us: seq<Interface>, flat: seq<Operation>, e: MatchedInterface)
    requires e in Synthesized(us, flat)
    ensures exists i :: 0 <= i < |us| && e.name == us[i].name
    ensures forall o :: o in e.operations ==> o in flat
  {
    var init, last := us[..|us| - 1], us[|us| - 1];
    var found := Pairings(last.operations, flat, OperationsMatch);
    RepeatMembers(e, MatchedInterface(last.name, found), |found|);
    if e in Synthesized(init, flat) {
      SynthesizedFromBoundary(init, flat, e);
      var i :| 0 <= i < |init| && e.name == init[i].name;
      assert us[i] == init[i];
    }
  }

  // ---- Whole runs ----

  /** What the first pass leaves in every flag and every unmatched list. */
  lemma FirstPassFields(r0: Report, inp: Inputs, k: Kind)
    ensures var r1 := FirstPass(r0, inp, k);
      && r1.unmatchedCapabilities == Some(Unpaired(inp.capabilityDefinitions, inp.capabilities, CapabilityPredicate(k)))
      && r1.unmatchedRequirements == Some(Unpaired(inp.requirements, inp.requirementDefinitions, RequirementPredicate(k)))
      && r1.unmatchedProperties == Some(Unpaired(inp.propertyDefinitions, inp.properties, PropertyPredicate(k)))
      && r1.unmatchedInterfaces == Some(Unpaired(inp.interfaces, inp.boundaryInterfaces, InterfacesMatch))
      && r1.unmatchedPolicies == Some(InapplicablePolicies(inp.policies, inp.node))
      && (r1.capabilitiesMatched <==>
            |inp.capabilityDefinitions| == |inp.capabilities| && r1.unmatchedCapabilities.value == [])
      && (r1.requirementsMatched <==>
            |inp.requirements| == |inp.requirementDefinitions| && r1.unmatchedRequirements.value == [])
      && (r1.propertiesMatched <==>
            |inp.propertyDefinitions| == |inp.properties| && r1.unmatchedProperties.value == [])
      && (r1.interfacesMatched <==>
            |inp.interfaces| == |inp.boundaryInterfaces| && r1.unmatchedInterfaces.value == [])
      && (r1.policiesMatched <==> r1.unmatchedPolicies.value == [])
      && r1.pluginMatchedCapabilities == r0.pluginMatchedCapabilities
      && r1.pluginMatchedRequirements == r0.pluginMatchedRequirements
      && r1.pluginMatchedProperties == r0.pluginMatchedProperties
  {
  }

  /** The lists of elements the first pass records as matched. */
  lemma FirstPassLists(r0: Report, inp: Inputs, k: Kind)
    ensures var r1 := FirstPass(r0, inp, k);
      && r1.exactlyMatchedCapabilities == Some(Pairings(inp.capabilityDefinitions, inp.capabilities, CapabilityPredicate(k)))
      && r1.exactlyMatchedRequirements == Some(PairedOnes(inp.requirements, inp.requirementDefinitions, RequirementPredicate(k)))
      && r1.exactlyMatchedPolicies == Some(ApplicablePolicies(inp.policies, inp.node))
      && r1.exactlyMatchedProperties == Some(Pairings(inp.propertyDefinitions, inp.properties, PropertyPredicate(k)))
      && r1.exactlyMatchedInterfaces == Some(Pairings(inp.interfaces, inp.boundaryInterfaces, InterfacesMatch))
  {
  }

  /** The plug-in steps leave the first pass's matched lists alone, and the interface step
      leaves the element steps' plug-in lists alone. */
  lemma SecondPassKeepsLists(r1: Report, inp: Inputs)
    requires r1.unmatchedCapabilities.Some? && r1.unmatchedRequirements.Some?
    requires r1.unmatchedProperties.Some? && r1.unmatchedInterfaces.Some?
    ensures var r, r4 := SecondPass(r1, inp), ElementPasses(r1, inp);
      && r.exactlyMatchedCapabilities == r1.exactlyMatchedCapabilities
      && r.exactlyMatchedRequirements == r1.exactlyMatchedRequirements
      && r.exactlyMatchedPolicies == r1.exactlyMatchedPolicies
      && r.exactlyMatchedProperties == r1.exactlyMatchedProperties
      && r.exactlyMatchedInterfaces == r1.exactlyMatchedInterfaces
      && r.pluginMatchedCapabilities == r4.pluginMatchedCapabilities
      && r.pluginMatchedRequirements == r4.pluginMatchedRequirements
      && r.pluginMatchedProperties == r4.pluginMatchedProperties
  {
  }

  /** Whichever matchmaker runs, what the first pass records as matched stays recorded. */
  lemma RunKeepsFirstPassLists(r0: Report, inp: Inputs, k: Kind)
    ensures var r, r1 := Run(r0, inp, k), FirstPass(r0, inp, k);
      && r.exactlyMatchedCapabilities == r1.exactlyMatchedCapabilities
      && r.exactlyMatchedRequirements == r1.exactlyMatchedRequirements
      && r.exactlyMatchedPolicies == r1.exactlyMatchedPolicies
      && r.exactlyMatchedProperties == r1.exactlyMatchedProperties
      && r.exactlyMatchedInterfaces == r1.exactlyMatchedInterfaces
  {
    var r1 := FirstPass(r0, inp, k);
    FirstPassFields(r0, inp, k);
    if k == PlugIn && !Verdict(r1) {
      SecondPassKeepsLists(r1, inp);
    }
  }

  /** What the plug-in steps leave in the capability, requirement and property flags,
      given the state the first pass left. */
  lemma SecondPassElementFlags(r1: Report, inp: Inputs)
    requires r1.unmatchedCapabilities.Some? && r1.unmatchedRequirements.Some?
    requires r1.unmatchedProperties.Some? && r1.unmatchedInterfaces.Some?
    ensures var r := SecondPass(r1, inp);
      && (r.capabilitiesMatched <==> (r1.capabilitiesMatched ||
            Unpaired(r1.unmatchedCapabilities.value, inp.capabilities, PlugInCapabilityMatch) == []))
      && (r.requirementsMatched <==> (r1.requirementsMatched ||
            Unpaired(r1.unmatchedRequirements.value, inp.requirementDefinitions, PlugInRequirementMatch) == []))
      && (r.propertiesMatched <==> (r1.propertiesMatched ||
            Unpaired(r1.unmatchedProperties.value, inp.properties, PlugInPropertyMatch) == []))
  {
    var r2 := if r1.capabilitiesMatched then r1 else PlugInCapabilitiesPass(r1, inp.capabilities);
    var r3 := if r2.requirementsMatched then r2 else PlugInRequirementsPass(r2, inp.requirementDefinitions);
    assert r2.unmatchedRequirements == r1.unmatchedRequirements && r2.requirementsMatched == r1.requirementsMatched;
    assert r3.unmatchedProperties == r1.unmatchedProperties && r3.propertiesMatched == r1.propertiesMatched;
    assert r3.capabilitiesMatched == r2.capabilitiesMatched;
    assert ElementPasses(r1, inp) == if r3.propertiesMatched then r3 else PlugInPropertiesPass(r3, inp.properties);
  }

  /** What the plug-in steps leave in the interface and policy flags. */
  lemma SecondPassOtherFlags(r1: Report, inp: Inputs)
    requires r1.unmatchedCapabilities.Some? && r1.unmatchedRequirements.Some?
    requires r1.unmatchedProperties.Some? && r1.unmatchedInterfaces.Some?
    ensures var r := SecondPass(r1, inp);
      && (r.interfacesMatched <==> (r1.interfacesMatched ||
            FlagAfter(r1.unmatchedInterfaces.value, Flat(inp.boundaryInterfaces), false)))
      && r.policiesMatched == r1.policiesMatched
      && r.unmatchedPolicies == r1.unmatchedPolicies
  {
  }

  /** The exact matchmaker matches exactly when every dimension pairs off completely, with
      equal counts on both sides, and every policy applies to the node type. */
  lemma ExactVerdictIff(r0: Report, inp: Inputs)
    ensures Verdict(Run(r0, inp, Exact)) <==>
      && |inp.capabilityDefinitions| == |inp.capabilities|
      && AllPaired(inp.capabilityDefinitions, inp.capabilities, ExactCapabilityMatch)
      && |inp.requirements| == |inp.requirementDefinitions|
      && AllPaired(inp.requirements, inp.requirementDefinitions, ExactRequirementMatch)
      && AllApplicable(inp.policies, inp.node)
      && |inp.propertyDefinitions| == |inp.properties|
      && AllPaired(inp.propertyDefinitions, inp.properties, ExactPropertyMatch)
      && |inp.interfaces| == |inp.boundaryInterfaces|
      && AllPaired(inp.interfaces, inp.boundaryInterfaces, InterfacesMatch)
  {
    FirstPassFields(r0, inp, Exact);
    UnpairedEmptyIffAllPaired(inp.capabilityDefinitions, inp.capabilities, ExactCapabilityMatch);
    UnpairedEmptyIffAllPaired(inp.requirements, inp.requirementDefinitions, ExactRequirementMatch);
    UnpairedEmptyIffAllPaired(inp.propertyDefinitions, inp.properties, ExactPropertyMatch);
    UnpairedEmptyIffAllPaired(inp.interfaces, inp.boundaryInterfaces, InterfacesMatch);
    NoInapplicableIffAllApplicable(inp.policies, inp.node);
  }

  /** The interface condition of the plug-in matchmaker: the first pass matched, or the
      first interface it left unmatched has all its operations somewhere in the service
      template. */
  predicate PlugInInterfacesCondition(inp: Inputs) {
    var u := Unpaired(inp.interfaces, inp.boundaryInterfaces, InterfacesMatch);
    (|inp.interfaces| == |inp.boundaryInterfaces| && u == [])
    || (|u| > 0 && AllPaired(u[0].operations, Flat(inp.boundaryInterfaces), OperationsMatch))
  }

  /** Each flag of the plug-in matchmaker after `match()`: capabilities, requirements and
      properties match exactly when every element has a plug-in partner, whatever the
      counts; policies when every policy applies; interfaces under the condition above. */
  lemma PlugInRunFlags(r0: Report, inp: Inputs)
    ensures var r := Run(r0, inp, PlugIn);
      && (r.capabilitiesMatched <==>
            AllPaired(inp.capabilityDefinitions, inp.capabilities, PlugInCapabilityMatch))
      && (r.requirementsMatched <==>
            AllPaired(inp.requirements, inp.requirementDefinitions, PlugInRequirementMatch))
      && (r.propertiesMatched <==>
            AllPaired(inp.propertyDefinitions, inp.properties, PlugInPropertyMatch))
      && (r.policiesMatched <==> AllApplicable(inp.policies, inp.node))
      && (r.interfacesMatched <==> PlugInInterfacesCondition(inp))
  {
    var r1 := FirstPass(r0, inp, PlugIn);
    FirstPassFields(r0, inp, PlugIn);
    var cd, caps := inp.capabilityDefinitions, inp.capabilities;
    var reqs, rDefs := inp.requirements, inp.requirementDefinitions;
    var pd, props := inp.propertyDefinitions, inp.properties;
    UnpairedEmptyIffAllPaired(cd, caps, PlugInCapabilityMatch);
    UnpairedEmptyIffAllPaired(reqs, rDefs, PlugInRequirementMatch);
    UnpairedEmptyIffAllPaired(pd, props, PlugInPropertyMatch);
    NoInapplicableIffAllApplicable(inp.policies, inp.node);
    if !Verdict(r1) {
      SecondPassElementFlags(r1, inp);
      SecondPassOtherFlags(r1, inp);
      RerunOverUnpaired(cd, caps, PlugInCapabilityMatch, PlugInCapabilityMatch);
      RerunOverUnpaired(reqs, rDefs, PlugInRequirementMatch, PlugInRequirementMatch);
      RerunOverUnpaired(pd, props, PlugInPropertyMatch, PlugInPropertyMatch);
      FlagAfterClosedForm(r1.unmatchedInterfaces.value, Flat(inp.boundaryInterfaces), false);
    }
  }

  /** The plug-in matchmaker's overall verdict. */
  lemma PlugInVerdictIff(r0: Report, inp: Inputs)
    ensures Verdict(Run(r0, inp, PlugIn)) <==>
      && AllPaired(inp.capabilityDefinitions, inp.capabilities, PlugInCapabilityMatch)
      && AllPaired(inp.requirements, inp.requirementDefinitions, PlugInRequirementMatch)
      && AllApplicable(inp.policies, inp.node)
      && AllPaired(inp.propertyDefinitions, inp.properties, PlugInPropertyMatch)
      && PlugInInterfacesCondition(inp)
  {
    PlugInRunFlags(r0, inp);
  }

  /** Whatever the state a run starts from, a node type that exactly matches a service
      template also plug-in matches it. */
  lemma ExactImpliesPlugIn(r0: Report, r0': Report, inp: Inputs)
    ensures Verdict(Run(r0, inp, Exact)) ==> Verdict(Run(r0', inp, PlugIn))
  {
    if Verdict(Run(r0, inp, Exact)) {
      ExactVerdictIff(r0, inp);
      PlugInVerdictIff(r0', inp);
      ExactPairsArePlugInPairs(inp.capabilityDefinitions, inp.capabilities,
                               inp.requirements, inp.requirementDefinitions,
                               inp.propertyDefinitions, inp.properties);
      WeakerAllPaired(inp.capabilityDefinitions, inp.capabilities, ExactCapabilityMatch, PlugInCapabilityMatch);
      WeakerAllPaired(inp.requirements, inp.requirementDefinitions, ExactRequirementMatch, PlugInRequirementMatch);
      WeakerAllPaired(inp.propertyDefinitions, inp.properties, ExactPropertyMatch, PlugInPropertyMatch);
    }
  }

  /** Policies are decided by the first pass alone, by both matchmakers: the policies left
      unmatched are exactly those whose type does not apply to the node type. */
  lemma PoliciesDecidedOnce(r0: Report, inp: Inputs, k: Kind)
    ensures var r := Run(r0, inp, k);
      && (r.policiesMatched <==> AllApplicable(inp.policies, inp.node))
      && r.unmatchedPolicies == Some(InapplicablePolicies(inp.policies, inp.node))
  {
    var r1 := FirstPass(r0, inp, k);
    FirstPassFields(r0, inp, k);
    NoInapplicableIffAllApplicable(inp.policies, inp.node);
    if k == PlugIn && !Verdict(r1) {
      SecondPassOtherFlags(r1, inp);
    }
  }
}

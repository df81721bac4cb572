/** Two places where the plug-in matchmaker does not do what its own comments and structure
    say it does, each shown on the code as written and paired with the evidently intended
    definition and what is proved about it.

    (1) The first pass of `match()` calls the inherited pass methods, but their element
        predicate calls resolve to the plug-in overrides, so that pass already matches by
        derivation and assignability. The plug-in steps then re-examine elements no
        predicate can pair, and the plug-in lists end null or empty.
    (2) The plug-in interface pass raises its flag as soon as the new unmatched list is
        empty after some interface, which depends on the first interface alone; it lists an
        interface once per operation processed after its first failure; and it never raises
        the flag when the first pass left no interface but the counts differed. */
module MatchFindings {
  import opened Outcomes
  import opened Values
  import opened Elements
  import opened Pairing
  import opened MatchPredicates
  import opened PolicyTypes
  import opened MatchSpec
  import opened MatchVerdicts

  // ---- (1) The first pass uses the plug-in predicates ----

  /** A list that is still null or empty. */
  predicate NullOrEmpty<T>(o: Option<seq<T>>) {
    o.None? || o.value == []
  }

  lemma {:induction false} NoPartnersNoPairedOnes<D, B>(ds: seq<D>, bs: seq<B>, m: (D, B) -> bool)
    requires forall x :: x in ds ==> !Paired(x, bs, m)
    ensures PairedOnes(ds, bs, m) == []
  {
    if |ds| > 0 {
      var init := ds[..|ds| - 1];
      assert forall x :: x in init ==> x in ds;
      NoPartnersNoPairedOnes(init, bs, m);
      assert ds[|ds| - 1] in ds;
    }
  }

  /** Re-running a pass with the same predicate over what it left marks nothing as matched. */
  lemma RerunMarksNothing<D, B>(ds: seq<D>, bs: seq<B>, m: (D, B) -> bool)
    ensures PairedOnes(Unpaired(ds, bs, m), bs, m) == []
  {
    var u := Unpaired(ds, bs, m);
    forall x | x in u ensures !Paired(x, bs, m) {
      UnpairedMembers(ds, bs, m, x);
    }
    NoPartnersNoPairedOnes(u, bs, m);
  }

  /** The plug-in lists the element steps leave, given the state the first pass left. */
  lemma ElementPassesLists(r1: Report, inp: Inputs)
    requires r1.unmatchedCapabilities.Some? && r1.unmatchedRequirements.Some?
    requires r1.unmatchedProperties.Some?
    ensures var r := ElementPasses(r1, inp);
      && r.pluginMatchedCapabilities == (if r1.capabilitiesMatched then r1.pluginMatchedCapabilities
           else Some(Pairings(r1.unmatchedCapabilities.value, inp.capabilities, PlugInCapabilityMatch)))
      && r.pluginMatchedRequirements == (if r1.requirementsMatched then r1.pluginMatchedRequirements
           else Some(PairedOnes(r1.unmatchedRequirements.value, inp.requirementDefinitions, PlugInRequirementMatch)))
      && r.pluginMatchedProperties == (if r1.propertiesMatched then r1.pluginMatchedProperties
           else Some(Pairings(r1.unmatchedProperties.value, inp.properties, PlugInPropertyMatch)))
  {
  }

  /** As written: however often `match()` runs, the plug-in capability, requirement and
      property lists of the plug-in matchmaker never hold an element. */
  lemma PlugInListsStayEmpty(r0: Report, inp: Inputs)
    requires NullOrEmpty(r0.pluginMatchedCapabilities)
    requires NullOrEmpty(r0.pluginMatchedRequirements)
    requires NullOrEmpty(r0.pluginMatchedProperties)
    ensures var r := Run(r0, inp, PlugIn);
      && NullOrEmpty(r.pluginMatchedCapabilities)
      && NullOrEmpty(r.pluginMatchedRequirements)
      && NullOrEmpty(r.pluginMatchedProperties)
  {
    var r1 := FirstPass(r0, inp, PlugIn);
    FirstPassFields(r0, inp, PlugIn);
    if !Verdict(r1) {
      assert Run(r0, inp, PlugIn) == SecondPass(r1, inp);
      SecondPassKeepsLists(r1, inp);
      ElementPassesLists(r1, inp);
      RerunFindsNothing(inp.capabilityDefinitions, inp.capabilities, PlugInCapabilityMatch);
      RerunMarksNothing(inp.requirements, inp.requirementDefinitions, PlugInRequirementMatch);
      RerunFindsNothing(inp.propertyDefinitions, inp.properties, PlugInPropertyMatch);
    }
  }

  /** The pair used below: a capability typed B, derived from A, and a same-named
      definition typed A. */
  predicate DerivedPair(inp: Inputs, cDef: CapabilityDefinition, c: Capability) {
    && inp.capabilityDefinitions == [cDef] && inp.capabilities == [c]
    && cDef.name == c.name
    && cDef.capabilityType == CapabilityType(None, "A")
    && c.capabilityType == CapabilityType(Some(CapabilityType(None, "A")), "B")
  }

  /** As written, such a pair is recorded as EXACTLY matched although the exact predicate
      rejects it. */
  lemma DerivedCapabilityAsWritten(r0: Report, inp: Inputs, cDef: CapabilityDefinition, c: Capability)
    requires DerivedPair(inp, cDef, c)
    ensures !ExactCapabilityMatch(cDef, c) && PlugInCapabilityMatch(cDef, c)
    ensures Run(r0, inp, PlugIn).exactlyMatchedCapabilities == Some([c])
  {
    assert [cDef][..0] == [];
    assert FirstPairing(cDef, [c], PlugInCapabilityMatch) == Some(c);
    assert Pairings([cDef], [c], PlugInCapabilityMatch) == [c];
    FirstPassLists(r0, inp, PlugIn);
    RunKeepsFirstPassLists(r0, inp, PlugIn);
  }

  /** The evidently intended run records the same pair as plug-in matched instead. */
  lemma DerivedCapabilityIntended(r0: Report, inp: Inputs, cDef: CapabilityDefinition, c: Capability)
    requires DerivedPair(inp, cDef, c)
    ensures IntendedRun(r0, inp).exactlyMatchedCapabilities == Some([])
    ensures IntendedRun(r0, inp).pluginMatchedCapabilities == Some([c])
  {
    assert [cDef][..0] == [];
    assert !ExactCapabilityMatch(cDef, c);
    assert FirstPairing(cDef, [c], ExactCapabilityMatch) == None;
    assert Unpaired([cDef], [c], ExactCapabilityMatch) == [cDef];
    assert Pairings([cDef], [c], ExactCapabilityMatch) == [];
    assert FirstPairing(cDef, [c], PlugInCapabilityMatch) == Some(c);
    assert Pairings([cDef], [c], PlugInCapabilityMatch) == [c];
    IntendedCapabilities(r0, inp);
  }

  // ---- (2) The plug-in interface pass ----

  /** The interfaces of `us` with an operation that has no counterpart in `flat`, each once,
      in order: the evidently intended new unmatched list. */
  function StillUnmatched(us: seq<Interface>, flat: seq<Operation>): (r: seq<Interface>)
    ensures |r| <= |us|
  {
    if |us| == 0 then []
    else
      var last := us[|us| - 1];
      StillUnmatched(us[..|us| - 1], flat) + if AllPaired(last.operations, flat, OperationsMatch) then [] else [last]
  }

  /** The evidently intended new unmatched list holds the same interfaces as the one
      written, and exactly those with an operation that has no counterpart. */
  lemma {:induction false} StillUnmatchedMembers(us: seq<Interface>, flat: seq<Operation>, x: Interface)
    ensures x in StillUnmatched(us, flat) <==> x in us && !AllPaired(x.operations, flat, OperationsMatch)
    ensures x in StillUnmatched(us, flat) <==> x in NewUnmatched(us, flat)
  {
    if |us| > 0 {
      var init := us[..|us| - 1];
      StillUnmatchedMembers(init, flat, x);
      assert us == init + [us[|us| - 1]];
    }
    NewUnmatchedMembers(us, flat, x);
  }

  /** The evidently intended new unmatched list is empty exactly when every operation of
      every visited interface has a counterpart. */
  lemma StillUnmatchedEmptyIff(us: seq<Interface>, flat: seq<Operation>)
    ensures StillUnmatched(us, flat) == [] <==>
              forall i :: 0 <= i < |us| ==> AllPaired(us[i].operations, flat, OperationsMatch)
  {
    var left := StillUnmatched(us, flat);
    if left == [] {
      forall i | 0 <= i < |us| ensures AllPaired(us[i].operations, flat, OperationsMatch) {
        StillUnmatchedMembers(us, flat, us[i]);
      }
    } else {
      StillUnmatchedMembers(us, flat, left[0]);
    }
  }

  /** The plug-in interface pass as evidently intended: each interface left once, and the
      flag raised when none is left. */
  function IntendedInterfacesPass(r: Report, stInfs: seq<Interface>): Report
    requires r.unmatchedInterfaces.Some?
  {
    var us := r.unmatchedInterfaces.value;
    var flat := Flat(stInfs);
    var left := StillUnmatched(us, flat);
    r.(pluginMatchedInterfaces := Some(Synthesized(us, flat)),
       unmatchedOperations := Some(MissingOperations(us, flat)),
       unmatchedInterfaces := Some(left),
       interfacesMatched := r.interfacesMatched || left == [])
  }

  /** The evidently intended `match()` of the plug-in matchmaker: an exact first pass, then
      the plug-in steps with the intended interface pass. */
  function IntendedRun(r0: Report, inp: Inputs): Report {
    var r1 := FirstPass(r0, inp, Exact);
    if Verdict(r1) then r1
    else
      var r4 := ElementPasses(r1, inp);
      if r4.interfacesMatched then r4 else IntendedInterfacesPass(r4, inp.boundaryInterfaces)
  }

  /** The intended interface flag: the first pass matched, or every interface it left
      unmatched has all its operations somewhere in the service template. */
  predicate IntendedInterfacesCondition(inp: Inputs) {
    var u := Unpaired(inp.interfaces, inp.boundaryInterfaces, InterfacesMatch);
    (|inp.interfaces| == |inp.boundaryInterfaces| && u == [])
    || forall i :: 0 <= i < |u| ==> AllPaired(u[i].operations, Flat(inp.boundaryInterfaces), OperationsMatch)
  }

  /** In the intended run, the capabilities the exact pass pairs are recorded as exactly
      matched, those only the plug-in predicate pairs as plug-in matched, and what is left
      is what no predicate pairs. */
  lemma IntendedCapabilities(r0: Report, inp: Inputs)
    ensures var r := IntendedRun(r0, inp);
      var cd, caps := inp.capabilityDefinitions, inp.capabilities;
      var u := Unpaired(cd, caps, ExactCapabilityMatch);
      && r.exactlyMatchedCapabilities == Some(Pairings(cd, caps, ExactCapabilityMatch))
      && (!(|cd| == |caps| && u == []) ==>
            && r.pluginMatchedCapabilities == Some(Pairings(u, caps, PlugInCapabilityMatch))
            && r.unmatchedCapabilities == Some(Unpaired(cd, caps, PlugInCapabilityMatch)))
  {
    var cd, caps := inp.capabilityDefinitions, inp.capabilities;
    var r1 := FirstPass(r0, inp, Exact);
    FirstPassFields(r0, inp, Exact);
    if !r1.capabilitiesMatched {
      ElementPassesLists(r1, inp);
      ExactPairsArePlugInPairs(cd, caps, [], [], [], []);
      RerunOverUnpaired(cd, caps, ExactCapabilityMatch, PlugInCapabilityMatch);
    }
  }

  /** The same for requirements. */
  lemma IntendedRequirements(r0: Report, inp: Inputs)
    ensures var r := IntendedRun(r0, inp);
      var reqs, rDefs := inp.requirements, inp.requirementDefinitions;
      var u := Unpaired(reqs, rDefs, ExactRequirementMatch);
      && r.exactlyMatchedRequirements == Some(PairedOnes(reqs, rDefs, ExactRequirementMatch))
      && (!(|reqs| == |rDefs| && u == []) ==>
            && r.pluginMatchedRequirements == Some(PairedOnes(u, rDefs, PlugInRequirementMatch))
            && r.unmatchedRequirements == Some(Unpaired(reqs, rDefs, PlugInRequirementMatch)))
  {
    var reqs, rDefs := inp.requirements, inp.requirementDefinitions;
    var r1 := FirstPass(r0, inp, Exact);
    FirstPassFields(r0, inp, Exact);
    if !r1.requirementsMatched {
      ElementPassesLists(r1, inp);
      ExactPairsArePlugInPairs([], [], reqs, rDefs, [], []);
      RerunOverUnpaired(reqs, rDefs, ExactRequirementMatch, PlugInRequirementMatch);
    }
  }

  /** The same for properties. */
  lemma IntendedProperties(r0: Report, inp: Inputs)
    ensures var r := IntendedRun(r0, inp);
      var pd, props := inp.propertyDefinitions, inp.properties;
      var u := Unpaired(pd, props, ExactPropertyMatch);
      && r.exactlyMatchedProperties == Some(Pairings(pd, props, ExactPropertyMatch))
      && (!(|pd| == |props| && u == []) ==>
            && r.pluginMatchedProperties == Some(Pairings(u, props, PlugInPropertyMatch))
            && r.unmatchedProperties == Some(Unpaired(pd, props, PlugInPropertyMatch)))
  {
    var pd, props := inp.propertyDefinitions, inp.properties;
    var r1 := FirstPass(r0, inp, Exact);
    FirstPassFields(r0, inp, Exact);
    if !r1.propertiesMatched {
      ElementPassesLists(r1, inp);
      ExactPairsArePlugInPairs([], [], [], [], pd, props);
      RerunOverUnpaired(pd, props, ExactPropertyMatch, PlugInPropertyMatch);
    }
  }

  /** The intended run's verdict: every capability, requirement and property has a plug-in
      partner, every policy applies, and the intended interface condition holds. */
  lemma IntendedVerdictIff(r0: Report, inp: Inputs)
    ensures Verdict(IntendedRun(r0, inp)) <==>
      && AllPaired(inp.capabilityDefinitions, inp.capabilities, PlugInCapabilityMatch)
      && AllPaired(inp.requirements, inp.requirementDefinitions, PlugInRequirementMatch)
      && AllApplicable(inp.policies, inp.node)
      && AllPaired(inp.propertyDefinitions, inp.properties, PlugInPropertyMatch)
      && IntendedInterfacesCondition(inp)
  {
    var r1 := FirstPass(r0, inp, Exact);
    FirstPassFields(r0, inp, Exact);
    var cd, caps := inp.capabilityDefinitions, inp.capabilities;
    var reqs, rDefs := inp.requirements, inp.requirementDefinitions;
    var pd, props := inp.propertyDefinitions, inp.properties;
    ExactPairsArePlugInPairs(cd, caps, reqs, rDefs, pd, props);
    UnpairedEmptyIffAllPaired(cd, caps, PlugInCapabilityMatch);
    UnpairedEmptyIffAllPaired(reqs, rDefs, PlugInRequirementMatch);
    UnpairedEmptyIffAllPaired(pd, props, PlugInPropertyMatch);
    UnpairedEmptyIffAllPaired(cd, caps, ExactCapabilityMatch);
    UnpairedEmptyIffAllPaired(reqs, rDefs, ExactRequirementMatch);
    UnpairedEmptyIffAllPaired(pd, props, ExactPropertyMatch);
    NoInapplicableIffAllApplicable(inp.policies, inp.node);
    if Verdict(r1) {
      WeakerAllPaired(cd, caps, ExactCapabilityMatch, PlugInCapabilityMatch);
      WeakerAllPaired(reqs, rDefs, ExactRequirementMatch, PlugInRequirementMatch);
      WeakerAllPaired(pd, props, ExactPropertyMatch, PlugInPropertyMatch);
    } else {
      SecondPassElementFlags(r1, inp);
      RerunOverUnpaired(cd, caps, ExactCapabilityMatch, PlugInCapabilityMatch);
      RerunOverUnpaired(reqs, rDefs, ExactRequirementMatch, PlugInRequirementMatch);
      RerunOverUnpaired(pd, props, ExactPropertyMatch, PlugInPropertyMatch);
      StillUnmatchedEmptyIff(r1.unmatchedInterfaces.value, Flat(inp.boundaryInterfaces));
    }
  }

  /** As written, the first interface decides: when it has all its operations and the
      second does not, the flag is raised although an interface is left unmatched. The
      intended pass leaves the second interface, once, and keeps the flag down. */
  lemma FirstInterfaceDecides(u1: Interface, u2: Interface, flat: seq<Operation>)
    requires AllPaired(u1.operations, flat, OperationsMatch)
    requires !AllPaired(u2.operations, flat, OperationsMatch)
    ensures FlagAfter([u1, u2], flat, false)
    ensures u2 in NewUnmatched([u1, u2], flat)
    ensures StillUnmatched([u1, u2], flat) == [u2]
  {
    FlagAfterClosedForm([u1, u2], flat, false);
    NewUnmatchedMembers([u1, u2], flat, u2);
    assert [u1, u2][..1] == [u1];
    assert [u1][..0] == [];
  }

  /** As written, an interface whose two operations both lack a counterpart is listed twice. */
  lemma RepeatedInterface(u: Interface, flat: seq<Operation>)
    requires |u.operations| == 2
    requires !Paired(u.operations[0], flat, OperationsMatch)
    requires !Paired(u.operations[1], flat, OperationsMatch)
    ensures NewUnmatched([u], flat) == [u, u]
    ensures StillUnmatched([u], flat) == [u]
  {
    var ops := u.operations;
    assert !AllPaired(ops[..1], flat, OperationsMatch) by {
      assert ops[..1][0] == ops[0];
    }
    assert !AllPaired(ops, flat, OperationsMatch) by {
      assert !Paired(ops[0], flat, OperationsMatch);
    }
    assert ops[..1][..0] == [];
    assert ops[..|ops| - 1] == ops[..1];
    assert FailureTail(ops[..1], flat) == 1;
    assert FailureTail(ops, flat) == 2;
    assert [u][..0] == [];
    assert Repeat(u, 2) == [u, u];
  }

  /** As written, a node type whose interfaces all exactly match, but fewer than the service
      template has, never gets its interface flag raised; the intended pass raises it. */
  lemma CountMismatchNotRecovered(r0: Report, inp: Inputs)
    requires |inp.interfaces| != |inp.boundaryInterfaces|
    requires AllPaired(inp.interfaces, inp.boundaryInterfaces, InterfacesMatch)
    ensures !Run(r0, inp, PlugIn).interfacesMatched
    ensures IntendedRun(r0, inp).interfacesMatched
  {
    UnpairedEmptyIffAllPaired(inp.interfaces, inp.boundaryInterfaces, InterfacesMatch);
    PlugInRunFlags(r0, inp);
    FirstPassFields(r0, inp, Exact);
  }
}

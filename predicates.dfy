/** The element predicates of the two matchmakers: when a definition and a boundary element
    (or two interfaces, operations, parameters) correspond. */
module MatchPredicates {
  import opened Outcomes
  import opened Values
  import opened Elements
  import opened Pairing

  // ---- Exact predicates (ExactMatchmaker) ----

  /** Same name and same capability-type name; derivation is not consulted. */
  predicate ExactCapabilityMatch(cDef: CapabilityDefinition, c: Capability) {
    cDef.name == c.name && cDef.capabilityType.name == c.capabilityType.name
  }

  /** Same name and same requirement-type name. */
  predicate ExactRequirementMatch(r: Requirement, rDef: RequirementDefinition) {
    r.name == rDef.name && r.requirementType.name == rDef.requirementType.name
  }

  /** Same name and the very same value kind. */
  predicate ExactPropertyMatch(pDef: PropertyDefinition, p: Property) {
    pDef.name == p.name && pDef.kind == p.kind
  }

  /** Same name and the very same value kind. */
  predicate ParametersMatch(p1: Parameter, p2: Parameter) {
    p1.name == p2.name && p1.kind == p2.kind
  }

  /** The operation predicate as written: equal names, equal numbers of INPUT parameters
      (the size test compares the input counts twice), and every input and every output
      of op1 has a matching parameter of op2. The output counts are never compared. */
  predicate OperationsMatch(op1: Operation, op2: Operation) {
    && op1.name == op2.name
    && |op1.inputs| == |op2.inputs|
    && AllPaired(op1.inputs, op2.inputs, ParametersMatch)
    && AllPaired(op1.outputs, op2.outputs, ParametersMatch)
  }

  /** Equal names, equal numbers of operations, and every operation of i1 matches one of i2. */
  predicate InterfacesMatch(i1: Interface, i2: Interface) {
    && i1.name == i2.name
    && |i1.operations| == |i2.operations|
    && AllPaired(i1.operations, i2.operations, OperationsMatch)
  }

  // ---- Plug-in predicates (PlugInMatchmaker) ----

  /** Same name, and the definition's type name is met on the walk up from c's type,
      c's type itself included. */
  predicate PlugInCapabilityMatch(cDef: CapabilityDefinition, c: Capability) {
    cDef.name == c.name && CapabilityTypeDerivesFrom(c.capabilityType, cDef.capabilityType.name)
  }

  /** Same name, and r's type name is met on the walk up from rDef's type, rDef's type
      itself included: the node type may ask for a more specific requirement type. */
  predicate PlugInRequirementMatch(r: Requirement, rDef: RequirementDefinition) {
    r.name == rDef.name && RequirementTypeDerivesFrom(rDef.requirementType, r.requirementType.name)
  }

  /** Same name, and the boundary property's kind is assignable from the definition's. */
  predicate PlugInPropertyMatch(pDef: PropertyDefinition, p: Property) {
    pDef.name == p.name && IsAssignableFrom(p.kind, pDef.kind)
  }

  // ---- Relating the two ----

  /** Every exact pair is a plug-in pair: the walk's zero-step case and the reflexivity of
      assignability. */
  lemma ExactPairsArePlugInPairs(cDefs: seq<CapabilityDefinition>, caps: seq<Capability>,
                                 reqs: seq<Requirement>, rDefs: seq<RequirementDefinition>,
                                 pDefs: seq<PropertyDefinition>, props: seq<Property>)
    ensures Weaker(cDefs, caps, ExactCapabilityMatch, PlugInCapabilityMatch)
    ensures Weaker(reqs, rDefs, ExactRequirementMatch, PlugInRequirementMatch)
    ensures Weaker(pDefs, props, ExactPropertyMatch, PlugInPropertyMatch)
  {
  }

  /** The plug-in capability predicate in terms of the chain of names above c's type. */
  lemma PlugInCapabilityByLineage(cDef: CapabilityDefinition, c: Capability)
    ensures PlugInCapabilityMatch(cDef, c) <==>
              cDef.name == c.name && cDef.capabilityType.name in CapabilityLineage(c.capabilityType)
  {
    CapabilityWalkVisitsLineage(c.capabilityType, cDef.capabilityType.name);
  }

  /** The plug-in requirement predicate in terms of the chain of names above rDef's type. */
  lemma PlugInRequirementByLineage(r: Requirement, rDef: RequirementDefinition)
    ensures PlugInRequirementMatch(r, rDef) <==>
              r.name == rDef.name && r.requirementType.name in RequirementLineage(rDef.requirementType)
  {
    RequirementWalkVisitsLineage(rDef.requirementType, r.requirementType.name);
  }

  /** A capability whose type is derived, through any number of steps, from the
      definition's type plug-in matches a same-named definition. */
  lemma SpecialisedCapabilityPlugsIn(cDef: CapabilityDefinition, c: Capability)
    requires cDef.name == c.name
    requires IsCapabilityAncestor(cDef.capabilityType, c.capabilityType)
    ensures PlugInCapabilityMatch(cDef, c)
  {
    CapabilityAncestorIsFound(cDef.capabilityType, c.capabilityType);
  }

  /** For the chain A <- B <- C, a capability typed C plug-in matches a same-named
      definition typed A, B or C and no other; it exactly matches only C. */
  lemma ThreeLevelChain(cDef: CapabilityDefinition, c: Capability)
    requires cDef.name == c.name
    requires c.capabilityType ==
               CapabilityType(Some(CapabilityType(Some(CapabilityType(None, "A")), "B")), "C")
    ensures PlugInCapabilityMatch(cDef, c) <==> cDef.capabilityType.name in ["A", "B", "C"]
    ensures ExactCapabilityMatch(cDef, c) <==> cDef.capabilityType.name == "C"
  {
    PlugInCapabilityByLineage(cDef, c);
    assert CapabilityLineage(c.capabilityType) == ["C", "B", "A"];
  }

  /** A boundary property of kind Number plug-in matches a same-named definition of kind
      Integer, and a boundary property of kind Integer does not match one of kind Number. */
  lemma AssignabilityDirection(pDef: PropertyDefinition, p: Property)
    requires pDef.name == p.name
    ensures pDef.kind == Integer && p.kind == Number ==> PlugInPropertyMatch(pDef, p)
    ensures pDef.kind == Number && p.kind == Integer ==> !PlugInPropertyMatch(pDef, p)
  {
  }

  // ---- The operation predicate as evidently intended ----

  /** Output counts compared as the input counts are. */
  predicate OperationsMatchIntended(op1: Operation, op2: Operation) {
    OperationsMatch(op1, op2) && |op1.outputs| == |op2.outputs|
  }

  /** Within one parameter list, names are unique. */
  predicate DistinctNames(ps: seq<Parameter>) {
    forall i, j :: 0 <= i < j < |ps| ==> ps[i].name != ps[j].name
  }

  function Elems(ps: seq<Parameter>): set<Parameter> {
    set p | p in ps
  }

  lemma {:induction false} DistinctElemsCount(ps: seq<Parameter>)
    requires DistinctNames(ps)
    ensures |Elems(ps)| == |ps|
  {
    if |ps| > 0 {
      var init := ps[..|ps| - 1];
      DistinctElemsCount(init);
      assert Elems(ps) == Elems(init) + {ps[|ps| - 1]};
      assert ps[|ps| - 1] !in Elems(init);
    }
  }

  lemma SubsetOfEqualSize(a: set<Parameter>, b: set<Parameter>)
    requires a <= b && |a| == |b|
    ensures a == b
  {
    assert b == a + (b - a);
    assert a * (b - a) == {};
    assert |b - a| == 0;
  }

  /** Every parameter of ps paired by ParametersMatch in qs is an element of qs. */
  lemma PairedParametersAreElements(ps: seq<Parameter>, qs: seq<Parameter>)
    requires AllPaired(ps, qs, ParametersMatch)
    ensures Elems(ps) <= Elems(qs)
  {
    forall p | p in Elems(ps) ensures p in Elems(qs) {
      var i :| 0 <= i < |ps| && ps[i] == p;
      var k :| 0 <= k < |qs| && ParametersMatch(ps[i], qs[k]);
      assert qs[k] == p;
    }
  }

  /** As written, with unique parameter names the two operations have the same inputs, but
      op1's outputs need only be among op2's. */
  lemma OperationMatchAsWritten(op1: Operation, op2: Operation)
    requires DistinctNames(op1.inputs) && DistinctNames(op2.inputs)
    requires OperationsMatch(op1, op2)
    ensures Elems(op1.inputs) == Elems(op2.inputs)
    ensures Elems(op1.outputs) <= Elems(op2.outputs)
  {
    PairedParametersAreElements(op1.inputs, op2.inputs);
    PairedParametersAreElements(op1.outputs, op2.outputs);
    DistinctElemsCount(op1.inputs);
    DistinctElemsCount(op2.inputs);
    SubsetOfEqualSize(Elems(op1.inputs), Elems(op2.inputs));
  }

  /** An operation with an extra output still matches under the predicate as written, and
      not under the intended one. */
  lemma OperationMatchIgnoresOutputCount()
    ensures var a, b := Parameter("a", Integer), Parameter("b", Integer);
            var sum, carry := Parameter("sum", Integer), Parameter("carry", Boolean);
            var op1 := Operation("Sum", [a, b], [sum]);
            var op2 := Operation("Sum", [a, b], [sum, carry]);
            OperationsMatch(op1, op2) && !OperationsMatchIntended(op1, op2)
  {
    var a, b := Parameter("a", Integer), Parameter("b", Integer);
    var sum, carry := Parameter("sum", Integer), Parameter("carry", Boolean);
    var op1 := Operation("Sum", [a, b], [sum]);
    var op2 := Operation("Sum", [a, b], [sum, carry]);
    assert ParametersMatch(op1.inputs[0], op2.inputs[0]);
    assert ParametersMatch(op1.inputs[1], op2.inputs[1]);
    assert ParametersMatch(op1.outputs[0], op2.outputs[0]);
  }

  /** As intended, with unique parameter names matching operations have the same input
      parameters and the same output parameters: a full one-to-one pairing. */
  lemma IntendedOperationMatchPairsAllParameters(op1: Operation, op2: Operation)
    requires DistinctNames(op1.inputs) && DistinctNames(op2.inputs)
    requires DistinctNames(op1.outputs) && DistinctNames(op2.outputs)
    requires OperationsMatchIntended(op1, op2)
    ensures Elems(op1.inputs) == Elems(op2.inputs)
    ensures Elems(op1.outputs) == Elems(op2.outputs)
  {
    OperationMatchAsWritten(op1, op2);
    DistinctElemsCount(op1.outputs);
    DistinctElemsCount(op2.outputs);
    SubsetOfEqualSize(Elems(op1.outputs), Elems(op2.outputs));
  }

  // ---- The matching procedures, loop by loop ----

  function ChainLength(t: Option<CapabilityType>): nat {
    if t.Some? then |CapabilityLineage(t.value)| else 0
  }

  function RequirementChainLength(t: Option<RequirementType>): nat {
    if t.Some? then |RequirementLineage(t.value)| else 0
  }

  /** The plug-in capability predicate: walk up from c's type until a type named like the
      definition's type is met or the root is passed. */
  method MatchPlugInCapability(cDef: CapabilityDefinition, c: Capability) returns (b: bool)
    ensures b == PlugInCapabilityMatch(cDef, c)
  {
    if cDef.name != c.name {
      return false;
    }
    var cType := Some(c.capabilityType);
    while cType.Some?
      invariant cType.Some? ==>
                  (CapabilityTypeDerivesFrom(c.capabilityType, cDef.capabilityType.name) <==>
                   CapabilityTypeDerivesFrom(cType.value, cDef.capabilityType.name))
      invariant cType.None? ==> !CapabilityTypeDerivesFrom(c.capabilityType, cDef.capabilityType.name)
      decreases ChainLength(cType)
    {
      if cDef.capabilityType.name == cType.value.name {
        return true;
      }
      cType := cType.value.parent;
    }
    return false;
  }

  /** The plug-in requirement predicate: walk up from rDef's type until a type named like
      r's type is met or the root is passed. */
  method MatchPlugInRequirement(r: Requirement, rDef: RequirementDefinition) returns (b: bool)
    ensures b == PlugInRequirementMatch(r, rDef)
  {
    if r.name != rDef.name {
      return false;
    }
    var rType := Some(rDef.requirementType);
    while rType.Some?
      invariant rType.Some? ==>
                  (RequirementTypeDerivesFrom(rDef.requirementType, r.requirementType.name) <==>
                   RequirementTypeDerivesFrom(rType.value, r.requirementType.name))
      invariant rType.None? ==> !RequirementTypeDerivesFrom(rDef.requirementType, r.requirementType.name)
      decreases RequirementChainLength(rType)
    {
      if rType.value.name == r.requirementType.name {
        return true;
      }
      rType := rType.value.parent;
    }
    return false;
  }

  /** The parameter loop of the operation predicate: is every parameter of ps present in qs? */
  method AllParametersPresent(ps: seq<Parameter>, qs: seq<Parameter>) returns (b: bool)
    ensures b == AllPaired(ps, qs, ParametersMatch)
  {
    for i := 0 to |ps|
      invariant forall k :: 0 <= k < i ==> Paired(ps[k], qs, ParametersMatch)
    {
      var matched := false;
      var j := 0;
      while j < |qs| && !matched
        invariant 0 <= j <= |qs|
        invariant matched ==> Paired(ps[i], qs, ParametersMatch)
        invariant !matched ==> forall k :: 0 <= k < j ==> !ParametersMatch(ps[i], qs[k])
      {
        matched := ParametersMatch(ps[i], qs[j]);
        j := j + 1;
      }
      if !matched {
        return false;
      }
    }
    return true;
  }

  /** The operation predicate as written, size test included. */
  method MatchOperation(op1: Operation, op2: Operation) returns (b: bool)
    ensures b == OperationsMatch(op1, op2)
  {
    if op1.name != op2.name {
      return false;
    }
    if |op1.inputs| != |op2.inputs| || |op1.inputs| != |op2.inputs| {
      return false;
    }
    b := AllParametersPresent(op1.inputs, op2.inputs);
    if !b {
      return;
    }
    b := AllParametersPresent(op1.outputs, op2.outputs);
  }

  /** The interface predicate: same name, same number of operations, and every operation of
      i1 matched by one of i2. */
  method MatchInterface(i1: Interface, i2: Interface) returns (b: bool)
    ensures b == InterfacesMatch(i1, i2)
  {
    if i1.name != i2.name {
      return false;
    }
    if |i1.operations| != |i2.operations| {
      return false;
    }
    var ops1, ops2 := i1.operations, i2.operations;
    for i := 0 to |ops1|
      invariant forall k :: 0 <= k < i ==> Paired(ops1[k], ops2, OperationsMatch)
    {
      var matched := false;
      var j := 0;
      while j < |ops2| && !matched
        invariant 0 <= j <= |ops2|
        invariant matched ==> Paired(ops1[i], ops2, OperationsMatch)
        invariant !matched ==> forall k :: 0 <= k < j ==> !OperationsMatch(ops1[i], ops2[k])
      {
        matched := MatchOperation(ops1[i], ops2[j]);
        j := j + 1;
      }
      if !matched {
        return false;
      }
    }
    return true;
  }

  /** The operations of a list of interfaces, interface after interface. */
  function Flat(infs: seq<Interface>): (r: seq<Operation>)
    ensures forall i, op :: 0 <= i < |infs| && op in infs[i].operations ==> op in r
  {
    if |infs| == 0 then [] else Flat(infs[..|infs| - 1]) + infs[|infs| - 1].operations
  }

  lemma {:induction false} FlatPrefix(infs: seq<Interface>, k: nat)
    requires k < |infs|
    ensures Flat(infs[..k]) + infs[k].operations <= Flat(infs)
    decreases |infs|
  {
    if k < |infs| - 1 {
      var init := infs[..|infs| - 1];
      assert init[..k] == infs[..k] && init[k] == infs[k];
      FlatPrefix(init, k);
    } else {
      assert infs[..k] == infs[..|infs| - 1];
    }
  }

  /** The plug-in search for an operation: the interfaces of the other side in order, the
      operations of each in order, stopping at the first that matches. */
  method FindOperation(opN: Operation, infs: seq<Interface>) returns (r: Option<Operation>)
    ensures r == FirstPairing(opN, Flat(infs), OperationsMatch)
  {
    ghost var flat := Flat(infs);
    for k := 0 to |infs|
      invariant |Flat(infs[..k])| <= |flat|
      invariant forall p :: 0 <= p < |Flat(infs[..k])| ==> !OperationsMatch(opN, flat[p])
    {
      FlatPrefix(infs, k);
      assert infs[..k + 1][..k] == infs[..k];
      var ops := infs[k].operations;
      for j := 0 to |ops|
        invariant forall p :: 0 <= p < |Flat(infs[..k])| + j ==> !OperationsMatch(opN, flat[p])
      {
        var matched := MatchOperation(opN, ops[j]);
        if matched {
          FirstPairingAt(opN, flat, OperationsMatch, |Flat(infs[..k])| + j);
          return Some(ops[j]);
        }
      }
    }
    assert infs[..|infs|] == infs;
    return None;
  }
}

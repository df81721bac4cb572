/** Value kinds (the Java Class objects used as property and parameter types),
    the single-parent capability and requirement type chains, and the
    parameter/operation values of interfaces. */
module Values {
  import opened Outcomes

  /** A closed set of value kinds standing for the Java classes used as property and
      parameter types. Integer, Long and Double derive from Number; every kind derives
      from Object. */
  datatype ValueKind = String | Boolean | Integer | Long | Double | Number | Object

  /** `target.isAssignableFrom(source)` restricted to the kinds above: a kind is
      assignable from itself, Object from every kind, Number from its numeric subclasses. */
  predicate IsAssignableFrom(target: ValueKind, source: ValueKind) {
    target == source
    || target == Object
    || (target == Number && source in {Integer, Long, Double})
  }

  lemma AssignabilityIsPartialOrder()
    ensures forall k :: IsAssignableFrom(k, k)
    ensures forall a, b, c :: IsAssignableFrom(a, b) && IsAssignableFrom(b, c) ==> IsAssignableFrom(a, c)
    ensures forall a, b :: IsAssignableFrom(a, b) && IsAssignableFrom(b, a) ==> a == b
  {
  }

  /** A capability type: its name and the type it is derived from, fixed when it is built. */
  datatype CapabilityType = CapabilityType(parent: Option<CapabilityType>, name: string)

  /** A requirement type, shaped like a capability type. */
  datatype RequirementType = RequirementType(parent: Option<RequirementType>, name: string)

  /** The names met while walking t's derivation chain upward, t's own name first. */
  function CapabilityLineage(t: CapabilityType): (r: seq<string>)
    ensures |r| >= 1 && r[0] == t.name
  {
    [t.name] + if t.parent.Some? then CapabilityLineage(t.parent.value) else []
  }

  /** The derivation-chain walk of the plug-in capability predicate: true as soon as a
      type on the chain, starting with t itself, is called `name`; false at the root. */
  predicate CapabilityTypeDerivesFrom(t: CapabilityType, name: string)
  {
    t.name == name || (t.parent.Some? && CapabilityTypeDerivesFrom(t.parent.value, name))
  }

  lemma {:induction false} CapabilityWalkVisitsLineage(t: CapabilityType, name: string)
    ensures CapabilityTypeDerivesFrom(t, name) <==> name in CapabilityLineage(t)
  {
    if t.parent.Some? {
      CapabilityWalkVisitsLineage(t.parent.value, name);
    }
  }

  /** u is t itself or a type reached by following t's parent links. */
  predicate IsCapabilityAncestor(u: CapabilityType, t: CapabilityType)
  {
    u == t || (t.parent.Some? && IsCapabilityAncestor(u, t.parent.value))
  }

  lemma {:induction false} CapabilityAncestorIsFound(u: CapabilityType, t: CapabilityType)
    requires IsCapabilityAncestor(u, t)
    ensures CapabilityTypeDerivesFrom(t, u.name)
  {
    if u != t {
      CapabilityAncestorIsFound(u, t.parent.value);
    }
  }

  lemma {:induction false} CapabilityAncestorTransitive(a: CapabilityType, b: CapabilityType, c: CapabilityType)
    requires IsCapabilityAncestor(a, b) && IsCapabilityAncestor(b, c)
    ensures IsCapabilityAncestor(a, c)
  {
    if b != c {
      CapabilityAncestorTransitive(a, b, c.parent.value);
    }
  }

  // Requirement types get their own chain, walk and lemma, mirroring the capability ones
  // above, because the source has two unrelated type classes, each with its own parent link.

  /** The names met while walking t's derivation chain upward, t's own name first. */
  function RequirementLineage(t: RequirementType): (r: seq<string>)
    ensures |r| >= 1 && r[0] == t.name
  {
    [t.name] + if t.parent.Some? then RequirementLineage(t.parent.value) else []
  }

  /** The derivation-chain walk of the plug-in requirement predicate. */
  predicate RequirementTypeDerivesFrom(t: RequirementType, name: string)
  {
    t.name == name || (t.parent.Some? && RequirementTypeDerivesFrom(t.parent.value, name))
  }

  lemma {:induction false} RequirementWalkVisitsLineage(t: RequirementType, name: string)
    ensures RequirementTypeDerivesFrom(t, name) <==> name in RequirementLineage(t)
  {
    if t.parent.Some? {
      RequirementWalkVisitsLineage(t.parent.value, name);
    }
  }

  /** A parameter of an operation: its name and value kind. */
  datatype Parameter = Parameter(name: string, kind: ValueKind)

  /** An operation: its name and its input and output parameters. */
  datatype Operation = Operation(name: string, inputs: seq<Parameter>, outputs: seq<Parameter>)
}

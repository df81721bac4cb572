/** Policy types, with the list of node types each one is restricted to, and policies. */
module PolicyTypes {
  import opened Outcomes
  import opened EntityTypes
  import opened NodeTypes

  /** The applicability rule: a policy type restricted to no node type applies to every
      node type; otherwise it applies to a node type with the same name as a listed one. */
  predicate Applicable(targets: seq<NodeType>, n: NodeType) {
    |targets| == 0 || exists k :: 0 <= k < |targets| && targets[k].name == n.name
  }

  /** A policy type with an empty applicability list matches every node type. */
  lemma UnrestrictedAppliesEverywhere(n: NodeType)
    ensures Applicable([], n)
  {
  }

  /** A policy type restricted to one node type applies exactly to the node types sharing
      that node type's name. */
  lemma RestrictedAppliesByName(target: NodeType, n: NodeType)
    ensures Applicable([target], n) <==> n.name == target.name
  {
    if n.name == target.name {
      assert [target][0].name == n.name;
    }
  }

  /** Adding a node type to a non-empty list never makes a policy type inapplicable. */
  lemma {:induction false} ApplicableGrows(targets: seq<NodeType>, extra: NodeType, n: NodeType)
    requires |targets| > 0 && Applicable(targets, n)
    ensures Applicable(targets + [extra], n)
  {
    var k :| 0 <= k < |targets| && targets[k].name == n.name;
    assert (targets + [extra])[k] == targets[k];
  }

  /** The list of node types a policy type is applicable to. */
  class AppliesTo {
    var nodeTypeReference: seq<NodeType>

    constructor ()
      ensures nodeTypeReference == []
    {
      nodeTypeReference := [];
    }

    /** Appends without any duplicate check. */
    method Add(n: NodeType)
      modifies this
      ensures nodeTypeReference == old(nodeTypeReference) + [n]
    {
      nodeTypeReference := nodeTypeReference + [n];
    }
  }

  class PolicyType {
    const parent: PolicyType?
    const name: string
    const propertiesDefinition: PropertiesDefinition
    const appliesTo: AppliesTo

    /** A policy type derived from `parent`, applicable to every node type. */
    constructor Derived(parent: PolicyType, name: string)
      ensures this.parent == parent && this.name == name
      ensures fresh(propertiesDefinition) && propertiesDefinition.properties == []
      ensures fresh(appliesTo) && appliesTo.nodeTypeReference == []
    {
      this.parent := parent;
      this.name := name;
      propertiesDefinition := new PropertiesDefinition();
      appliesTo := new AppliesTo();
    }

    /** A policy type derived from nothing, applicable to every node type. */
    constructor (name: string)
      ensures parent == null && this.name == name
      ensures fresh(propertiesDefinition) && propertiesDefinition.properties == []
      ensures fresh(appliesTo) && appliesTo.nodeTypeReference == []
    {
      parent := null;
      this.name := name;
      propertiesDefinition := new PropertiesDefinition();
      appliesTo := new AppliesTo();
    }

    /** Restricts the policy type to `n` as well; refuses a node-type object already listed. */
    method SetApplicableTo(n: NodeType) returns (outcome: Outcome)
      modifies appliesTo
      ensures outcome == if n in old(appliesTo.nodeTypeReference) then Fail(AlreadyPresent) else Pass
      ensures appliesTo.nodeTypeReference ==
                if n in old(appliesTo.nodeTypeReference) then old(appliesTo.nodeTypeReference)
                else old(appliesTo.nodeTypeReference) + [n]
    {
      if n in appliesTo.nodeTypeReference {
        outcome := Fail(AlreadyPresent);
      } else {
        appliesTo.nodeTypeReference := appliesTo.nodeTypeReference + [n];
        outcome := Pass;
      }
    }

    /** Whether this policy type may be attached to a service matched against `n`. */
    method IsApplicableTo(n: NodeType) returns (b: bool)
      ensures b == Applicable(appliesTo.nodeTypeReference, n)
    {
      var targets := appliesTo.nodeTypeReference;
      if |targets| == 0 {
        return true;
      }
      var i := 0;
      while i < |targets|
        invariant 0 <= i <= |targets|
        invariant forall k :: 0 <= k < i ==> targets[k].name != n.name
      {
        if targets[i].name == n.name {
          return true;
        }
        i := i + 1;
      }
      return false;
    }
  }

  /** A policy attached to a service template's boundary. */
  class Policy {
    const name: string
    const policyType: PolicyType

    constructor (name: string, policyType: PolicyType)
      ensures this.name == name && this.policyType == policyType
    {
      this.name := name;
      this.policyType := policyType;
    }
  }
}

/** A service template and the boundary it exposes: five containers, each refusing an
    object it already holds. */
module Boundaries {
  import opened Outcomes
  import opened Elements
  import opened PolicyTypes

  /** The requirements a boundary exposes, in the order they were added. */
  class Requirements {
    var reqs: seq<Requirement>

    constructor ()
      ensures reqs == []
    {
      reqs := [];
    }

    /** Refuses a requirement object that is already listed; appends any other. */
    method AddReference(r: Requirement) returns (outcome: Outcome)
      modifies this
      ensures outcome == if r in old(reqs) then Fail(AlreadyPresent) else Pass
      ensures reqs == if r in old(reqs) then old(reqs) else old(reqs) + [r]
    {
      if r in reqs {
        outcome := Fail(AlreadyPresent);
      } else {
        reqs := reqs + [r];
        outcome := Pass;
      }
    }

    /** The first requirement called `name`, or None (null) when there is none. */
    method GetReference(name: string) returns (found: Option<Requirement>)
      ensures found.None? <==> forall i :: 0 <= i < |reqs| ==> reqs[i].name != name
      ensures found.Some? ==>
                exists i :: 0 <= i < |reqs| && reqs[i] == found.value && found.value.name == name &&
                  forall j :: 0 <= j < i ==> reqs[j].name != name
    {
      var i := 0;
      while i < |reqs|
        invariant 0 <= i <= |reqs|
        invariant forall j :: 0 <= j < i ==> reqs[j].name != name
      {
        if reqs[i].name == name {
          return Some(reqs[i]);
        }
        i := i + 1;
      }
      return None;
    }
  }

  /** The capabilities a boundary exposes, in the order they were added. */
  class Capabilities {
    var caps: seq<Capability>

    constructor ()
      ensures caps == []
    {
      caps := [];
    }

    /** Refuses a capability object that is already listed; appends any other. */
    method AddReference(c: Capability) returns (outcome: Outcome)
      modifies this
      ensures outcome == if c in old(caps) then Fail(AlreadyPresent) else Pass
      ensures caps == if c in old(caps) then old(caps) else old(caps) + [c]
    {
      if c in caps {
        outcome := Fail(AlreadyPresent);
      } else {
        caps := caps + [c];
        outcome := Pass;
      }
    }

    /** The first capability called `name`, or None (null) when there is none. */
    method GetReference(name: string) returns (found: Option<Capability>)
      ensures found.None? <==> forall i :: 0 <= i < |caps| ==> caps[i].name != name
      ensures found.Some? ==>
                exists i :: 0 <= i < |caps| && caps[i] == found.value && found.value.name == name &&
                  forall j :: 0 <= j < i ==> caps[j].name != name
    {
      var i := 0;
      while i < |caps|
        invariant 0 <= i <= |caps|
        invariant forall j :: 0 <= j < i ==> caps[j].name != name
      {
        if caps[i].name == name {
          return Some(caps[i]);
        }
        i := i + 1;
      }
      return None;
    }
  }

  /** The properties a boundary exposes, in the order they were added. */
  class Properties {
    var props: seq<Property>

    constructor ()
      ensures props == []
    {
      props := [];
    }

    /** Refuses a property object that is already listed; appends any other. */
    method AddReference(p: Property) returns (outcome: Outcome)
      modifies this
      ensures outcome == if p in old(props) then Fail(AlreadyPresent) else Pass
      ensures props == if p in old(props) then old(props) else old(props) + [p]
    {
      if p in props {
        outcome := Fail(AlreadyPresent);
      } else {
        props := props + [p];
        outcome := Pass;
      }
    }

    /** The first property called `name`, or None (null) when there is none. */
    method GetReference(name: string) returns (found: Option<Property>)
      ensures found.None? <==> forall i :: 0 <= i < |props| ==> props[i].name != name
      ensures found.Some? ==>
                exists i :: 0 <= i < |props| && props[i] == found.value && found.value.name == name &&
                  forall j :: 0 <= j < i ==> props[j].name != name
    {
      var i := 0;
      while i < |props|
        invariant 0 <= i <= |props|
        invariant forall j :: 0 <= j < i ==> props[j].name != name
      {
        if props[i].name == name {
          return Some(props[i]);
        }
        i := i + 1;
      }
      return None;
    }
  }

  /** The policies a boundary exposes, in the order they were added. */
  class Policies {
    var pols: seq<Policy>

    constructor ()
      ensures pols == []
    {
      pols := [];
    }

    /** Refuses a policy object that is already listed; appends any other. */
    method Add(pol: Policy) returns (outcome: Outcome)
      modifies this
      ensures outcome == if pol in old(pols) then Fail(AlreadyPresent) else Pass
      ensures pols == if pol in old(pols) then old(pols) else old(pols) + [pol]
    {
      if pol in pols {
        outcome := Fail(AlreadyPresent);
      } else {
        pols := pols + [pol];
        outcome := Pass;
      }
    }
  }

  /** The interfaces a boundary exposes, in the order they were added. */
  class Interfaces {
    var interfaces: seq<Interface>

    constructor ()
      ensures interfaces == []
    {
      interfaces := [];
    }

    /** Refuses an interface object that is already listed; appends any other. */
    method Add(intf: Interface) returns (outcome: Outcome)
      modifies this
      ensures outcome == if intf in old(interfaces) then Fail(AlreadyDefined) else Pass
      ensures interfaces == if intf in old(interfaces) then old(interfaces) else old(interfaces) + [intf]
    {
      if intf in interfaces {
        outcome := Fail(AlreadyDefined);
      } else {
        interfaces := interfaces + [intf];
        outcome := Pass;
      }
    }
  }

  class BoundaryDefinitions {
    const requirements: Requirements
    const capabilities: Capabilities
    const policies: Policies
    const properties: Properties
    const interfaces: Interfaces

    /** A boundary exposing nothing. */
    constructor ()
      ensures fresh(requirements) && requirements.reqs == []
      ensures fresh(capabilities) && capabilities.caps == []
      ensures fresh(policies) && policies.pols == []
      ensures fresh(properties) && properties.props == []
      ensures fresh(interfaces) && interfaces.interfaces == []
    {
      requirements := new Requirements();
      capabilities := new Capabilities();
      policies := new Policies();
      properties := new Properties();
      interfaces := new Interfaces();
    }

    /** `add(Requirement)`: delegates to the requirement container only. */
    method AddRequirement(r: Requirement) returns (outcome: Outcome)
      modifies requirements
      ensures outcome == if r in old(requirements.reqs) then Fail(AlreadyPresent) else Pass
      ensures requirements.reqs ==
                if r in old(requirements.reqs) then old(requirements.reqs) else old(requirements.reqs) + [r]
      ensures unchanged(capabilities, policies, properties, interfaces)
    {
      outcome := requirements.AddReference(r);
    }

    /** `add(Capability)`: delegates to the capability container only. */
    method AddCapability(c: Capability) returns (outcome: Outcome)
      modifies capabilities
      ensures outcome == if c in old(capabilities.caps) then Fail(AlreadyPresent) else Pass
      ensures capabilities.caps ==
                if c in old(capabilities.caps) then old(capabilities.caps) else old(capabilities.caps) + [c]
      ensures unchanged(requirements, policies, properties, interfaces)
    {
      outcome := capabilities.AddReference(c);
    }

    /** `add(Policy)`: delegates to the policy container only. */
    method AddPolicy(pol: Policy) returns (outcome: Outcome)
      modifies policies
      ensures outcome == if pol in old(policies.pols) then Fail(AlreadyPresent) else Pass
      ensures policies.pols ==
                if pol in old(policies.pols) then old(policies.pols) else old(policies.pols) + [pol]
      ensures unchanged(requirements, capabilities, properties, interfaces)
    {
      outcome := policies.Add(pol);
    }

    /** `add(Property)`: delegates to the property container only. */
    method AddProperty(p: Property) returns (outcome: Outcome)
      modifies properties
      ensures outcome == if p in old(properties.props) then Fail(AlreadyPresent) else Pass
      ensures properties.props ==
                if p in old(properties.props) then old(properties.props) else old(properties.props) + [p]
      ensures unchanged(requirements, capabilities, policies, interfaces)
    {
      outcome := properties.AddReference(p);
    }

    /** `add(Interface)`: delegates to the interface container only. */
    method AddInterface(intf: Interface) returns (outcome: Outcome)
      modifies interfaces
      ensures outcome == if intf in old(interfaces.interfaces) then Fail(AlreadyDefined) else Pass
      ensures interfaces.interfaces ==
                if intf in old(interfaces.interfaces) then old(interfaces.interfaces)
                else old(interfaces.interfaces) + [intf]
      ensures unchanged(requirements, capabilities, policies, properties)
    {
      outcome := interfaces.Add(intf);
    }
  }

  class ServiceTemplate {
    const name: string
    const bounds: BoundaryDefinitions

    /** A service template whose boundary exposes nothing yet. */
    constructor (name: string)
      ensures this.name == name
      ensures fresh(bounds) && fresh(bounds.requirements) && fresh(bounds.capabilities)
      ensures fresh(bounds.policies) && fresh(bounds.properties) && fresh(bounds.interfaces)
      ensures bounds.requirements.reqs == [] && bounds.capabilities.caps == [] && bounds.policies.pols == []
      ensures bounds.properties.props == [] && bounds.interfaces.interfaces == []
    {
      this.name := name;
      bounds := new BoundaryDefinitions();
    }
  }
}

/** Node types: the component contracts a service template is matched against. */
module NodeTypes {
  import opened Outcomes
  import opened Values
  import opened Elements
  import opened EntityTypes

  /** The requirement definitions of a node type, in the order they were added. */
  class RequirementDefinitions {
    var reqDefs: seq<RequirementDefinition>

    constructor ()
      ensures reqDefs == []
    {
      reqDefs := [];
    }

    /** Always appends: the duplicate test looks for a definition built just now. */
    method AddDefinition(name: string, requirementType: RequirementType) returns (outcome: Outcome)
      modifies this
      ensures outcome == Pass
      ensures |reqDefs| == |old(reqDefs)| + 1
      ensures reqDefs[..|old(reqDefs)|] == old(reqDefs)
      ensures var added := reqDefs[|old(reqDefs)|];
        fresh(added) && added.name == name && added.requirementType == requirementType
    {
      var rDef := new RequirementDefinition(name, requirementType);
      if rDef in reqDefs {
        outcome := Fail(AlreadyDefined);
      } else {
        reqDefs := reqDefs + [rDef];
        outcome := Pass;
      }
    }

    /** The first definition called `name`, or None (null) when there is none. */
    method GetDefinition(name: string) returns (r: Option<RequirementDefinition>)
      ensures r.None? <==> forall i :: 0 <= i < |reqDefs| ==> reqDefs[i].name != name
      ensures r.Some? ==>
                exists i :: 0 <= i < |reqDefs| && reqDefs[i] == r.value && r.value.name == name &&
                  forall j :: 0 <= j < i ==> reqDefs[j].name != name
    {
      var i := 0;
      while i < |reqDefs|
        invariant 0 <= i <= |reqDefs|
        invariant forall j :: 0 <= j < i ==> reqDefs[j].name != name
      {
        if reqDefs[i].name == name {
          return Some(reqDefs[i]);
        }
        i := i + 1;
      }
      return None;
    }
  }

  /** The capability definitions of a node type, in the order they were added. */
  class CapabilityDefinitions {
    var capDefs: seq<CapabilityDefinition>

    constructor ()
      ensures capDefs == []
    {
      capDefs := [];
    }

    /** Always appends: the duplicate test looks for a definition built just now. */
    method AddDefinition(name: string, capabilityType: CapabilityType) returns (outcome: Outcome)
      modifies this
      ensures outcome == Pass
      ensures |capDefs| == |old(capDefs)| + 1
      ensures capDefs[..|old(capDefs)|] == old(capDefs)
      ensures var added := capDefs[|old(capDefs)|];
        fresh(added) && added.name == name && added.capabilityType == capabilityType
    {
      var cDef := new CapabilityDefinition(name, capabilityType);
      if cDef in capDefs {
        outcome := Fail(AlreadyDefined);
      } else {
        capDefs := capDefs + [cDef];
        outcome := Pass;
      }
    }

    /** The first definition called `name`, or None (null) when there is none. */
    method GetDefinition(name: string) returns (r: Option<CapabilityDefinition>)
      ensures r.None? <==> forall i :: 0 <= i < |capDefs| ==> capDefs[i].name != name
      ensures r.Some? ==>
                exists i :: 0 <= i < |capDefs| && capDefs[i] == r.value && r.value.name == name &&
                  forall j :: 0 <= j < i ==> capDefs[j].name != name
    {
      var i := 0;
      while i < |capDefs|
        invariant 0 <= i <= |capDefs|
        invariant forall j :: 0 <= j < i ==> capDefs[j].name != name
      {
        if capDefs[i].name == name {
          return Some(capDefs[i]);
        }
        i := i + 1;
      }
      return None;
    }
  }

  /** The interfaces of a node type, in the order they were added. */
  class Interfaces {
    var interfaces: seq<Interface>

    constructor ()
      ensures interfaces == []
    {
      interfaces := [];
    }

    /** Refuses an interface object that is already listed; appends any other. */
    method Add(intf: Interface) returns (outcome: Outcome)
      modifies this
      ensures outcome == if intf in old(interfaces) then Fail(AlreadyDefined) else Pass
      ensures interfaces == if intf in old(interfaces) then old(interfaces) else old(interfaces) + [intf]
    {
      if intf in interfaces {
        outcome := Fail(AlreadyDefined);
      } else {
        interfaces := interfaces + [intf];
        outcome := Pass;
      }
    }
  }

  class NodeType {
    const parent: NodeType?
    const name: string
    const propertiesDefinition: PropertiesDefinition
    const requirementDefinitions: RequirementDefinitions
    const capabilityDefinitions: CapabilityDefinitions
    const interfaces: Interfaces

    /** A node type derived from `parent`, with nothing defined yet. */
    constructor Derived(parent: NodeType, name: string)
      ensures this.parent == parent && this.name == name
      ensures fresh(propertiesDefinition) && propertiesDefinition.properties == []
      ensures fresh(requirementDefinitions) && requirementDefinitions.reqDefs == []
      ensures fresh(capabilityDefinitions) && capabilityDefinitions.capDefs == []
      ensures fresh(interfaces) && interfaces.interfaces == []
    {
      this.parent := parent;
      this.name := name;
      propertiesDefinition := new PropertiesDefinition();
      requirementDefinitions := new RequirementDefinitions();
      capabilityDefinitions := new CapabilityDefinitions();
      interfaces := new Interfaces();
    }

    /** A node type derived from nothing, with nothing defined yet. */
    constructor (name: string)
      ensures parent == null && this.name == name
      ensures fresh(propertiesDefinition) && propertiesDefinition.properties == []
      ensures fresh(requirementDefinitions) && requirementDefinitions.reqDefs == []
      ensures fresh(capabilityDefinitions) && capabilityDefinitions.capDefs == []
      ensures fresh(interfaces) && interfaces.interfaces == []
    {
      parent := null;
      this.name := name;
      propertiesDefinition := new PropertiesDefinition();
      requirementDefinitions := new RequirementDefinitions();
      capabilityDefinitions := new CapabilityDefinitions();
      interfaces := new Interfaces();
    }
  }
}

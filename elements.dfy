/** The definitions a node type declares and the elements a service template's boundary
    exposes. They are objects in the source and `contains` compares them by identity, so
    each is a class whose fields are fixed at construction. */
module Elements {
  import opened Values

  class CapabilityDefinition {
    const name: string
    const capabilityType: CapabilityType

    constructor (name: string, capabilityType: CapabilityType)
      ensures this.name == name && this.capabilityType == capabilityType
    {
      this.name := name;
      this.capabilityType := capabilityType;
    }
  }

  class RequirementDefinition {
    const name: string
    const requirementType: RequirementType

    constructor (name: string, requirementType: RequirementType)
      ensures this.name == name && this.requirementType == requirementType
    {
      this.name := name;
      this.requirementType := requirementType;
    }
  }

  class PropertyDefinition {
    const name: string
    const kind: ValueKind

    constructor (name: string, kind: ValueKind)
      ensures this.name == name && this.kind == kind
    {
      this.name := name;
      this.kind := kind;
    }
  }

  /** A capability exposed on a boundary, typed by a capability type. */
  class Capability {
    const name: string
    const capabilityType: CapabilityType

    constructor (name: string, capabilityType: CapabilityType)
      ensures this.name == name && this.capabilityType == capabilityType
    {
      this.name := name;
      this.capabilityType := capabilityType;
    }
  }

  /** A requirement exposed on a boundary, typed by a requirement type. */
  class Requirement {
    const name: string
    const requirementType: RequirementType

    constructor (name: string, requirementType: RequirementType)
      ensures this.name == name && this.requirementType == requirementType
    {
      this.name := name;
      this.requirementType := requirementType;
    }
  }

  /** A property exposed on a boundary: its name and value kind. */
  class Property {
    const name: string
    const kind: ValueKind

    constructor (name: string, kind: ValueKind)
      ensures this.name == name && this.kind == kind
    {
      this.name := name;
      this.kind := kind;
    }
  }

  /** A named list of operations. */
  class Interface {
    const name: string
    const operations: seq<Operation>

    constructor (name: string, operations: seq<Operation>)
      ensures this.name == name && this.operations == operations
    {
      this.name := name;
      this.operations := operations;
    }
  }
}

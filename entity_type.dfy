/** The property-definition list every entity type owns. */
module EntityTypes {
  import opened Outcomes
  import opened Values
  import opened Elements

  /** The property definitions of an entity type, in the order they were added. */
  class PropertiesDefinition {
    var properties: seq<PropertyDefinition>

    constructor ()
      ensures properties == []
    {
      properties := [];
    }

    /** Builds a new definition and appends it unless the list already holds that very
        object; since the object is new it never does, so the call always appends. */
    method AddDefinition(name: string, kind: ValueKind) returns (outcome: Outcome)
      modifies this
      ensures outcome == Pass
      ensures |properties| == |old(properties)| + 1
      ensures properties[..|old(properties)|] == old(properties)
      ensures var added := properties[|old(properties)|];
        fresh(added) && added.name == name && added.kind == kind
    {
      var pDef := new PropertyDefinition(name, kind);
      if pDef in properties {
        outcome := Fail(AlreadyDefined);
      } else {
        properties := properties + [pDef];
        outcome := Pass;
      }
    }

    /** The first definition called `name`, or None (null) when there is none. */
    method GetDefinition(name: string) returns (r: Option<PropertyDefinition>)
      ensures r.None? <==> forall i :: 0 <= i < |properties| ==> properties[i].name != name
      ensures r.Some? ==>
                exists i :: 0 <= i < |properties| && properties[i] == r.value && r.value.name == name &&
                  forall j :: 0 <= j < i ==> properties[j].name != name
    {
      var i := 0;
      while i < |properties|
        invariant 0 <= i <= |properties|
        invariant forall j :: 0 <= j < i ==> properties[j].name != name
      {
        if properties[i].name == name {
          return Some(properties[i]);
        }
        i := i + 1;
      }
      return None;
    }
  }
}

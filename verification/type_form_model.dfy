/**
 The data the type form configuration editor works on: attributes, attribute
 groups and the editor state (the ordered groups and the inactive list).
 */
module TypeFormModel {
  import opened Js

  /** The kind of a group: a list of form attributes, or an embedded
      work package query shown as a table. */
  datatype GroupType = AttributeGroup | QueryGroup

  /** A form attribute: its key, its display translation and whether it is a
      custom field. */
  datatype Attribute = Attribute(key: string, translation: string, isCustomField: bool)

  /** An attribute group. `staticKey` marks a fixed, built-in key as opposed to
      a generated one; `query` is `Undefined` when the group carries none. */
  datatype Group = Group(
    key: string,
    staticKey: bool,
    attributes: seq<Attribute>,
    query: DataValue,
    kind: GroupType)

  /** The component's state: the ordered groups and the inactive attributes. */
  datatype Editor = Editor(groups: seq<Group>, inactives: seq<Attribute>)

  /** All attributes held by a sequence of groups, with multiplicity. */
  ghost function GroupAttributes(groups: seq<Group>): multiset<Attribute>
  {
    if groups == [] then multiset{}
    else multiset(groups[0].attributes) + GroupAttributes(groups[1..])
  }

  /** Every attribute the editor holds, active or inactive, with multiplicity. */
  ghost function AllAttributes(e: Editor): multiset<Attribute>
  {
    GroupAttributes(e.groups) + multiset(e.inactives)
  }
}

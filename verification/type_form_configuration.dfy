/**
 The type form configuration editor: the list transformations behind its
 buttons. Each operation takes the editor state and returns the new one
 (and the value the component method returns, where it returns one).

 The comparison `leq` stands for `localeCompare` (see TranslationSort);
 `randomId` stands for the eight-character key `randomString(8)` produces.
 JavaScript object identity (`el !== group`) is modelled as equality of
 group values.
 */
module TypeFormConfiguration {
  import opened Js
  import opened TypeFormModel
  import opened TranslationSort

  /** The editor state after an operation, and the operation's return value. */
  datatype Returned<T> = Returned(editor: Editor, value: T)

  /** `updateInactives`: the inactive list becomes a sorted copy of `newValue`;
      the groups are untouched. */
  function UpdateInactives(leq: (string, string) -> bool, e: Editor, newValue: seq<Attribute>): (r: Editor)
    requires IsCollation(leq)
    ensures r.groups == e.groups
    ensures SortedByTranslation(leq, r.inactives)
    ensures multiset(r.inactives) == multiset(newValue)
  {
    e.(inactives := Sort(leq, newValue))
  }

  /** `deactivateAttribute`: the attribute joins the inactive list, which stays
      sorted. The groups are left as they are, so the attribute is not taken
      out of the group it came from. */
  function DeactivateAttribute(leq: (string, string) -> bool, e: Editor, attribute: Attribute): (r: Editor)
    requires IsCollation(leq)
    ensures r.groups == e.groups
    ensures SortedByTranslation(leq, r.inactives)
    ensures multiset(r.inactives) == multiset(e.inactives) + multiset{attribute}
    ensures AllAttributes(r) == AllAttributes(e) + multiset{attribute}
  {
    UpdateInactives(leq, e, e.inactives + [attribute])
  }

  /** `groups.filter(el => el !== group)`. */
  function Without(groups: seq<Group>, g: Group): seq<Group>
  {
    if groups == [] then []
    else (if groups[0] == g then [] else [groups[0]]) + Without(groups[1..], g)
  }

  /** The filter drops every occurrence of `g` and keeps every other group as
      often as before. */
  lemma {:induction false} WithoutCounts(groups: seq<Group>, g: Group)
    ensures multiset(Without(groups, g)) == multiset(groups)[g := 0]
    ensures g !in Without(groups, g)
  {
    if groups != [] {
      assert groups == [groups[0]] + groups[1..];
      WithoutCounts(groups[1..], g);
    }
  }

  /** The filter keeps the relative order of the remaining groups: filtering a
      concatenation filters each part in place. */
  lemma {:induction false} WithoutDistributes(a: seq<Group>, b: seq<Group>, g: Group)
    ensures Without(a + b, g) == Without(a, g) + Without(b, g)
  {
    if a == [] {
      assert a + b == b;
    } else {
      assert (a + b)[0] == a[0];
      assert (a + b)[1..] == a[1..] + b;
      WithoutDistributes(a[1..], b, g);
    }
  }

  /** Filtering out a group that is not there changes nothing. */
  lemma {:induction false} WithoutAbsent(groups: seq<Group>, g: Group)
    requires g !in groups
    ensures Without(groups, g) == groups
  {
    if groups != [] {
      WithoutAbsent(groups[1..], g);
    }
  }

  /** `deleteGroup`: the group's attributes join the inactive list, which
      stays sorted; every group equal to `g` leaves the group list; `g` is
      returned. Its attributes are added even when `g` is not in the list. */
  function DeleteGroup(leq: (string, string) -> bool, e: Editor, g: Group): (r: Returned<Group>)
    requires IsCollation(leq)
    ensures r.value == g
    ensures SortedByTranslation(leq, r.editor.inactives)
    ensures multiset(r.editor.inactives) == multiset(e.inactives) + multiset(g.attributes)
    ensures g !in r.editor.groups
    ensures multiset(r.editor.groups) == multiset(e.groups)[g := 0]
  {
    var updated := UpdateInactives(leq, e, e.inactives + g.attributes);
    WithoutCounts(updated.groups, g);
    Returned(updated.(groups := Without(updated.groups, g)), g)
  }

  /** The remaining groups keep their relative order: deleting from `a + b`
      deletes from `a` and from `b` in place. */
  lemma DeleteGroupKeepsOrder(leq: (string, string) -> bool, e: Editor, g: Group, a: seq<Group>, b: seq<Group>)
    requires IsCollation(leq)
    requires e.groups == a + b
    ensures DeleteGroup(leq, e, g).editor.groups == Without(a, g) + Without(b, g)
  {
    WithoutDistributes(a, b, g);
  }

  /** Deleting a group that is not in the list leaves the groups as they are,
      yet its attributes still join the inactive list, so they are counted
      once more than before. */
  lemma DeleteAbsentGroup(leq: (string, string) -> bool, e: Editor, g: Group)
    requires IsCollation(leq)
    requires g !in e.groups
    ensures DeleteGroup(leq, e, g).editor.groups == e.groups
    ensures AllAttributes(DeleteGroup(leq, e, g).editor) == AllAttributes(e) + multiset(g.attributes)
  {
    WithoutAbsent(e.groups, g);
  }

  /** The attributes of the groups other than `g`, plus those of `g` once per
      occurrence: here, for a `g` that occurs exactly once. */
  lemma {:induction false} WithoutOnce(groups: seq<Group>, g: Group)
    requires multiset(groups)[g] == 1
    ensures GroupAttributes(groups) == GroupAttributes(Without(groups, g)) + multiset(g.attributes)
  {
    assert groups == [groups[0]] + groups[1..];
    var rest := Without(groups[1..], g);
    if groups[0] == g {
      assert multiset(groups[1..])[g] == 0;
      WithoutAbsent(groups[1..], g);
      assert Without(groups, g) == groups[1..];
    } else {
      WithoutOnce(groups[1..], g);
      assert Without(groups, g) == [groups[0]] + rest;
      assert ([groups[0]] + rest)[1..] == rest;
    }
  }

  /** Deleting a group that occurs exactly once moves its attributes from the
      groups to the inactive list: no attribute is lost or duplicated. */
  lemma DeleteGroupPreservesAttributes(leq: (string, string) -> bool, e: Editor, g: Group)
    requires IsCollation(leq)
    requires multiset(e.groups)[g] == 1
    ensures AllAttributes(DeleteGroup(leq, e, g).editor) == AllAttributes(e)
  {
    WithoutOnce(e.groups, g);
  }

  /** `createGroup`: a fresh group of the given kind, with the generated key,
      no attributes and no query, goes in front of the others; it is returned.
      The group name argument is ignored. */
  function CreateGroup(e: Editor, kind: GroupType, groupName: string, randomId: string): (r: Returned<Group>)
    ensures r.editor.groups == [r.value] + e.groups
    ensures r.editor.inactives == e.inactives
    ensures r.value.kind == kind && r.value.key == randomId
    ensures !r.value.staticKey && r.value.attributes == [] && r.value.query == Undefined
    ensures AllAttributes(r.editor) == AllAttributes(e)
  {
    var group := Group(randomId, false, [], Undefined, kind);
    assert ([group] + e.groups)[1..] == e.groups;
    Returned(Editor([group] + e.groups, e.inactives), group)
  }

  /** Deleting a freshly created group undoes the creation: the groups are
      back as they were and the inactive list holds the same attributes. */
  lemma CreateThenDelete(leq: (string, string) -> bool, e: Editor, kind: GroupType, groupName: string, randomId: string)
    requires IsCollation(leq)
    requires CreateGroup(e, kind, groupName, randomId).value !in e.groups
    ensures var created := CreateGroup(e, kind, groupName, randomId);
      var deleted := DeleteGroup(leq, created.editor, created.value);
      deleted.editor.groups == e.groups && multiset(deleted.editor.inactives) == multiset(e.inactives)
  {
    var created := CreateGroup(e, kind, groupName, randomId);
    WithoutDistributes([created.value], e.groups, created.value);
    WithoutAbsent(e.groups, created.value);
  }

  /** The query-dialog callback of `editQuery`: `group.query = queryProps`.
      Since the group object is shared with the list, every entry equal to
      `g` now carries the new query; nothing else changes. */
  function QueryEdited(e: Editor, g: Group, queryProps: DataValue): (r: Editor)
    ensures |r.groups| == |e.groups| && r.inactives == e.inactives
    ensures forall i :: 0 <= i < |e.groups| && e.groups[i] != g ==> r.groups[i] == e.groups[i]
    ensures forall i :: 0 <= i < |e.groups| && e.groups[i] == g ==> r.groups[i] == g.(query := queryProps)
  {
    e.(groups := WithQuery(e.groups, g, queryProps))
  }

  /** The group list with the query of every entry equal to `g` replaced. */
  function WithQuery(groups: seq<Group>, g: Group, queryProps: DataValue): (r: seq<Group>)
    ensures |r| == |groups|
    ensures forall i :: 0 <= i < |groups| ==> r[i] == if groups[i] == g then g.(query := queryProps) else groups[i]
  {
    if groups == [] then []
    else [if groups[0] == g then g.(query := queryProps) else groups[0]] + WithQuery(groups[1..], g, queryProps)
  }

  /** Editing a query never moves an attribute. */
  lemma {:induction false} QueryEditedKeepsAttributes(e: Editor, g: Group, queryProps: DataValue)
    ensures AllAttributes(QueryEdited(e, g, queryProps)) == AllAttributes(e)
  {
    WithQueryKeepsAttributes(e.groups, g, queryProps);
  }

  lemma {:induction false} WithQueryKeepsAttributes(groups: seq<Group>, g: Group, queryProps: DataValue)
    ensures GroupAttributes(WithQuery(groups, g, queryProps)) == GroupAttributes(groups)
  {
    if groups != [] {
      var r := WithQuery(groups, g, queryProps);
      WithQueryKeepsAttributes(groups[1..], g, queryProps);
      assert r[1..] == WithQuery(groups[1..], g, queryProps);
      assert r[0].attributes == groups[0].attributes;
    }
  }

  /** `addGroupAndOpenQuery`: creates a query group and opens the query dialog
      on it. The value returned is the query handed to the dialog, which for
      the new group is still undefined. */
  function AddGroupAndOpenQuery(e: Editor, randomId: string): (r: Returned<DataValue>)
    ensures |r.editor.groups| == |e.groups| + 1 && r.editor.groups[1..] == e.groups
    ensures r.editor.groups[0].kind == QueryGroup && r.editor.groups[0].attributes == []
    ensures r.editor.inactives == e.inactives
    ensures r.value == r.editor.groups[0].query == Undefined
  {
    var created := CreateGroup(e, QueryGroup, "", randomId);
    Returned(created.editor, created.value.query)
  }

  /** Confirming the dialog opened by `addGroupAndOpenQuery` stores the chosen
      query on the new group, which stays first, and leaves the rest alone
      when the new group differs from all others. */
  lemma AddGroupThenConfirmQuery(e: Editor, randomId: string, queryProps: DataValue)
    requires Group(randomId, false, [], Undefined, QueryGroup) !in e.groups
    ensures var dialog := AddGroupAndOpenQuery(e, randomId).editor;
      var confirmed := QueryEdited(dialog, dialog.groups[0], queryProps);
      confirmed.groups == [dialog.groups[0].(query := queryProps)] + e.groups
  {
    var dialog := AddGroupAndOpenQuery(e, randomId).editor;
    var confirmed := QueryEdited(dialog, dialog.groups[0], queryProps);
    forall i | 1 <= i < |dialog.groups| ensures confirmed.groups[i] == dialog.groups[i] {
      assert dialog.groups[i] == e.groups[i - 1];
    }
    assert confirmed.groups == [dialog.groups[0].(query := queryProps)] + e.groups;
  }

  /** What jQuery's `.data(name)` reads from an element's data store. */
  function DataOf(data: map<string, DataValue>, name: string): DataValue {
    if name in data then data[name] else Undefined
  }

  /** `extractQuery`: the edited query (`queryProps`) when there is one,
      otherwise the query the page was rendered with (`query`), otherwise
      `undefined`. */
  function ExtractQuery(data: map<string, DataValue>): (r: DataValue)
    ensures Truthy(DataOf(data, "queryProps")) ==> r == DataOf(data, "queryProps")
    ensures !Truthy(DataOf(data, "queryProps")) && Truthy(DataOf(data, "query")) ==> r == DataOf(data, "query")
    ensures !Truthy(DataOf(data, "queryProps")) && !Truthy(DataOf(data, "query")) ==> r == Undefined
  {
    var persistentQuery := DataOf(data, "query");
    var currentQuery := DataOf(data, "queryProps");
    if Truthy(currentQuery) then currentQuery
    else if Truthy(persistentQuery) then persistentQuery
    else Undefined
  }

  /** The fallback is JavaScript's `currentQuery || persistentQuery || undefined`;
      the result is either truthy or `undefined`, never some other falsy value,
      and it is truthy exactly when one of the two stored queries is. */
  lemma ExtractQueryIsOrChain(data: map<string, DataValue>)
    ensures ExtractQuery(data) == Or(Or(DataOf(data, "queryProps"), DataOf(data, "query")), Undefined)
    ensures ExtractQuery(data) == Undefined || Truthy(ExtractQuery(data))
    ensures Truthy(ExtractQuery(data)) <==> Truthy(DataOf(data, "queryProps")) || Truthy(DataOf(data, "query"))
  {
  }

  /** A `queryProps` entry that reads as `NaN` is falsy, so the rendered
      query is used instead. */
  lemma ExtractQuerySkipsNaN(query: string)
    ensures ExtractQuery(map["queryProps" := NotANumber, "query" := Object(query)]) == Object(query)
  {
  }

  /** The scenario of deactivating "Alpha" while "Beta" is inactive: under any
      collation that puts "Alpha" strictly before "Beta", the inactive list
      becomes [Alpha, Beta]. */
  lemma DeactivateAlphaBeforeBeta(leq: (string, string) -> bool, groups: seq<Group>)
    requires IsCollation(leq)
    requires leq("Alpha", "Beta") && !leq("Beta", "Alpha")
    ensures var alpha := Attribute("a", "Alpha", false);
      var beta := Attribute("b", "Beta", false);
      DeactivateAttribute(leq, Editor(groups, [beta]), alpha).inactives == [alpha, beta]
  {
    var alpha := Attribute("a", "Alpha", false);
    var beta := Attribute("b", "Beta", false);
    assert [beta, alpha][1..] == [alpha];
    assert [alpha][1..] == [];
    assert Sort(leq, [alpha]) == Insert(leq, alpha, []) == [alpha];
    assert Insert(leq, beta, [alpha]) == [alpha] + Insert(leq, beta, []) == [alpha, beta];
    assert Sort(leq, [beta, alpha]) == Insert(leq, beta, [alpha]);
    assert [beta] + [alpha] == [beta, alpha];
  }
}

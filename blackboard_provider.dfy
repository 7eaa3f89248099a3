/** BlackboardProvider: the shader graph's property panel. It keeps a registry
    of one row per property, keyed by the property's guid, and a section that
    shows those rows in order; it reconciles both against the change-set the
    graph reports, keeps the list of graph node views highlighted while the
    mouse cursor is over a property's pill, forwards renames to the property, and
    owns the subtitle's inline path editor.

    The graph, the UI toolkit and the editor's services belong to the host.
    The graph's properties are objects of class ShaderProperty; the graph's
    lists and change-set are parameters of the operations that read them; a
    section child stands for the row of its guid; undo registration,
    AddShaderProperty, MoveShaderProperty, node dirtying and opening a text
    editor are recorded in a ghost log of host calls; the session store is a
    map from guid to bool. */
module Blackboard {
  import opened Wrappers
  import opened PathLabel
  import opened PathEdit

  datatype Guid = Guid(value: int)

  /** The property types the add menu offers. */
  datatype PropertyType =
    Vector1 | Vector2 | Vector3 | Vector4 | Color | Texture2D | Texture2DArray | Texture3D | Cubemap | Boolean

  /** A property of the graph. Its guid and type never change; its display
      name and exposure flag do. */
  class ShaderProperty {
    const guid: Guid
    var displayName: string
    const propertyType: PropertyType
    var generatePropertyBlock: bool

    constructor (guid: Guid, displayName: string, propertyType: PropertyType, generatePropertyBlock: bool)
      ensures this.guid == guid && this.displayName == displayName
      ensures this.propertyType == propertyType && this.generatePropertyBlock == generatePropertyBlock
    {
      this.guid := guid;
      this.displayName := displayName;
      this.propertyType := propertyType;
      this.generatePropertyBlock := generatePropertyBlock;
    }
  }

  /** A row of the panel: its field (text, type text and whether it carries the
      exposed icon), the property it shows and whether it is expanded. */
  datatype BlackboardRow = BlackboardRow(
    property: ShaderProperty,
    fieldText: string,
    typeText: PropertyType,
    exposedIcon: bool,
    expanded: bool)

  /** Calls into the host's graph and editor services. */
  datatype HostCall =
    | RegisterUndo(actionName: string)
    | AddShaderProperty(added: Guid)
    | MoveShaderProperty(moved: Guid, newIndex: int)
    | DirtyPropertyNodes
    | OpenTextEditor(edited: Guid)

  /** The names of the undo steps the panel registers. */
  const CreatePropertyAction: string := "Create Property"
  const EditPropertyNameAction: string := "Edit Property Name"
  const MovePropertyAction: string := "Move Property"

  /** The exceptions the panel's own code can raise: a dictionary lookup of a
      missing guid, and an insertion past the end of the section. */
  datatype Exception = KeyNotFound(key: Guid) | ArgumentOutOfRange(index: int)

  /** How an operation ended. */
  datatype Outcome = Completed | Threw(exception: Exception)

  /** A graph node view as the hover handler sees it: its identity and, when
      its node is a property node, the guid of the property it reads. */
  datatype NodeView = NodeView(id: nat, propertyGuid: Option<Guid>)

  datatype HoverEvent = MouseEnter | MouseLeave

  /** No element occurs twice. */
  predicate Distinct<T(==)>(s: seq<T>)
  {
    forall i, j :: 0 <= i < j < |s| ==> s[i] != s[j]
  }

  /** The guids of some properties, in order. */
  function GuidsOf(props: seq<ShaderProperty>): (r: seq<Guid>)
    ensures |r| == |props|
    ensures forall i :: 0 <= i < |props| ==> r[i] == props[i].guid
  {
    seq(|props|, i requires 0 <= i < |props| => props[i].guid)
  }

  /** The first n + 1 elements are the first n and then s[n]. */
  lemma PrefixSnoc<T>(s: seq<T>, n: nat)
    requires n < |s|
    ensures s[..n + 1] == s[..n] + [s[n]]
  {
  }

  /** The guids of the first j + 1 properties are those of the first j and
      the guid of props[j]. */
  lemma GuidsOfPrefix(props: seq<ShaderProperty>, j: nat)
    requires j < |props|
    ensures GuidsOf(props)[..j + 1] == GuidsOf(props)[..j] + [props[j].guid]
  {
  }

  /** List.IndexOf: the position of the first occurrence of p, or -1. */
  function IndexOfProperty(props: seq<ShaderProperty>, p: ShaderProperty): (r: int)
    ensures -1 <= r < |props|
    ensures r == -1 <==> p !in props
    ensures 0 <= r ==> props[r] == p && p !in props[..r]
  {
    if props == [] then -1
    else if props[0] == p then 0
    else
      var k := IndexOfProperty(props[1..], p);
      assert props[1..][..if k < 0 then 0 else k] == props[1..if k < 0 then 1 else k + 1];
      if k < 0 then -1 else k + 1
  }

  /** The section without the row of g (VisualElement.RemoveFromHierarchy):
      every other row stays, in its order. */
  function Without(s: seq<Guid>, g: Guid): (r: seq<Guid>)
    ensures forall x :: x in r <==> x in s && x != g
    ensures Distinct(s) ==> Distinct(r)
    ensures |r| <= |s|
    ensures IsSubsequence(r, s)
  {
    if s == [] then []
    else
      var rest := Without(s[1..], g);
      assert [s[0]] + s[1..] == s;
      if s[0] == g then
        assert rest == [] || rest[0] in rest;
        SubsequenceSkip(s[0], rest, s[1..]);
        rest
      else
        assert Distinct(s) ==> s[0] !in s[1..];
        SubsequenceCons(s[0], rest, s[1..]);
        [s[0]] + rest
  }

  /** s with x inserted before position i. */
  function InsertAt(s: seq<Guid>, i: nat, x: Guid): (r: seq<Guid>)
    requires i <= |s|
    ensures |r| == |s| + 1 && r[i] == x
  {
    s[..i] + [x] + s[i..]
  }

  /** Inserting a new row and taking it out again gives back the section: an
      insertion keeps the relative order of the rows already there. */
  lemma {:induction false} WithoutInsertAt(s: seq<Guid>, i: nat, x: Guid)
    requires i <= |s| && x !in s
    ensures Without(InsertAt(s, i, x), x) == s
  {
    if s == [] {
      assert InsertAt(s, i, x) == [x];
    } else if i == 0 {
      assert InsertAt(s, i, x) == [x] + s;
      WithoutAbsent(s, x);
    } else {
      var t := InsertAt(s, i, x);
      assert t[0] == s[0] && t[1..] == InsertAt(s[1..], i - 1, x);
      WithoutInsertAt(s[1..], i - 1, x);
      assert Without(t, x) == [s[0]] + Without(t[1..], x);
      assert s == [s[0]] + s[1..];
    }
  }

  /** Removing a row the section does not show changes nothing. */
  lemma {:induction false} WithoutAbsent(s: seq<Guid>, x: Guid)
    requires x !in s
    ensures Without(s, x) == s
  {
    if s != [] {
      WithoutAbsent(s[1..], x);
      assert s == [s[0]] + s[1..];
    }
  }

  /** The guids listed in s. */
  function SetOf(s: seq<Guid>): set<Guid>
  {
    set g | g in s
  }

  /** The guids of the first i + 1 entries of s are those of the first i and
      s[i]. */
  lemma SetOfPrefix(s: seq<Guid>, i: nat)
    requires i < |s|
    ensures SetOf(s[..i + 1]) == SetOf(s[..i]) + {s[i]}
  {
    assert s[..i + 1] == s[..i] + [s[i]];
  }

  /** Removing keys one more at a time. */
  lemma MapMinusStep(m: map<Guid, BlackboardRow>, gone: set<Guid>, g: Guid)
    ensures m - (gone + {g}) == (m - gone) - {g}
  {
  }

  /** The section without the rows whose guids are in drop: every other row
      stays, in its order. */
  function Excluding(s: seq<Guid>, drop: set<Guid>): (r: seq<Guid>)
    ensures forall x :: x in r <==> x in s && x !in drop
  {
    if s == [] then []
    else if s[0] in drop then Excluding(s[1..], drop)
    else [s[0]] + Excluding(s[1..], drop)
  }

  /** The rows Excluding keeps stay in their order. */
  lemma {:induction false} ExcludingKeepsOrder(s: seq<Guid>, drop: set<Guid>)
    ensures IsSubsequence(Excluding(s, drop), s)
  {
    if s != [] {
      ExcludingKeepsOrder(s[1..], drop);
      var rest := Excluding(s[1..], drop);
      if s[0] in drop {
        SubsequenceSkip(s[0], rest, s[1..]);
      } else {
        SubsequenceCons(s[0], rest, s[1..]);
      }
      assert [s[0]] + s[1..] == s;
    }
  }

  /** Removing one more row, after or before excluding others, is excluding
      it with them. */
  lemma {:induction false} ExcludingWithout(s: seq<Guid>, drop: set<Guid>, g: Guid)
    ensures Without(Excluding(s, drop), g) == Excluding(s, drop + {g})
    ensures Excluding(Without(s, g), drop) == Excluding(s, drop + {g})
  {
    if s != [] {
      ExcludingWithout(s[1..], drop, g);
      if s[0] !in drop && s[0] != g {
        assert ([s[0]] + Excluding(s[1..], drop))[1..] == Excluding(s[1..], drop);
        assert ([s[0]] + Without(s[1..], g))[1..] == Without(s[1..], g);
      } else if s[0] !in drop {
        assert ([s[0]] + Excluding(s[1..], drop))[1..] == Excluding(s[1..], drop);
      }
    }
  }

  /** Excluding rows the section does not show changes nothing. */
  lemma {:induction false} ExcludingNone(s: seq<Guid>, drop: set<Guid>)
    requires forall x :: x in s ==> x !in drop
    ensures Excluding(s, drop) == s
  {
    if s != [] {
      ExcludingNone(s[1..], drop);
      assert s == [s[0]] + s[1..];
    }
  }

  /** The guids among done that had no row in rows0. */
  function NewIn(done: seq<Guid>, rows0: map<Guid, BlackboardRow>): set<Guid>
  {
    set g | g in done && g !in rows0
  }

  /** A sequence without repetitions is as long as the set of its elements. */
  lemma {:induction false} DistinctCardinality(s: seq<Guid>)
    requires Distinct(s)
    ensures |set x | x in s| == |s|
  {
    if s != [] {
      var rest := set x | x in s[1..];
      DistinctCardinality(s[1..]);
      assert s[0] !in rest by {
        forall k | 0 <= k < |s[1..]| ensures s[1..][k] != s[0] {
          assert s[1..][k] == s[k + 1];
        }
      }
      assert (set x | x in s) == {s[0]} + rest;
    }
  }

  /** A sequence without repetitions is no longer than any set that holds
      all of its elements. */
  lemma DistinctWithin(s: seq<Guid>, t: set<Guid>)
    requires Distinct(s) && forall g :: g in s ==> g in t
    ensures |s| <= |t|
  {
    var elems := set x | x in s;
    DistinctCardinality(s);
    assert t == elems + (t - elems);
  }

  /** The views among nodes whose node reads the property with guid g, in
      their order. */
  function ReferencingViews(nodes: seq<NodeView>, g: Guid): (r: seq<NodeView>)
    ensures |r| <= |nodes|
    ensures forall v :: v in r <==> v in nodes && v.propertyGuid == Some(g)
    ensures IsSubsequence(r, nodes)
  {
    if nodes == [] then []
    else
      var last := nodes[|nodes| - 1];
      var front := ReferencingViews(nodes[..|nodes| - 1], g);
      assert forall v :: v in nodes <==> v in nodes[..|nodes| - 1] || v == last;
      assert nodes == nodes[..|nodes| - 1] + [last];
      SubsequenceSnoc(last, front, nodes[..|nodes| - 1]);
      if last.propertyGuid == Some(g) then front + [last] else front
  }

  /** Scanning one more view extends the referencing views by that view
      exactly when its node reads the property. */
  lemma ReferencingViewsStep(nodes: seq<NodeView>, i: nat, g: Guid)
    requires i < |nodes|
    ensures nodes[i].propertyGuid == Some(g) ==> ReferencingViews(nodes[..i + 1], g) == ReferencingViews(nodes[..i], g) + [nodes[i]]
    ensures nodes[i].propertyGuid != Some(g) ==> ReferencingViews(nodes[..i + 1], g) == ReferencingViews(nodes[..i], g)
  {
    assert nodes[..i + 1][..i] == nodes[..i];
  }

  /** The identities of some views. */
  function Ids(views: seq<NodeView>): set<nat>
  {
    if views == [] then {} else Ids(views[..|views| - 1]) + {views[|views| - 1].id}
  }

  lemma IdsAppend(views: seq<NodeView>, v: NodeView)
    ensures Ids(views + [v]) == Ids(views) + {v.id}
  {
    assert (views + [v])[..|views|] == views;
  }

  /** Where AddProperty puts a new row with guid g into the section, given
      the registry's row count: a negative index stands for the row count;
      the row count itself appends the row; any other index inserts it there
      when the section is long enough, and throws otherwise. */
  function PlaceRow(section: seq<Guid>, count: nat, index: int, g: Guid): (r: Result<seq<Guid>, Exception>)
    ensures r.Failure? ==> r.error.ArgumentOutOfRange?
    ensures r.Success? ==> |r.value| == |section| + 1 && g in r.value
  {
    var pos := if index < 0 then count else index;
    if pos == count then Success(section + [g])
    else if pos <= |section| then Success(InsertAt(section, pos, g))
    else Failure(ArgumentOutOfRange(pos))
  }

  /** Placing a new row in a section without repetitions leaves none. */
  lemma PlaceRowDistinct(section: seq<Guid>, count: nat, index: int, g: Guid)
    requires Distinct(section) && g !in section
    ensures PlaceRow(section, count, index, g).Success? ==> Distinct(PlaceRow(section, count, index, g).value)
  {
    var pos := if index < 0 then count else index;
    if pos == count || pos <= |section| {
      var i := if pos == count then |section| else pos;
      var r := InsertAt(section, i, g);
      assert PlaceRow(section, count, index, g).value == r by {
        if pos == count { assert section + [g] == r; }
      }
      forall a, b | 0 <= a < b < |r|
        ensures r[a] != r[b]
      {
        assert a < i ==> r[a] == section[a];
        assert a > i ==> r[a] == section[a - 1];
        assert b < i ==> r[b] == section[b];
        assert b > i ==> r[b] == section[b - 1];
      }
    }
  }

  /** Placing a row keeps every row already there in its relative order, adds
      the new one and nothing else. */
  lemma PlaceRowKeepsOrder(section: seq<Guid>, count: nat, index: int, g: Guid)
    requires g !in section
    ensures PlaceRow(section, count, index, g).Success? ==>
      && Without(PlaceRow(section, count, index, g).value, g) == section
      && |PlaceRow(section, count, index, g).value| == |section| + 1
      && (forall x :: x in PlaceRow(section, count, index, g).value <==> x in section || x == g)
  {
    var pos := if index < 0 then count else index;
    if pos == count {
      assert section + [g] == InsertAt(section, |section|, g);
      WithoutInsertAt(section, |section|, g);
    } else if pos <= |section| {
      WithoutInsertAt(section, pos, g);
    }
  }

  /** When the section shows every row, placing succeeds exactly for the
      indexes up to the row count, and the new row lands at the index asked
      for, -1 meaning after the last row. */
  lemma PlaceRowPosition(section: seq<Guid>, index: int, g: Guid)
    ensures PlaceRow(section, |section|, index, g).Success? <==> index <= |section|
    ensures index <= |section| ==>
      var pos := if index < 0 then |section| else index;
      && pos < |PlaceRow(section, |section|, index, g).value|
      && PlaceRow(section, |section|, index, g).value[pos] == g
  {
  }

  /** After some added properties, whose guids are done, the registry rows
      holds the rows of rows0, unchanged, plus one row for each of those
      properties, and the section shows what section0 showed, in its order,
      plus the rows that are new. */
  ghost predicate AddedUpTo(rows: map<Guid, BlackboardRow>, section: seq<Guid>,
                            rows0: map<Guid, BlackboardRow>, section0: seq<Guid>,
                            added: seq<ShaderProperty>, done: seq<Guid>)
  {
    && (forall g :: g in rows <==> g in rows0 || g in done)
    && (forall g :: g in rows0 ==> g in rows && rows[g] == rows0[g])
    && (forall g :: g in rows && g !in rows0 ==> rows[g].property in added)
    && (forall g :: g in section <==> g in section0 || (g in done && g !in rows0))
    && Excluding(section, NewIn(done, rows0)) == section0
  }

  /** AddProperty of one more added property keeps AddedUpTo. */
  lemma AddedUpToStep(rows: map<Guid, BlackboardRow>, section: seq<Guid>,
                      rows': map<Guid, BlackboardRow>, section': seq<Guid>,
                      rows0: map<Guid, BlackboardRow>, section0: seq<Guid>,
                      added: seq<ShaderProperty>, done: seq<Guid>, p: ShaderProperty,
                      index: int, row: BlackboardRow)
    requires AddedUpTo(rows, section, rows0, section0, added, done)
    requires p in added && row.property == p
    requires forall g :: g in section ==> g in rows
    requires p.guid in rows ==> rows' == rows && section' == section
    requires p.guid !in rows ==>
      PlaceRow(section, |rows|, index, p.guid) == Success(section') && rows' == rows[p.guid := row]
    ensures AddedUpTo(rows', section', rows0, section0, added, done + [p.guid])
  {
    if p.guid !in rows {
      PlaceRowKeepsOrder(section, |rows|, index, p.guid);
    }
    AddedOrderStep(rows, section, section', rows0, done, p.guid);
  }

  /** The order part of AddedUpToStep: a row placed for a guid without one is
      the only row the section gains. */
  lemma AddedOrderStep(rows: map<Guid, BlackboardRow>, section: seq<Guid>, section': seq<Guid>,
                       rows0: map<Guid, BlackboardRow>, done: seq<Guid>, g: Guid)
    requires forall x :: x in rows0 ==> x in rows
    requires forall x :: x in done ==> x in rows
    requires forall x :: x in rows ==> x in rows0 || x in done
    requires g in rows ==> section' == section
    requires g !in rows ==> Without(section', g) == section
    ensures Excluding(section', NewIn(done + [g], rows0)) == Excluding(section, NewIn(done, rows0))
  {
    var before, after := NewIn(done, rows0), NewIn(done + [g], rows0);
    if g in rows {
      assert after == before;
    } else {
      assert after == before + {g};
      ExcludingWithout(section', before, g);
    }
  }

  /** The registry after removing the rows of removed guids from rows0 and
      adding rows for the added properties: the rows of rows0 that were not
      removed, unchanged, and one row for each added property that had none
      left. */
  ghost predicate RowsReconciled(rows0: map<Guid, BlackboardRow>, removed: seq<Guid>, added: seq<ShaderProperty>,
                                 rows: map<Guid, BlackboardRow>, built: seq<BlackboardRow>)
    requires |built| == |added|
  {
    && (forall g :: g in rows <==> (g in rows0 && g !in removed) || g in GuidsOf(added))
    && (forall g :: g in rows0 && g !in removed ==> rows[g] == rows0[g])
    && (forall g :: g in rows && (g !in rows0 || g in removed) ==> rows[g].property in added)
    && NewRowsBuilt(rows, rows0 - SetOf(removed), added, |added|, built)
  }

  /** The section after the same two steps, when nothing moved: the rows of
      section0 that were not removed, in their order, with the rows of the
      added properties that had none left placed among them. */
  ghost predicate SectionReconciled(rows0: map<Guid, BlackboardRow>, section0: seq<Guid>, removed: seq<Guid>,
                                    added: seq<ShaderProperty>, section: seq<Guid>)
  {
    && (forall g :: g in section <==>
          (g in section0 && g !in removed) || (g in GuidsOf(added) && (g !in rows0 || g in removed)))
    && Excluding(section, NewIn(GuidsOf(added), rows0 - SetOf(removed))) == Excluding(section0, SetOf(removed))
  }

  /** The first two loops of HandleGraphChanges together: the rows of removed
      guids go, the rows of added properties come, and in the section the
      rows that stay keep their order. */
  lemma RemoveThenAdd(rows0: map<Guid, BlackboardRow>, section0: seq<Guid>, removed: seq<Guid>,
                      added: seq<ShaderProperty>, rows: map<Guid, BlackboardRow>, section: seq<Guid>,
                      built: seq<BlackboardRow>)
    requires AddedUpTo(rows, section, rows0 - SetOf(removed), Excluding(section0, SetOf(removed)), added, GuidsOf(added))
    requires |built| == |added| && NewRowsBuilt(rows, rows0 - SetOf(removed), added, |added|, built)
    ensures RowsReconciled(rows0, removed, added, rows, built)
    ensures SectionReconciled(rows0, section0, removed, added, section)
  {
  }

  /** The state in which the loop over the added properties threw: the first
      j of them have been added as AddedUpTo says, each new row is the one
      built for it, the section is what AddAll of them builds, and placing
      the row of the next one, which has none, throws e. */
  ghost predicate ThrewAt(j: nat, graphInputs: seq<ShaderProperty>, added: seq<ShaderProperty>,
                          rows: map<Guid, BlackboardRow>, section: seq<Guid>,
                          rows0: map<Guid, BlackboardRow>, section0: seq<Guid>,
                          built: seq<BlackboardRow>, e: Exception)
    requires j < |added| == |built|
  {
    && AddedUpTo(rows, section, rows0, section0, added, GuidsOf(added)[..j])
    && NewRowsBuilt(rows, rows0, added, j, built)
    && AddAll(rows0.Keys, section0, graphInputs, added[..j]) == Success(section)
    && added[j].guid !in rows
    && PlaceRow(section, |rows|, IndexOfProperty(graphInputs, added[j]), added[j].guid) == Failure(e)
  }

  /** The section the loop over the added properties builds, starting from
      a section whose registry holds the guids in known: a property whose
      guid is known is skipped; any other is placed where PlaceRow says for
      its index in the graph, and becomes known. The first placement that
      throws ends the loop with its exception. */
  function AddAll(known: set<Guid>, section: seq<Guid>, graphInputs: seq<ShaderProperty>,
                  added: seq<ShaderProperty>): (r: Result<seq<Guid>, Exception>)
    ensures r.Failure? ==> r.error.ArgumentOutOfRange?
    decreases |added|
  {
    if added == [] then Success(section)
    else if added[0].guid in known then AddAll(known, section, graphInputs, added[1..])
    else
      var placed := PlaceRow(section, |known|, IndexOfProperty(graphInputs, added[0]), added[0].guid);
      if placed.Failure? then placed
      else AddAll(known + {added[0].guid}, placed.value, graphInputs, added[1..])
  }

  /** AddAll of one more property at the end: known' is what the registry
      holds after the first ones, so the last one is skipped or placed as
      PlaceRow says for that registry. */
  lemma {:induction false} AddAllSnoc(known: set<Guid>, section: seq<Guid>, graphInputs: seq<ShaderProperty>,
                                      added: seq<ShaderProperty>, p: ShaderProperty, known': set<Guid>)
    requires AddAll(known, section, graphInputs, added).Success?
    requires forall g :: g in known' <==> g in known || g in GuidsOf(added)
    ensures AddAll(known, section, graphInputs, added + [p]) ==
      if p.guid in known' then AddAll(known, section, graphInputs, added)
      else PlaceRow(AddAll(known, section, graphInputs, added).value, |known'|, IndexOfProperty(graphInputs, p), p.guid)
    decreases |added|
  {
    if added == [] {
      assert known' == known;
      assert ([] + [p])[1..] == [];
    } else {
      var q := added[0];
      assert (added + [p])[0] == q && (added + [p])[1..] == added[1..] + [p];
      assert forall g :: g in GuidsOf(added) <==> g == q.guid || g in GuidsOf(added[1..]);
      if q.guid in known {
        AddAllSnoc(known, section, graphInputs, added[1..], p, known');
      } else {
        var placed := PlaceRow(section, |known|, IndexOfProperty(graphInputs, q), q.guid);
        AddAllSnoc(known + {q.guid}, placed.value, graphInputs, added[1..], p, known');
      }
    }
  }

  /** AddAll over the added properties from position n on: its first step. */
  lemma AddAllStep(known: set<Guid>, section: seq<Guid>, graphInputs: seq<ShaderProperty>,
                   added: seq<ShaderProperty>, n: nat)
    requires n < |added|
    ensures added[n].guid in known ==>
      AddAll(known, section, graphInputs, added[n..]) == AddAll(known, section, graphInputs, added[n + 1..])
    ensures added[n].guid !in known &&
            PlaceRow(section, |known|, IndexOfProperty(graphInputs, added[n]), added[n].guid).Failure? ==>
      AddAll(known, section, graphInputs, added[n..]) ==
        PlaceRow(section, |known|, IndexOfProperty(graphInputs, added[n]), added[n].guid)
    ensures added[n].guid !in known &&
            PlaceRow(section, |known|, IndexOfProperty(graphInputs, added[n]), added[n].guid).Success? ==>
      AddAll(known, section, graphInputs, added[n..]) ==
        AddAll(known + {added[n].guid},
               PlaceRow(section, |known|, IndexOfProperty(graphInputs, added[n]), added[n].guid).value,
               graphInputs, added[n + 1..])
  {
    assert added[n..][0] == added[n] && added[n..][1..] == added[n + 1..];
  }

  /** A completed AddProperty of added[n] over a registry rows and a section
      leaves the rest of AddAll to do from the new registry and section. */
  lemma AddAllPlaced(rows: map<Guid, BlackboardRow>, section: seq<Guid>,
                     rows': map<Guid, BlackboardRow>, section': seq<Guid>,
                     graphInputs: seq<ShaderProperty>, added: seq<ShaderProperty>, n: nat, row: BlackboardRow)
    requires n < |added|
    requires added[n].guid in rows ==> rows' == rows && section' == section
    requires added[n].guid !in rows ==>
      && PlaceRow(section, |rows|, IndexOfProperty(graphInputs, added[n]), added[n].guid) == Success(section')
      && rows' == rows[added[n].guid := row]
    ensures AddAll(rows.Keys, section, graphInputs, added[n..]) == AddAll(rows'.Keys, section', graphInputs, added[n + 1..])
  {
    AddAllStep(rows.Keys, section, graphInputs, added, n);
    assert |rows.Keys| == |rows|;
    if added[n].guid !in rows {
      assert rows'.Keys == rows.Keys + {added[n].guid};
    }
  }

  /** The state of the loop over the added properties after the first n,
      started from rows0 and section0: AddedUpTo and NewRowsBuilt hold for
      them, the section is what AddAll of them builds, and what AddAll of
      all of them builds is what AddAll of the rest builds from here. */
  ghost predicate AddingAt(rows: map<Guid, BlackboardRow>, section: seq<Guid>,
                           rows0: map<Guid, BlackboardRow>, section0: seq<Guid>,
                           graphInputs: seq<ShaderProperty>, added: seq<ShaderProperty>, n: nat, built: seq<BlackboardRow>)
    requires n <= |added| == |built|
  {
    && AddedUpTo(rows, section, rows0, section0, added, GuidsOf(added)[..n])
    && NewRowsBuilt(rows, rows0, added, n, built)
    && AddAll(rows0.Keys, section0, graphInputs, added[..n]) == Success(section)
    && AddAll(rows0.Keys, section0, graphInputs, added) == AddAll(rows.Keys, section, graphInputs, added[n..])
  }

  /** A completed AddProperty of added[n], at its index in the graph, takes
      the loop's state after the first n added properties to its state after
      the first n + 1. */
  lemma AddRowStep(rows: map<Guid, BlackboardRow>, section: seq<Guid>,
                   rows': map<Guid, BlackboardRow>, section': seq<Guid>,
                   rows0: map<Guid, BlackboardRow>, section0: seq<Guid>,
                   graphInputs: seq<ShaderProperty>, added: seq<ShaderProperty>, n: nat, built: seq<BlackboardRow>)
    requires n < |added| == |built| && built[n].property == added[n]
    requires AddingAt(rows, section, rows0, section0, graphInputs, added, n, built)
    requires forall g :: g in section ==> g in rows
    requires added[n].guid in rows ==> rows' == rows && section' == section
    requires added[n].guid !in rows ==>
      && PlaceRow(section, |rows|, IndexOfProperty(graphInputs, added[n]), added[n].guid) == Success(section')
      && rows' == rows[added[n].guid := built[n]]
    ensures AddingAt(rows', section', rows0, section0, graphInputs, added, n + 1, built)
  {
    GuidsOfPrefix(added, n);
    AddedUpToStep(rows, section, rows', section', rows0, section0, added, GuidsOf(added)[..n],
                  added[n], IndexOfProperty(graphInputs, added[n]), built[n]);
    NewRowsStep(rows, rows', rows0, added, n, built);
    AddAllPlaced(rows, section, rows', section', graphInputs, added, n, built[n]);
    AddAllPrefixStep(rows, section, section', rows0, section0, graphInputs, added, n);
  }

  /** A completed AddProperty of added[n] extends the section AddAll builds
      for the first n added properties to the one it builds for n + 1. */
  lemma AddAllPrefixStep(rows: map<Guid, BlackboardRow>, section: seq<Guid>, section': seq<Guid>,
                         rows0: map<Guid, BlackboardRow>, section0: seq<Guid>,
                         graphInputs: seq<ShaderProperty>, added: seq<ShaderProperty>, n: nat)
    requires n < |added|
    requires AddAll(rows0.Keys, section0, graphInputs, added[..n]) == Success(section)
    requires forall g :: g in rows <==> g in rows0 || g in GuidsOf(added)[..n]
    requires added[n].guid in rows ==> section' == section
    requires added[n].guid !in rows ==>
      PlaceRow(section, |rows|, IndexOfProperty(graphInputs, added[n]), added[n].guid) == Success(section')
    ensures AddAll(rows0.Keys, section0, graphInputs, added[..n + 1]) == Success(section')
  {
    PrefixSnoc(added, n);
    assert GuidsOf(added[..n]) == GuidsOf(added)[..n];
    assert |rows.Keys| == |rows|;
    AddAllSnoc(rows0.Keys, section0, graphInputs, added[..n], added[n], rows.Keys);
  }

  /** An AddProperty of added[n] that throws e throws AddAll's exception. */
  lemma AddAllThrew(rows: map<Guid, BlackboardRow>, section: seq<Guid>,
                    graphInputs: seq<ShaderProperty>, added: seq<ShaderProperty>, n: nat, e: Exception)
    requires n < |added| && added[n].guid !in rows
    requires PlaceRow(section, |rows|, IndexOfProperty(graphInputs, added[n]), added[n].guid) == Failure(e)
    ensures AddAll(rows.Keys, section, graphInputs, added[n..]) == Failure(e)
  {
    AddAllStep(rows.Keys, section, graphInputs, added, n);
    assert |rows.Keys| == |rows|;
  }

  /** The section HandleGraphChanges builds when nothing moved: AddAll of the
      added properties over the panel left after the removed guids are gone. */
  function ReconciledSection(rows0: map<Guid, BlackboardRow>, section0: seq<Guid>, removed: seq<Guid>,
                             graphInputs: seq<ShaderProperty>, added: seq<ShaderProperty>): Result<seq<Guid>, Exception>
  {
    AddAll((rows0 - SetOf(removed)).Keys, Excluding(section0, SetOf(removed)), graphInputs, added)
  }

  /** Position i is the first of the added properties with its guid. */
  predicate FirstOf(added: seq<ShaderProperty>, i: nat)
    requires i < |added|
  {
    forall k :: 0 <= k < i ==> added[k].guid != added[i].guid
  }

  /** The rows AddProperty builds for the added properties, in order, each
      expanded as the session store says (expanded when it says nothing). */
  function BuiltRows(added: seq<ShaderProperty>, session: map<Guid, bool>): (r: seq<BlackboardRow>)
    reads added`displayName, added`generatePropertyBlock
    ensures |r| == |added|
    ensures forall i :: 0 <= i < |added| ==> r[i] == RowFor(added[i], GetBool(session, added[i].guid, true))
  {
    if added == [] then []
    else [RowFor(added[0], GetBool(session, added[0].guid, true))] + BuiltRows(added[1..], session)
  }

  /** Every one of the first n added properties that is the first with its
      guid and whose guid had no row in rows0 has the row built[i] built for
      it. */
  ghost predicate NewRowsBuilt(rows: map<Guid, BlackboardRow>, rows0: map<Guid, BlackboardRow>,
                               added: seq<ShaderProperty>, n: nat, built: seq<BlackboardRow>)
    requires n <= |added| == |built|
  {
    forall i :: 0 <= i < n && added[i].guid !in rows0 && FirstOf(added, i) ==>
      added[i].guid in rows && rows[added[i].guid] == built[i]
  }

  /** AddProperty of added[n] keeps NewRowsBuilt: the row it files, if any,
      is the one for the first property with that guid. */
  lemma NewRowsStep(rows: map<Guid, BlackboardRow>, rows': map<Guid, BlackboardRow>,
                    rows0: map<Guid, BlackboardRow>, added: seq<ShaderProperty>, n: nat, built: seq<BlackboardRow>)
    requires n < |added| == |built| && NewRowsBuilt(rows, rows0, added, n, built)
    requires forall i :: 0 <= i < n ==> added[i].guid in rows
    requires forall g :: g in rows ==> g in rows0 || g in GuidsOf(added)[..n]
    requires added[n].guid in rows ==> rows' == rows
    requires added[n].guid !in rows ==> rows' == rows[added[n].guid := built[n]]
    ensures NewRowsBuilt(rows', rows0, added, n + 1, built)
  {
    var g := added[n].guid;
    if FirstOf(added, n) && g !in rows0 {
      assert g !in GuidsOf(added)[..n];
    }
  }

  /** SessionState.GetBool: the flag stored for g, or the default. */
  function GetBool(session: map<Guid, bool>, g: Guid, default: bool): bool
  {
    if g in session then session[g] else default
  }

  /** The row AddProperty builds for a property. */
  function RowFor(property: ShaderProperty, expanded: bool): BlackboardRow
    reads property`displayName, property`generatePropertyBlock
  {
    BlackboardRow(property, property.displayName, property.propertyType, property.generatePropertyBlock, expanded)
  }

  /** The loop of OnMouseHover's mouse-enter branch: walks the node views in
      order, collecting those whose node reads property g and their ids. */
  method ScanReferencing(nodes: seq<NodeView>, g: Guid) returns (found: seq<NodeView>, ids: set<nat>)
    ensures found == ReferencingViews(nodes, g)
    ensures ids == Ids(found)
  {
    found, ids := [], {};
    var i := 0;
    while i < |nodes|
      invariant 0 <= i <= |nodes|
      invariant found == ReferencingViews(nodes[..i], g)
      invariant ids == Ids(found)
    {
      var node := nodes[i];
      ReferencingViewsStep(nodes, i, g);
      if node.propertyGuid == Some(g) {
        IdsAppend(found, node);
        found, ids := found + [node], ids + {node.id};
      }
      i := i + 1;
    }
    assert nodes[..i] == nodes;
  }

  /** The panel. */
  class BlackboardProvider {
    /** m_PropertyRows: the registry of rows by property guid. */
    var rows: map<Guid, BlackboardRow>
    /** m_Section's children, in order. */
    var section: seq<Guid>
    /** m_ExpandedProperties: the expansion states waiting to be saved. */
    var expandedProperties: map<Guid, bool>
    /** The session store's expansion flags. */
    var sessionState: map<Guid, bool>
    /** m_SelectedNodes: the node views highlighted for the hovered pill. */
    var selectedNodes: seq<NodeView>
    /** The views that carry the "hovered" style class. */
    var hovered: set<nat>
    /** The subtitle label, the path field, the cancel flag and the graph's path. */
    var labelText: string
    var labelVisible: bool
    var fieldText: string
    var fieldVisible: bool
    var editPathCancelled: bool
    var graphPath: string
    /** The calls made into the host's services, oldest first. */
    ghost var hostLog: seq<HostCall>

    /** The section shows each row at most once and only rows of the
        registry, and every row is filed under its own property's guid. */
    ghost predicate Valid()
      reads this`rows, this`section
    {
      && Distinct(section)
      && (forall g :: g in section ==> g in rows)
      && (forall g :: g in rows ==> rows[g].property.guid == g)
    }

    /** The section shows every row of the registry. */
    ghost predicate Complete()
      reads this`rows, this`section
    {
      forall g :: g in rows ==> g in section
    }

    /** The subtitle editor's state. */
    function PathEditState(): EditState
      reads this`labelText, this`labelVisible, this`fieldText, this`fieldVisible, this`editPathCancelled, this`graphPath
    {
      EditState(labelText, labelVisible, fieldText, fieldVisible, editPathCancelled, graphPath)
    }

    /** SessionState.GetBool with a default, on this panel's session store. */
    function SessionFlag(g: Guid, default: bool): bool
      reads this`sessionState
    {
      GetBool(sessionState, g, default)
    }

    /** The constructor: one row per property of the graph, in the graph's
        order, each showing its property's name, type and exposure and
        expanded as the session store says (expanded when it says nothing).
        The subtitle's text is what the host's blackboard was built with. */
    constructor (graphInputs: seq<ShaderProperty>, path: string, subTitle: string, session: map<Guid, bool>)
      requires Distinct(GuidsOf(graphInputs))
      ensures Valid() && Complete()
      ensures section == GuidsOf(graphInputs)
      ensures forall i :: 0 <= i < |graphInputs| ==>
        rows[graphInputs[i].guid] == RowFor(graphInputs[i], SessionFlag(graphInputs[i].guid, true))
      ensures sessionState == session && expandedProperties == map[]
      ensures selectedNodes == [] && hovered == {} && hostLog == []
      ensures PathEditState() == EditState(subTitle, true, [], false, false, path)
    {
      rows, section, expandedProperties, sessionState := map[], [], map[], session;
      selectedNodes, hovered, hostLog := [], {}, [];
      labelText, labelVisible, fieldText, fieldVisible := subTitle, true, [], false;
      editPathCancelled, graphPath := false, path;
      new;
      AddInitialRows(graphInputs);
    }

    /** The constructor's loop: AddProperty, appending, for every property of
        the graph into an empty panel. */
    method AddInitialRows(graphInputs: seq<ShaderProperty>)
      requires Distinct(GuidsOf(graphInputs))
      requires rows == map[] && section == []
      modifies this`rows, this`section, this`hostLog
      ensures Valid() && Complete()
      ensures section == GuidsOf(graphInputs)
      ensures forall i :: 0 <= i < |graphInputs| ==>
        rows[graphInputs[i].guid] == RowFor(graphInputs[i], SessionFlag(graphInputs[i].guid, true))
      ensures hostLog == old(hostLog)
    {
      var i := 0;
      while i < |graphInputs|
        invariant 0 <= i <= |graphInputs|
        invariant Valid() && hostLog == old(hostLog)
        invariant RowsOf(graphInputs, i)
      {
        assert graphInputs[i].guid !in section by {
          assert forall k :: 0 <= k < i ==> GuidsOf(graphInputs)[k] != GuidsOf(graphInputs)[i];
        }
        AppendInitialRow(graphInputs, i);
        i := i + 1;
      }
    }

    /** The panel shows exactly one row for each of the first n properties of
        props, in props' order, each built for its property and expanded as
        the session store says. */
    ghost predicate RowsOf(props: seq<ShaderProperty>, n: nat)
      requires n <= |props|
      reads this`rows, this`section, this`sessionState, props
    {
      && |section| == n && (forall k :: 0 <= k < n ==> section[k] == props[k].guid)
      && |rows| == |section| && (forall g :: g in rows <==> g in section)
      && (forall k :: 0 <= k < n ==> rows[section[k]] == RowFor(props[k], SessionFlag(props[k].guid, true)))
    }

    /** One step of the constructor's loop: AddProperty(props[n]) on a panel
        whose section shows every row appends the property's row. */
    method AppendInitialRow(props: seq<ShaderProperty>, n: nat)
      requires n < |props| && Valid() && RowsOf(props, n) && props[n].guid !in section
      modifies this`rows, this`section, this`hostLog
      ensures Valid() && hostLog == old(hostLog)
      ensures RowsOf(props, n + 1)
    {
      var property := props[n];
      ghost var before, rowsBefore := section, rows;
      assert PlaceRow(section, |rows|, -1, property.guid) == Success(section + [property.guid]);
      var outcome := AddGraphProperty(property, -1);
      assert section == before + [property.guid];
      assert rows == rowsBefore[property.guid := RowFor(property, SessionFlag(property.guid, true))];
      forall k | 0 <= k < n + 1
        ensures section[k] == props[k].guid
        ensures rows[section[k]] == RowFor(props[k], SessionFlag(props[k].guid, true))
      {
        if k < n {
          assert section[k] == before[k];
        }
      }
    }

    /** AddProperty: a property whose guid already has a row is ignored.
        Otherwise the property is renamed through the graph's name sanitiser
        when it is being created, a row is built for it and placed in the
        section (PlaceRow, which may throw before the registry is touched),
        and the row is filed under the guid. It starts expanded as the
        session store says (default expanded), or expanded when created, and
        creating it registers an undo step, adds the property to the graph
        and opens its name for editing. */
    method AddProperty(property: ShaderProperty, create: bool, index: int, sanitizePropertyName: string -> string)
      returns (outcome: Outcome)
      requires Valid()
      modifies this`rows, this`section, this`hostLog, if create then {property} else {}
      ensures Valid()
      ensures !create ==> unchanged(property)
      ensures property.generatePropertyBlock == old(property.generatePropertyBlock)
      ensures property.guid in old(rows) ==>
        && outcome == Completed && unchanged(property)
        && rows == old(rows) && section == old(section) && hostLog == old(hostLog)
      ensures property.guid !in old(rows) ==>
        property.displayName == (if create then sanitizePropertyName(old(property.displayName)) else old(property.displayName))
      ensures property.guid !in old(rows) && PlaceRow(old(section), |old(rows)|, index, property.guid).Failure? ==>
        && outcome == Threw(PlaceRow(old(section), |old(rows)|, index, property.guid).error)
        && rows == old(rows) && section == old(section) && hostLog == old(hostLog)
      ensures property.guid !in old(rows) && PlaceRow(old(section), |old(rows)|, index, property.guid).Success? ==>
        && outcome == Completed
        && section == PlaceRow(old(section), |old(rows)|, index, property.guid).value
        && rows == old(rows)[property.guid := RowFor(property, create || old(SessionFlag(property.guid, true)))]
        && |rows| == |old(rows)| + 1
        && hostLog == old(hostLog) +
             if create then [RegisterUndo(CreatePropertyAction), AddShaderProperty(property.guid), OpenTextEditor(property.guid)] else []
      ensures outcome == Completed ==>
        && (forall x :: x in rows <==> x in old(rows) || x == property.guid)
        && (forall x :: x in section <==> x in old(section) || (x == property.guid && x !in old(rows)))
    {
      var g := property.guid;
      if g in rows {
        return Completed;
      }
      if create {
        property.displayName := sanitizePropertyName(property.displayName);
      }
      ghost var rows0 := rows;
      outcome := PlaceNewRow(property, index, SessionFlag(g, true));
      if outcome == Completed && create {
        assert rows[g].(expanded := true) == RowFor(property, true);
        rows := rows[g := rows[g].(expanded := true)];
        assert rows == rows0[g := RowFor(property, true)];
        hostLog := hostLog + [RegisterUndo(CreatePropertyAction), AddShaderProperty(g), OpenTextEditor(g)];
      }
    }

    /** The placement step of AddProperty: the new row goes into the section
        where PlaceRow says, and is filed under its guid; an insertion past
        the end of the section throws and changes nothing. */
    method PlaceNewRow(property: ShaderProperty, index: int, expanded: bool) returns (outcome: Outcome)
      requires Valid() && property.guid !in rows
      modifies this`rows, this`section
      ensures Valid()
      ensures PlaceRow(old(section), |old(rows)|, index, property.guid).Failure? ==>
        && outcome == Threw(PlaceRow(old(section), |old(rows)|, index, property.guid).error)
        && rows == old(rows) && section == old(section)
      ensures PlaceRow(old(section), |old(rows)|, index, property.guid).Success? ==>
        && outcome == Completed
        && section == PlaceRow(old(section), |old(rows)|, index, property.guid).value
        && rows == old(rows)[property.guid := RowFor(property, expanded)]
        && |rows| == |old(rows)| + 1
        && (forall x :: x in section <==> x in old(section) || x == property.guid)
    {
      var g := property.guid;
      var placed := PlaceRow(section, |rows|, index, g);
      if placed.Failure? {
        return Threw(placed.error);
      }
      PlaceRowKeepsOrder(section, |rows|, index, g);
      PlaceRowDistinct(section, |rows|, index, g);
      section := placed.value;
      rows := rows[g := RowFor(property, expanded)];
      outcome := Completed;
    }

    /** GetBlackboardRow: the row filed under guid, which shows the property
        with that guid; a guid without a row throws. */
    function GetBlackboardRow(guid: Guid): (r: Result<BlackboardRow, Exception>)
      reads this`rows, this`section
      ensures r.Success? <==> guid in rows
      ensures r.Failure? ==> r.error == KeyNotFound(guid)
      ensures Valid() && r.Success? ==> r.value.property.guid == guid
    {
      if guid in rows then Success(rows[guid]) else Failure(KeyNotFound(guid))
    }

    /** OnExpanded: the expand button of a property's row records the row's
        flipped expansion state, to be saved at the next reconciliation. */
    method OnExpanded(property: ShaderProperty) returns (outcome: Outcome)
      modifies this`expandedProperties
      ensures outcome == Completed <==> property.guid in rows
      ensures outcome != Completed ==> outcome == Threw(KeyNotFound(property.guid)) && expandedProperties == old(expandedProperties)
      ensures outcome == Completed ==>
        expandedProperties == old(expandedProperties)[property.guid := !rows[property.guid].expanded]
    {
      if property.guid !in rows {
        return Threw(KeyNotFound(property.guid));
      }
      expandedProperties := expandedProperties[property.guid := !rows[property.guid].expanded];
      outcome := Completed;
    }

    /** EditTextRequested: renaming the property of a row's field to the empty
        name or to its current name does nothing; any other name is passed
        through the graph's sanitiser, written to the property and to the
        field, and recorded as an undo step followed by dirtying every
        property node. */
    method EditTextRequested(field: Guid, newText: string, sanitizePropertyName: (string, Guid) -> string)
      requires Valid() && field in rows
      modifies this`rows, this`hostLog, rows[field].property
      ensures Valid()
      ensures old(rows[field].property).generatePropertyBlock == old(rows[field].property.generatePropertyBlock)
      ensures newText == [] || newText == old(rows[field].property.displayName) ==>
        rows == old(rows) && hostLog == old(hostLog) && unchanged(old(rows[field].property))
      ensures newText != [] && newText != old(rows[field].property.displayName) ==>
        var property := old(rows[field].property);
        && property.displayName == sanitizePropertyName(newText, field)
        && rows == old(rows)[field := old(rows[field]).(fieldText := property.displayName)]
        && hostLog == old(hostLog) + [RegisterUndo(EditPropertyNameAction), DirtyPropertyNodes]
    {
      var property := rows[field].property;
      if newText != [] && newText != property.displayName {
        hostLog := hostLog + [RegisterUndo(EditPropertyNameAction)];
        var name := sanitizePropertyName(newText, field);
        property.displayName := name;
        rows := rows[field := rows[field].(fieldText := name)];
        hostLog := hostLog + [DirtyPropertyNodes];
      }
    }

    /** MoveItemRequested: dropping a row that carries a property at a new
        index registers an undo step and asks the graph to move the property;
        the rows follow at the next reconciliation. */
    method MoveItemRequested(property: ShaderProperty?, newIndex: int)
      modifies this`hostLog
      ensures property == null ==> hostLog == old(hostLog)
      ensures property != null ==>
        hostLog == old(hostLog) + [RegisterUndo(MovePropertyAction), MoveShaderProperty(property.guid, newIndex)]
    {
      if property != null {
        hostLog := hostLog + [RegisterUndo(MovePropertyAction), MoveShaderProperty(property.guid, newIndex)];
      }
    }

    /** HandleGraphChanges: reconciles the panel with the graph's change-set:
        removes the rows of removed guids, adds rows for added properties,
        saves the pending expansion states, rebuilds the section in the
        graph's order when anything moved, and clears the pending expansion
        states. An exception in a step ends the reconciliation there. */
    method HandleGraphChanges(graphInputs: seq<ShaderProperty>, removed: seq<Guid>, added: seq<ShaderProperty>, moved: bool)
      returns (outcome: Outcome)
      requires Valid()
      requires Distinct(GuidsOf(graphInputs))
      modifies this`rows, this`section, this`sessionState, this`expandedProperties, this`hostLog
      ensures Valid() && hostLog == old(hostLog)
      ensures outcome == Completed || outcome.exception.KeyNotFound? ==>
        && RowsReconciled(old(rows), removed, added, rows, old(BuiltRows(added, sessionState)))
        && sessionState == old(sessionState) + old(expandedProperties)
      ensures outcome == Completed ==>
        && (moved ==> section == GuidsOf(graphInputs))
        && (!moved ==> SectionReconciled(old(rows), old(section), removed, added, section))
        && (!moved ==> ReconciledSection(old(rows), old(section), removed, graphInputs, added) == Success(section))
        && expandedProperties == map[]
      ensures ReconciledSection(old(rows), old(section), removed, graphInputs, added).Failure? <==>
        outcome != Completed && outcome.exception.ArgumentOutOfRange?
      ensures ReconciledSection(old(rows), old(section), removed, graphInputs, added).Failure? ==>
        outcome == Threw(ReconciledSection(old(rows), old(section), removed, graphInputs, added).error)
      ensures outcome != Completed && outcome.exception.KeyNotFound? ==>
        && moved && expandedProperties == old(expandedProperties)
        && |section| < |graphInputs| && section == GuidsOf(graphInputs)[..|section|]
        && outcome.exception.key == graphInputs[|section|].guid && outcome.exception.key !in rows
      ensures outcome != Completed && outcome.exception.ArgumentOutOfRange? ==>
        && sessionState == old(sessionState) && expandedProperties == old(expandedProperties)
        && exists j :: 0 <= j < |added| &&
             ThrewAt(j, graphInputs, added, rows, section, old(rows) - SetOf(removed), Excluding(old(section), SetOf(removed)),
                     old(BuiltRows(added, sessionState)), outcome.exception)
    {
      outcome := RemoveAndAddRows(graphInputs, removed, added);
      if outcome == Completed {
        outcome := FinishReconcile(graphInputs, moved);
      }
    }

    /** The last steps of HandleGraphChanges, once the rows are reconciled:
        the pending expansion states are saved, the section is rebuilt in the
        graph's order when anything moved, and the pending states are
        cleared; a graph property without a row ends it before the clearing. */
    method FinishReconcile(graphInputs: seq<ShaderProperty>, moved: bool) returns (outcome: Outcome)
      requires Valid()
      requires Distinct(GuidsOf(graphInputs))
      modifies this`section, this`sessionState, this`expandedProperties
      ensures Valid()
      ensures sessionState == old(sessionState) + old(expandedProperties)
      ensures outcome == Completed ==>
        && (moved ==> section == GuidsOf(graphInputs))
        && (!moved ==> section == old(section))
        && expandedProperties == map[]
      ensures outcome != Completed ==>
        && moved && expandedProperties == old(expandedProperties)
        && outcome.exception.KeyNotFound? && |section| < |graphInputs|
        && section == GuidsOf(graphInputs)[..|section|]
        && outcome.exception.key == graphInputs[|section|].guid && outcome.exception.key !in rows
    {
      SaveExpandedStates();
      outcome := Completed;
      if moved {
        outcome := RebuildSection(graphInputs);
      }
      if outcome == Completed {
        expandedProperties := map[];
      }
    }

    /** The first two loops of HandleGraphChanges: the rows of removed guids
        go, then rows for the added properties come; an exception while
        adding ends the reconciliation there. */
    method RemoveAndAddRows(graphInputs: seq<ShaderProperty>, removed: seq<Guid>, added: seq<ShaderProperty>)
      returns (outcome: Outcome)
      requires Valid()
      modifies this`rows, this`section, this`hostLog
      ensures Valid() && hostLog == old(hostLog)
      ensures outcome == Completed ==>
        && RowsReconciled(old(rows), removed, added, rows, old(BuiltRows(added, sessionState)))
        && SectionReconciled(old(rows), old(section), removed, added, section)
      ensures outcome == Completed <==> ReconciledSection(old(rows), old(section), removed, graphInputs, added).Success?
      ensures outcome == Completed ==> section == ReconciledSection(old(rows), old(section), removed, graphInputs, added).value
      ensures outcome != Completed ==>
        ReconciledSection(old(rows), old(section), removed, graphInputs, added) == Failure(outcome.exception)
      ensures outcome != Completed ==>
        && outcome.exception.ArgumentOutOfRange?
        && exists j :: 0 <= j < |added| &&
             ThrewAt(j, graphInputs, added, rows, section, old(rows) - SetOf(removed), Excluding(old(section), SetOf(removed)),
                     old(BuiltRows(added, sessionState)), outcome.exception)
    {
      ghost var built := old(BuiltRows(added, sessionState));
      RemoveRows(removed);
      ghost var rows1, section1 := rows, section;
      assert BuiltRows(added, sessionState) == built;
      outcome := AddRows(graphInputs, added);
      if outcome == Completed {
        RemoveThenAdd(old(rows), old(section), removed, added, rows, section, built);
      } else {
        ghost var j :| 0 <= j < |added| && ThrewAt(j, graphInputs, added, rows, section, rows1, section1, built, outcome.exception);
      }
    }

    /** The first loop of HandleGraphChanges: every removed guid that has a
        row loses it, from the section and from the registry; the others are
        ignored. */
    method RemoveRows(removed: seq<Guid>)
      requires Valid()
      modifies this`rows, this`section
      ensures Valid()
      ensures rows == old(rows) - SetOf(removed)
      ensures section == Excluding(old(section), SetOf(removed))
      ensures IsSubsequence(section, old(section))
    {
      var i := 0;
      assert SetOf(removed[..i]) == {};
      ExcludingNone(section, {});
      while i < |removed|
        invariant 0 <= i <= |removed|
        invariant Valid()
        invariant rows == old(rows) - SetOf(removed[..i])
        invariant section == Excluding(old(section), SetOf(removed[..i]))
      {
        var g := removed[i];
        ExcludingWithout(old(section), SetOf(removed[..i]), g);
        MapMinusStep(old(rows), SetOf(removed[..i]), g);
        SetOfPrefix(removed, i);
        RemoveRow(g);
        i := i + 1;
      }
      assert removed[..i] == removed;
      ExcludingKeepsOrder(old(section), SetOf(removed));
    }

    /** One step of the first loop of HandleGraphChanges: the row of g, if
        there is one, leaves the section and the registry. */
    method RemoveRow(g: Guid)
      requires Valid()
      modifies this`rows, this`section
      ensures Valid()
      ensures rows == old(rows) - {g}
      ensures section == Without(old(section), g)
    {
      if g in rows {
        section, rows := Without(section, g), rows - {g};
      } else {
        WithoutAbsent(section, g);
      }
    }

    /** The second loop of HandleGraphChanges: AddProperty for every added
        property, at its index in the graph (-1, so appended, when the graph
        does not list it). */
    method AddRows(graphInputs: seq<ShaderProperty>, added: seq<ShaderProperty>) returns (outcome: Outcome)
      requires Valid()
      modifies this`rows, this`section, this`hostLog
      ensures Valid() && hostLog == old(hostLog)
      ensures outcome != Completed ==> outcome.exception.ArgumentOutOfRange?
      ensures outcome == Completed ==> AddedUpTo(rows, section, old(rows), old(section), added, GuidsOf(added))
      ensures outcome == Completed ==> NewRowsBuilt(rows, old(rows), added, |added|, old(BuiltRows(added, sessionState)))
      ensures outcome == Completed <==> AddAll(old(rows).Keys, old(section), graphInputs, added).Success?
      ensures outcome == Completed ==> section == AddAll(old(rows).Keys, old(section), graphInputs, added).value
      ensures outcome != Completed ==> AddAll(old(rows).Keys, old(section), graphInputs, added) == Failure(outcome.exception)
      ensures outcome != Completed ==>
        exists j :: 0 <= j < |added| &&
          ThrewAt(j, graphInputs, added, rows, section, old(rows), old(section), old(BuiltRows(added, sessionState)), outcome.exception)
    {
      var j := 0;
      outcome := Completed;
      ghost var built := old(BuiltRows(added, sessionState));
      assert NewIn(GuidsOf(added)[..j], rows) == {};
      assert added[..j] == [] && added[j..] == added;
      ExcludingNone(section, {});
      while j < |added|
        invariant 0 <= j <= |added|
        invariant Valid() && hostLog == old(hostLog)
        invariant AddingAt(rows, section, old(rows), old(section), graphInputs, added, j, built)
        invariant outcome == Completed
      {
        assert built[j] == RowFor(added[j], SessionFlag(added[j].guid, true));
        outcome := AddRow(graphInputs, added, j, old(rows), old(section), built);
        if outcome != Completed {
          assert ThrewAt(j, graphInputs, added, rows, section, old(rows), old(section), built, outcome.exception);
          return;
        }
        j := j + 1;
      }
      assert GuidsOf(added)[..j] == GuidsOf(added);
      assert added[..j] == added && added[j..] == [];
    }

    /** One step of the second loop of HandleGraphChanges: AddProperty of the
        added property at position n, at its index in the graph, either adds
        it to the state AddedUpTo describes or throws with the state
        unchanged. */
    method AddRow(graphInputs: seq<ShaderProperty>, added: seq<ShaderProperty>, n: nat,
                  ghost rows0: map<Guid, BlackboardRow>, ghost section0: seq<Guid>, ghost built: seq<BlackboardRow>)
      returns (outcome: Outcome)
      requires n < |added| == |built| && built[n] == RowFor(added[n], SessionFlag(added[n].guid, true))
      requires Valid() && AddingAt(rows, section, rows0, section0, graphInputs, added, n, built)
      modifies this`rows, this`section, this`hostLog
      ensures Valid() && hostLog == old(hostLog)
      ensures outcome == Completed ==> AddingAt(rows, section, rows0, section0, graphInputs, added, n + 1, built)
      ensures outcome != Completed ==> AddAll(rows0.Keys, section0, graphInputs, added) == Failure(outcome.exception)
      ensures outcome != Completed ==> rows == old(rows) && section == old(section)
      ensures outcome == Completed && added[n].guid in old(rows) ==> section == old(section)
      ensures outcome == Completed && added[n].guid !in old(rows) ==>
        PlaceRow(old(section), |old(rows)|, IndexOfProperty(graphInputs, added[n]), added[n].guid) == Success(section)
      ensures outcome != Completed ==>
        && outcome.exception.ArgumentOutOfRange?
        && ThrewAt(n, graphInputs, added, rows, section, rows0, section0, built, outcome.exception)
    {
      var p, index := added[n], IndexOfProperty(graphInputs, added[n]);
      ghost var rowsBefore, sectionBefore := rows, section;
      outcome := AddGraphProperty(p, index);
      if outcome == Completed {
        AddRowStep(rowsBefore, sectionBefore, rows, section, rows0, section0, graphInputs, added, n, built);
      } else {
        AddAllThrew(rows, section, graphInputs, added, n, outcome.exception);
      }
    }

    /** AddProperty of a property the graph already holds, as the
        constructor and HandleGraphChanges call it (not being created): a
        property that already has a row changes nothing; otherwise its row is
        placed where PlaceRow says, expanded as the session store says
        (expanded when it says nothing), or placing it throws and changes
        nothing. No host service is called. */
    method AddGraphProperty(property: ShaderProperty, index: int) returns (outcome: Outcome)
      requires Valid()
      modifies this`rows, this`section, this`hostLog
      ensures Valid() && hostLog == old(hostLog)
      ensures outcome != Completed ==>
        && rows == old(rows) && section == old(section) && property.guid !in rows
        && PlaceRow(section, |rows|, index, property.guid) == Failure(outcome.exception)
      ensures outcome == Completed && property.guid in old(rows) ==> rows == old(rows) && section == old(section)
      ensures outcome == Completed && property.guid !in old(rows) ==>
        && PlaceRow(old(section), |old(rows)|, index, property.guid) == Success(section)
        && rows == old(rows)[property.guid := old(RowFor(property, SessionFlag(property.guid, true)))]
    {
      outcome := AddProperty(property, false, index, s => s);
    }

    /** The third loop of HandleGraphChanges: every pending expansion state is
        written to the session store. */
    method SaveExpandedStates()
      modifies this`sessionState
      ensures sessionState == old(sessionState) + expandedProperties
    {
      var unsaved := expandedProperties.Keys;
      while unsaved != {}
        invariant unsaved <= expandedProperties.Keys
        invariant sessionState == old(sessionState) + (map g | g in expandedProperties.Keys - unsaved :: expandedProperties[g])
        decreases unsaved
      {
        var g :| g in unsaved;
        sessionState := sessionState[g := expandedProperties[g]];
        unsaved := unsaved - {g};
      }
      assert expandedProperties == (map g | g in expandedProperties.Keys - unsaved :: expandedProperties[g]);
    }

    /** The move branch of HandleGraphChanges: every row leaves the section,
        then the rows of the graph's properties are added back in the graph's
        order; a graph property without a row throws. */
    method RebuildSection(graphInputs: seq<ShaderProperty>) returns (outcome: Outcome)
      requires Valid()
      requires Distinct(GuidsOf(graphInputs))
      modifies this`section
      ensures Valid()
      ensures outcome == Completed <==> forall g :: g in GuidsOf(graphInputs) ==> g in rows
      ensures outcome == Completed ==> section == GuidsOf(graphInputs)
      ensures outcome != Completed ==>
        && outcome.exception.KeyNotFound? && |section| < |graphInputs|
        && section == GuidsOf(graphInputs)[..|section|]
        && outcome.exception.key == graphInputs[|section|].guid && outcome.exception.key !in rows
    {
      var stale := rows.Keys;
      while stale != {}
        invariant stale <= rows.Keys
        invariant Valid()
        invariant forall g :: g in section ==> g in stale
        decreases stale
      {
        var g :| g in stale;
        section := Without(section, g);
        stale := stale - {g};
      }
      DistinctWithin(section, stale);
      var guids := GuidsOf(graphInputs);
      var k := 0;
      while k < |graphInputs|
        invariant 0 <= k <= |graphInputs|
        invariant Valid()
        invariant section == guids[..k]
        invariant forall m :: 0 <= m < k ==> guids[m] in rows
      {
        var g := graphInputs[k].guid;
        if g !in rows {
          return Threw(KeyNotFound(g));
        }
        assert forall m :: 0 <= m < k ==> guids[m] != guids[k];
        section := section + [g];
        assert guids[..k + 1] == guids[..k] + [g];
        k := k + 1;
      }
      assert guids[..k] == guids;
      outcome := Completed;
    }

    /** OnMouseHover: entering a pill highlights every node view whose node
        reads the pill's property, adding it to the selection; leaving the
        pill while a selection is live takes the highlight off every selected
        view and empties the selection. */
    method OnMouseHover(evt: HoverEvent, property: ShaderProperty, nodes: seq<NodeView>)
      modifies this`selectedNodes, this`hovered
      ensures evt == MouseEnter ==>
        && selectedNodes == old(selectedNodes) + ReferencingViews(nodes, property.guid)
        && hovered == old(hovered) + Ids(ReferencingViews(nodes, property.guid))
      ensures evt == MouseLeave && old(selectedNodes) != [] ==>
        selectedNodes == [] && hovered == old(hovered) - Ids(old(selectedNodes))
      ensures evt == MouseLeave && old(selectedNodes) == [] ==>
        selectedNodes == [] && hovered == old(hovered)
    {
      if evt == MouseEnter {
        SelectReferencing(property, nodes);
      } else if selectedNodes != [] {
        ClearSelection();
      }
    }

    /** The mouse-enter branch of OnMouseHover: every view whose node reads
        the property is appended to the selection and marked hovered. */
    method SelectReferencing(property: ShaderProperty, nodes: seq<NodeView>)
      modifies this`selectedNodes, this`hovered
      ensures selectedNodes == old(selectedNodes) + ReferencingViews(nodes, property.guid)
      ensures hovered == old(hovered) + Ids(ReferencingViews(nodes, property.guid))
    {
      var found, ids := ScanReferencing(nodes, property.guid);
      selectedNodes, hovered := selectedNodes + found, hovered + ids;
    }

    /** OnDragUpdatedEvent: a drag over a pill drops a live selection the same
        way leaving the pill does. */
    method OnDragUpdatedEvent()
      modifies this`selectedNodes, this`hovered
      ensures selectedNodes == []
      ensures hovered == old(hovered) - Ids(old(selectedNodes))
    {
      if selectedNodes != [] {
        ClearSelection();
      }
    }

    /** Takes the "hovered" class off every selected view, then empties the
        selection. */
    method ClearSelection()
      modifies this`selectedNodes, this`hovered
      ensures selectedNodes == []
      ensures hovered == old(hovered) - Ids(old(selectedNodes))
    {
      var i := 0;
      while i < |selectedNodes|
        invariant 0 <= i <= |selectedNodes|
        invariant selectedNodes == old(selectedNodes)
        invariant hovered == old(hovered) - Ids(selectedNodes[..i])
      {
        assert Ids(selectedNodes[..i + 1]) == Ids(selectedNodes[..i]) + {selectedNodes[i].id} by {
          assert selectedNodes[..i + 1] == selectedNodes[..i] + [selectedNodes[i]];
        }
        hovered := hovered - {selectedNodes[i].id};
        i := i + 1;
      }
      assert selectedNodes[..i] == selectedNodes;
      selectedNodes := [];
    }

    /** OnMouseDownEvent on the subtitle label. */
    method OnMouseDownEvent(clickCount: int, button: int) returns (preventDefault: bool)
      modifies this`labelVisible, this`fieldVisible, this`fieldText
      ensures PathEditState() == MouseDown(old(PathEditState()), clickCount, button).state
      ensures preventDefault == MouseDown(old(PathEditState()), clickCount, button).preventDefault
    {
      preventDefault := clickCount == 2 && button == LeftMouse;
      if preventDefault {
        StartEditingPath();
      }
    }

    /** StartEditingPath, without its layout and focus handling. */
    method StartEditingPath()
      modifies this`labelVisible, this`fieldVisible, this`fieldText
      ensures PathEditState() == StartEditing(old(PathEditState()))
    {
      fieldVisible := true;
      fieldText := labelText;
      labelVisible := false;
    }

    /** OnPathTextFieldKeyPressed; the result says whether the field was
        blurred. */
    method OnPathTextFieldKeyPressed(key: KeyCode) returns (blur: bool)
      modifies this`editPathCancelled
      ensures PathEditState() == KeyDown(old(PathEditState()), key).state
      ensures blur == KeyDown(old(PathEditState()), key).blur
    {
      match key
      case Escape =>
        editPathCancelled := true;
        blur := true;
      case Return =>
        blur := true;
      case KeypadEnter =>
        blur := true;
      case OtherKey(_) =>
        blur := false;
    }

    /** OnEditPathTextFinished, called when the field loses focus. The five
        fields are written in one parallel assignment, as nothing reads them
        between the writes. */
    method OnEditPathTextFinished()
      modifies this`labelText, this`labelVisible, this`fieldVisible, this`editPathCancelled, this`graphPath
      ensures PathEditState() == Finished(old(PathEditState()))
    {
      var newPath := fieldText;
      if !editPathCancelled && newPath != labelText {
        newPath := SanitizePath(newPath);
      }
      labelVisible, fieldVisible, graphPath, labelText, editPathCancelled := true, false, newPath, FormatPath(newPath), false;
    }
  }
}

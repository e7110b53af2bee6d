/** `get_variables_idx`: the map from cell-attribute name to the row of the exported cell
    matrix that holds it, read from the labels of initial.xml, with the three-row
    `position` attribute split into `position_x`, `position_y` and `position_z`. */
module Variables {
  import opened Outcomes

  /** One `<label index="i">name</label>` element, already parsed: its text and its index. */
  datatype Label = Label(name: string, index: int)

  const Position: string := "position"
  /** The coordinates enumerated by the loop, in order. */
  const Axes: seq<string> := ["x", "y", "z"]
  /** The keys the loop inserts, in order. */
  const AxisKeys: seq<string> := ["position_x", "position_y", "position_z"]

  /** The dict comprehension: labels in document order, a later label overwriting an
      earlier one with the same name. */
  function LabelIndex(labels: seq<Label>): (parsed: map<string, int>) {
    if labels == [] then map[]
    else LabelIndex(labels[..|labels| - 1])[labels[|labels| - 1].name := labels[|labels| - 1].index]
  }

  predicate HasLabel(labels: seq<Label>, name: string) {
    exists i :: 0 <= i < |labels| && labels[i].name == name
  }

  /** What the position rewrite promises of the map `m` it makes from the parsed map `parsed`. */
  ghost predicate Expanded(parsed: map<string, int>, m: map<string, int>) {
    && Position in parsed
    && m.Keys == (parsed.Keys - {Position}) + {AxisKeys[0], AxisKeys[1], AxisKeys[2]}
    && (forall i :: 0 <= i < 3 ==> m[AxisKeys[i]] == parsed[Position] + i)
    && (forall k :: k in parsed && k != Position && k !in AxisKeys ==> m[k] == parsed[k])
  }

  predicate Injective(m: map<string, int>) {
    forall a, b :: a in m && b in m && a != b ==> m[a] != m[b]
  }

  // ---------------------------------------------------------------- the operation

  /** The dict comprehension, label by label. */
  method ParseLabels(labels: seq<Label>) returns (parsed: map<string, int>)
    ensures parsed == LabelIndex(labels)
  {
    parsed := map[];
    for i := 0 to |labels|
      invariant parsed == LabelIndex(labels[..i])
    {
      assert labels[..i + 1][..i] == labels[..i];
      parsed := parsed[labels[i].name := labels[i].index];
    }
    assert labels[..|labels|] == labels;
  }

  /** The loop over the axes: `position_x`, `position_y` and `position_z` are set to the
      position row and the two rows after it. */
  method SplitPosition(rest: map<string, int>, position: int) returns (m: map<string, int>)
    ensures m.Keys == rest.Keys + {AxisKeys[0], AxisKeys[1], AxisKeys[2]}
    ensures forall i :: 0 <= i < 3 ==> m[AxisKeys[i]] == position + i
    ensures forall k :: k in rest && k !in AxisKeys ==> m[k] == rest[k]
  {
    m := rest;
    for i := 0 to |Axes|
      invariant m.Keys == rest.Keys + set j | 0 <= j < i :: AxisKeys[j]
      invariant forall j :: 0 <= j < i ==> m[AxisKeys[j]] == position + j
      invariant forall k :: k in rest && k !in AxisKeys[..i] ==> m[k] == rest[k]
    {
      var key := "position_" + Axes[i];
      assert key == AxisKeys[i];
      m := m[key := position + i];
    }
    assert (set j | 0 <= j < 3 :: AxisKeys[j]) == {AxisKeys[0], AxisKeys[1], AxisKeys[2]};
    assert AxisKeys[..3] == AxisKeys;
  }

  /** `get_variables_idx`, from the parsed labels on. Fails with `KeyError('position')`
      when no label is named `position`. */
  method VariablesIdx(labels: seq<Label>) returns (r: Result<map<string, int>>)
    ensures r.Err? <==> !HasLabel(labels, Position)
    ensures r.Err? ==> r.error == KeyError(Position)
    ensures r.Ok? ==> Position !in r.value && Expanded(LabelIndex(labels), r.value)
  {
    var parsed := ParseLabels(labels);
    LabelIndexKeys(labels, Position);
    if Position !in parsed {
      return Err(KeyError(Position));
    }
    // variables_idx.pop("position")
    var position := parsed[Position];
    var variables := SplitPosition(parsed - {Position}, position);
    r := Ok(variables);
  }

  // ---------------------------------------------------------------- lemmas

  /** A name is a key of the parsed map exactly when some label carries it. */
  lemma {:induction false} LabelIndexKeys(labels: seq<Label>, name: string)
    ensures name in LabelIndex(labels) <==> HasLabel(labels, name)
  {
    if labels != [] {
      var init := labels[..|labels| - 1];
      LabelIndexKeys(init, name);
      if HasLabel(init, name) {
        var i :| 0 <= i < |init| && init[i].name == name;
        assert labels[i].name == name;
      }
      if HasLabel(labels, name) && labels[|labels| - 1].name != name {
        var i :| 0 <= i < |labels| && labels[i].name == name;
        assert init[i].name == name;
      }
    }
  }

  /** A duplicated name resolves to its last label's index. */
  lemma {:induction false} LabelIndexLastWins(labels: seq<Label>, i: nat)
    requires i < |labels|
    requires forall j :: i < j < |labels| ==> labels[j].name != labels[i].name
    ensures labels[i].name in LabelIndex(labels) && LabelIndex(labels)[labels[i].name] == labels[i].index
  {
    if i < |labels| - 1 {
      LabelIndexLastWins(labels[..|labels| - 1], i);
    }
  }

  /** The rewrite is determined: two maps that both satisfy it are equal. */
  lemma ExpandedIsUnique(parsed: map<string, int>, m1: map<string, int>, m2: map<string, int>)
    requires Expanded(parsed, m1) && Expanded(parsed, m2)
    ensures m1 == m2
  {
    forall k | k in m1 ensures m1[k] == m2[k] {
      if k in AxisKeys {
        var i :| 0 <= i < 3 && AxisKeys[i] == k;
      }
    }
  }

  /** Column indices stay distinct when the parsed indices are distinct and the two rows
      after `position` belong to no other label (in PhysiCell's layout `position` spans
      three rows, so the next label starts three further on). */
  lemma ExpandedInjective(parsed: map<string, int>, m: map<string, int>)
    requires Expanded(parsed, m) && Injective(parsed)
    requires forall k :: k in parsed && k != Position && k !in AxisKeys ==>
               parsed[k] != parsed[Position] + 1 && parsed[k] != parsed[Position] + 2
    ensures Injective(m)
  {
    var p := parsed[Position];
    forall a, b | a in m && b in m && a != b ensures m[a] != m[b] {
      if a in AxisKeys && b in AxisKeys {
        var i :| 0 <= i < 3 && AxisKeys[i] == a;
        var j :| 0 <= j < 3 && AxisKeys[j] == b;
      } else if a in AxisKeys {
        var i :| 0 <= i < 3 && AxisKeys[i] == a;
        assert m[b] == parsed[b] && b != Position;
      } else if b in AxisKeys {
        var j :| 0 <= j < 3 && AxisKeys[j] == b;
        assert m[a] == parsed[a] && a != Position;
      }
    }
  }
}

/** Decoding an item's field values into `current_values`
    (scripts/project_gardener.py:235-243). */
module FieldValues {
  import opened Base

  /** A key of a JSON object: missing, present as null, or a string. */
  datatype Slot = Absent | Null | Str(s: string)

  /** One node of an item's `fieldValues`. A null node, or a value of a kind no
      fragment selects (it arrives as an empty object), is falsy: EmptyNode. */
  datatype ValueNode =
    | EmptyNode
    | ValueNode(field: Option<string>, name: Slot, text: Slot, date: Slot)

  /** `current_values`: field name (None when the node's field has no name)
      to value (None when the node's value is null or has no known key). */
  type Values = map<Option<string>, Option<string>>

  function SlotValue(s: Slot): Option<string>
  {
    if s.Str? then Some(s.s) else None
  }

  /** The value a node contributes: `name`, else `text`, else `date`, else None. */
  function NodeValue(n: ValueNode): Option<string>
  {
    if n.EmptyNode? then None
    else if n.name != Absent then SlotValue(n.name)
    else if n.text != Absent then SlotValue(n.text)
    else if n.date != Absent then SlotValue(n.date)
    else None
  }

  /** The dict after visiting the nodes in order. */
  function Decoded(nodes: seq<ValueNode>): Values
  {
    if nodes == [] then map[]
    else
      var prev := Decoded(nodes[..|nodes| - 1]);
      var n := nodes[|nodes| - 1];
      if n.EmptyNode? then prev else prev[n.field := NodeValue(n)]
  }

  /** Node `i` assigns key `k`. */
  predicate Assigns(nodes: seq<ValueNode>, i: int, k: Option<string>)
  {
    0 <= i < |nodes| && nodes[i].ValueNode? && nodes[i].field == k
  }

  /** `current_values.get(name)`. */
  function Lookup(cv: Values, name: string): Option<string>
  {
    if Some(name) in cv then cv[Some(name)] else None
  }

  method DecodeFieldValues(nodes: seq<ValueNode>) returns (cv: Values)
    ensures cv == Decoded(nodes)
  {
    cv := map[];
    var i := 0;
    while i < |nodes|
      invariant 0 <= i <= |nodes|
      invariant cv == Decoded(nodes[..i])
    {
      var fv := nodes[i];
      assert nodes[..i + 1][..i] == nodes[..i];
      i := i + 1;
      if fv.EmptyNode? {
        continue;
      }
      var val: Option<string>;
      if fv.name != Absent {
        val := SlotValue(fv.name);
      } else if fv.text != Absent {
        val := SlotValue(fv.text);
      } else if fv.date != Absent {
        val := SlotValue(fv.date);
      } else {
        val := None;
      }
      cv := cv[fv.field := val];
    }
    assert nodes[..i] == nodes;
  }

  /** A key is present exactly when some non-empty node names that field. */
  lemma {:induction false} DecodedKeys(nodes: seq<ValueNode>, k: Option<string>)
    ensures k in Decoded(nodes) <==> exists i :: Assigns(nodes, i, k)
  {
    if nodes != [] {
      var init := nodes[..|nodes| - 1];
      DecodedKeys(init, k);
      forall i | 0 <= i < |init| ensures Assigns(init, i, k) <==> Assigns(nodes, i, k) {
      }
      if Assigns(nodes, |nodes| - 1, k) {
        assert k in Decoded(nodes);
      } else if exists i :: Assigns(nodes, i, k) {
        var i :| Assigns(nodes, i, k);
        assert Assigns(init, i, k);
      }
    }
  }

  /** The value of a key is the one from the LAST node that assigns it:
      a later value for the same field overwrites an earlier one. */
  lemma {:induction false} DecodedLastWins(nodes: seq<ValueNode>, k: Option<string>, i: int)
    requires Assigns(nodes, i, k)
    requires forall j :: i < j < |nodes| ==> !Assigns(nodes, j, k)
    ensures k in Decoded(nodes) && Decoded(nodes)[k] == NodeValue(nodes[i])
  {
    var last := |nodes| - 1;
    if i < last {
      var init := nodes[..last];
      assert Assigns(init, i, k);
      forall j | i < j < |init| ensures !Assigns(init, j, k) {
        assert !Assigns(nodes, j, k);
      }
      DecodedLastWins(init, k, i);
      assert !Assigns(nodes, last, k);
    }
  }
}

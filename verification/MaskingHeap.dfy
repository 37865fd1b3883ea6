/**
 The masking engine on mutable objects: rules write through the parent object they
 walked to, so the document changes in place.
 */
module MaskingHeap {
  import opened Wrappers
  import opened JsonPath
  import opened Masking

  /** A field of an object: a plain value, or a further object that can be written to. */
  datatype Value = Plain(json: Json) | Object(node: Node)

  /** One decoded JSON object.  The objects of a document form a tree: no two fields share one. */
  class Node {
    var fields: map<string, Value>
    ghost var repr: set<Node>

    ghost predicate Valid()
      reads this, repr
      decreases repr
    {
      && this in repr
      && (forall k :: k in fields && fields[k].Plain? ==> !fields[k].json.Obj?)
      && (forall k :: k in fields && fields[k].Object? ==>
            var child := fields[k].node;
            child in repr && child.repr <= repr && this !in child.repr && child.Valid())
      && (forall k, l :: k in fields && l in fields && k != l && fields[k].Object? && fields[l].Object? ==>
            fields[k].node.repr !! fields[l].node.repr)
    }

    /** The document below this object, as a value. */
    function ToJson(): (j: Json)
      requires Valid()
      reads this, repr
      ensures j.Obj? && j.fields.Keys == fields.Keys
      decreases repr
    {
      Obj(map k | k in fields :: FieldToJson(k))
    }

    function FieldToJson(k: string): Json
      requires Valid() && k in fields
      reads this, repr
      decreases repr, 0
    {
      match fields[k]
      case Plain(json) => json
      case Object(node) => node.ToJson()
    }

    constructor ()
      ensures Valid() && fields == map[] && repr == {this}
    {
      fields, repr := map[], {this};
    }
  }

  /** The object reached by following the keys through objects. */
  ghost function Walk(n: Node, keys: seq<string>): (target: Option<Node>)
    requires n.Valid()
    reads n, n.repr
    ensures target.Some? ==> target.value in n.repr && target.value.Valid() && target.value.repr <= n.repr
    decreases |keys|
  {
    if keys == [] then Some(n)
    else if keys[0] in n.fields && n.fields[keys[0]].Object? then Walk(n.fields[keys[0]].node, keys[1..])
    else None
  }

  method GetNestedField(data: Node, parts: Path) returns (parent: Option<Node>, key: string)
    requires data.Valid()
    ensures parent == Walk(data, parts[..|parts| - 1]) && key == parts[|parts| - 1]
  {
    var current := data;
    ghost var keys := parts[..|parts| - 1];
    for i := 0 to |parts| - 1
      invariant current.Valid()
      invariant Walk(data, keys) == Walk(current, keys[i..])
    {
      assert keys[i..][0] == parts[i] && keys[i..][1..] == keys[i + 1..];
      if parts[i] !in current.fields || !current.fields[parts[i]].Object? {
        return None, parts[|parts| - 1];
      }
      current := current.fields[parts[i]].node;
    }
    return Some(current), parts[|parts| - 1];
  }

  /** Where the walk fails, or the last object lacks the key, the functional update does nothing. */
  lemma {:induction false} MissedWalk(n: Node, path: Path, f: Json -> Json)
    requires n.Valid()
    requires var target := Walk(n, path[..|path| - 1]); target.None? || path[|path| - 1] !in target.value.fields
    ensures UpdateAt(n.ToJson(), path, f) == n.ToJson()
    decreases |path|
  {
    if |path| == 1 {
    } else {
      var keys := path[..|path| - 1];
      assert keys[1..] == path[1..][..|path| - 2];
      if path[0] in n.fields {
        assert n.ToJson().fields[path[0]] == n.FieldToJson(path[0]);
        if n.fields[path[0]].Object? {
          MissedWalk(n.fields[path[0]].node, path[1..], f);
          assert n.ToJson().fields[path[0] := n.FieldToJson(path[0])] == n.ToJson().fields;
        }
      }
    }
  }

  twostate predicate Untouched(n: Node)
    reads n, n.repr
  {
    n.repr == old(n.repr) && forall m :: m in old(n.repr) ==> unchanged(m)
  }

  twostate lemma UntouchedKeepsJson(n: Node)
    requires old(n.Valid()) && Untouched(n)
    ensures n.Valid() && n.ToJson() == old(n.ToJson())
  {
  }

  /** An object stays valid when one field changes and nothing moves below the others. */
  twostate lemma OneFieldKeepsValid(n: Node, new key: string)
    requires old(n.Valid()) && n.repr == old(n.repr)
    requires key in old(n.fields) && n.fields.Keys == old(n.fields).Keys
    requires forall k :: k in n.fields && k != key ==> n.fields[k] == old(n.fields)[k]
    requires forall k :: k in n.fields && k != key && n.fields[k].Object? ==> Untouched(n.fields[k].node)
    requires n.fields[key].Plain? ==> !n.fields[key].json.Obj?
    requires n.fields[key].Object? ==> n.fields[key] == old(n.fields)[key] && n.fields[key].node.Valid()
    requires n.fields[key].Object? ==> n.fields[key].node.repr == old(n.fields[key].node.repr)
    ensures n.Valid()
  {
    forall k | k in n.fields && k != key && n.fields[k].Object?
      ensures n.fields[k].node.Valid()
    {
      UntouchedKeepsJson(n.fields[k].node);
    }
  }

  twostate lemma OneFieldUpdatesJson(n: Node, new key: string)
    requires old(n.Valid()) && n.Valid()
    requires key in old(n.fields) && n.fields.Keys == old(n.fields).Keys
    requires forall k :: k in n.fields && k != key ==> n.fields[k] == old(n.fields)[k]
    requires forall k :: k in n.fields && k != key && n.fields[k].Object? ==> Untouched(n.fields[k].node)
    ensures n.ToJson() == Obj(old(n.ToJson()).fields[key := n.FieldToJson(key)])
  {
    forall k | k in n.fields && k != key
      ensures n.FieldToJson(k) == old(n.FieldToJson(k))
    {
      if n.fields[k].Object? {
        UntouchedKeepsJson(n.fields[k].node);
      }
    }
    assert n.ToJson().fields == old(n.ToJson()).fields[key := n.FieldToJson(key)];
  }

  /** One write at the end of a walk is one functional update of the whole document. */
  twostate lemma {:induction false} WriteUpdates(n: Node, new path: Path, new target: Node, new v: Json,
                                                 new f: Json -> Json)
    requires old(n.Valid()) && old(Walk(n, path[..|path| - 1])) == Some(target)
    requires path[|path| - 1] in old(target.fields)
    requires target.fields == old(target.fields)[path[|path| - 1] := Plain(v)] && target.repr == old(target.repr)
    requires !v.Obj? && v == f(old(target.FieldToJson(path[|path| - 1])))
    requires forall m :: m in old(n.repr) && m != target ==> unchanged(m)
    ensures n.Valid() && n.repr == old(n.repr)
    ensures n.ToJson() == UpdateAt(old(n.ToJson()), path, f)
    decreases |path|
  {
    if |path| == 1 {
    } else {
      assert path[..|path| - 1][1..] == path[1..][..|path| - 2];
      WriteUpdates(old(n.fields)[path[0]].node, path[1..], target, v, f);
    }
    OneFieldKeepsValid(n, path[0]);
    OneFieldUpdatesJson(n, path[0]);
    assert old(n.ToJson()).fields[path[0]] == old(n.FieldToJson(path[0]));
  }

  /** The switch of applyMask: what to write for the value, or None for an unknown kind. */
  method NewValue(lib: Library, kind: string, val: Json) returns (out: Option<Json>)
    ensures match out
            case Some(v) => v == Replacer(lib, kind)(val) && !v.Obj?
            case None => Replacer(lib, kind)(val) == val
  {
    var strVal := lib.format(val);
    match kind {
      case "mask" => out := Some(Str(MaskPartial(strVal)));
      case "hide" => out := Some(Str("****"));
      case "hash" => out := Some(Str(lib.hash(strVal)));
      case _ => out := None;
    }
  }

  /** Rewriting a value to itself changes nothing. */
  lemma {:induction false} IdleUpdate(n: Node, path: Path, target: Node, f: Json -> Json)
    requires n.Valid() && Walk(n, path[..|path| - 1]) == Some(target) && path[|path| - 1] in target.fields
    requires f(target.FieldToJson(path[|path| - 1])) == target.FieldToJson(path[|path| - 1])
    ensures UpdateAt(n.ToJson(), path, f) == n.ToJson()
    decreases |path|
  {
    if |path| == 1 {
    } else {
      assert path[..|path| - 1][1..] == path[1..][..|path| - 2];
      IdleUpdate(n.fields[path[0]].node, path[1..], target, f);
    }
    assert n.ToJson().fields[path[0]] == n.FieldToJson(path[0]);
    assert n.ToJson().fields[path[0] := n.FieldToJson(path[0])] == n.ToJson().fields;
  }

  /** The write parent[key] = v, where the walk along the path ended in the parent. */
  method WriteAt(data: Node, ghost path: Path, target: Node, key: string, v: Json, ghost f: Json -> Json)
    requires data.Valid() && Walk(data, path[..|path| - 1]) == Some(target)
    requires key == path[|path| - 1] && key in target.fields
    requires !v.Obj? && v == f(target.FieldToJson(key))
    modifies target
    ensures data.Valid() && data.repr == old(data.repr)
    ensures data.ToJson() == UpdateAt(old(data.ToJson()), path, f)
  {
    target.fields := target.fields[key := Plain(v)];
    WriteUpdates(data, path, target, v, f);
  }

  method ApplyMask(lib: Library, data: Node, field: MaskingField)
    requires data.Valid()
    modifies data.repr
    ensures data.Valid() && data.repr == old(data.repr)
    ensures data.ToJson() == ApplyField(lib, old(data.ToJson()), field)
  {
    ApplyPath(lib, data, Split(field.path), field.kind);
  }

  method ApplyPath(lib: Library, data: Node, path: Path, kind: string)
    requires data.Valid()
    modifies data.repr
    ensures data.Valid() && data.repr == old(data.repr)
    ensures data.ToJson() == UpdateAt(old(data.ToJson()), path, Replacer(lib, kind))
  {
    var parent, key := GetNestedField(data, path);
    if parent.None? || key !in parent.value.fields {
      MissedWalk(data, path, Replacer(lib, kind));
    } else {
      ReplaceAt(lib, data, path, parent.value, key, kind);
    }
  }

  method ReplaceAt(lib: Library, data: Node, ghost path: Path, target: Node, key: string, kind: string)
    requires data.Valid() && Walk(data, path[..|path| - 1]) == Some(target)
    requires key == path[|path| - 1] && key in target.fields
    modifies target
    ensures data.Valid() && data.repr == old(data.repr)
    ensures data.ToJson() == UpdateAt(old(data.ToJson()), path, Replacer(lib, kind))
  {
    ghost var f := Replacer(lib, kind);
    var out := NewValue(lib, kind, target.FieldToJson(key));
    if out.Some? {
      WriteAt(data, path, target, key, out.value, f);
    } else {
      IdleUpdate(data, path, target, f);
    }
  }

  // ---------------------------------------------------------------- whole messages

  /** Hangs a freshly decoded object, or a plain value, under a new key. */
  method AddField(n: Node, key: string, value: Value)
    requires n.Valid() && key !in n.fields
    requires value.Plain? ==> !value.json.Obj?
    requires value.Object? ==> value.node.Valid() && value.node.repr !! n.repr
    modifies n
    ensures n.Valid() && n.repr == old(n.repr) + if value.Object? then value.node.repr else {}
    ensures n.fields == old(n.fields)[key := value]
    ensures forall k :: k in old(n.fields) ==> n.FieldToJson(k) == old(n.FieldToJson(k))
    ensures n.FieldToJson(key) == match value case Plain(json) => json case Object(c) => old(c.ToJson())
  {
    n.fields := n.fields[key := value];
    if value.Object? {
      n.repr := n.repr + value.node.repr;
    }
    forall k | k in old(n.fields) && n.fields[k].Object? ensures n.fields[k].node.Valid() {
      assert old(n.fields[k].node.Valid());
    }
  }

  /** The object holds exactly the given keys, with the document's values. */
  ghost predicate Holds(n: Node, doc: Json, keys: set<string>)
    requires n.Valid() && doc.Obj? && keys <= doc.fields.Keys
    reads n, n.repr
  {
    n.fields.Keys == keys && forall k :: k in keys ==> n.FieldToJson(k) == doc.fields[k]
  }

  /** json.Unmarshal into maps: a fresh tree of objects. */
  method Decode(doc: Json) returns (n: Node)
    requires doc.Obj?
    ensures n.Valid() && fresh(n.repr)
    ensures n.ToJson() == doc
    decreases doc, 2
  {
    n := new Node();
    DecodeFields(n, doc, doc.fields.Keys, {});
    HoldsAll(n, doc);
  }

  method DecodeFields(n: Node, doc: Json, todo: set<string>, ghost done: set<string>)
    requires doc.Obj? && done !! todo && done + todo == doc.fields.Keys
    requires n.Valid() && Holds(n, doc, done)
    modifies n
    ensures n.Valid() && fresh(n.repr - old(n.repr))
    ensures Holds(n, doc, doc.fields.Keys)
    decreases doc, 1, todo
  {
    if todo != {} {
      var k :| k in todo;
      DecodeField(n, doc, k, done);
      DecodeFields(n, doc, todo - {k}, done + {k});
    } else {
      assert done == doc.fields.Keys;
    }
  }

  lemma HoldsAll(n: Node, doc: Json)
    requires n.Valid() && doc.Obj? && Holds(n, doc, doc.fields.Keys)
    ensures n.ToJson() == doc
  {
    assert n.ToJson().fields == doc.fields;
  }

  method DecodeField(n: Node, doc: Json, k: string, ghost keys: set<string>)
    requires doc.Obj? && keys <= doc.fields.Keys && k in doc.fields && k !in keys
    requires n.Valid() && Holds(n, doc, keys)
    modifies n
    ensures n.Valid() && fresh(n.repr - old(n.repr))
    ensures Holds(n, doc, keys + {k})
    decreases doc, 0
  {
    if doc.fields[k].Obj? {
      var child := Decode(doc.fields[k]);
      AddField(n, k, Object(child));
    } else {
      AddField(n, k, Plain(doc.fields[k]));
    }
  }

  lemma {:induction false} NullStaysNull(lib: Library, fields: seq<MaskingField>)
    ensures ApplyAll(lib, Null, fields) == Null
  {
    if fields == [] {
    } else {
      NullStaysNull(lib, fields[..|fields| - 1]);
    }
  }

  /** Applies every field of every rule, in order, to the document in place. */
  method ApplyRules(lib: Library, data: Node, rules: seq<MaskingRule>)
    requires data.Valid()
    modifies data.repr
    ensures data.Valid() && data.repr == old(data.repr)
    ensures data.ToJson() == ApplyAll(lib, old(data.ToJson()), FieldsOf(rules))
  {
    ghost var doc := data.ToJson();
    for i := 0 to |rules|
      invariant data.Valid() && data.repr == old(data.repr)
      invariant data.ToJson() == ApplyAll(lib, doc, FieldsOf(rules[..i]))
    {
      var fields := rules[i].fields;
      assert rules[..i + 1][..i] == rules[..i];
      ApplyFields(lib, data, fields);
      ApplyAllAppend(lib, doc, FieldsOf(rules[..i]), fields);
    }
    assert rules[..|rules|] == rules;
  }

  method ApplyFields(lib: Library, data: Node, fields: seq<MaskingField>)
    requires data.Valid()
    modifies data.repr
    ensures data.Valid() && data.repr == old(data.repr)
    ensures data.ToJson() == ApplyAll(lib, old(data.ToJson()), fields)
  {
    ghost var doc := data.ToJson();
    for j := 0 to |fields|
      invariant data.Valid() && data.repr == old(data.repr)
      invariant data.ToJson() == ApplyAll(lib, doc, fields[..j])
    {
      ApplyMask(lib, data, fields[j]);
      assert fields[..j + 1][..j] == fields[..j];
    }
    assert fields[..|fields|] == fields;
  }

  method SelectRules(lib: Library, rules: seq<MaskingRule>, topic: string) returns (matching: seq<MaskingRule>)
    ensures matching == MatchingRules(lib, rules, topic)
  {
    matching := [];
    for i := 0 to |rules|
      invariant matching == MatchingRules(lib, rules[..i], topic)
    {
      assert rules[..i + 1][..i] == rules[..i];
      if MatchTopic(lib, rules[i].topicPattern, topic) {
        matching := matching + [rules[i]];
      }
    }
    assert rules[..|rules|] == rules;
  }

  method MaskMessage(lib: Library, rules: seq<MaskingRule>, topic: string, value: string) returns (out: string)
    ensures out == Masked(lib, rules, topic, value)
  {
    var matching := SelectRules(lib, rules, topic);
    if |matching| == 0 {
      return value;
    }
    var parsed := lib.parse(value);
    var masked: Json;
    match parsed {
      case Malformed =>
        return value;
      case NullDocument =>
        NullStaysNull(lib, FieldsOf(matching));
        masked := Null;
      case Document(fields) =>
        var data := Decode(Obj(fields));
        ApplyRules(lib, data, matching);
        masked := data.ToJson();
    }
    var result := lib.marshal(masked);
    if result.None? {
      return value;
    }
    return result.value;
  }
}

/**
 JSON documents as values, with functional update along a dot-separated path.  This is
 the specification of the masking engine's writes through aliased maps.
 */
module JsonPath {
  import opened Wrappers

  datatype Json =
    | Null
    | Bool(b: bool)
    | Number(bits: int)
    | Str(s: string)
    | Arr(elems: seq<Json>)
    | Obj(fields: map<string, Json>)

  type Path = p: seq<string> | p != [] witness [""]

  function Lookup(doc: Json, path: seq<string>): Option<Json> {
    if path == [] then Some(doc)
    else if doc.Obj? && path[0] in doc.fields then Lookup(doc.fields[path[0]], path[1..])
    else None
  }

  /** Rewrites the value at the path; a document without that path stays as it is. */
  function UpdateAt(doc: Json, path: Path, f: Json -> Json): Json
    decreases |path|
  {
    if !doc.Obj? || path[0] !in doc.fields then doc
    else
      var child := doc.fields[path[0]];
      Obj(doc.fields[path[0] := if |path| == 1 then f(child) else UpdateAt(child, path[1..], f)])
  }

  predicate Related(p: seq<string>, q: seq<string>) {
    p <= q || q <= p
  }

  predicate ProperAncestor(p: seq<string>, q: seq<string>) {
    p < q
  }

  lemma PrefixStep(p: seq<string>, q: seq<string>)
    requires p != [] && q != [] && p[0] == q[0]
    ensures p[1..] <= q[1..] <==> p <= q
    ensures p[1..] < q[1..] <==> p < q
    ensures p[1..] == q[1..] <==> p == q
  {
    assert p == [p[0]] + p[1..] && q == [q[0]] + q[1..];
  }

  // ---------------------------------------------------------------- what an update reaches

  lemma {:induction false} UpdateHits(doc: Json, path: Path, f: Json -> Json)
    ensures Lookup(UpdateAt(doc, path, f), path) ==
            match Lookup(doc, path) case None => None case Some(v) => Some(f(v))
    decreases |path|
  {
    if !doc.Obj? || path[0] !in doc.fields || |path| == 1 {
    } else {
      UpdateHits(doc.fields[path[0]], path[1..], f);
    }
  }

  lemma {:induction false} UpdateMisses(doc: Json, path: Path, f: Json -> Json, other: seq<string>)
    requires !Related(path, other)
    ensures Lookup(UpdateAt(doc, path, f), other) == Lookup(doc, other)
    decreases |path|
  {
    if !doc.Obj? || path[0] !in doc.fields || other[0] != path[0] {
    } else {
      PrefixStep(path, other);
      PrefixStep(other, path);
      if |path| > 1 {
        UpdateMisses(doc.fields[path[0]], path[1..], f, other[1..]);
      }
    }
  }

  /** The function makes no objects: it turns a value into a non-object or leaves it alone. */
  ghost predicate MakesNoObject(f: Json -> Json) {
    forall v :: f(v) == v || !f(v).Obj?
  }

  /** Every object in the second document was an object with the same keys in the first. */
  ghost predicate KeepsKeys(before: Json, after: Json) {
    forall path ::
      Lookup(after, path).Some? ==>
      && Lookup(before, path).Some?
      && (Lookup(after, path).value.Obj? ==>
            Lookup(before, path).value.Obj? &&
            Lookup(before, path).value.fields.Keys == Lookup(after, path).value.fields.Keys)
  }

  lemma {:induction false} UpdateKeepsKeysAt(doc: Json, path: Path, f: Json -> Json, at: seq<string>)
    requires MakesNoObject(f)
    requires Lookup(UpdateAt(doc, path, f), at).Some?
    ensures var after := Lookup(UpdateAt(doc, path, f), at).value;
            && Lookup(doc, at).Some?
            && (after.Obj? ==> Lookup(doc, at).value.Obj? && Lookup(doc, at).value.fields.Keys == after.fields.Keys)
    decreases |path|
  {
    if !doc.Obj? || path[0] !in doc.fields || at == [] || at[0] != path[0] {
    } else if |path| == 1 {
      assert f(doc.fields[path[0]]) == doc.fields[path[0]] || !f(doc.fields[path[0]]).Obj?;
    } else {
      UpdateKeepsKeysAt(doc.fields[path[0]], path[1..], f, at[1..]);
    }
  }

  // ---------------------------------------------------------------- documents that differ in one place

  /** Both documents have the path, and everything off it is equal. */
  predicate DifferOnlyAt(a: Json, b: Json, path: seq<string>) {
    path == [] ||
    (&& a.Obj? && b.Obj?
     && a.fields.Keys == b.fields.Keys && path[0] in a.fields
     && (forall k :: k in a.fields && k != path[0] ==> a.fields[k] == b.fields[k])
     && DifferOnlyAt(a.fields[path[0]], b.fields[path[0]], path[1..]))
  }

  /** Updating at any path but a proper ancestor keeps two documents equal off the path. */
  lemma {:induction false} UpdateKeepsDifference(a: Json, b: Json, path: Path, at: Path, f: Json -> Json)
    requires DifferOnlyAt(a, b, path) && !ProperAncestor(at, path)
    ensures DifferOnlyAt(UpdateAt(a, at, f), UpdateAt(b, at, f), path)
    decreases |path|
  {
    if at[0] != path[0] {
    } else {
      PrefixStep(at, path);
      if |path| > 1 {
        assert !(at[1..] < path[1..]);
        UpdateKeepsDifference(a.fields[path[0]], b.fields[path[0]], path[1..], at[1..], f);
      }
    }
  }

  /** Overwriting the differing value with a constant makes the documents equal. */
  lemma {:induction false} ConstantErasesDifference(a: Json, b: Json, path: Path, f: Json -> Json)
    requires DifferOnlyAt(a, b, path)
    requires forall v, w :: f(v) == f(w)
    ensures UpdateAt(a, path, f) == UpdateAt(b, path, f)
    decreases |path|
  {
    var u, v := UpdateAt(a, path, f), UpdateAt(b, path, f);
    if |path| == 1 {
    } else {
      ConstantErasesDifference(a.fields[path[0]], b.fields[path[0]], path[1..], f);
    }
    assert u.fields == v.fields;
  }
}

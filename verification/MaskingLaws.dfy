/**
 What the masking engine writes for each field type, and how much of the original can be told from it,
 for documents and for whole messages (internal/masking/engine.go).
 */
module MaskingLaws {
  import opened Wrappers
  import opened JsonPath
  import opened Masking

  // ---------------------------------------------------------------- paths and rules

  lemma {:induction false} SplitPlain(s: string)
    requires '.' !in s
    ensures Split(s) == [s]
  {
    if s == [] {
    } else {
      SplitPlain(s[1..]);
      assert [s[0]] + s[1..] == s;
    }
  }

  /** What stands before the first dot is the first key. */
  lemma {:induction false} SplitAtDot(first: string, rest: string)
    requires '.' !in first
    ensures Split(first + "." + rest) == [first] + Split(rest)
  {
    var s := first + "." + rest;
    if first == [] {
      assert s[0] == '.' && s[1..] == rest;
    } else {
      SplitAtDot(first[1..], rest);
      assert s[0] == first[0] && s[1..] == first[1..] + "." + rest;
      assert [first[0]] + first[1..] == first;
    }
  }

  lemma {:induction false} MatchingRulesMeaning(lib: Library, rules: seq<MaskingRule>, topic: string)
    ensures forall r :: r in MatchingRules(lib, rules, topic) <==>
                        r in rules && lib.glob(r.topicPattern, topic) == Some(true)
  {
    if rules == [] {
    } else {
      var n := |rules| - 1;
      MatchingRulesMeaning(lib, rules[..n], topic);
      assert rules == rules[..n] + [rules[n]];
    }
  }

  /** Rules apply in their order and the fields of a rule in theirs: one more rule at the end adds its fields at the
      end, if its pattern matches. */
  lemma LaterRulesComeLater(lib: Library, rules: seq<MaskingRule>, r: MaskingRule, topic: string)
    ensures FieldsOf(MatchingRules(lib, rules + [r], topic)) ==
            FieldsOf(MatchingRules(lib, rules, topic)) +
            if lib.glob(r.topicPattern, topic) == Some(true) then r.fields else []
  {
    var before := MatchingRules(lib, rules, topic);
    assert (rules + [r])[..|rules|] == rules;
    assert (before + [r])[..|before|] == before && before + [] == before;
  }

  // ---------------------------------------------------------------- what is written

  /** The value at a field's path afterwards, for each type of the field. */
  lemma FieldWrites(lib: Library, doc: Json, field: MaskingField, v: Json)
    requires Lookup(doc, Split(field.path)) == Some(v)
    ensures Lookup(ApplyField(lib, doc, field), Split(field.path)) ==
            Some(if field.kind == "hide" then Str("****")
                 else if field.kind == "hash" then Str(lib.hash(lib.format(v)))
                 else if field.kind == "mask" then Str(MaskPartial(lib.format(v)))
                 else v)
  {
    UpdateHits(doc, Split(field.path), Replacer(lib, field.kind));
  }

  /** The mask of a value without "@": its first and its last byte around three stars, or the stars alone. */
  lemma PlainMask(value: string)
    requires '@' !in value
    ensures MaskPartial(value) ==
            if |value| > 2 then FromByte(value[0]) + "***" + FromByte(value[|value| - 1]) else "***"
  {
  }

  /** A byte shows as itself if it is ASCII, else as the two-byte UTF-8 encoding of that code point. */
  lemma FromByteIsUtf8(c: char)
    requires c as int < 256
    ensures c as int < 0x80 ==> FromByte(c) == [c]
    ensures c as int >= 0x80 ==>
              && |FromByte(c)| == 2 && 0xC2 <= FromByte(c)[0] as int <= 0xC3 && 0x80 <= FromByte(c)[1] as int < 0xC0
              && (FromByte(c)[0] as int - 0xC0) * 64 + (FromByte(c)[1] as int - 0x80) == c as int
  {
  }

  // ---------------------------------------------------------------- how much a document lets through

  /** Two documents that are equal off a path are equal after an update there exactly if the new values are. */
  lemma {:induction false} UpdatesAgreeIff(a: Json, b: Json, path: Path, f: Json -> Json)
    requires DifferOnlyAt(a, b, path)
    ensures Lookup(a, path).Some? && Lookup(b, path).Some?
    ensures UpdateAt(a, path, f) == UpdateAt(b, path, f) <==> f(Lookup(a, path).value) == f(Lookup(b, path).value)
    decreases |path|
  {
    var u, v := UpdateAt(a, path, f), UpdateAt(b, path, f);
    if |path| == 1 {
      assert DifferOnlyAt(a.fields[path[0]], b.fields[path[0]], []);
    } else {
      UpdatesAgreeIff(a.fields[path[0]], b.fields[path[0]], path[1..], f);
    }
    assert u.fields[path[0]] == v.fields[path[0]] ==> u.fields == v.fields;
  }

  lemma OneMoreField(lib: Library, doc: Json, fields: seq<MaskingField>, at: nat)
    requires at < |fields|
    ensures ApplyAll(lib, doc, fields[..at + 1]) == ApplyField(lib, ApplyAll(lib, doc, fields[..at]), fields[at])
  {
    assert fields[..at + 1][..at] == fields[..at];
  }

  lemma AlikeFromThereOn(lib: Library, a: Json, b: Json, fields: seq<MaskingField>, k: nat)
    requires k <= |fields| && ApplyAll(lib, a, fields[..k]) == ApplyAll(lib, b, fields[..k])
    ensures ApplyAll(lib, a, fields) == ApplyAll(lib, b, fields)
  {
    assert fields == fields[..k] + fields[k..];
    ApplyAllAppend(lib, a, fields[..k], fields[k..]);
    ApplyAllAppend(lib, b, fields[..k], fields[k..]);
  }

  /** Fields unrelated to the path leave the documents equal off it and the two values there as they were. */
  lemma UnrelatedFieldsBefore(lib: Library, a: Json, b: Json, before: seq<MaskingField>, path: Path)
    requires DifferOnlyAt(a, b, path) && forall f :: f in before ==> !Related(Split(f.path), path)
    ensures DifferOnlyAt(ApplyAll(lib, a, before), ApplyAll(lib, b, before), path)
    ensures Lookup(ApplyAll(lib, a, before), path) == Lookup(a, path)
    ensures Lookup(ApplyAll(lib, b, before), path) == Lookup(b, path)
  {
    MaskingKeepsDifference(lib, a, b, before, path);
    UnrelatedSubtreeUnchanged(lib, a, before, path);
    UnrelatedSubtreeUnchanged(lib, b, before, path);
  }

  /** The first field that concerns the path decides: if what it writes is the same for both documents, the masked
      documents are the same, whatever comes later. */
  lemma FirstFieldDecides(lib: Library, a: Json, b: Json, fields: seq<MaskingField>, at: nat)
    requires at < |fields| && DifferOnlyAt(a, b, Split(fields[at].path))
    requires forall f :: f in fields[..at] ==> !Related(Split(f.path), Split(fields[at].path))
    ensures Lookup(a, Split(fields[at].path)).Some? && Lookup(b, Split(fields[at].path)).Some?
    ensures Replacement(lib, fields[at].kind, Lookup(a, Split(fields[at].path)).value) ==
            Replacement(lib, fields[at].kind, Lookup(b, Split(fields[at].path)).value) ==>
            ApplyAll(lib, a, fields) == ApplyAll(lib, b, fields)
  {
    var path, f := Split(fields[at].path), Replacer(lib, fields[at].kind);
    UpdatesAgreeIff(a, b, path, f);
    if f(Lookup(a, path).value) == f(Lookup(b, path).value) {
      UnrelatedFieldsBefore(lib, a, b, fields[..at], path);
      UpdatesAgreeIff(ApplyAll(lib, a, fields[..at]), ApplyAll(lib, b, fields[..at]), path, f);
      OneMoreField(lib, a, fields, at);
      OneMoreField(lib, b, fields, at);
      AlikeFromThereOn(lib, a, b, fields, at + 1);
    }
  }

  /** A masked value shows no more than its view: documents that differ only there, with the same view, are masked to
      the same document. */
  lemma MaskLetsViewThrough(lib: Library, a: Json, b: Json, fields: seq<MaskingField>, at: nat)
    requires at < |fields| && fields[at].kind == "mask" && DifferOnlyAt(a, b, Split(fields[at].path))
    requires forall f :: f in fields[..at] ==> !Related(Split(f.path), Split(fields[at].path))
    ensures Lookup(a, Split(fields[at].path)).Some? && Lookup(b, Split(fields[at].path)).Some?
    ensures var x := lib.format(Lookup(a, Split(fields[at].path)).value);
            var y := lib.format(Lookup(b, Split(fields[at].path)).value);
            Bytes(x) && Bytes(y) && ViewOf(x) == ViewOf(y) ==> ApplyAll(lib, a, fields) == ApplyAll(lib, b, fields)
  {
    FirstFieldDecides(lib, a, b, fields, at);
    var x := lib.format(Lookup(a, Split(fields[at].path)).value);
    var y := lib.format(Lookup(b, Split(fields[at].path)).value);
    if Bytes(x) && Bytes(y) {
      MaskShowsExactly(x, y);
    }
  }

  /** With no other field the converse holds too: a mask shows exactly the view. */
  lemma MaskLetsExactlyViewThrough(lib: Library, a: Json, b: Json, path: string)
    requires DifferOnlyAt(a, b, Split(path))
    ensures Lookup(a, Split(path)).Some? && Lookup(b, Split(path)).Some?
    ensures var x, y := lib.format(Lookup(a, Split(path)).value), lib.format(Lookup(b, Split(path)).value);
            Bytes(x) && Bytes(y) ==>
              (ApplyField(lib, a, MaskingField(path, "mask")) == ApplyField(lib, b, MaskingField(path, "mask")) <==>
               ViewOf(x) == ViewOf(y))
  {
    UpdatesAgreeIff(a, b, Split(path), Replacer(lib, "mask"));
    var x, y := lib.format(Lookup(a, Split(path)).value), lib.format(Lookup(b, Split(path)).value);
    if Bytes(x) && Bytes(y) {
      MaskShowsExactly(x, y);
    }
  }

  /** A hashed value shows no more than its hash. */
  lemma HashLetsHashThrough(lib: Library, a: Json, b: Json, fields: seq<MaskingField>, at: nat)
    requires at < |fields| && fields[at].kind == "hash" && DifferOnlyAt(a, b, Split(fields[at].path))
    requires forall f :: f in fields[..at] ==> !Related(Split(f.path), Split(fields[at].path))
    ensures Lookup(a, Split(fields[at].path)).Some? && Lookup(b, Split(fields[at].path)).Some?
    ensures lib.hash(lib.format(Lookup(a, Split(fields[at].path)).value)) ==
            lib.hash(lib.format(Lookup(b, Split(fields[at].path)).value)) ==>
            ApplyAll(lib, a, fields) == ApplyAll(lib, b, fields)
  {
    FirstFieldDecides(lib, a, b, fields, at);
  }

  // ---------------------------------------------------------------- whole messages

  /** A message that no rule is for, or that does not decode, comes out as it went in. */
  lemma OthersAreKept(lib: Library, rules: seq<MaskingRule>, topic: string, value: string)
    requires lib.parse(value).Malformed? || forall r :: r in rules ==> lib.glob(r.topicPattern, topic) != Some(true)
    ensures Masked(lib, rules, topic, value) == value
  {
    MatchingRulesMeaning(lib, rules, topic);
    if MatchingRules(lib, rules, topic) != [] {
      assert MatchingRules(lib, rules, topic)[0] in MatchingRules(lib, rules, topic);
    }
  }

  /** The message null has no fields to mask; it is encoded again. */
  lemma NullMessage(lib: Library, rules: seq<MaskingRule>, topic: string, value: string)
    requires lib.parse(value).NullDocument? && exists r :: r in rules && lib.glob(r.topicPattern, topic) == Some(true)
    ensures Masked(lib, rules, topic, value) == match lib.marshal(Null) case Some(out) => out case None => value
  {
    MatchingRulesMeaning(lib, rules, topic);
    var r :| r in rules && lib.glob(r.topicPattern, topic) == Some(true);
    assert r in MatchingRules(lib, rules, topic);
    NullIsKept(lib, FieldsOf(MatchingRules(lib, rules, topic)));
  }

  lemma {:induction false} NullIsKept(lib: Library, fields: seq<MaskingField>)
    ensures ApplyAll(lib, Null, fields) == Null
  {
    if fields == [] {
    } else {
      NullIsKept(lib, fields[..|fields| - 1]);
    }
  }

  /** Messages that differ only in a value that is masked, with the same view, or hashed, with the same hash, get the
      same output if the masked document can be encoded. */
  lemma MaskedOrHashedValueDoesNotShow(lib: Library, rules: seq<MaskingRule>, topic: string, v: string, w: string,
                                            at: nat)
    requires lib.parse(v).Document? && lib.parse(w).Document?
    requires var fields := FieldsOf(MatchingRules(lib, rules, topic));
             && at < |fields|
             && DifferOnlyAt(DocumentOf(lib.parse(v)), DocumentOf(lib.parse(w)), Split(fields[at].path))
             && (forall f :: f in fields[..at] ==> !Related(Split(f.path), Split(fields[at].path)))
    ensures var fields := FieldsOf(MatchingRules(lib, rules, topic));
            var a := Lookup(DocumentOf(lib.parse(v)), Split(fields[at].path));
            var b := Lookup(DocumentOf(lib.parse(w)), Split(fields[at].path));
            && a.Some? && b.Some?
            && (|| (&& fields[at].kind == "mask" && Bytes(lib.format(a.value)) && Bytes(lib.format(b.value))
                    && ViewOf(lib.format(a.value)) == ViewOf(lib.format(b.value)))
                || (fields[at].kind == "hash" && lib.hash(lib.format(a.value)) == lib.hash(lib.format(b.value)))
                ==> (Masked(lib, rules, topic, v) == Masked(lib, rules, topic, w) <==>
                     v == w || lib.marshal(ApplyAll(lib, DocumentOf(lib.parse(v)), fields)).Some?))
  {
    var fields := FieldsOf(MatchingRules(lib, rules, topic));
    var a, b := DocumentOf(lib.parse(v)), DocumentOf(lib.parse(w));
    FirstFieldDecides(lib, a, b, fields, at);
    if fields[at].kind == "mask" {
      MaskLetsViewThrough(lib, a, b, fields, at);
    }
  }

  lemma OneRule(lib: Library, rule: MaskingRule, topic: string)
    requires lib.glob(rule.topicPattern, topic) == Some(true)
    ensures MatchingRules(lib, [rule], topic) != [] && FieldsOf(MatchingRules(lib, [rule], topic)) == rule.fields
  {
    var none: seq<MaskingRule> := [];
    assert none + [rule] == [rule];
    LaterRulesComeLater(lib, none, rule, topic);
    MatchingRulesMeaning(lib, [rule], topic);
    assert rule in MatchingRules(lib, [rule], topic);
  }

  lemma OneField(lib: Library, doc: Json, field: MaskingField)
    ensures ApplyAll(lib, doc, [field]) == ApplyField(lib, doc, field)
  {
    OneMoreField(lib, doc, [field], 0);
    assert [field][..1] == [field] && [field][..0] == [];
  }

  /** The output for a decoded message that some rule is for. */
  lemma MaskedMessage(lib: Library, rules: seq<MaskingRule>, topic: string, value: string, masked: Json)
    requires MatchingRules(lib, rules, topic) != [] && lib.parse(value).Document?
    requires masked == ApplyAll(lib, Obj(lib.parse(value).fields), FieldsOf(MatchingRules(lib, rules, topic)))
    ensures Masked(lib, rules, topic, value) == match lib.marshal(masked) case Some(out) => out case None => value
  {
  }

  /** A message under one rule with one field. */
  lemma OneFieldMessage(lib: Library, rule: MaskingRule, field: MaskingField, topic: string, value: string)
    requires lib.glob(rule.topicPattern, topic) == Some(true) && rule.fields == [field] && lib.parse(value).Document?
    ensures Masked(lib, [rule], topic, value) ==
            match lib.marshal(ApplyField(lib, Obj(lib.parse(value).fields), field))
            case Some(out) => out
            case None => value
  {
    OneRule(lib, rule, topic);
    OneField(lib, Obj(lib.parse(value).fields), field);
    MaskedMessage(lib, [rule], topic, value, ApplyField(lib, Obj(lib.parse(value).fields), field));
  }

  lemma UserEmailPath()
    ensures Split("user.email") == ["user", "email"]
  {
    SplitPlain("email");
    SplitAtDot("user", "email");
    assert "user" + "." + "email" == "user.email";
  }

  lemma NestedUpdate(email: Json, id: Json, f: Json -> Json)
    ensures UpdateAt(Obj(map["user" := Obj(map["email" := email, "id" := id])]), ["user", "email"], f) ==
            Obj(map["user" := Obj(map["email" := f(email), "id" := id])])
  {
    var inner := Obj(map["email" := email, "id" := id]);
    var path: Path := ["user", "email"];
    assert path[1..] == ["email"];
    assert UpdateAt(inner, ["email"], f) == Obj(inner.fields["email" := f(email)]);
    assert inner.fields["email" := f(email)] == map["email" := f(email), "id" := id];
  }

  /** A whole message spelled out: a rule for a nested field masks that field's text and nothing else. */
  lemma NestedFieldIsMasked(lib: Library, pattern: string, topic: string, value: string, email: Json, id: Json)
    requires lib.glob(pattern, topic) == Some(true)
    requires lib.parse(value) == Document(map["user" := Obj(map["email" := email, "id" := id])])
    ensures Masked(lib, [MaskingRule(pattern, [MaskingField("user.email", "mask")])], topic, value) ==
            match lib.marshal(Obj(map["user" := Obj(map["email" := Str(MaskPartial(lib.format(email))), "id" := id])]))
            case Some(out) => out
            case None => value
  {
    var field := MaskingField("user.email", "mask");
    OneFieldMessage(lib, MaskingRule(pattern, [field]), field, topic, value);
    UserEmailPath();
    NestedUpdate(email, id, Replacer(lib, "mask"));
  }
}

/**
 The data masking engine (internal/masking/engine.go).

 The document is a tree of mutable objects; every field rule walks to the object that
 holds its key and writes there.  The specification is a fold of functional updates
 (JsonPath), about which the promises of the engine are proved.
 */
module Masking {
  import opened Wrappers
  import opened JsonPath

  datatype MaskingField = MaskingField(path: string, kind: string)
  datatype MaskingRule = MaskingRule(topicPattern: string, fields: seq<MaskingField>)

  datatype Parsed = Malformed | NullDocument | Document(fields: map<string, Json>)

  /** Library calls the engine is built on: Sprintf("%v"), the shortened SHA-256, JSON decoding
      and encoding, and filepath.Match (None when the pattern is bad). */
  datatype Library = Library(
    format: Json -> string,
    hash: string -> string,
    parse: string -> Parsed,
    marshal: Json -> Option<string>,
    glob: (string, string) -> Option<bool>)

  // ---------------------------------------------------------------- strings, byte by byte

  function Split(s: string): Path {
    if s == [] then [""]
    else
      var rest := Split(s[1..]);
      if s[0] == '.' then [""] + rest else [[s[0]] + rest[0]] + rest[1..]
  }

  function Join(parts: Path): string {
    if |parts| == 1 then parts[0] else parts[0] + "." + Join(parts[1..])
  }

  /** The parts hold no dot, and joined with dots they give the string back: no two strings share a path. */
  lemma {:induction false} SplitIsExact(s: string)
    ensures Join(Split(s)) == s
    ensures forall part :: part in Split(s) ==> '.' !in part
  {
    if s == [] {
    } else {
      SplitIsExact(s[1..]);
      var rest := Split(s[1..]);
      assert s == [s[0]] + s[1..];
      if s[0] == '.' {
        assert Split(s)[1..] == rest;
      } else {
        assert Split(s)[1..] == rest[1..];
        forall part | part in Split(s) ensures '.' !in part {
          assert rest[0] in rest;
          assert part == [s[0]] + rest[0] || part in rest[1..];
        }
      }
    }
  }

  /** The index of the first (last) occurrence of a byte, or -1. */
  function IndexOf(s: string, c: char): (i: int)
    ensures -1 <= i < |s|
    ensures i >= 0 ==> s[i] == c && forall k :: 0 <= k < i ==> s[k] != c
    ensures i < 0 ==> c !in s
  {
    if s == [] then -1
    else if s[0] == c then 0
    else
      var i := IndexOf(s[1..], c);
      if i < 0 then -1 else i + 1
  }

  function LastIndexOf(s: string, c: char): (i: int)
    ensures -1 <= i < |s|
    ensures i >= 0 ==> s[i] == c && forall k :: i < k < |s| ==> s[k] != c
    ensures i < 0 ==> c !in s
  {
    if s == [] then -1
    else if s[|s| - 1] == c then |s| - 1
    else LastIndexOf(s[..|s| - 1], c)
  }

  /** Go's string(b) for a byte: the UTF-8 encoding of that code point. */
  function FromByte(c: char): string {
    if c as int < 0x80 then [c]
    else [(0xC0 + c as int / 64 % 4) as char, (0x80 + c as int % 64) as char]
  }

  function MaskPartial(value: string): string {
    var at := IndexOf(value, '@');
    if at >= 0 then
      var local, domain := value[..at], value[at + 1..];
      MaskLocal(local) + "@" + MaskDomain(domain)
    else if |value| > 2 then
      FromByte(value[0]) + "***" + FromByte(value[|value| - 1])
    else
      "***"
  }

  function MaskLocal(local: string): string {
    if |local| > 2 then FromByte(local[0]) + "***" else "***"
  }

  function MaskDomain(domain: string): string {
    var dot := LastIndexOf(domain, '.');
    if dot > 0 then
      (if dot > 1 then FromByte(domain[0]) + "***" else "***") + domain[dot..]
    else
      "***"
  }

  // ---------------------------------------------------------------- exactly what a partial mask shows

  /** What can be told from a mask: the ends of a plain value; of an address the first byte of the local part,
      the first byte of the domain and the domain's end from its last dot on; of short pieces nothing. */
  datatype View = Nothing | Ends(first: char, last: char) | Address(local: Option<char>, domain: DomainView)
  datatype DomainView = Unseen | Suffix(suffix: string) | Seen(first: char, suffix: string)

  function ViewOf(value: string): View {
    var at := IndexOf(value, '@');
    if at >= 0 then Address(ViewOfLocal(value[..at]), ViewOfDomain(value[at + 1..]))
    else if |value| > 2 then Ends(value[0], value[|value| - 1])
    else Nothing
  }

  function ViewOfLocal(local: string): Option<char> {
    if |local| > 2 then Some(local[0]) else None
  }

  function ViewOfDomain(domain: string): DomainView {
    var dot := LastIndexOf(domain, '.');
    if dot > 1 then Seen(domain[0], domain[dot..])
    else if dot == 1 then Suffix(domain[dot..])
    else Unseen
  }

  predicate Bytes(s: string) {
    forall i :: 0 <= i < |s| ==> s[i] as int < 256
  }

  lemma FromByteSplits(a: char, b: char, s: string, t: string)
    requires a as int < 256 && b as int < 256
    requires FromByte(a) + s == FromByte(b) + t
    ensures a == b && s == t
  {
    var u, v := FromByte(a) + s, FromByte(b) + t;
    assert u[0] == FromByte(a)[0] && v[0] == FromByte(b)[0];
    assert |FromByte(a)| == |FromByte(b)|;
    if |FromByte(a)| == 2 {
      assert u[1] == FromByte(a)[1] && v[1] == FromByte(b)[1];
    }
    assert s == u[|FromByte(a)|..] && t == v[|FromByte(b)|..];
  }

  lemma LocalMaskShows(v: string, w: string)
    requires Bytes(v) && Bytes(w)
    ensures MaskLocal(v) == MaskLocal(w) <==> ViewOfLocal(v) == ViewOfLocal(w)
    ensures '@' !in v ==> '@' !in MaskLocal(v)
  {
    if |v| > 2 && |w| > 2 && MaskLocal(v) == MaskLocal(w) {
      FromByteSplits(v[0], w[0], "***", "***");
    }
  }

  /** The three forms of a domain mask: nothing, the suffix, the first byte and the suffix. */
  lemma DomainMaskForm(v: string)
    ensures MaskDomain(v) == match ViewOfDomain(v)
                             case Unseen => "***"
                             case Suffix(suffix) => "***" + suffix
                             case Seen(first, suffix) => FromByte(first) + ("***" + suffix)
    ensures !ViewOfDomain(v).Unseen? ==> ViewOfDomain(v).suffix != [] && ViewOfDomain(v).suffix[0] == '.'
    ensures Bytes(v) && ViewOfDomain(v).Seen? ==> ViewOfDomain(v).first as int < 256
  {
    var dot := LastIndexOf(v, '.');
    if dot > 1 {
      assert (FromByte(v[0]) + "***") + v[dot..] == FromByte(v[0]) + ("***" + v[dot..]);
    }
  }

  lemma AfterStars(s: string, t: string)
    requires "***" + s == "***" + t
    ensures s == t
  {
    assert s == ("***" + s)[3..] && t == ("***" + t)[3..];
  }

  lemma StarsOrByte(s: string, c: char, t: string)
    requires s != [] && s[0] == '.' && c as int < 256
    ensures "***" + s != FromByte(c) + ("***" + t)
  {
    var u, v := "***" + s, FromByte(c) + ("***" + t);
    assert u[0] == '*' && u[3] == '.' && v[0] == FromByte(c)[0];
    if |FromByte(c)| == 1 {
      assert v[3] == '*';
    }
  }

  lemma DomainMaskShows(v: string, w: string)
    requires Bytes(v) && Bytes(w)
    ensures MaskDomain(v) == MaskDomain(w) <==> ViewOfDomain(v) == ViewOfDomain(w)
  {
    DomainMaskForm(v);
    DomainMaskForm(w);
    if MaskDomain(v) == MaskDomain(w) {
      match (ViewOfDomain(v), ViewOfDomain(w)) {
        case (Suffix(s), Suffix(t)) => AfterStars(s, t);
        case (Seen(a, s), Seen(b, t)) =>
          FromByteSplits(a, b, "***" + s, "***" + t);
          AfterStars(s, t);
        case (Suffix(s), Seen(b, t)) => StarsOrByte(s, b, t);
        case (Seen(a, s), Suffix(t)) => StarsOrByte(t, a, s);
        case _ =>
      }
    }
  }

  lemma FirstAt(a: string, b: string)
    requires '@' !in a
    ensures (a + "@" + b)[|a|] == '@' && forall k :: 0 <= k < |a| ==> (a + "@" + b)[k] != '@'
  {
    assert forall k :: 0 <= k < |a| ==> (a + "@" + b)[k] == a[k];
  }

  lemma AddressSplits(a: string, b: string, c: string, d: string)
    requires '@' !in a && '@' !in c && a + "@" + b == c + "@" + d
    ensures a == c && b == d
  {
    FirstAt(a, b);
    FirstAt(c, d);
    assert |a| == |c|;
    assert a == (a + "@" + b)[..|a|] && c == (c + "@" + d)[..|c|];
    assert b == (a + "@" + b)[|a| + 1..] && d == (c + "@" + d)[|c| + 1..];
  }

  lemma PlainMaskKeepsNoAt(v: string)
    requires '@' !in v
    ensures '@' !in MaskPartial(v)
  {
    if |v| > 2 {
      var a, b := FromByte(v[0]), FromByte(v[|v| - 1]);
      assert '@' !in a && '@' !in b;
      assert forall c :: c in a + "***" + b ==> c in a || c == '*' || c in b;
    }
  }

  lemma EndsShow(a: char, b: char, c: char, d: char)
    requires a as int < 256 && b as int < 256 && c as int < 256 && d as int < 256
    requires FromByte(a) + "***" + FromByte(b) == FromByte(c) + "***" + FromByte(d)
    ensures a == c && b == d
  {
    Regroup(FromByte(a), FromByte(b));
    Regroup(FromByte(c), FromByte(d));
    FromByteSplits(a, c, "***" + FromByte(b), "***" + FromByte(d));
    AfterStars(FromByte(b), FromByte(d));
    FromByteSplits(b, d, "", "");
  }

  lemma Regroup(a: string, b: string)
    ensures a + "***" + b == a + ("***" + b)
  {
  }

  lemma PlainMaskShows(v: string, w: string)
    requires Bytes(v) && Bytes(w) && '@' !in v && '@' !in w
    ensures MaskPartial(v) == MaskPartial(w) <==> ViewOf(v) == ViewOf(w)
  {
    if |v| > 2 && |w| > 2 && MaskPartial(v) == MaskPartial(w) {
      EndsShow(v[0], v[|v| - 1], w[0], w[|w| - 1]);
    }
  }

  /** Two values have the same mask exactly when they agree in what a mask may show. */
  lemma MaskShowsExactly(v: string, w: string)
    requires Bytes(v) && Bytes(w)
    ensures MaskPartial(v) == MaskPartial(w) <==> ViewOf(v) == ViewOf(w)
  {
    var i, j := IndexOf(v, '@'), IndexOf(w, '@');
    if i >= 0 && j >= 0 {
      AddressMaskShows(v, w);
    } else if i < 0 && j < 0 {
      PlainMaskShows(v, w);
    } else if i < 0 {
      PlainMaskKeepsNoAt(v);
      AddressKeepsAt(w);
    } else {
      PlainMaskKeepsNoAt(w);
      AddressKeepsAt(v);
    }
  }

  lemma AddressKeepsAt(v: string)
    requires IndexOf(v, '@') >= 0
    ensures '@' in MaskPartial(v)
  {
    var at := IndexOf(v, '@');
    assert MaskPartial(v)[|MaskLocal(v[..at])|] == '@';
  }

  lemma AddressMaskShows(v: string, w: string)
    requires Bytes(v) && Bytes(w) && IndexOf(v, '@') >= 0 && IndexOf(w, '@') >= 0
    ensures MaskPartial(v) == MaskPartial(w) <==> ViewOf(v) == ViewOf(w)
  {
    var i, j := IndexOf(v, '@'), IndexOf(w, '@');
    LocalMaskShows(v[..i], w[..j]);
    LocalMaskShows(w[..j], v[..i]);
    DomainMaskShows(v[i + 1..], w[j + 1..]);
    if MaskPartial(v) == MaskPartial(w) {
      AddressSplits(MaskLocal(v[..i]), MaskDomain(v[i + 1..]), MaskLocal(w[..j]), MaskDomain(w[j + 1..]));
    }
  }

  /** An address with its parts named.  The local part and the host keep their first byte if they are long enough, the
      top-level domain stays; nothing stays of a host that is empty or of a domain without a dot. */
  lemma AddressMask(local: string, host: string, tld: string)
    requires '@' !in local && '.' !in tld
    ensures MaskPartial(local + "@" + (host + "." + tld)) ==
            (if |local| > 2 then FromByte(local[0]) + "***" else "***") + "@" +
            (if |host| > 1 then FromByte(host[0]) + "***" + ("." + tld)
             else if |host| == 1 then "***" + ("." + tld)
             else "***")
  {
    SplitAddress(local, host + "." + tld);
    DomainMask(host, tld);
  }

  lemma DomainMask(host: string, tld: string)
    requires '.' !in tld
    ensures MaskDomain(host + "." + tld) ==
            if |host| > 1 then FromByte(host[0]) + "***" + ("." + tld)
            else if |host| == 1 then "***" + ("." + tld)
            else "***"
  {
    var domain := host + "." + tld;
    NoDotBehind(host, tld);
    LastIndexIs(domain, '.', |host|);
    assert domain[|host|..] == "." + tld;
  }

  lemma AddressMaskWithoutDot(local: string, domain: string)
    requires '@' !in local && '.' !in domain
    ensures MaskPartial(local + "@" + domain) ==
            (if |local| > 2 then FromByte(local[0]) + "***" else "***") + "@" + "***"
  {
    SplitAddress(local, domain);
    NoneFound(domain, '.');
  }

  lemma {:induction false} NoneFound(s: string, c: char)
    requires c !in s
    ensures LastIndexOf(s, c) < 0
  {
    if s == [] {
    } else {
      NoneFound(s[..|s| - 1], c);
    }
  }

  lemma SplitAddress(local: string, domain: string)
    requires '@' !in local
    ensures MaskPartial(local + "@" + domain) == MaskLocal(local) + "@" + MaskDomain(domain)
  {
    var value := local + "@" + domain;
    FirstAt(local, domain);
    assert IndexOf(value, '@') == |local|;
    assert value[..|local|] == local && value[|local| + 1..] == domain;
  }

  lemma LastIndexIs(s: string, c: char, i: nat)
    requires i < |s| && s[i] == c && forall k :: i < k < |s| ==> s[k] != c
    ensures LastIndexOf(s, c) == i
  {
    assert c in s;
  }

  lemma NoDotBehind(host: string, tld: string)
    requires '.' !in tld
    ensures var domain := host + "." + tld;
            domain[|host|] == '.' && forall k :: |host| < k < |domain| ==> domain[k] != '.'
  {
    var domain := host + "." + tld;
    assert forall k :: |host| < k < |domain| ==> domain[k] == tld[k - |host| - 1];
  }

  // ---------------------------------------------------------------- the masking of a document, as a function

  function Replacement(lib: Library, kind: string, value: Json): Json {
    match kind
    case "mask" => Str(MaskPartial(lib.format(value)))
    case "hide" => Str("****")
    case "hash" => Str(lib.hash(lib.format(value)))
    case _ => value
  }

  function Replacer(lib: Library, kind: string): Json -> Json {
    v => Replacement(lib, kind, v)
  }

  function ApplyField(lib: Library, doc: Json, field: MaskingField): Json {
    UpdateAt(doc, Split(field.path), Replacer(lib, field.kind))
  }

  function ApplyAll(lib: Library, doc: Json, fields: seq<MaskingField>): Json {
    if fields == [] then doc
    else ApplyField(lib, ApplyAll(lib, doc, fields[..|fields| - 1]), fields[|fields| - 1])
  }

  predicate MatchTopic(lib: Library, pattern: string, topic: string) {
    lib.glob(pattern, topic) == Some(true)
  }

  function MatchingRules(lib: Library, rules: seq<MaskingRule>, topic: string): seq<MaskingRule> {
    if rules == [] then []
    else
      var n := |rules| - 1;
      MatchingRules(lib, rules[..n], topic) + if MatchTopic(lib, rules[n].topicPattern, topic) then [rules[n]] else []
  }

  function FieldsOf(rules: seq<MaskingRule>): seq<MaskingField> {
    if rules == [] then [] else FieldsOf(rules[..|rules| - 1]) + rules[|rules| - 1].fields
  }

  function DocumentOf(p: Parsed): Json
    requires !p.Malformed?
  {
    if p.NullDocument? then Null else Obj(p.fields)
  }

  /** The output for a message: untouched unless some rule matches and the value is an object or null. */
  function Masked(lib: Library, rules: seq<MaskingRule>, topic: string, value: string): string {
    var matching := MatchingRules(lib, rules, topic);
    if matching == [] || lib.parse(value).Malformed? then value
    else
      match lib.marshal(ApplyAll(lib, DocumentOf(lib.parse(value)), FieldsOf(matching)))
      case Some(out) => out
      case None => value
  }

  lemma {:induction false} ApplyAllAppend(lib: Library, doc: Json, a: seq<MaskingField>, b: seq<MaskingField>)
    ensures ApplyAll(lib, doc, a + b) == ApplyAll(lib, ApplyAll(lib, doc, a), b)
  {
    if b == [] {
      assert a + b == a;
    } else {
      var n := |b| - 1;
      assert (a + b)[..|a + b| - 1] == a + b[..n];
      ApplyAllAppend(lib, doc, a, b[..n]);
    }
  }

  // ---------------------------------------------------------------- what masking leaves alone

  /** A subtree whose path is unrelated to every applied path comes out as it went in. */
  lemma {:induction false} UnrelatedSubtreeUnchanged(lib: Library, doc: Json, fields: seq<MaskingField>,
                                                     path: seq<string>)
    requires forall f :: f in fields ==> !Related(Split(f.path), path)
    ensures Lookup(ApplyAll(lib, doc, fields), path) == Lookup(doc, path)
  {
    if fields == [] {
    } else {
      var n := |fields| - 1;
      UnrelatedSubtreeUnchanged(lib, doc, fields[..n], path);
      UpdateMisses(ApplyAll(lib, doc, fields[..n]), Split(fields[n].path), Replacer(lib, fields[n].kind), path);
    }
  }

  /** No path appears, and an object that survives keeps exactly its keys. */
  lemma {:induction false} SurvivingObjectsKeepKeys(lib: Library, doc: Json, fields: seq<MaskingField>)
    ensures KeepsKeys(doc, ApplyAll(lib, doc, fields))
  {
    if fields == [] {
    } else {
      var n := |fields| - 1;
      var before := ApplyAll(lib, doc, fields[..n]);
      var path, f := Split(fields[n].path), Replacer(lib, fields[n].kind);
      SurvivingObjectsKeepKeys(lib, doc, fields[..n]);
      forall at | Lookup(UpdateAt(before, path, f), at).Some?
        ensures var after := Lookup(UpdateAt(before, path, f), at).value;
                && Lookup(before, at).Some?
                && (after.Obj? ==>
                      Lookup(before, at).value.Obj? && Lookup(before, at).value.fields.Keys == after.fields.Keys)
      {
        UpdateKeepsKeysAt(before, path, f, at);
      }
    }
  }

  // ---------------------------------------------------------------- hide is non-interfering

  lemma {:induction false} MaskingKeepsDifference(lib: Library, a: Json, b: Json, fields: seq<MaskingField>, path: Path)
    requires DifferOnlyAt(a, b, path)
    requires forall f :: f in fields ==> !ProperAncestor(Split(f.path), path)
    ensures DifferOnlyAt(ApplyAll(lib, a, fields), ApplyAll(lib, b, fields), path)
  {
    if fields == [] {
    } else {
      var n := |fields| - 1;
      MaskingKeepsDifference(lib, a, b, fields[..n], path);
      UpdateKeepsDifference(ApplyAll(lib, a, fields[..n]), ApplyAll(lib, b, fields[..n]), path,
                            Split(fields[n].path), Replacer(lib, fields[n].kind));
    }
  }

  /** Documents that differ only in a hidden value are masked to the same document, wherever the hide
      stands among the fields and whatever else addresses the value or its descendants. */
  lemma HideIsNonInterfering(lib: Library, a: Json, b: Json, fields: seq<MaskingField>, at: nat)
    requires at < |fields| && fields[at].kind == "hide"
    requires DifferOnlyAt(a, b, Split(fields[at].path))
    requires forall f :: f in fields ==> !ProperAncestor(Split(f.path), Split(fields[at].path))
    ensures ApplyAll(lib, a, fields) == ApplyAll(lib, b, fields)
  {
    var path := Split(fields[at].path);
    MaskingKeepsDifference(lib, a, b, fields[..at], path);
    ConstantErasesDifference(ApplyAll(lib, a, fields[..at]), ApplyAll(lib, b, fields[..at]), path,
                             Replacer(lib, "hide"));
    assert fields[..at + 1][..at] == fields[..at];
    assert fields == fields[..at + 1] + fields[at + 1..];
    ApplyAllAppend(lib, a, fields[..at + 1], fields[at + 1..]);
    ApplyAllAppend(lib, b, fields[..at + 1], fields[at + 1..]);
  }

  /** Whole messages that differ only in a hidden value get the same output exactly when the masked document
      can be encoded; where it cannot, each message comes out as it went in. */
  lemma HiddenValueDoesNotShow(lib: Library, rules: seq<MaskingRule>, topic: string, v: string, w: string, at: nat)
    requires lib.parse(v).Document? && lib.parse(w).Document?
    requires var fields := FieldsOf(MatchingRules(lib, rules, topic));
             && at < |fields| && fields[at].kind == "hide"
             && DifferOnlyAt(DocumentOf(lib.parse(v)), DocumentOf(lib.parse(w)), Split(fields[at].path))
             && forall f :: f in fields ==> !ProperAncestor(Split(f.path), Split(fields[at].path))
    ensures Masked(lib, rules, topic, v) == Masked(lib, rules, topic, w) <==>
            var fields := FieldsOf(MatchingRules(lib, rules, topic));
            v == w || lib.marshal(ApplyAll(lib, DocumentOf(lib.parse(v)), fields)).Some?
  {
    HideIsNonInterfering(lib, DocumentOf(lib.parse(v)), DocumentOf(lib.parse(w)),
                         FieldsOf(MatchingRules(lib, rules, topic)), at);
  }
}

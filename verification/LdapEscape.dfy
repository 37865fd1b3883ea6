/**
 Escaping of a distinguished name for an LDAP search filter
 (searchGroups in internal/auth/ldap_provider.go), byte by byte.
 */
module LdapEscape {
  import opened Wrappers

  /** strings.ReplaceAll for a one-byte pattern. */
  function ReplaceAll(s: string, c: char, by_: string): string {
    if s == [] then [] else (if s[0] == c then by_ else [s[0]]) + ReplaceAll(s[1..], c, by_)
  }

  /** The five passes of the source, in its order: the backslash first. */
  function EscapeDN(dn: string): string {
    var s := ReplaceAll(dn, '\\', "\\5c");
    var s := ReplaceAll(s, '*', "\\2a");
    var s := ReplaceAll(s, '(', "\\28");
    var s := ReplaceAll(s, ')', "\\29");
    ReplaceAll(s, '\0', "\\00")
  }

  predicate Special(c: char) {
    c == '\\' || c == '*' || c == '(' || c == ')' || c == '\0'
  }

  function EscapeChar(c: char): string {
    match c
    case '\\' => "\\5c"
    case '*' => "\\2a"
    case '(' => "\\28"
    case ')' => "\\29"
    case '\0' => "\\00"
    case _ => [c]
  }

  /** Every character escaped once, independently of the others. */
  function EscapeEach(dn: string): string {
    if dn == [] then [] else EscapeChar(dn[0]) + EscapeEach(dn[1..])
  }

  lemma {:induction false} ReplaceAppend(a: string, b: string, c: char, by_: string)
    ensures ReplaceAll(a + b, c, by_) == ReplaceAll(a, c, by_) + ReplaceAll(b, c, by_)
  {
    if a == [] {
      assert a + b == b;
    } else {
      ReplaceAppend(a[1..], b, c, by_);
      assert (a + b)[0] == a[0] && (a + b)[1..] == a[1..] + b;
      var h := if a[0] == c then by_ else [a[0]];
      var x, y := ReplaceAll(a[1..], c, by_), ReplaceAll(b, c, by_);
      assert h + (x + y) == (h + x) + y;
    }
  }

  lemma {:induction false} NothingToReplace(s: string, c: char, by_: string)
    requires c !in s
    ensures ReplaceAll(s, c, by_) == s
  {
    if s == [] {
    } else {
      NothingToReplace(s[1..], c, by_);
    }
  }

  lemma PassesAppend(a: string, b: string)
    ensures EscapeDN(a + b) == EscapeDN(a) + EscapeDN(b)
  {
    ReplaceAppend(a, b, '\\', "\\5c");
    var a1, b1 := ReplaceAll(a, '\\', "\\5c"), ReplaceAll(b, '\\', "\\5c");
    ReplaceAppend(a1, b1, '*', "\\2a");
    var a2, b2 := ReplaceAll(a1, '*', "\\2a"), ReplaceAll(b1, '*', "\\2a");
    ReplaceAppend(a2, b2, '(', "\\28");
    var a3, b3 := ReplaceAll(a2, '(', "\\28"), ReplaceAll(b2, '(', "\\28");
    ReplaceAppend(a3, b3, ')', "\\29");
    ReplaceAppend(ReplaceAll(a3, ')', "\\29"), ReplaceAll(b3, ')', "\\29"), '\0', "\\00");
  }

  lemma ReplaceOne(c: char, d: char, by_: string)
    ensures ReplaceAll([c], d, by_) == if c == d then by_ else [c]
  {
    assert [c][1..] == [];
    assert ReplaceAll([], d, by_) == [];
    assert by_ + [] == by_ && [c] + [] == [c];
  }

  lemma LaterPassesKeep(s: string)
    requires '*' !in s && '(' !in s && ')' !in s && '\0' !in s
    ensures ReplaceAll(s, '*', "\\2a") == s && ReplaceAll(s, '(', "\\28") == s
    ensures ReplaceAll(s, ')', "\\29") == s && ReplaceAll(s, '\0', "\\00") == s
  {
    NothingToReplace(s, '*', "\\2a");
    NothingToReplace(s, '(', "\\28");
    NothingToReplace(s, ')', "\\29");
    NothingToReplace(s, '\0', "\\00");
  }

  lemma PassesOnOne(c: char)
    ensures EscapeDN([c]) == EscapeChar(c)
  {
    ReplaceOne(c, '\\', "\\5c");
    ReplaceOne(c, '*', "\\2a");
    ReplaceOne(c, '(', "\\28");
    ReplaceOne(c, ')', "\\29");
    ReplaceOne(c, '\0', "\\00");
    if Special(c) {
      LaterPassesKeep(EscapeChar(c));
    }
  }

  /** The five successive passes are one simultaneous escape: no pass escapes what an earlier one wrote. */
  lemma {:induction false} PassesEscapeEach(dn: string)
    ensures EscapeDN(dn) == EscapeEach(dn)
  {
    if dn == [] {
    } else {
      PassesEscapeEach(dn[1..]);
      PassesOnOne(dn[0]);
      PassesAppend([dn[0]], dn[1..]);
      assert [dn[0]] + dn[1..] == dn;
    }
  }

  // ---------------------------------------------------------------- reading the filter value back

  function HexDigit(c: char): Option<int> {
    if '0' <= c <= '9' then Some(c as int - '0' as int)
    else if 'a' <= c <= 'f' then Some(c as int - 'a' as int + 10)
    else if 'A' <= c <= 'F' then Some(c as int - 'A' as int + 10)
    else None
  }

  /** An assertion value (section 3 of RFC 4515): ordinary characters, and a backslash with two hex digits.
      A bare special character or any other use of the backslash is not a value. */
  function Unescape(s: string): Option<string> {
    if s == [] then Some([])
    else if s[0] == '\\' then
      if |s| < 3 || HexDigit(s[1]).None? || HexDigit(s[2]).None? then None
      else
        match Unescape(s[3..])
        case Some(rest) => Some([(16 * HexDigit(s[1]).value + HexDigit(s[2]).value) as char] + rest)
        case None => None
    else if Special(s[0]) then None
    else
      match Unescape(s[1..])
      case Some(rest) => Some([s[0]] + rest)
      case None => None
  }

  lemma UnescapeFirst(c: char, rest: string)
    ensures Unescape(EscapeChar(c) + rest) ==
            match Unescape(rest) case Some(r) => Some([c] + r) case None => None
  {
    var s := EscapeChar(c) + rest;
    if Special(c) {
      assert s[3..] == rest;
    } else {
      assert s[1..] == rest;
    }
  }

  /** The escaped name is a well-formed filter value and stands for exactly the original name. */
  lemma {:induction false} EscapeRoundTrip(dn: string)
    ensures Unescape(EscapeDN(dn)) == Some(dn)
  {
    PassesEscapeEach(dn);
    if dn == [] {
    } else {
      EscapeRoundTrip(dn[1..]);
      PassesEscapeEach(dn[1..]);
      UnescapeFirst(dn[0], EscapeEach(dn[1..]));
      assert [dn[0]] + dn[1..] == dn;
    }
  }

  /** No special character other than the backslash is left. */
  lemma {:induction false} EscapedIsPlain(dn: string)
    ensures '*' !in EscapeDN(dn) && '(' !in EscapeDN(dn) && ')' !in EscapeDN(dn) && '\0' !in EscapeDN(dn)
  {
    PassesEscapeEach(dn);
    if dn == [] {
    } else {
      EscapedIsPlain(dn[1..]);
      PassesEscapeEach(dn[1..]);
    }
  }
}

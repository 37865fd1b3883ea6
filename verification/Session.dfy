/**
 Signed session cookies (internal/auth/session.go): base64url(data) "." base64url(HMAC(data)).
 HMAC-SHA256 and the JSON codec are left uninterpreted.
 */
module Session {
  import opened Wrappers
  import opened Base64Url

  const DOT: byte := 46

  datatype VerifyError = Malformed | BadData | BadSignature | WrongSignature

  /** The keyed hash: HMAC-SHA256 under a secret. */
  type Mac = (seq<byte>, seq<byte>) -> seq<byte>

  function FirstDot(s: seq<byte>): (i: nat)
    ensures i <= |s|
    ensures i < |s| ==> s[i] == DOT
    ensures forall k :: 0 <= k < i ==> s[k] != DOT
  {
    if s == [] || s[0] == DOT then 0 else 1 + FirstDot(s[1..])
  }

  function Sign(mac: Mac, secret: seq<byte>, data: seq<byte>): seq<byte> {
    Encode(data) + [DOT] + Encode(mac(secret, data))
  }

  function Verify(mac: Mac, secret: seq<byte>, signed: seq<byte>): Result<seq<byte>, VerifyError> {
    var dot := FirstDot(signed);
    if dot == |signed| then Err(Malformed)
    else
      match (Decode(signed[..dot]), Decode(signed[dot + 1..]))
      case (None, _) => Err(BadData)
      case (Some(_), None) => Err(BadSignature)
      case (Some(data), Some(sig)) => if sig == mac(secret, data) then Ok(data) else Err(WrongSignature)
  }

  /** For every secret and every byte string the signed value verifies to what was signed. */
  lemma VerifiesWhatWasSigned(mac: Mac, secret: seq<byte>, data: seq<byte>)
    ensures Verify(mac, secret, Sign(mac, secret, data)) == Ok(data)
  {
    var head, tail := Encode(data), Encode(mac(secret, data));
    var signed := Sign(mac, secret, data);
    DecodesWhatWasEncoded(data);
    DecodesWhatWasEncoded(mac(secret, data));
    assert signed == head + ([DOT] + tail);
    assert FirstDot(signed) == |head| by {
      assert forall k :: 0 <= k < |head| ==> signed[k] == head[k] && head[k] in head;
      assert signed[|head|] == DOT;
    }
    assert signed[..|head|] == head && signed[|head| + 1..] == tail;
  }

  /** A value is accepted as the data exactly when it is two base64url parts around a dot, the first of the
      data and the second of the data's own MAC. */
  lemma AcceptedIff(mac: Mac, secret: seq<byte>, signed: seq<byte>, data: seq<byte>)
    ensures Verify(mac, secret, signed) == Ok(data) <==>
            exists head, tail :: signed == head + [DOT] + tail && DOT !in head &&
                                 Decode(head) == Some(data) && Decode(tail) == Some(mac(secret, data))
  {
    var dot := FirstDot(signed);
    if Verify(mac, secret, signed) == Ok(data) {
      assert signed == signed[..dot] + [DOT] + signed[dot + 1..];
    }
    if head, tail :| signed == head + [DOT] + tail && DOT !in head &&
                     Decode(head) == Some(data) && Decode(tail) == Some(mac(secret, data)) {
      assert signed[|head|] == DOT;
      assert forall k :: 0 <= k < |head| ==> signed[k] == head[k] && head[k] in head;
      assert dot == |head|;
      assert signed[..dot] == head && signed[dot + 1..] == tail;
    }
  }

  // ---------------------------------------------------------------- sessions

  datatype SessionData = SessionData(userID: string, email: string, name: string, createdAt: int)

  datatype Codec = Codec(marshal: SessionData -> seq<byte>, unmarshal: seq<byte> -> Option<SessionData>)

  datatype Manager = Manager(secret: seq<byte>, maxAge: int)

  datatype SessionError = Invalid(reason: VerifyError) | Undecodable | Expired

  function NewManager(secret: seq<byte>, maxAge: int): Option<Manager> {
    if |secret| < 32 then None
    else Some(Manager(secret, if maxAge == 0 then 86400 else maxAge))
  }

  function CreateSession(m: Manager, mac: Mac, json: Codec, data: SessionData, now: int): seq<byte> {
    Sign(mac, m.secret, json.marshal(data.(createdAt := now)))
  }

  function GetSession(m: Manager, mac: Mac, json: Codec, cookie: seq<byte>,
                      now: int): Result<SessionData, SessionError> {
    match Verify(mac, m.secret, cookie)
    case Err(e) => Err(Invalid(e))
    case Ok(bytes) =>
      match json.unmarshal(bytes)
      case None => Err(Undecodable)
      case Some(data) =>
        if data.createdAt == 0 || now - data.createdAt > m.maxAge then Err(Expired) else Ok(data)
  }

  /** A cookie opens a session exactly when it carries, around its first dot, an encoded session and that
      encoding's own MAC, and the session was created at a known time not more than maxAge seconds ago. */
  lemma SessionAcceptedIff(m: Manager, mac: Mac, json: Codec, cookie: seq<byte>, now: int, data: SessionData)
    ensures GetSession(m, mac, json, cookie, now) == Ok(data) <==>
            exists head, bytes, tail ::
              && cookie == head + [DOT] + tail && DOT !in head
              && Decode(head) == Some(bytes) && Decode(tail) == Some(mac(m.secret, bytes))
              && json.unmarshal(bytes) == Some(data) && data.createdAt != 0 && now <= data.createdAt + m.maxAge
  {
    if GetSession(m, mac, json, cookie, now) == Ok(data) {
      AcceptedIff(mac, m.secret, cookie, Verify(mac, m.secret, cookie).value);
    }
    if head, bytes, tail :|
         && cookie == head + [DOT] + tail && DOT !in head
         && Decode(head) == Some(bytes) && Decode(tail) == Some(mac(m.secret, bytes))
         && json.unmarshal(bytes) == Some(data) && data.createdAt != 0 && now <= data.createdAt + m.maxAge {
      AcceptedIff(mac, m.secret, cookie, bytes);
    }
  }

  /** No manager is made with a secret of fewer than 32 bytes. */
  lemma ShortSecretIsRefused(secret: seq<byte>, maxAge: int)
    ensures NewManager(secret, maxAge) == None <==> |secret| <= 31
  {
  }

  /** A session is given back unchanged for exactly maxAge seconds (24 hours if none is configured),
      unless it was created at time zero; afterwards it has expired. */
  lemma SessionLifetime(secret: seq<byte>, maxAge: int, mac: Mac, json: Codec, data: SessionData, created: int,
                        now: int)
    requires |secret| >= 32
    requires var d := data.(createdAt := created); json.unmarshal(json.marshal(d)) == Some(d)
    ensures NewManager(secret, maxAge).Some?
    ensures var m := NewManager(secret, maxAge).value;
            var lifetime := if maxAge == 0 then 24 * 60 * 60 else maxAge;
            GetSession(m, mac, json, CreateSession(m, mac, json, data, created), now) ==
            if created != 0 && now <= created + lifetime then Ok(data.(createdAt := created)) else Err(Expired)
  {
    VerifiesWhatWasSigned(mac, secret, json.marshal(data.(createdAt := created)));
  }
}

/** The plaintext of requests: what the client builds and how the server takes it apart. */
module Requests {
  import opened Octets

  const OP_AUTH: byte := 0
  const OP_CHANGE_PASSWORD: byte := 1
  const OP_CREATE_KEYS: byte := 2
  const OP_SIGN_DOC: byte := 3
  const OP_GET_PUBLIC_KEY: byte := 4
  const OP_DELETE_KEYS: byte := 5
  const OP_LOGOUT: byte := 6

  datatype Status = Ok | Err | ErrAuth | ErrDeleted | ErrNotFound | ErrBadReq | ErrInternal

  datatype Login = Login(user: Bytes, password: Bytes)
  datatype Target = Own | Named(user: Bytes) | Malformed

  /** A byte string of 1 to 255 bytes, as the length-prefixed fields carry it. */
  predicate Short(s: Bytes) {
    0 < |s| <= 255
  }

  /** One length byte, then the bytes. */
  function Prefixed(s: Bytes): Bytes
    requires |s| <= 255
  {
    [|s|] + s
  }

  function BuildAuth(user: Bytes, password: Bytes): Bytes
    requires Short(user) && Short(password)
  {
    [OP_AUTH] + Prefixed(user) + Prefixed(password)
  }

  function BuildChange(password: Bytes): Bytes
    requires Short(password)
  {
    [OP_CHANGE_PASSWORD] + Prefixed(password)
  }

  function BuildTarget(user: Bytes): Bytes
    requires Short(user)
  {
    [OP_GET_PUBLIC_KEY] + Prefixed(user)
  }

  /** The two C strings of an AUTH request, when its lengths are consistent and neither field is empty. */
  function ParseAuth(pt: Bytes): Option<Login> {
    if |pt| < 3 then None
    else
      var ulen := pt[1] as int;
      if |pt| < 3 + ulen then None
      else
        var plen := pt[2 + ulen] as int;
        if |pt| != 3 + ulen + plen || ulen == 0 || plen == 0 then None
        else Some(Login(CStr(pt[2..2 + ulen]), CStr(pt[3 + ulen..])))
  }

  function ParseChange(pt: Bytes): Option<Bytes> {
    if |pt| < 2 || |pt| != 2 + pt[1] as int || pt[1] == 0 then None else Some(CStr(pt[2..]))
  }

  function ParseTarget(pt: Bytes): Target
    requires pt != []
  {
    if |pt| == 1 then Own
    else if |pt| != 2 + pt[1] as int || pt[1] == 0 then Malformed
    else Named(CStr(pt[2..]))
  }

  lemma AuthLayout(user: Bytes, password: Bytes)
    requires Short(user) && Short(password)
    ensures var pt := BuildAuth(user, password);
      && |pt| == 3 + |user| + |password| && pt[1] == |user| && pt[2 + |user|] == |password|
      && pt[2..2 + |user|] == user && pt[3 + |user|..] == password
  {
  }

  /** An AUTH request reaches password verification exactly when it encodes two strings of 1 to 255 bytes. */
  lemma AuthParsesExactly(pt: Bytes, login: Login)
    requires pt != [] && pt[0] == OP_AUTH
    ensures ParseAuth(pt) == Some(login) <==>
      exists user, password :: Short(user) && Short(password) && pt == BuildAuth(user, password)
        && login == Login(CStr(user), CStr(password))
  {
    if ParseAuth(pt) == Some(login) {
      var user, password := pt[2..2 + pt[1] as int], pt[3 + pt[1] as int..];
      assert pt == BuildAuth(user, password);
    }
    forall user, password | Short(user) && Short(password) && pt == BuildAuth(user, password)
      && login == Login(CStr(user), CStr(password))
      ensures ParseAuth(pt) == Some(login)
    {
      AuthLayout(user, password);
    }
  }

  /** What the client sends is what the server recovers, for strings without a zero byte. */
  lemma BuiltRequestsParse(user: Bytes, password: Bytes)
    requires Short(user) && Short(password) && 0 !in user && 0 !in password
    ensures ParseAuth(BuildAuth(user, password)) == Some(Login(user, password))
    ensures ParseChange(BuildChange(password)) == Some(password)
    ensures ParseTarget(BuildTarget(user)) == Named(user)
  {
    AuthLayout(user, password);
    CStrOfClean(user);
    CStrOfClean(password);
    assert BuildChange(password)[2..] == password;
    assert BuildTarget(user)[2..] == user;
  }

  /** Password-change and key-lookup requests are read exactly when they are encodings too. */
  lemma OthersParseExactly(pt: Bytes, s: Bytes)
    requires pt != []
    ensures pt[0] == OP_CHANGE_PASSWORD ==>
      (ParseChange(pt) == Some(s) <==> exists raw :: Short(raw) && pt == BuildChange(raw) && s == CStr(raw))
    ensures pt[0] == OP_GET_PUBLIC_KEY ==>
      (ParseTarget(pt) == Named(s) <==> exists raw :: Short(raw) && pt == BuildTarget(raw) && s == CStr(raw))
  {
    if |pt| >= 2 && |pt| == 2 + pt[1] as int && pt[1] != 0 {
      var raw := pt[2..];
      assert Short(raw) && pt == [pt[0]] + Prefixed(raw);
    }
    forall raw | Short(raw) && pt == [pt[0]] + Prefixed(raw) ensures pt[2..] == raw && pt[1] == |raw| {
    }
  }

  /** The client's `login` fills its stack buffer field by field. */
  method FillAuthPayload(user: Bytes, password: Bytes) returns (payload: array<byte>, length: nat)
    requires Short(user) && Short(password)
    ensures fresh(payload) && payload.Length == 512 && length == 2 + |user| + |password|
    ensures [OP_AUTH] + payload[..length] == BuildAuth(user, password)
  {
    payload := new byte[512](_ => 0);
    payload[0] := |user|;
    CopyInto(payload, 1, user);
    payload[1 + |user|] := |password|;
    ghost var head := payload[..2 + |user|];
    assert head == Prefixed(user) + [|password|];
    CopyInto(payload, 2 + |user|, password);
    length := 2 + |user| + |password|;
    assert payload[..length] == head + password;
  }
}

/** The text form of the user table, as `server/auth.c` and `tools/account_provision.c` both read and print it. */
module TableText {
  import opened Octets

  const COLON: byte := 58
  const NEWLINE: byte := 10

  /** The line buffer of both programs; `fgets` fills at most one byte less. */
  const LINE_MAX := 1024

  /** The longest name whose printed record still fits one line buffer. */
  const NAME_MAX := 921

  datatype User = User(name: Bytes, mustChange: bool, deleted: bool, salt: Salt, hash: Digest)

  // ---------- hexadecimal ----------

  function HexDigit(v: int): (c: byte)
    requires 0 <= v < 16
    ensures 48 <= c <= 57 || 97 <= c <= 102
    ensures Nibble(c) == Some(v)
  {
    if v < 10 then 48 + v else 87 + v
  }

  /** The value of a hexadecimal digit in either case. */
  function Nibble(c: byte): (v: Option<int>)
    ensures v.Some? ==> 0 <= v.value < 16
  {
    if 48 <= c <= 57 then Some(c - 48)
    else if 97 <= c <= 102 then Some(c - 87)
    else if 65 <= c <= 70 then Some(c - 55)
    else None
  }

  function HexEncode(data: Bytes): (h: Bytes)
    ensures |h| == 2 * |data|
    ensures forall c | c in h :: 48 <= c <= 57 || 97 <= c <= 102
  {
    if data == [] then []
    else HexEncode(data[..|data| - 1]) + [HexDigit(data[|data| - 1] / 16), HexDigit(data[|data| - 1] % 16)]
  }

  predicate AllHex(h: Bytes) {
    forall i | 0 <= i < |h| :: Nibble(h[i]).Some?
  }

  /** The bytes that pairs of hexadecimal digits stand for. */
  function HexPairs(h: Bytes): (data: Bytes)
    requires |h| % 2 == 0 && AllHex(h)
    ensures |data| == |h| / 2
  {
    if h == [] then []
    else HexPairs(h[..|h| - 2]) + [16 * Nibble(h[|h| - 2]).value + Nibble(h[|h| - 1]).value]
  }

  function HexDecode(h: Bytes, n: nat): (data: Option<Bytes>)
    ensures data.Some? ==> |data.value| == n
  {
    if |h| == 2 * n && AllHex(h) then Some(HexPairs(h)) else None
  }

  /** Every byte string survives the lower-case hexadecimal form. */
  lemma {:induction false} HexRoundTrip(data: Bytes)
    ensures HexDecode(HexEncode(data), |data|) == Some(data)
  {
    EncodedIsHex(data);
    hide AllHex;
    if data != [] {
      var n, front, b := |data| - 1, data[..|data| - 1], data[|data| - 1];
      HexRoundTrip(front);
      EncodedPair(data);
      hide HexEncode, Nibble;
      LastPair(HexEncode(data), 2 * n);
      assert data == front + [b];
    }
  }

  lemma EncodedIsHex(data: Bytes)
    ensures AllHex(HexEncode(data))
  {
    hide HexEncode;
    var h := HexEncode(data);
    forall i | 0 <= i < |h| ensures Nibble(h[i]).Some? {
      assert h[i] in h;
    }
  }

  lemma EncodedPair(data: Bytes)
    requires data != []
    ensures var h, n, b := HexEncode(data), 2 * (|data| - 1), data[|data| - 1];
      h[..n] == HexEncode(data[..|data| - 1]) && h[n] == HexDigit(b / 16) && h[n + 1] == HexDigit(b % 16)
  {
  }

  lemma LastPair(h: Bytes, n: nat)
    requires |h| == n + 2 && n % 2 == 0 && AllHex(h)
    ensures AllHex(h[..n]) && HexPairs(h) == HexPairs(h[..n]) + [16 * Nibble(h[n]).value + Nibble(h[n + 1]).value]
  {
    hide Nibble;
  }

  method HexEncodeInto(data: Bytes, out: array<byte>) returns (ok: bool)
    modifies out
    ensures ok <==> 2 * |data| + 1 <= out.Length
    ensures ok ==> out[..2 * |data|] == HexEncode(data) && out[2 * |data|] == 0
    ensures !ok ==> out[..] == old(out[..])
  {
    if out.Length < 2 * |data| + 1 {
      return false;
    }
    for i := 0 to |data|
      invariant out[..2 * i] == HexEncode(data[..i])
    {
      assert data[..i + 1][..i] == data[..i];
      out[2 * i] := HexDigit(data[i] / 16);
      out[2 * i + 1] := HexDigit(data[i] % 16);
      assert out[..2 * (i + 1)] == out[..2 * i] + [HexDigit(data[i] / 16), HexDigit(data[i] % 16)];
    }
    assert data[..|data|] == data;
    out[2 * |data|] := 0;
    return true;
  }

  method HexDecodeInto(text: Bytes, out: array<byte>) returns (ok: bool)
    modifies out
    ensures ok <==> HexDecode(text, out.Length).Some?
    ensures ok ==> out[..] == HexDecode(text, out.Length).value
  {
    if |text| != 2 * out.Length {
      return false;
    }
    hide Nibble;
    for i := 0 to out.Length
      invariant AllHex(text[..2 * i])
      invariant out[..i] == HexPairs(text[..2 * i])
    {
      var hi, lo := Nibble(text[2 * i]), Nibble(text[2 * i + 1]);
      if hi == None || lo == None {
        return false;
      }
      assert text[..2 * (i + 1)][..2 * i] == text[..2 * i];
      out[i] := 16 * hi.value + lo.value;
      assert out[..i + 1] == out[..i] + [out[i]];
    }
    assert text[..2 * out.Length] == text;
    return true;
  }

  // ---------- splitting a line at colons ----------

  /** The nonempty runs between colons, in order: what repeated `strtok(_, ":")` yields. */
  function Tokens(s: Bytes): (ts: seq<Bytes>)
    ensures forall t | t in ts :: IsField(t)
    decreases |s|
  {
    if s == [] then []
    else if s[0] == COLON then Tokens(s[1..])
    else
      var k := IndexOf(s, COLON);
      [s[..k]] + Tokens(s[k..])
  }

  /** One `strtok` call: the token found and where the next call continues. */
  method StrTok(s: Bytes) returns (token: Option<Bytes>, rest: Bytes)
    ensures token == None <==> Tokens(s) == []
    ensures token.Some? ==> Tokens(s) == [token.value] + Tokens(rest)
    ensures |rest| <= |s|
  {
    var i := 0;
    while i < |s| && s[i] == COLON
      invariant i <= |s|
      invariant Tokens(s) == Tokens(s[i..])
    {
      assert s[i..][1..] == s[i + 1..];
      i := i + 1;
    }
    if i == |s| {
      return None, [];
    }
    var k := IndexOf(s[i..], COLON);
    token := Some(s[i..][..k]);
    rest := s[i..][k..];
    if rest != [] {
      rest := rest[1..];
    }
  }

  predicate IsField(t: Bytes) {
    t != [] && COLON !in t
  }

  lemma {:induction false} TokensOfField(a: Bytes, b: Bytes)
    requires IsField(a)
    ensures Tokens(a) == [a]
    ensures Tokens(a + [COLON] + b) == [a] + Tokens(b)
  {
    assert a[..|a|] == a && a[|a|..] == [];
    IndexOfUnique(a, COLON, |a|);
    var s := a + [COLON] + b;
    assert s[..|a|] == a;
    IndexOfUnique(s, COLON, |a|);
    assert s[|a|..] == [COLON] + b;
    assert s[|a|..][1..] == b;
  }

  /** Total length of a list of byte strings. */
  function TotalLength(ts: seq<Bytes>): nat {
    if ts == [] then 0 else |ts[0]| + TotalLength(ts[1..])
  }

  lemma TotalLengthCons(t: Bytes, ts: seq<Bytes>)
    ensures TotalLength([t] + ts) == |t| + TotalLength(ts)
  {
    assert ([t] + ts)[1..] == ts;
  }

  lemma TotalLengthOfFive(a: Bytes, b: Bytes, c: Bytes, d: Bytes, e: Bytes)
    ensures TotalLength([a, b, c, d, e]) == |a| + |b| + |c| + |d| + |e|
  {
    TotalLengthCons(e, []);
    TotalLengthCons(d, [e]);
    TotalLengthCons(c, [d, e]);
    TotalLengthCons(b, [c, d, e]);
    TotalLengthCons(a, [b, c, d, e]);
    assert [a, b, c, d, e] == [a] + [b, c, d, e] && [b, c, d, e] == [b] + [c, d, e];
    assert [c, d, e] == [c] + [d, e] && [d, e] == [d] + [e] && [e] == [e] + [];
  }

  lemma {:induction false} TokensFit(s: Bytes)
    ensures Tokens(s) != [] ==> TotalLength(Tokens(s)) + |Tokens(s)| - 1 <= |s|
    decreases |s|
  {
    if s == [] {
    } else if s[0] == COLON {
      TokensFit(s[1..]);
    } else {
      var k := IndexOf(s, COLON);
      TokensFit(s[k..]);
      if k < |s| {
        TokensFit(s[k..][1..]);
      }
      assert Tokens(s)[1..] == Tokens(s[k..]);
    }
  }

  lemma {:induction false} TokensDrawnFrom(s: Bytes)
    ensures forall t, x | t in Tokens(s) && x in t :: x in s
    decreases |s|
  {
    if s == [] {
    } else if s[0] == COLON {
      TokensDrawnFrom(s[1..]);
    } else {
      TokensDrawnFrom(s[IndexOf(s, COLON)..]);
    }
  }

  // ---------- flags ----------

  predicate IsSpace(c: byte) {
    c == 32 || 9 <= c <= 13
  }

  function SkipSpace(s: Bytes): Bytes {
    if s != [] && IsSpace(s[0]) then SkipSpace(s[1..]) else s
  }

  predicate AllDigits(s: Bytes) {
    forall i | 0 <= i < |s| :: 48 <= s[i] <= 57
  }

  function DecimalValue(s: Bytes): nat
    requires AllDigits(s)
  {
    if s == [] then 0
    else 10 * DecimalValue(s[..|s| - 1]) + (s[|s| - 1] as int - 48)
  }

  /** A flag as `strtol` in base ten reads it: the whole token must be one number, and that number 0 or 1. */
  function ParseFlag(s: Bytes): Option<bool> {
    var unspaced := SkipSpace(s);
    var negative := unspaced != [] && unspaced[0] == 45;
    var digits := if unspaced != [] && (unspaced[0] == 45 || unspaced[0] == 43) then unspaced[1..] else unspaced;
    if digits == [] || !AllDigits(digits) || 1 < DecimalValue(digits) || (negative && DecimalValue(digits) == 1) then
      None
    else
      Some(DecimalValue(digits) == 1)
  }

  function FlagText(b: bool): Bytes {
    [if b then 49 else 48]
  }

  lemma FlagRoundTrip(b: bool)
    ensures ParseFlag(FlagText(b)) == Some(b)
  {
    var d := FlagText(b);
    assert d[..|d| - 1] == [];
    assert SkipSpace(d) == d;
    assert DecimalValue(d) == d[0] as int - 48;
  }

  // ---------- one record ----------

  function ParseLine(line: Bytes): Option<User> {
    var f := Tokens(line);
    if |f| != 5 then None
    else
      match (ParseFlag(f[1]), ParseFlag(f[2]), HexDecode(f[3], 16), HexDecode(f[4], 32))
      case (Some(m), Some(d), Some(s), Some(h)) => Some(User(f[0], m, d, s, h))
      case _ => None
  }

  /** The five `strtok` calls, the sixth that must find nothing, and the field checks of both programs. */
  method ParseRecord(line: Bytes) returns (r: Option<User>)
    ensures r == ParseLine(line)
  {
    hide ParseFlag, HexDecode;
    var fields: seq<Bytes> := [];
    var rest := line;
    for i := 0 to 5
      invariant |fields| == i && Tokens(line) == fields + Tokens(rest)
    {
      var token;
      token, rest := StrTok(rest);
      if token == None {
        return None;
      }
      fields := fields + [token.value];
    }
    var extra, _ := StrTok(rest);
    if extra != None {
      return None;
    }
    var mustChange, deleted := ParseFlag(fields[1]), ParseFlag(fields[2]);
    if mustChange == None || deleted == None {
      return None;
    }
    var salt, hash := new byte[16], new byte[32];
    var saltOk := HexDecodeInto(fields[3], salt);
    if !saltOk {
      return None;
    }
    var hashOk := HexDecodeInto(fields[4], hash);
    if !hashOk {
      return None;
    }
    return Some(User(fields[0], mustChange.value, deleted.value, salt[..], hash[..]));
  }

  function LineBody(u: User): (b: Bytes)
    ensures |b| == |u.name| + 102
  {
    u.name + [COLON] + (FlagText(u.mustChange) + [COLON] + (FlagText(u.deleted) + [COLON]
    + (HexEncode(u.salt) + [COLON] + HexEncode(u.hash))))
  }

  /** The record as `fprintf` writes it. */
  function Line(u: User): Bytes {
    LineBody(u) + [NEWLINE]
  }

  predicate NameOk(name: Bytes) {
    0 < |name| <= NAME_MAX && COLON !in name && NEWLINE !in name && 0 !in name
  }

  lemma TokensOfFive(a: Bytes, b: Bytes, c: Bytes, d: Bytes, e: Bytes)
    requires IsField(a) && IsField(b) && IsField(c) && IsField(d) && IsField(e)
    ensures Tokens(a + [COLON] + (b + [COLON] + (c + [COLON] + (d + [COLON] + e)))) == [a, b, c, d, e]
  {
    TokensOfField(e, []);
    TokensOfField(d, e);
    TokensOfField(c, d + [COLON] + e);
    TokensOfField(b, c + [COLON] + (d + [COLON] + e));
    TokensOfField(a, b + [COLON] + (c + [COLON] + (d + [COLON] + e)));
  }

  lemma LineBodyParses(u: User)
    requires u.name != [] && COLON !in u.name
    ensures ParseLine(LineBody(u)) == Some(u)
  {
    hide Tokens, HexEncode, HexDecode, ParseFlag;
    HexRoundTrip(u.salt);
    HexRoundTrip(u.hash);
    FlagRoundTrip(u.mustChange);
    FlagRoundTrip(u.deleted);
    TokensOfFive(u.name, FlagText(u.mustChange), FlagText(u.deleted), HexEncode(u.salt), HexEncode(u.hash));
  }

  lemma LineBodyClean(u: User)
    requires NEWLINE !in u.name && 0 !in u.name
    ensures NEWLINE !in LineBody(u) && 0 !in LineBody(u)
  {
    HexRoundTrip(u.salt);
    HexRoundTrip(u.hash);
  }

  /** A record read from one buffered line has a name that fits the buffer again when printed. */
  lemma ParsedNameOk(line: Bytes)
    requires |line| < LINE_MAX && NEWLINE !in line && 0 !in line && ParseLine(line).Some?
    ensures NameOk(ParseLine(line).value.name)
  {
    var f := Tokens(line);
    TokensFit(line);
    TokensDrawnFrom(line);
    assert f[0] in f && f[1] in f && f[2] in f;
    TotalLengthOfFive(f[0], f[1], f[2], f[3], f[4]);
    assert f == [f[0], f[1], f[2], f[3], f[4]];
  }

  // ---------- the whole file ----------

  /** How much of the file one `fgets` call takes: to the newline, or a full buffer. */
  function ChunkLength(file: Bytes): (k: nat)
    requires file != []
    ensures 0 < k <= |file| && k < LINE_MAX
  {
    var window := file[..if |file| < LINE_MAX - 1 then |file| else LINE_MAX - 1];
    var i := IndexOf(window, NEWLINE);
    if i < |window| then i + 1 else i
  }

  /** The line seen in a filled buffer: a C string, cut at its newline. */
  function LineOf(chunk: Bytes): (line: Bytes)
    ensures |line| <= |chunk| && NEWLINE !in line && 0 !in line
  {
    var s := CStr(chunk);
    var line := s[..IndexOf(s, NEWLINE)];
    assert forall x | x in line :: x in s;
    line
  }

  /** Replacing a record under its own name moves no record. */
  lemma {:induction false} FindAfterUpdate(t: seq<User>, i: nat, u: User, name: Bytes)
    requires i < |t| && u.name == t[i].name
    ensures Find(t[i := u], name) == Find(t, name)
  {
    if i > 0 {
      FindAfterUpdate(t[1..], i - 1, u, name);
      assert t[i := u][1..] == t[1..][i - 1 := u];
    } else {
      assert t[i := u][1..] == t[1..];
    }
  }

  /** The nonblank lines the `fgets` loops of both programs process, in order. */
  function Lines(file: Bytes): seq<Bytes>
    decreases |file|
  {
    if file == [] then []
    else
      var k := ChunkLength(file);
      var line := LineOf(file[..k]);
      (if line == [] then [] else [line]) + Lines(file[k..])
  }

  lemma {:induction false} LinesClean(file: Bytes)
    ensures forall l | l in Lines(file) :: 0 < |l| < LINE_MAX && NEWLINE !in l && 0 !in l
    decreases |file|
  {
    if file != [] {
      LinesClean(file[ChunkLength(file)..]);
    }
  }

  /** One turn of an `fgets` loop: what has been read so far grows by the next line, if it is not blank. */
  lemma LinesStep(file: Bytes, done: seq<Bytes>, pos: nat)
    requires pos < |file| && Lines(file) == done + Lines(file[pos..])
    ensures var k := ChunkLength(file[pos..]);
      var line := LineOf(file[pos..][..k]);
      Lines(file) == (if line == [] then done else done + [line]) + Lines(file[pos + k..])
  {
    hide Lines, LineOf, ChunkLength;
    var k := ChunkLength(file[pos..]);
    var line := LineOf(file[pos..][..k]);
    LinesUnfold(file[pos..]);
    DropTwice(file, pos, k);
    LinesGrow(done, line, Lines(file[pos..]), Lines(file[pos + k..]));
  }

  lemma DropTwice(b: Bytes, i: nat, k: nat)
    requires i + k <= |b|
    ensures b[i..][k..] == b[i + k..]
  {
  }

  lemma LinesGrow(done: seq<Bytes>, line: Bytes, rest: seq<Bytes>, tail: seq<Bytes>)
    requires rest == (if line == [] then [] else [line]) + tail
    ensures done + rest == (if line == [] then done else done + [line]) + tail
  {
    Regroup(done, [line], tail);
  }

  lemma LinesUnfold(file: Bytes)
    requires file != []
    ensures var k := ChunkLength(file);
      var line := LineOf(file[..k]);
      Lines(file) == (if line == [] then [] else [line]) + Lines(file[k..])
  {
    hide LineOf, ChunkLength;
  }

  function ParseAll(lines: seq<Bytes>): Option<seq<User>> {
    if lines == [] then Some([]) else Prepend(ParseLine(lines[0]), ParseAll(lines[1..]))
  }

  /** Every record of a file in order, as the provisioning tool loads it: one bad line is fatal. */
  function Records(file: Bytes): Option<seq<User>> {
    ParseAll(Lines(file))
  }

  /** Index of the first record with a name. */
  function Find(t: seq<User>, name: Bytes): (i: Option<nat>)
    ensures i.Some? ==> i.value < |t| && t[i.value].name == name
    ensures i.None? <==> forall j | 0 <= j < |t| :: t[j].name != name
  {
    if t == [] then None
    else if t[0].name == name then Some(0)
    else
      match Find(t[1..], name)
      case Some(i) => Some(i + 1)
      case None => assert forall j | 1 <= j < |t| :: t[j] == t[1..][j - 1]; None
  }

  function RecordOf(t: seq<User>, name: Bytes): Option<User> {
    match Find(t, name) case Some(i) => Some(t[i]) case None => None
  }

  lemma FindUnique(t: seq<User>, i: nat)
    requires i < |t| && Distinct(t)
    ensures Find(t, t[i].name) == Some(i)
  {
  }

  predicate Distinct(t: seq<User>) {
    forall i, j | 0 <= i < j < |t| :: t[i].name != t[j].name
  }

  /** The server's reading of a file: the same records, refused when a name occurs twice. */
  function Load(file: Bytes): Option<seq<User>> {
    var t := Records(file);
    if t.Some? && Distinct(t.value) then t else None
  }

  function Print(t: seq<User>): Bytes {
    if t == [] then [] else Line(t[0]) + Print(t[1..])
  }

  predicate WellFormed(t: seq<User>) {
    Distinct(t) && forall u | u in t :: NameOk(u.name)
  }

  lemma ReplacedWellFormed(t: seq<User>, i: nat, u: User)
    requires WellFormed(t) && i < |t| && u.name == t[i].name
    ensures WellFormed(t[i := u])
  {
    assert t[i] in t;
    forall x | x in t[i := u] ensures NameOk(x.name) {
      var j :| 0 <= j < |t| && t[i := u][j] == x;
      assert t[j] in t;
    }
  }

  lemma AppendedWellFormed(t: seq<User>, u: User)
    requires WellFormed(t) && Find(t, u.name).None? && NameOk(u.name)
    ensures WellFormed(t + [u])
  {
  }

  lemma {:induction false} ParsedNamesOk(lines: seq<Bytes>)
    requires forall l | l in lines :: |l| < LINE_MAX && NEWLINE !in l && 0 !in l
    ensures ParseAll(lines).Some? ==> forall u | u in ParseAll(lines).value :: NameOk(u.name)
  {
    if lines != [] {
      ParsedNamesOk(lines[1..]);
      if ParseLine(lines[0]).Some? {
        ParsedNameOk(lines[0]);
      }
    }
  }

  lemma ConcatAssociative(a: Bytes, b: Bytes, c: Bytes)
    ensures a + (b + c) == (a + b) + c
  {
  }

  lemma {:induction false} PrintAppend(a: seq<User>, b: seq<User>)
    ensures Print(a + b) == Print(a) + Print(b)
  {
    hide Line;
    if a == [] {
      assert a + b == b;
    } else {
      PrintAppend(a[1..], b);
      assert (a + b)[1..] == a[1..] + b;
      ConcatAssociative(Line(a[0]), Print(a[1..]), Print(b));
    }
  }

  lemma PrintOne(t: seq<User>, u: User)
    ensures Print(t + [u]) == Print(t) + Line(u)
  {
    hide Line;
    PrintAppend(t, [u]);
    assert [u][1..] == t[..0];
    assert Line(u) + [] == Line(u);
  }

  /** A blank line, such as the one left when a 1023-byte record fills the buffer, reads as nothing. */
  lemma LinesSkipBlank(rest: Bytes)
    ensures Lines([NEWLINE] + rest) == Lines(rest)
  {
    var file := [NEWLINE] + rest;
    assert file[..1] == [NEWLINE] && file[1..] == rest;
    assert ChunkLength(file) == 1;
    assert CStr([NEWLINE])[..0] == [];
    assert LineOf([NEWLINE]) == [];
  }

  /** A printed line of at most 1023 bytes is read back as that line. */
  lemma LinesOfBody(body: Bytes, rest: Bytes)
    requires 0 < |body| < LINE_MAX && NEWLINE !in body && 0 !in body
    ensures Lines(body + [NEWLINE] + rest) == [body] + Lines(rest)
  {
    var file := body + [NEWLINE] + rest;
    var window := file[..if |file| < LINE_MAX - 1 then |file| else LINE_MAX - 1];
    assert window[..|body|] == body;
    IndexOfUnique(window, NEWLINE, |body|);
    var k := ChunkLength(file);
    if |body| < LINE_MAX - 1 {
      assert file[..k] == body + [NEWLINE] && file[k..] == rest;
      CStrOfClean(body + [NEWLINE]);
      IndexOfUnique(body + [NEWLINE], NEWLINE, |body|);
      assert (body + [NEWLINE])[..|body|] == body;
    } else {
      assert file[..k] == body && file[k..] == [NEWLINE] + rest;
      CStrOfClean(body);
      IndexOfUnique(body, NEWLINE, |body|);
      LinesSkipBlank(rest);
    }
  }

  lemma {:induction false} RecordsOfPrint(t: seq<User>)
    requires forall u | u in t :: NameOk(u.name)
    ensures Records(Print(t)) == Some(t)
  {
    hide LineBody, ParseLine;
    if t != [] {
      RecordsOfPrint(t[1..]);
      var body := LineBody(t[0]);
      LineBodyClean(t[0]);
      LineBodyParses(t[0]);
      LinesOfBody(body, Print(t[1..]));
      assert ([body] + Lines(Print(t[1..])))[1..] == Lines(Print(t[1..]));
      assert t == [t[0]] + t[1..];
    }
  }

  /** Printing and loading give a table back exactly when its names are distinct and fit the format. */
  lemma LoadOfPrint(t: seq<User>)
    ensures Load(Print(t)) == Some(t) <==> WellFormed(t)
  {
    LinesClean(Print(t));
    ParsedNamesOk(Lines(Print(t)));
    if WellFormed(t) {
      RecordsOfPrint(t);
    }
  }

  /** Whatever file the server accepts, writing the loaded table and loading again changes nothing. */
  lemma TableIdempotence(file: Bytes)
    requires Load(file).Some?
    ensures WellFormed(Load(file).value)
    ensures Load(Print(Load(file).value)) == Load(file)
  {
    LinesClean(file);
    ParsedNamesOk(Lines(file));
    LoadOfPrint(Load(file).value);
  }

  // ---------- names too long for the reader ----------

  /** A name that `strtok` can have produced from a line: only its length may be wrong. */
  predicate CleanName(name: Bytes) {
    name != [] && COLON !in name && NEWLINE !in name && 0 !in name
  }

  lemma TotalLengthOfFour(a: Bytes, b: Bytes, c: Bytes, d: Bytes)
    ensures TotalLength([a, b, c, d]) == |a| + |b| + |c| + |d|
  {
    var e: Bytes := [];
    TotalLengthOfFive(e, a, b, c, d);
    TotalLengthCons(e, [a, b, c, d]);
    assert [e, a, b, c, d] == [e] + [a, b, c, d];
  }

  /** At most 100 bytes after the name cannot hold the four other fields. */
  lemma ShortTailUnparsable(name: Bytes, tail: Bytes)
    requires IsField(name) && |tail| <= 100
    ensures ParseLine(name + [COLON] + tail).None?
  {
    hide ParseFlag;
    TokensOfField(name, tail);
    var f, g := Tokens(name + [COLON] + tail), Tokens(tail);
    if |f| == 5 {
      TokensFit(tail);
      assert g == f[1..] && g == [f[1], f[2], f[3], f[4]];
      TotalLengthOfFour(f[1], f[2], f[3], f[4]);
      assert IsField(g[0]) && IsField(g[1]);
    }
  }

  /** The part of an overlong record that the reader's buffer holds is not a record. */
  lemma CutLineUnparsable(u: User)
    requires CleanName(u.name) && NAME_MAX < |u.name|
    ensures ParseLine(LineBody(u)[..LINE_MAX - 1]).None?
  {
    hide ParseFlag, HexEncode, HexDecode;
    var body, n := LineBody(u), |u.name|;
    var chunk := body[..LINE_MAX - 1];
    assert body[..n] == u.name && body[n] == COLON;
    if n < LINE_MAX - 1 {
      assert chunk == u.name + [COLON] + chunk[n + 1..];
      ShortTailUnparsable(u.name, chunk[n + 1..]);
    } else {
      assert chunk == u.name[..LINE_MAX - 1];
      TokensOfField(chunk, []);
    }
  }

  lemma LongLineUnreadable(u: User, rest: Bytes)
    requires CleanName(u.name) && NAME_MAX < |u.name|
    ensures Records(Line(u) + rest).None?
  {
    hide ParseLine;
    var body, file := LineBody(u), Line(u) + rest;
    var chunk := body[..LINE_MAX - 1];
    LineBodyClean(u);
    assert file[..LINE_MAX - 1] == chunk;
    assert NEWLINE !in chunk && 0 !in chunk;
    IndexOfUnique(chunk, NEWLINE, |chunk|);
    CStrOfClean(chunk);
    LinesUnfold(file);
    assert Lines(file) == [chunk] + Lines(file[LINE_MAX - 1..]);
    CutLineUnparsable(u);
  }

  /** A table of clean names is readable exactly when every name fits. */
  lemma {:induction false} PrintReadable(t: seq<User>)
    requires forall u | u in t :: CleanName(u.name)
    ensures Records(Print(t)).Some? <==> forall u | u in t :: |u.name| <= NAME_MAX
  {
    hide ParseLine, LineBody, Lines;
    if t == [] {
      RecordsOfPrint(t);
    } else if NAME_MAX < |t[0].name| {
      LongLineUnreadable(t[0], Print(t[1..]));
      assert t[0] in t;
    } else {
      var body := LineBody(t[0]);
      PrintReadable(t[1..]);
      LineBodyClean(t[0]);
      LineBodyParses(t[0]);
      LineBodyLength(t[0]);
      LinesOfBody(body, Print(t[1..]));
      FirstLine(body, Lines(Print(t[1..])));
      assert forall u | u in t :: u == t[0] || u in t[1..];
    }
  }

  lemma LineBodyLength(u: User)
    ensures |LineBody(u)| == |u.name| + 102
  {
  }

  lemma FirstLine(line: Bytes, lines: seq<Bytes>)
    requires ParseLine(line).Some?
    ensures ParseAll([line] + lines).Some? <==> ParseAll(lines).Some?
  {
    assert ([line] + lines)[1..] == lines;
  }

  /** A written table of clean names loads exactly when it is well formed; otherwise the server refuses the file. */
  lemma LoadsExactly(t: seq<User>)
    requires forall u | u in t :: CleanName(u.name)
    ensures Load(Print(t)).Some? <==> WellFormed(t)
  {
    hide Records, Print;
    LoadOfPrint(t);
    PrintReadable(t);
    if forall u | u in t :: |u.name| <= NAME_MAX {
      RecordsOfPrint(t);
    }
  }

  // ---------- what the text means, character by character ----------

  /** "0123456789abcdef" and "0123456789ABCDEF" */
  const LOWER: Bytes := [48, 49, 50, 51, 52, 53, 54, 55, 56, 57, 97, 98, 99, 100, 101, 102]
  const UPPER: Bytes := [48, 49, 50, 51, 52, 53, 54, 55, 56, 57, 65, 66, 67, 68, 69, 70]

  lemma NibbleExactly(c: byte, v: int)
    requires 0 <= v < 16
    ensures Nibble(c) == Some(v) <==> c == LOWER[v] || c == UPPER[v]
    ensures HexDigit(v) == LOWER[v]
  {
  }

  /** Text decodes to some bytes exactly when each byte's two halves are written in turn, high half first. */
  lemma {:induction false} HexDecodesExactly(h: Bytes, data: Bytes)
    ensures HexDecode(h, |data|) == Some(data) <==>
      |h| == 2 * |data| && forall i | 0 <= i < |data| :: HexPair(h, i, data[i])
  {
    hide Nibble;
    if |h| == 2 * |data| && data != [] {
      var n := |data| - 1;
      var front, short := data[..n], h[..2 * n];
      HexDecodesExactly(short, front);
      assert forall i | 0 <= i < n :: HexPair(short, i, front[i]) == HexPair(h, i, data[i]);
      HalvesOf(data[n]);
      if AllHex(h) {
        LastPair(h, 2 * n);
        assert data == front + [data[n]];
        HalvesUnique(Nibble(h[2 * n]).value, Nibble(h[2 * n + 1]).value, data[n]);
      } else if forall i | 0 <= i < |data| :: HexPair(h, i, data[i]) {
        PairsAreHex(h, data);
      }
      if forall i | 0 <= i < |data| :: HexPair(h, i, data[i]) {
        assert HexPair(h, n, data[n]);
      }
    }
  }

  predicate HexPair(h: Bytes, i: nat, b: byte) {
    2 * i + 1 < |h| && Nibble(h[2 * i]) == Some(b / 16) && Nibble(h[2 * i + 1]) == Some(b % 16)
  }

  lemma HalvesOf(b: byte)
    ensures b == 16 * (b / 16) + b % 16 && 0 <= b / 16 < 16
  {
  }

  lemma HalvesUnique(high: int, low: int, b: byte)
    requires 0 <= high < 16 && 0 <= low < 16
    ensures 16 * high + low == b <==> high == b / 16 && low == b % 16
  {
  }

  lemma PairsAreHex(h: Bytes, data: Bytes)
    requires |h| == 2 * |data| && forall i | 0 <= i < |data| :: HexPair(h, i, data[i])
    ensures AllHex(h)
  {
    hide Nibble;
    forall i | 0 <= i < |h| ensures Nibble(h[i]).Some? {
      assert HexPair(h, i / 2, data[i / 2]);
    }
  }

  /** A record is written as name, must-change flag, deleted flag, salt and hash, the flags as "1" or "0". */
  lemma FieldsInOrder(u: User)
    requires IsField(u.name)
    ensures Tokens(LineBody(u)) ==
      [u.name, [if u.mustChange then 49 else 48], [if u.deleted then 49 else 48], HexEncode(u.salt), HexEncode(u.hash)]
    ensures LineBody(u)[|u.name|] == 58 && |LineBody(u)| == |u.name| + 4 + 1 + 1 + 32 + 64
  {
    hide Tokens, HexEncode, HexDecode;
    HexRoundTrip(u.salt);
    HexRoundTrip(u.hash);
    TokensOfFive(u.name, FlagText(u.mustChange), FlagText(u.deleted), HexEncode(u.salt), HexEncode(u.hash));
  }

  /** A sign and digits after white space, as `strtol` in base ten takes them. */
  predicate FlagNumber(s: Bytes, space: Bytes, sign: Bytes, digits: Bytes) {
    && s == space + sign + digits
    && (forall i | 0 <= i < |space| :: IsSpace(space[i]))
    && (sign == [] || sign == [43] || sign == [45])
    && digits != [] && AllDigits(digits)
  }

  lemma {:induction false} SkipSpaceSkips(space: Bytes, rest: Bytes)
    requires (forall i | 0 <= i < |space| :: IsSpace(space[i])) && (rest != [] ==> !IsSpace(rest[0]))
    ensures SkipSpace(space + rest) == rest
  {
    if space == [] {
      assert space + rest == rest;
    } else {
      assert (space + rest)[1..] == space[1..] + rest;
      SkipSpaceSkips(space[1..], rest);
    }
  }

  lemma {:induction false} SkipSpaceSplits(s: Bytes) returns (space: Bytes)
    ensures s == space + SkipSpace(s) && forall i | 0 <= i < |space| :: IsSpace(space[i])
  {
    if s != [] && IsSpace(s[0]) {
      var rest := SkipSpaceSplits(s[1..]);
      space := [s[0]] + rest;
    } else {
      space := [];
    }
  }

  /** A flag is read exactly from a decimal number 0 or 1, with any leading white space, sign and zeros; never -1. */
  lemma ParseFlagExactly(s: Bytes, v: bool)
    ensures ParseFlag(s) == Some(v) <==>
      exists space, sign, digits :: FlagNumber(s, space, sign, digits)
        && DecimalValue(digits) == (if v then 1 else 0) && !(v && sign == [45])
  {
    hide ParseFlag, DecimalValue, IsSpace;
    if ParseFlag(s) == Some(v) {
      var space, sign, digits := FlagParts(s, v);
    }
    forall space, sign, digits | FlagNumber(s, space, sign, digits)
        && DecimalValue(digits) == (if v then 1 else 0) && !(v && sign == [45])
      ensures ParseFlag(s) == Some(v)
    {
      FlagParses(s, space, sign, digits, v);
    }
  }

  lemma FlagParts(s: Bytes, v: bool) returns (space: Bytes, sign: Bytes, digits: Bytes)
    requires ParseFlag(s) == Some(v)
    ensures FlagNumber(s, space, sign, digits)
    ensures DecimalValue(digits) == (if v then 1 else 0) && !(v && sign == [45])
  {
    hide DecimalValue;
    space := SkipSpaceSplits(s);
    var rest := SkipSpace(s);
    if rest[0] == 45 || rest[0] == 43 {
      sign, digits := [rest[0]], rest[1..];
      assert s == space + sign + digits;
    } else {
      sign, digits := [], rest;
      assert s == space + sign + digits;
    }
  }

  lemma FlagParses(s: Bytes, space: Bytes, sign: Bytes, digits: Bytes, v: bool)
    requires FlagNumber(s, space, sign, digits)
    requires DecimalValue(digits) == (if v then 1 else 0) && !(v && sign == [45])
    ensures ParseFlag(s) == Some(v)
  {
    hide DecimalValue;
    var rest := sign + digits;
    assert s == space + rest;
    SkipSpaceSkips(space, rest);
    if sign == [] {
      assert rest == digits;
    } else {
      assert rest[1..] == digits;
    }
  }

  /** The names the format can hold. */
  lemma NameLimits(name: Bytes)
    ensures NameOk(name) <==> 0 < |name| <= 921 && 58 !in name && 10 !in name && 0 !in name
  {
  }

  /** `fgets` stops behind the first newline, at 1023 bytes, or at the end of the file. */
  lemma ChunkExactly(file: Bytes)
    requires file != []
    ensures var k := ChunkLength(file);
      && 0 < k <= |file| && k <= 1023 && (forall i | 0 <= i < k - 1 :: file[i] != 10)
      && (file[k - 1] == 10 || k == 1023 || k == |file|)
  {
    var window := file[..if |file| < LINE_MAX - 1 then |file| else LINE_MAX - 1];
    var i := IndexOf(window, NEWLINE);
    assert forall j | 0 <= j < i :: window[..i][j] == file[j];
  }

  /** The line is what precedes the newline, or a zero byte before it. */
  lemma LineExactly(chunk: Bytes)
    ensures var line := LineOf(chunk);
      && line <= chunk && 10 !in line && 0 !in line
      && (|line| < |chunk| ==> chunk[|line|] == 10 || chunk[|line|] == 0)
  {
    var s := CStr(chunk);
    assert forall i | 0 <= i < |s| :: s[i] == chunk[i];
  }
}

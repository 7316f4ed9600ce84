/** Addresses of HTTP services: how they are printed, and how a URI is taken apart. */
module HttpAddress {
  import opened Wrappers
  import opened Bytes

  /** No user and an empty one are the same to the printer; so with passwords. */
  datatype Address = Address(
    schema: string, host: Option<string>, port: int, handler: string,
    user: Option<string>, password: Option<string>)

  datatype ParseError =
    | UnknownSchema
    | BadBrackets
    | NonNumericPort(port: string)
    | NoHost

  function Text(o: Option<string>): string {
    if o.Some? then o.value else ""
  }

  // ---- numbers ----

  /** `'%d' % n`. */
  function Print(n: int): string {
    if n < 0 then "-" + Decimal(-n) else Decimal(n)
  }

  function StripEnds(s: string): string {
    if s == "" then "" else
      if IsSpace(s[0]) then StripEnds(s[1..])
      else if IsSpace(s[|s| - 1]) then StripEnds(s[..|s| - 1])
      else s
  }

  /** `int(s)`. */
  function ReadInt(s: string): Option<int> {
    var t := StripEnds(s);
    if IsNumber(t) then Some(ReadDecimal(t))
    else if t != "" && t[0] == '-' && IsNumber(t[1..]) then Some(0 - ReadDecimal(t[1..]))
    else if t != "" && t[0] == '+' && IsNumber(t[1..]) then Some(ReadDecimal(t[1..]))
    else None
  }

  lemma DecimalIsNumber(n: nat)
    ensures IsNumber(Decimal(n)) && ReadDecimal(Decimal(n)) == n
    ensures StripEnds(Decimal(n)) == Decimal(n) && StripEnds("-" + Decimal(n)) == "-" + Decimal(n)
  {
    hide ReadDecimal, Decimal;
    DecimalRoundTrip(n);
    var d := Decimal(n);
    assert !IsSpace(d[0]) && !IsSpace(d[|d| - 1]);
    var m := "-" + d;
    assert m[|m| - 1] == d[|d| - 1];
  }

  lemma PrintThenRead(n: int)
    ensures ReadInt(Print(n)) == Some(n)
    ensures forall c | c in Print(n) :: c == '-' || '0' <= c <= '9'
    ensures Print(n) != ""
  {
    hide StripEnds, ReadDecimal, Decimal;
    DecimalIsNumber(if n < 0 then -n else n);
    var d := Decimal(if n < 0 then -n else n);
    var m := "-" + d;
    assert m[1..] == d && m[0] == '-' && !IsNumber(m);
    forall c | c in m ensures c == '-' || '0' <= c <= '9' {
      assert c == '-' || c in d;
    }
  }

  // ---- printing ----

  function HostPart(host: string, port: int): string {
    (if ':' in host then "[" + host + "]" else host) + ":" + Print(port)
  }

  function UserPart(user: string, password: string): string {
    if user == "" then "" else if password == "" then user + "@" else user + ":" + password + "@"
  }

  function AsString(a: Address, withPassword: bool): string
    requires a.host.Some?
  {
    a.schema + "://" + UserPart(Text(a.user), if withPassword then Text(a.password) else "")
    + HostPart(a.host.value, a.port) + a.handler
  }

  /** Printed without its password an address does not show it. */
  lemma PasswordNotShown(a: Address)
    requires a.host.Some?
    ensures AsString(a, false) == AsString(a.(password := None), true)
  {
  }

  // ---- parsing ----

  /** The position of the last `c` in `s`, or -1. */
  function RFind(s: string, c: char): (i: int)
    ensures -1 <= i < |s|
    ensures i >= 0 ==> s[i] == c
    ensures forall k | i < k < |s| :: s[k] != c
  {
    if s == "" || s[|s| - 1] == c then |s| - 1 else RFind(s[..|s| - 1], c)
  }

  predicate IsDelimiter(c: char) {
    c == '/' || c == '?' || c == '#'
  }

  /** Where the network location ends. */
  function NetlocEnd(s: string): (i: nat)
    ensures i <= |s| && (forall k | 0 <= k < i :: !IsDelimiter(s[k])) && (i < |s| ==> IsDelimiter(s[i]))
  {
    if s == "" || IsDelimiter(s[0]) then 0 else 1 + NetlocEnd(s[1..])
  }

  /** Splits at the first `c`, which belongs to neither part. */
  function SplitAt(s: string, c: char): (string, string) {
    var i := Find(s, c);
    if i < |s| then (s[..i], s[i + 1..]) else (s, "")
  }

  /** Path, query and fragment taken apart and put together again. */
  function Reassemble(rest: string): string {
    var (front, fragment) := SplitAt(rest, '#');
    var (path, query) := SplitAt(front, '?');
    path + (if query != "" then "?" + query else "") + (if fragment != "" then "#" + fragment else "")
  }

  datatype Location = Location(user: Option<string>, password: Option<string>, place: Place)

  datatype Place = Place(host: Option<string>, port: Option<int>)

  function Unbracketed(host: string): string
    requires host != ""
  {
    if Bracketed(host) then host[1..|host| - 1] else host
  }

  function SplitPlace(place: string): Result<Place, ParseError> {
    if place == "" then Ok(Place(None, None))
    else
      var i, j := RFind(place, ':'), RFind(place, ']');
      if i > j then
        var port := ReadInt(place[i + 1..]);
        if port.None? then Err(NonNumericPort(place[i + 1..]))
        else if i == 0 then Err(NoHost)
        else Ok(Place(Some(Unbracketed(place[..i])), port))
      else Ok(Place(Some(Unbracketed(place)), None))
  }

  function SplitHost(netloc: string): Result<Location, ParseError> {
    var at := RFind(netloc, '@');
    var place := SplitPlace(netloc[at + 1..]);
    if place.Err? then Err(place.error)
    else if at >= 0 then
      var (user, password) := SplitAt(netloc[..at], ':');
      Ok(Location(Some(user), Some(password), place.value))
    else Ok(Location(None, None, place.value))
  }

  /** The address of a URI that has been split. */
  function Located(schema: string, netloc: string, rest: string): Result<Address, ParseError> {
    if ('[' in netloc) != (']' in netloc) then Err(BadBrackets)
    else
      var r := SplitHost(netloc);
      if r.Err? then Err(r.error)
      else
        var l := r.value;
        var port := if l.place.port.Some? then l.place.port.value else if schema == "https" then 443 else 80;
        var named := Text(l.user) != "" || Text(l.password) != "";
        Ok(Address(schema, l.place.host, port, Reassemble(rest),
                   if named then l.user else None, if named then l.password else None))
  }

  /** An address from a URI whose schema is one of this class's. */
  function FromUri(uri: string): Result<Address, ParseError> {
    var (schema, url) := SplitAt(uri, ':');
    if ':' !in uri || (schema != "http" && schema != "https") then Err(UnknownSchema)
    else if schema == "https" && ReadInt(url).Some? then
      Located("", "", uri)   // what looks like a port number is no URI: the whole text is the path
    else if "//" <= url then
      var end := 2 + NetlocEnd(url[2..]);
      Located(schema, url[2..end], url[end..])
    else
      Located(schema, "", url)
  }

  // ---- the round trip ----

  /** The same address, as far as printing and use go. */
  ghost predicate Same(a: Address, b: Address) {
    && a.schema == b.schema && a.host == b.host && a.port == b.port && a.handler == b.handler
    && Text(a.user) == Text(b.user) && Text(a.password) == Text(b.password)
  }

  ghost predicate NoDelimiter(s: string) {
    forall c | c in s :: !IsDelimiter(c)
  }

  /** It is empty or starts a path, a query or a fragment, and a query or a fragment that is
      started is not empty. */
  ghost predicate GoodHandler(handler: string) {
    var (front, fragment) := SplitAt(handler, '#');
    && (handler == "" || IsDelimiter(handler[0]))
    && ('#' in handler ==> fragment != "")
    && ('?' in front ==> SplitAt(front, '?').1 != "")
  }

  predicate Bracketed(host: string) {
    |host| > 1 && host[0] == '[' && host[|host| - 1] == ']'
  }

  /** What it takes for an address to survive being printed. */
  ghost predicate Restorable(a: Address)
    requires a.host.Some?
  {
    var user, password, host := Text(a.user), Text(a.password), a.host.value;
    var netloc := UserPart(user, password) + HostPart(host, a.port);
    && host != "" && '@' !in host && ':' !in user
    && (password != "" ==> user != "")
    && NoDelimiter(netloc)
    && ('[' in netloc <==> ']' in netloc)
    && (':' in host || !Bracketed(host))
    && GoodHandler(a.handler)
  }

  lemma SplitAtFirst(x: string, c: char, y: string)
    requires c !in x
    ensures SplitAt(x + [c] + y, c) == (x, y)
  {
    hide Find;
    var s := x + [c] + y;
    var i := Find(s, c);
    assert s[|x|] == c && c in s;
    forall k | 0 <= k < |x| ensures s[k] != c { assert s[k] == x[k] && x[k] in x; }
    forall k | 0 <= k < i ensures s[k] != c { assert s[k] == s[..i][k] && s[k] in s[..i]; }
    assert i == |x|;
    assert s[..|x|] == x && s[|x| + 1..] == y;
  }

  lemma SlashesAreNoNumber(url: string)
    requires "//" <= url
    ensures ReadInt(url) == None
  {
    StripKeepsFirst(url);
  }

  lemma {:induction false} StripKeepsFirst(s: string)
    requires s != "" && !IsSpace(s[0])
    ensures StripEnds(s) != "" && StripEnds(s)[0] == s[0]
  {
    if IsSpace(s[|s| - 1]) { StripKeepsFirst(s[..|s| - 1]); }
  }

  /** A printed address, split. */
  lemma FromPrinted(schema: string, body: string)
    requires schema == "http" || schema == "https"
    ensures var end := NetlocEnd(body);
            FromUri(schema + "://" + body) == Located(schema, body[..end], body[end..])
  {
    hide FromUri;
    var uri, url := schema + "://" + body, "//" + body;
    SplitAtFirst(schema, ':', url);
    assert uri == schema + [':'] + url;
    assert uri[|schema|] == ':';
    FromSplit(uri, schema, body);
  }

  lemma FromSplit(uri: string, schema: string, body: string)
    requires schema == "http" || schema == "https"
    requires ':' in uri && SplitAt(uri, ':') == (schema, "//" + body)
    ensures var end := NetlocEnd(body);
            FromUri(uri) == Located(schema, body[..end], body[end..])
  {
    hide Located, StripEnds, NetlocEnd, ReadInt, SplitAt;
    var url := "//" + body;
    SlashesAreNoNumber(url);
    var end := NetlocEnd(body);
    assert url[2..] == body && url[2..2 + end] == body[..end] && url[2 + end..] == body[end..];
  }

  lemma HostPartSplits(host: string, port: int)
    ensures SplitPlace(HostPart(host, port)) ==
            if host == "" then Err(NoHost)
            else Ok(Place(Some(if ':' in host then host else Unbracketed(host)), Some(port)))
  {
    hide ReadInt, Print, RFind;
    PrintThenRead(port);
    var front := if ':' in host then "[" + host + "]" else host;
    var place := front + ":" + Print(port);
    LastOf(front, ':', Print(port));
    assert place[|front| + 1..] == Print(port) && place[..|front|] == front;
    if ':' in host { assert front[1..|front| - 1] == host; }
    forall k | |front| < k < |place| ensures place[k] != ']' {
      assert place[k] == Print(port)[k - |front| - 1] && place[k] in Print(port);
    }
  }

  lemma LastOf(x: string, c: char, y: string)
    requires c !in y
    ensures RFind(x + [c] + y, c) == |x|
  {
    hide RFind;
    var s := x + [c] + y;
    assert s[|x|] == c && s[|x| + 1..] == y;
    LastAt(s, c, |x|);
  }

  lemma LastAt(s: string, c: char, n: nat)
    requires n < |s| && s[n] == c && c !in s[n + 1..]
    ensures RFind(s, c) == n
  {
    hide RFind;
    var rest := s[n + 1..];
    forall k | n < k < |s| ensures s[k] != c {
      assert s[k] == rest[k - n - 1];
    }
  }

  lemma HostPartChars(host: string, port: int)
    ensures '@' in HostPart(host, port) <==> '@' in host
    ensures var h := HostPart(host, port); var n := |Print(port)|;
            |h| > n > 0 && forall k | |h| - n <= k < |h| :: !IsDelimiter(h[k])
    ensures !IsDelimiter(HostPart(host, port)[|HostPart(host, port)| - |Print(port)| - 1])
  {
    hide ReadInt, Print;
    PrintThenRead(port);
    var h, n := HostPart(host, port), |Print(port)|;
    forall k | |h| - n <= k < |h| ensures !IsDelimiter(h[k]) {
      assert h[k] == Print(port)[k - (|h| - n)] && h[k] in Print(port);
    }
  }

  /** Credentials and the rest come apart at the last `@`, the credentials at the first `:`. */
  lemma UserPartSplits(user: string, password: string, place: string)
    requires '@' !in place && ':' !in user
    ensures var split := SplitPlace(place);
            SplitHost(UserPart(user, password) + place) ==
              if split.Err? then Err(split.error)
              else if user == "" then Ok(Location(None, None, split.value))
              else Ok(Location(Some(user), Some(password), split.value))
  {
    hide SplitPlace, SplitAt, RFind, SplitHost;
    var netloc := UserPart(user, password) + place;
    if user == "" {
      assert netloc == place;
      NoCredentials(place);
    } else {
      var creds := if password == "" then user else user + ":" + password;
      assert netloc == creds + ['@'] + place;
      CredentialsSplit(creds, place);
      if password == "" { NoSplit(user, ':'); } else { SplitAtFirst(user, ':', password); }
    }
  }

  lemma NoCredentials(place: string)
    requires '@' !in place
    ensures var split := SplitPlace(place);
            SplitHost(place) == if split.Err? then Err(split.error) else Ok(Location(None, None, split.value))
  {
    hide SplitPlace, SplitAt, RFind;
    var at := RFind(place, '@');
    assert at == -1;
    assert place[at + 1..] == place;
  }

  lemma CredentialsSplit(creds: string, place: string)
    requires '@' !in place
    ensures var split := SplitPlace(place);
            SplitHost(creds + ['@'] + place) ==
              if split.Err? then Err(split.error)
              else Ok(Location(Some(SplitAt(creds, ':').0), Some(SplitAt(creds, ':').1), split.value))
  {
    hide SplitPlace, SplitAt, RFind;
    var netloc := creds + ['@'] + place;
    LastOf(creds, '@', place);
    assert netloc[..|creds|] == creds && netloc[|creds| + 1..] == place;
  }

  lemma NoSplit(x: string, c: char)
    requires c !in x
    ensures SplitAt(x, c) == (x, "")
  {
  }

  lemma {:induction false} NetlocEnds(netloc: string, handler: string)
    requires NoDelimiter(netloc) && (handler == "" || IsDelimiter(handler[0]))
    ensures NetlocEnd(netloc + handler) == |netloc|
  {
    hide NetlocEnd;
    var body := netloc + handler;
    var end := NetlocEnd(body);
    forall k | 0 <= k < |netloc| ensures !IsDelimiter(body[k]) { assert body[k] == netloc[k]; }
    assert handler != "" ==> body[|netloc|] == handler[0];
  }

  /** Splitting keeps everything but the separator. */
  lemma SplitParts(s: string, c: char)
    ensures var (x, y) := SplitAt(s, c);
            (c in s ==> s == x + [c] + y) && (c !in s ==> x == s && y == "") && c !in x
  {
    hide Find;
    var i := Find(s, c);
    assert s[..i] + s[i..] == s && s[..|s|] == s;
    FrontHasNone(s, c);
  }

  /** A handler comes back from being taken apart exactly when nothing it starts is empty. */
  lemma ReassembledExactly(handler: string)
    ensures Reassemble(handler) == handler <==>
            var (front, fragment) := SplitAt(handler, '#');
            ('#' in handler ==> fragment != "") && ('?' in front ==> SplitAt(front, '?').1 != "")
  {
    hide SplitAt;
    var (front, fragment) := SplitAt(handler, '#');
    var (path, query) := SplitAt(front, '?');
    SplitParts(handler, '#');
    SplitParts(front, '?');
    var joined := path + (if query != "" then "?" + query else "");
    Associative(path, "?", query);
    Associative(joined, "#", fragment);
    assert path + "" == path && joined + "" == joined;
    assert |joined| == |front| <==> ('?' in front ==> query != "");
  }

  lemma ReassembleLength(rest: string)
    ensures |rest| - 2 <= |Reassemble(rest)| <= |rest|
  {
    hide Find;
  }

  function Netloc(a: Address): string
    requires a.host.Some?
  {
    UserPart(Text(a.user), Text(a.password)) + HostPart(a.host.value, a.port)
  }

  lemma PrintedParts(a: Address)
    requires a.host.Some?
    ensures AsString(a, true) == a.schema + "://" + (Netloc(a) + a.handler)
  {
    hide UserPart, HostPart;
  }

  lemma RestorableIsRestored(a: Address)
    requires (a.schema == "http" || a.schema == "https") && a.host.Some? && Restorable(a)
    ensures var r := FromUri(AsString(a, true)); r.Ok? && Same(a, r.value)
    ensures FromUri(AsString(a, true)) ==
            Ok(Address(a.schema, a.host, a.port, a.handler,
                       if Text(a.user) == "" then None else Some(Text(a.user)),
                       if Text(a.user) == "" then None else Some(Text(a.password))))
  {
    hide SplitHost, SplitPlace, HostPart, UserPart, FromUri, AsString, Reassemble;
    PrintedParts(a);
    ReassembledExactly(a.handler);
    NetlocEnds(Netloc(a), a.handler);
    FromPrinted(a.schema, Netloc(a) + a.handler);
    HostPartChars(a.host.value, a.port);
    UserPartSplits(Text(a.user), Text(a.password), HostPart(a.host.value, a.port));
    HostPartSplits(a.host.value, a.port);
    assert (Netloc(a) + a.handler)[..|Netloc(a)|] == Netloc(a);
    assert (Netloc(a) + a.handler)[|Netloc(a)|..] == a.handler;
  }

  /** If the handler comes back, the network location was cut where it should be. */
  lemma CutWhereItShouldBe(a: Address)
    requires a.host.Some?
    requires var body := Netloc(a) + a.handler; Reassemble(body[NetlocEnd(body)..]) == a.handler
    ensures NetlocEnd(Netloc(a) + a.handler) == |Netloc(a)|
    ensures NoDelimiter(Netloc(a)) && GoodHandler(a.handler)
  {
    hide Reassemble, NetlocEnd, UserPart, HostPart, Print;
    var netloc, place := Netloc(a), HostPart(a.host.value, a.port);
    var body := netloc + a.handler;
    var end := NetlocEnd(body);
    ReassembleLength(body[end..]);
    ReassembledExactly(a.handler);
    HostPartChars(a.host.value, a.port);
    var n := |Print(a.port)|;
    assert end <= |netloc|;
    forall k | |netloc| - n - 1 <= k < |netloc| ensures !IsDelimiter(body[k]) {
      assert body[k] == place[k - (|netloc| - |place|)];
    }
    assert end == |netloc|;
    assert body[end..] == a.handler;
    forall c | c in netloc ensures !IsDelimiter(c) {
      var k :| 0 <= k < |netloc| && netloc[k] == c;
      assert body[k] == c;
    }
    assert a.handler != "" ==> body[end] == a.handler[0];
  }

  lemma PartsHold(netloc: string)
    requires SplitHost(netloc).Ok?
    ensures var l := SplitHost(netloc).value;
            && ':' !in Text(l.user) && '@' !in Text(l.place.host)
  {
    hide SplitPlace, SplitAt, RFind;
    var at := RFind(netloc, '@');
    var place := netloc[at + 1..];
    AfterLast(netloc, '@');
    HostWithin(place);
    if at >= 0 { FrontHasNone(netloc[..at], ':'); }
  }

  lemma AfterLast(s: string, c: char)
    ensures c !in s[RFind(s, c) + 1..]
  {
    hide RFind;
    var i := RFind(s, c);
    var t := s[i + 1..];
    forall k | 0 <= k < |t| ensures t[k] != c {
      assert t[k] == s[i + 1 + k];
    }
  }

  lemma FrontHasNone(s: string, c: char)
    ensures c !in SplitAt(s, c).0
  {
    hide Find;
    assert s[..|s|] == s;
  }

  lemma HostWithin(place: string)
    requires SplitPlace(place).Ok?
    ensures forall c | c in Text(SplitPlace(place).value.host) :: c in place
  {
    hide ReadInt, RFind;
  }

  lemma RestoredIsRestorable(a: Address)
    requires (a.schema == "http" || a.schema == "https") && a.host.Some?
    requires var r := FromUri(AsString(a, true)); r.Ok? && Same(a, r.value)
    ensures Restorable(a)
  {
    hide SplitHost, SplitPlace, HostPart, UserPart, FromUri, AsString, Reassemble;
    PrintedParts(a);
    FromPrinted(a.schema, Netloc(a) + a.handler);
    CutWhereItShouldBe(a);
    assert (Netloc(a) + a.handler)[..|Netloc(a)|] == Netloc(a);
    PartsHold(Netloc(a));
    HostPartChars(a.host.value, a.port);
    UserPartSplits(Text(a.user), Text(a.password), HostPart(a.host.value, a.port));
    HostPartSplits(a.host.value, a.port);
  }

  /** An address that has a host comes back from its printed form exactly when it is
      restorable. */
  lemma PrintThenParse(a: Address)
    requires (a.schema == "http" || a.schema == "https") && a.host.Some?
    ensures var r := FromUri(AsString(a, true)); (r.Ok? && Same(a, r.value)) <==> Restorable(a)
  {
    hide *;
    var r := FromUri(AsString(a, true));
    if r.Ok? && Same(a, r.value) { RestoredIsRestorable(a); }
    if Restorable(a) { RestorableIsRestored(a); }
  }

  // ---- what is printed, in so many characters ----

  lemma PrintedPlainly(a: Address)
    requires a.host.Some? && ':' !in a.host.value && Text(a.user) == ""
    ensures AsString(a, true) == a.schema + "://" + a.host.value + ":" + Print(a.port) + a.handler
  {
    assert a.schema + "://" + "" == a.schema + "://";
    Associative(a.schema + "://", a.host.value, ":");
    Associative(a.schema + "://", a.host.value + ":", Print(a.port));
  }

  lemma PrintedInBrackets(a: Address)
    requires a.host.Some? && ':' in a.host.value && Text(a.user) == ""
    ensures AsString(a, true) == a.schema + "://" + ("[" + a.host.value + "]:" + Print(a.port)) + a.handler
  {
    assert a.schema + "://" + "" == a.schema + "://";
    assert "[" + a.host.value + "]" + ":" == "[" + a.host.value + "]:";
  }

  lemma PrintedWithUser(a: Address)
    requires a.host.Some? && ':' !in a.host.value && Text(a.user) != ""
    ensures AsString(a, false) == a.schema + "://" + (a.user.value + "@") + (a.host.value + ":" + Print(a.port)) + a.handler
    ensures Text(a.password) != "" ==>
              AsString(a, true) == a.schema + "://" + (a.user.value + ":" + a.password.value + "@")
                                   + (a.host.value + ":" + Print(a.port)) + a.handler
  {
  }

  // ---- addresses without a port ----

  /** A host as it stands in a URI. */
  function Bracket(host: string): string {
    if ':' in host then "[" + host + "]" else host
  }

  lemma PlaceWithoutPort(host: string)
    requires host != "" && (':' in host || !Bracketed(host))
    ensures SplitPlace(Bracket(host)) == Ok(Place(Some(host), None))
  {
    hide RFind, ReadInt;
    var place := Bracket(host);
    if ':' in host {
      assert place[|place| - 1] == ']';
      assert place[1..|place| - 1] == host;
      LastAt(place, ']', |place| - 1);
    } else {
      assert forall k | 0 <= k < |place| :: place[k] != ':';
    }
  }

  /** What it takes for a URI without a port to be taken apart as it was put together. */
  ghost predicate Clear(user: string, password: string, host: string, handler: string) {
    var netloc := UserPart(user, password) + Bracket(host);
    && host != "" && '@' !in host && ':' !in user
    && NoDelimiter(netloc) && ('[' in netloc <==> ']' in netloc)
    && (':' in host || !Bracketed(host))
    && GoodHandler(handler)
  }

  /** A URI without a port means port 443 for https and 80 for http. */
  lemma DefaultPort(schema: string, user: string, password: string, host: string, handler: string)
    requires (schema == "http" || schema == "https") && Clear(user, password, host, handler)
    ensures FromUri(schema + "://" + (UserPart(user, password) + Bracket(host) + handler)) ==
            Ok(Address(schema, Some(host), if schema == "https" then 443 else 80, handler,
                       if user == "" then None else Some(user), if user == "" then None else Some(password)))
  {
    hide SplitHost, SplitPlace, UserPart, FromUri, Reassemble, Bracket;
    var netloc := UserPart(user, password) + Bracket(host);
    NetlocEnds(netloc, handler);
    FromPrinted(schema, netloc + handler);
    CutConcat(netloc, handler);
    BracketHasNoAt(host);
    UserPartSplits(user, password, Bracket(host));
    PlaceWithoutPort(host);
    ReassembledExactly(handler);
  }

  lemma BracketHasNoAt(host: string)
    requires '@' !in host
    ensures '@' !in Bracket(host)
  {
  }

  /** The plain case: no user, and a host without any special character. */
  lemma DefaultPortPlainly(schema: string, host: string, handler: string)
    requires (schema == "http" || schema == "https") && GoodHandler(handler)
    requires host != "" && forall c | c in host :: c !in ":@[]/?#"
    ensures FromUri(schema + "://" + host + handler) ==
            Ok(Address(schema, Some(host), if schema == "https" then 443 else 80, handler, None, None))
  {
    hide FromUri, Reassemble;
    assert "" + host == host;
    assert ':' !in host && '@' !in host && '[' !in host && ']' !in host;
    assert !Bracketed(host) by { assert host[0] in host; }
    forall c | c in host ensures !IsDelimiter(c) {}
    DefaultPort(schema, "", "", host, handler);
    Associative(schema + "://", host, handler);
  }

  // ---- what is refused ----

  /** What follows the last colon of a place, unless a bracket closes after it, is a number. */
  lemma PortIsNumber(host: string, port: string)
    requires ':' !in port && ']' !in port && ReadInt(port) == None
    ensures SplitPlace(host + ":" + port) == Err(NonNumericPort(port))
  {
    hide RFind, ReadInt;
    var place := host + ":" + port;
    LastOf(host, ':', port);
    assert place[|host| + 1..] == port;
    forall k | |host| < k < |place| ensures place[k] != ']' {
      assert place[k] == port[k - |host| - 1];
    }
  }

  /** Blanks around a number and a plus sign before it do not matter. */
  lemma {:induction false} NumberWithBlanks(a: string, n: nat, b: string)
    requires (forall c | c in a + b :: IsSpace(c))
    ensures ReadInt(a + Decimal(n) + b) == Some(n)
    ensures ReadInt(a + ("-" + Decimal(n)) + b) == Some(0 - n)
    ensures ReadInt(a + ("+" + Decimal(n)) + b) == Some(n)
  {
    hide Decimal, ReadDecimal, StripEnds;
    var d := Decimal(n);
    DecimalIsNumber(n);
    var m, p := "-" + d, "+" + d;
    assert m[1..] == d && p[1..] == d && m[|m| - 1] == d[|d| - 1] && p[|p| - 1] == d[|d| - 1];
    assert d[0] in d && d[|d| - 1] in d;
    BlanksStripped(a, d, b);
    BlanksStripped(a, m, b);
    BlanksStripped(a, p, b);
    assert !IsNumber(m) && !IsNumber(p);
  }

  lemma {:induction false} BlanksStripped(a: string, s: string, b: string)
    requires (forall c | c in a + b :: IsSpace(c)) && s != "" && !IsSpace(s[0]) && !IsSpace(s[|s| - 1])
    ensures StripEnds(a + s + b) == s
    decreases |a| + |b|
  {
    var all := a + s + b;
    if a != "" {
      assert a[0] in a + b && all[0] == a[0];
      assert all[1..] == a[1..] + s + b;
      assert forall c | c in a[1..] + b :: c in a + b;
      BlanksStripped(a[1..], s, b);
    } else if b != "" {
      assert b[|b| - 1] in a + b && all[|all| - 1] == b[|b| - 1] && all[0] == s[0];
      assert all[..|all| - 1] == a + s + b[..|b| - 1];
      assert forall c | c in a + b[..|b| - 1] :: c in a + b;
      BlanksStripped(a, s, b[..|b| - 1]);
    } else {
      assert all == s;
    }
  }

  lemma OtherSchemasRefused(schema: string, rest: string)
    requires ':' !in schema && schema != "http" && schema != "https"
    ensures FromUri(schema + ":" + rest) == Err(UnknownSchema)
  {
    SplitAtFirst(schema, ':', rest);
    assert schema + [':'] + rest == schema + ":" + rest;
  }

  /** Brackets of one kind only are refused. */
  lemma HalfBracketsRefused(schema: string, netloc: string, handler: string)
    requires (schema == "http" || schema == "https") && NoDelimiter(netloc)
    requires (handler == "" || IsDelimiter(handler[0])) && ('[' in netloc) != (']' in netloc)
    ensures FromUri(schema + "://" + (netloc + handler)) == Err(BadBrackets)
  {
    hide FromUri, SplitHost, Reassemble;
    NetlocEnds(netloc, handler);
    FromPrinted(schema, netloc + handler);
    CutConcat(netloc, handler);
  }

  // ---- which handlers are good ----

  lemma GoodPath(path: string)
    requires '?' !in path && '#' !in path
    ensures GoodHandler(path) <==> path == "" || path[0] == '/'
  {
    NoSplit(path, '#');
    if path != "" { assert path[0] in path; }
  }

  /** A question mark with nothing after it would get lost. */
  lemma GoodQuery(path: string, query: string)
    requires '?' !in path && '#' !in path && '#' !in query
    ensures GoodHandler(path + ['?'] + query) <==> GoodHandler(path) && query != ""
  {
    hide SplitAt;
    var s := path + ['?'] + query;
    SplitAtFirst(path, '?', query);
    NoSplit(path, '#');
    NoSplit(s, '#');
    if path != "" { assert s[0] == path[0]; }
    assert s[|path|] == '?';
  }

  /** So would a hash sign. */
  lemma GoodFragment(front: string, fragment: string)
    requires '#' !in front
    ensures GoodHandler(front + ['#'] + fragment) <==> GoodHandler(front) && fragment != ""
  {
    hide SplitAt;
    var s := front + ['#'] + fragment;
    SplitAtFirst(front, '#', fragment);
    NoSplit(front, '#');
    if front != "" { assert s[0] == front[0]; }
    assert s[|front|] == '#';
  }

  // ---- corner cases ----

  /** A port is printed as it is, with a minus sign if it is negative. */
  lemma PrintedExactly(n: nat)
    ensures Print(n) == Decimal(n) && (n > 0 ==> Print(0 - n) == "-" + Decimal(n))
  {
  }

  /** Brackets around nothing are an empty host; an empty user is none. */
  lemma EmptyParts(schema: string, handler: string)
    requires schema == "http" || schema == "https"
    ensures SplitPlace("[]") == Ok(Place(Some(""), None))
    ensures SplitHost("@h") == Ok(Location(Some(""), Some(""), Place(Some("h"), None)))
    ensures Located(schema, "@h", handler) ==
            Ok(Address(schema, Some("h"), if schema == "https" then 443 else 80, Reassemble(handler), None, None))
  {
    hide Reassemble, SplitHost, SplitPlace;
    EmptyBrackets();
    EmptyUser();
  }

  lemma EmptyBrackets()
    ensures SplitPlace("[]") == Ok(Place(Some(""), None))
  {
    hide ReadInt, RFind;
    assert RFind("[]", ':') == -1;
    assert "[]"[1..1] == "";
  }

  lemma EmptyUser()
    ensures SplitHost("@h") == Ok(Location(Some(""), Some(""), Place(Some("h"), None)))
  {
    hide SplitPlace, RFind, SplitAt;
    LastAt("@h", '@', 0);
    NoSplit("", ':');
    PlaceWithoutPort("h");
    assert Bracket("h") == "h";
    assert "@h"[..0] == "" && "@h"[1..] == "h";
  }

  /** After `https:` a number is no location: all of it is the path of an address without a
      schema. After `http:` a number is the path. */
  lemma NumberForLocation(n: nat)
    ensures FromUri("https:" + Decimal(n)) == Located("", "", "https:" + Decimal(n))
    ensures FromUri("http:" + Decimal(n)) == Located("http", "", Decimal(n))
  {
    hide Decimal, ReadDecimal, StripEnds, Located, SplitAt, NetlocEnd;
    DecimalIsNumber(n);
    SplitAtFirst("https", ':', Decimal(n));
    SplitAtFirst("http", ':', Decimal(n));
    assert "https" + [':'] + Decimal(n) == "https:" + Decimal(n);
    assert "http" + [':'] + Decimal(n) == "http:" + Decimal(n);
    assert Decimal(n)[0] in Decimal(n);
  }
}

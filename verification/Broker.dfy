/** Broker-address normalisation (internal/mqtt/broker.go): splitting, printing, fixed points. */
module Broker {
  import opened Basics

  const DEFAULT_MQTT_PORT := "1883"
  const DEFAULT_MQTTS_PORT := "8883"

  // ----- The string functions the source uses -----

  /** Unicode white space, as Go's strings.TrimSpace understands it. */
  predicate IsSpace(c: char) {
    || c == ' ' || '\t' <= c <= '\r' || c == '\U{85}' || c == '\U{A0}' || c == '\U{1680}'
    || '\U{2000}' <= c <= '\U{200A}' || c == '\U{2028}' || c == '\U{2029}' || c == '\U{202F}'
    || c == '\U{205F}' || c == '\U{3000}'
  }

  function TrimLeft(s: string): (r: string)
    ensures r != "" ==> !IsSpace(r[0])
    ensures s != "" && !IsSpace(s[0]) ==> r == s
  {
    if s != "" && IsSpace(s[0]) then TrimLeft(s[1..]) else s
  }

  function TrimRight(s: string): (r: string)
    ensures r <= s
    ensures r != "" ==> !IsSpace(r[|r| - 1])
    ensures forall k :: 0 <= k < |s| && !IsSpace(s[k]) ==> k < |r|
  {
    if s != "" && IsSpace(s[|s| - 1]) then TrimRight(s[..|s| - 1]) else s
  }

  function TrimSpace(s: string): string {
    TrimRight(TrimLeft(s))
  }

  /** The first position at or after `from` where `pattern` occurs; -1 if none. */
  function IndexFrom(s: string, pattern: string, from: nat): (i: int)
    requires from <= |s|
    ensures i == -1 || (from <= i && OccursAt(s, pattern, i))
    ensures forall j :: from <= j < (if i == -1 then |s| + 1 else i) ==> !OccursAt(s, pattern, j)
    decreases |s| - from
  {
    if OccursAt(s, pattern, from) then from
    else if from == |s| then -1
    else IndexFrom(s, pattern, from + 1)
  }

  predicate OccursAt(s: string, pattern: string, i: int) {
    0 <= i && i + |pattern| <= |s| && s[i..i + |pattern|] == pattern
  }

  function Index(s: string, pattern: string): int {
    IndexFrom(s, pattern, 0)
  }

  function Count(s: string, c: char): (n: nat)
    ensures n == 0 <==> c !in s
  {
    if s == "" then 0 else Count(s[..|s| - 1], c) + if s[|s| - 1] == c then 1 else 0
  }

  function LastIndex(s: string, c: char): (i: int)
    ensures -1 <= i < |s| && (i >= 0 ==> s[i] == c)
    ensures forall j :: i < j < |s| ==> s[j] != c
  {
    if s == "" then -1
    else if s[|s| - 1] == c then |s| - 1
    else LastIndex(s[..|s| - 1], c)
  }

  function LowerChar(c: char): char {
    if 'A' <= c <= 'Z' then (c as int + 32) as char else c
  }

  function ToLower(s: string): (r: string)
    ensures |r| == |s|
  {
    seq(|s|, i requires 0 <= i < |s| => LowerChar(s[i]))
  }

  // ----- Splitting and resolving -----

  datatype Split = Split(scheme: string, authority: string)

  function SplitScheme(s: string): Split {
    var i := Index(s, "://");
    if i >= 0 then Split(s[..i], s[i + 3..]) else Split("", s)
  }

  /** Why an address was changed, or left alone. */
  datatype Note =
    | TrimmedWhitespace
    | EmptyAddress
    | RemovedTrailingSlash
    | AssumedTcp
    | LoweredScheme
    | WebScheme
    | ConvertedMqtt
    | ConvertedMqtts
    | ConvertedTls
    | UnrecognizedScheme
    | Unparseable
    | AddedBrackets
    | DefaultedPort(port: string)

  datatype Scheme = Scheme(name: string, notes: seq<Note>)

  predicate IsCanonicalScheme(s: string) {
    s == "tcp" || s == "ssl" || s == "ws" || s == "wss"
  }

  function ResolveScheme(rawScheme: string): (r: Option<Scheme>)
    ensures r.Some? ==> IsCanonicalScheme(r.value.name)
  {
    if rawScheme == "" then Some(Scheme("tcp", [AssumedTcp]))
    else
      var lower := ToLower(rawScheme);
      if IsCanonicalScheme(lower) then Some(Scheme(lower, if rawScheme != lower then [LoweredScheme] else []))
      else if lower == "http" || lower == "https" then Some(Scheme("tcp", [WebScheme]))
      else if lower == "mqtt" then Some(Scheme("tcp", [ConvertedMqtt]))
      else if lower == "mqtts" then Some(Scheme("ssl", [ConvertedMqtts]))
      else if lower == "tls" then Some(Scheme("ssl", [ConvertedTls]))
      else None
  }

  datatype Authority = Authority(host: string, port: string, bracketsAdded: bool)

  function SplitAuthority(a: string): Authority {
    if a == "" then Authority("", "", false)
    else if a[0] == '[' then
      var end := Index(a, "]");
      if end < 0 then Authority("", "", false)
      else
        var rest := a[end + 1..];
        Authority(a[..end + 1], if rest != "" && rest[0] == ':' then rest[1..] else "", false)
    else if Count(a, ':') > 1 then Authority("[" + a + "]", "", true)
    else
      var i := LastIndex(a, ':');
      if i >= 0 then Authority(a[..i], a[i + 1..], false) else Authority(a, "", false)
  }

  function Print(scheme: string, host: string, port: string): string {
    scheme + "://" + host + ":" + port
  }

  function DefaultPort(scheme: string): string {
    if scheme == "ssl" then DEFAULT_MQTTS_PORT else DEFAULT_MQTT_PORT
  }

  datatype Outcome = Outcome(address: string, notes: seq<Note>)

  function WithoutSlash(s: string): string {
    if s != "" && s[|s| - 1] == '/' then s[..|s| - 1] else s
  }

  /** Left alone with a reason, or rebuilt from its parts with a note for every change. */
  function Interpret(raw: string): Outcome {
    var s := TrimSpace(raw);
    if s == "" then Outcome(raw, [EmptyAddress])
    else
      var split := SplitScheme(WithoutSlash(s));
      var scheme, authority := ResolveScheme(split.scheme), SplitAuthority(split.authority);
      if scheme.None? then Outcome(raw, [UnrecognizedScheme])
      else if authority.host == "" then Outcome(raw, [Unparseable])
      else
        Outcome(Rebuilt(scheme.value, authority),
                TrimNotes(raw, s) + scheme.value.notes + AuthorityNotes(scheme.value, authority))
  }

  function Rebuilt(scheme: Scheme, authority: Authority): string {
    Print(scheme.name, authority.host, if authority.port == "" then DefaultPort(scheme.name) else authority.port)
  }

  function TrimNotes(raw: string, trimmed: string): seq<Note> {
    (if trimmed != raw then [TrimmedWhitespace] else [])
    + (if WithoutSlash(trimmed) != trimmed then [RemovedTrailingSlash] else [])
  }

  function AuthorityNotes(scheme: Scheme, authority: Authority): seq<Note> {
    (if authority.bracketsAdded then [AddedBrackets] else [])
    + (if authority.port == "" then [DefaultedPort(DefaultPort(scheme.name))] else [])
  }

  function Normalize(raw: string): string {
    Interpret(raw).address
  }

  function NotesOf(raw: string): seq<Note> {
    Interpret(raw).notes
  }

  lemma InterpretRebuilds(raw: string, scheme: Scheme, authority: Authority)
    requires TrimSpace(raw) != ""
    requires var split := SplitScheme(WithoutSlash(TrimSpace(raw)));
             ResolveScheme(split.scheme) == Some(scheme) && SplitAuthority(split.authority) == authority
    requires authority.host != ""
    ensures Normalize(raw) == Rebuilt(scheme, authority)
    ensures NotesOf(raw) == TrimNotes(raw, TrimSpace(raw)) + scheme.notes + AuthorityNotes(scheme, authority)
  {
  }

  method NormalizeBrokerURL(raw: string) returns (normalized: string, notes: seq<Note>)
    ensures normalized == Normalize(raw) && notes == NotesOf(raw)
  {
    hide TrimSpace, SplitScheme, ResolveScheme, SplitAuthority;
    var s := TrimSpace(raw);
    notes := [];
    if s != raw {
      notes := notes + [TrimmedWhitespace];
    }
    if s == "" {
      return raw, [EmptyAddress];
    }
    if s[|s| - 1] == '/' {
      s := s[..|s| - 1];
      notes := notes + [RemovedTrailingSlash];
    }
    assert notes == TrimNotes(raw, TrimSpace(raw));
    var split := SplitScheme(s);
    var resolved := ResolveScheme(split.scheme);
    if resolved.None? {
      return raw, [UnrecognizedScheme];
    }
    var scheme := resolved.value.name;
    notes := notes + resolved.value.notes;
    var authority := SplitAuthority(split.authority);
    if authority.host == "" {
      return raw, [Unparseable];
    }
    ghost var before := notes;
    if authority.bracketsAdded {
      notes := notes + [AddedBrackets];
    }
    var port := authority.port;
    if port == "" {
      port := DEFAULT_MQTT_PORT;
      if scheme == "ssl" {
        port := DEFAULT_MQTTS_PORT;
      }
      notes := notes + [DefaultedPort(port)];
    }
    assert notes == before + AuthorityNotes(resolved.value, authority);
    normalized := scheme + "://" + authority.host + ":" + port;
    InterpretRebuilds(raw, resolved.value, authority);
  }

  // ----- Round trip -----

  /** A name without colons that does not look bracketed. */
  predicate PlainHost(host: string) {
    host != "" && ':' !in host && host[0] != '['
  }

  /** `[x]` without an inner closing bracket. */
  predicate BracketedHost(host: string) {
    |host| >= 2 && host[0] == '[' && host[|host| - 1] == ']' && ']' !in host[..|host| - 1]
  }

  predicate WellFormed(host: string, port: string) {
    port != "" && (BracketedHost(host) || (PlainHost(host) && ':' !in port))
  }

  lemma SchemeRecovered(scheme: string, authority: string)
    requires ':' !in scheme
    ensures SplitScheme(scheme + "://" + authority) == Split(scheme, authority)
  {
    var s := scheme + "://" + authority;
    assert s[|scheme|..|scheme| + 3] == "://";
    assert OccursAt(s, "://", |scheme|);
    forall j | 0 <= j < |scheme| ensures !OccursAt(s, "://", j) {
      assert s[j] == scheme[j] && scheme[j] in scheme;
      assert s[j..j + 3][0] != "://"[0];
    }
    assert s[..|scheme|] == scheme && s[|scheme| + 3..] == authority;
  }

  lemma {:induction false} CountSplits(a: string, b: string, c: char)
    requires c !in a && c !in b
    ensures Count(a + [c] + b, c) == 1
    decreases |b|
  {
    var s := a + [c] + b;
    if b == "" {
      assert s[..|s| - 1] == a;
    } else {
      CountSplits(a, b[..|b| - 1], c);
      assert s[..|s| - 1] == a + [c] + b[..|b| - 1];
      assert s[|s| - 1] == b[|b| - 1] && b[|b| - 1] in b;
    }
  }

  lemma {:induction false} LastIndexSplits(a: string, b: string, c: char)
    requires c !in b
    ensures LastIndex(a + [c] + b, c) == |a|
    decreases |b|
  {
    var s := a + [c] + b;
    if b != "" {
      LastIndexSplits(a, b[..|b| - 1], c);
      assert s[..|s| - 1] == a + [c] + b[..|b| - 1];
      assert s[|s| - 1] == b[|b| - 1] && b[|b| - 1] in b;
    }
  }

  lemma BracketEnds(host: string, rest: string)
    requires BracketedHost(host)
    ensures Index(host + rest, "]") == |host| - 1
  {
    var a, end := host + rest, |host| - 1;
    assert a[end..end + 1] == "]";
    assert OccursAt(a, "]", end);
    forall j | 0 <= j < end ensures !OccursAt(a, "]", j) {
      assert a[j..j + 1][0] == host[..end][j];
      assert host[..end][j] in host[..end];
    }
  }

  lemma AuthorityRecovered(host: string, port: string)
    requires WellFormed(host, port)
    ensures SplitAuthority(host + ":" + port) == Authority(host, port, false)
  {
    var a := host + ":" + port;
    if BracketedHost(host) {
      assert a == host + (":" + port);
      BracketEnds(host, ":" + port);
      assert a[..|host|] == host && a[|host|..] == ":" + port;
    } else {
      assert a == host + [':'] + port;
      CountSplits(host, port, ':');
      LastIndexSplits(host, port, ':');
      assert a[..|host|] == host && a[|host| + 1..] == port;
    }
  }

  lemma CanonicalResolves(scheme: string)
    requires IsCanonicalScheme(scheme)
    ensures ResolveScheme(scheme) == Some(Scheme(scheme, []))
  {
    forall i | 0 <= i < |scheme| ensures LowerChar(scheme[i]) == scheme[i] {
    }
    assert ToLower(scheme) == scheme;
  }

  /** Printing canonical parts and splitting again recovers them. */
  lemma RoundTrip(scheme: string, host: string, port: string)
    requires IsCanonicalScheme(scheme) && WellFormed(host, port)
    ensures var split := SplitScheme(Print(scheme, host, port));
            split.scheme == scheme && SplitAuthority(split.authority) == Authority(host, port, false)
    ensures ResolveScheme(scheme) == Some(Scheme(scheme, []))
  {
    assert Print(scheme, host, port) == scheme + "://" + (host + ":" + port);
    SchemeRecovered(scheme, host + ":" + port);
    AuthorityRecovered(host, port);
    assert !(':' in scheme);
    CanonicalResolves(scheme);
  }

  // ----- Fixed points -----

  predicate EndsCleanly(s: string) {
    s != "" && !IsSpace(s[|s| - 1]) && s[|s| - 1] != '/'
  }

  /** A canonical scheme, a well-formed host and port, and nothing at the end that trimming would take. */
  ghost predicate Canonical(a: string) {
    EndsCleanly(a) && exists scheme, host, port :: PrintsAs(a, scheme, host, port)
  }

  ghost predicate PrintsAs(a: string, scheme: string, host: string, port: string) {
    IsCanonicalScheme(scheme) && WellFormed(host, port) && a == Print(scheme, host, port)
  }

  lemma NothingToTrim(scheme: string, rest: string)
    requires IsCanonicalScheme(scheme) && EndsCleanly(scheme + "://" + rest)
    ensures var a := scheme + "://" + rest; TrimSpace(a) == a && WithoutSlash(a) == a
  {
    var a := scheme + "://" + rest;
    assert a[0] == scheme[0];
    assert TrimLeft(a) == a;
  }

  lemma CanonicalIsFixed(a: string)
    requires Canonical(a)
    ensures Normalize(a) == a && NotesOf(a) == []
  {
    var scheme, host, port :| PrintsAs(a, scheme, host, port);
    assert a == scheme + "://" + (host + ":" + port);
    NothingToTrim(scheme, host + ":" + port);
    RoundTrip(scheme, host, port);
  }

  /** Silence means canonical, and canonical means silence: the empty note characterises the format. */
  lemma SilentExactlyWhenCanonical(a: string)
    ensures NotesOf(a) == [] <==> Canonical(a)
  {
    if Canonical(a) {
      CanonicalIsFixed(a);
    } else if NotesOf(a) == [] {
      SilentIsCanonical(a);
    }
  }

  lemma SplitJoins(s: string)
    requires SplitScheme(s).scheme != ""
    ensures s == SplitScheme(s).scheme + "://" + SplitScheme(s).authority
  {
    var i := Index(s, "://");
    assert s == s[..i] + s[i..i + 3] + s[i + 3..];
  }

  lemma QuietResolve(rawScheme: string)
    requires ResolveScheme(rawScheme).Some? && ResolveScheme(rawScheme).value.notes == []
    ensures IsCanonicalScheme(rawScheme)
  {
  }

  lemma SilentIsCanonical(a: string)
    requires NotesOf(a) == []
    ensures Canonical(a)
  {
    assert TrimSpace(a) == a && WithoutSlash(a) == a;
    var split := SplitScheme(a);
    var at := SplitAuthority(split.authority);
    QuietResolve(split.scheme);
    SplitJoins(a);
    SplitParts(split.authority);
    PrintJoins(split.scheme, at.host, at.port);
    assert PrintsAs(a, split.scheme, at.host, at.port);
  }

  lemma PrintJoins(scheme: string, host: string, port: string)
    ensures Print(scheme, host, port) == scheme + "://" + (host + ":" + port)
  {
  }

  /** An authority that splits into host and port, without added brackets, is their concatenation. */
  lemma SplitParts(a: string)
    requires var at := SplitAuthority(a); at.host != "" && at.port != "" && !at.bracketsAdded
    ensures var at := SplitAuthority(a); WellFormed(at.host, at.port) && a == at.host + ":" + at.port
  {
    var at := SplitAuthority(a);
    if a[0] == '[' {
      var end := Index(a, "]");
      assert a[end..end + 1] == "]";
      forall j | 0 <= j < end ensures a[j] != ']' {
        assert !OccursAt(a, "]", j);
        assert a[j..j + 1] == [a[j]];
      }
    } else {
      var i := LastIndex(a, ':');
      CountTail(a, i);
    }
  }

  /** With at most one colon, nothing before it is one. */
  lemma CountTail(a: string, i: nat)
    requires i < |a| && a[i] == ':' && Count(a, ':') <= 1 && forall j :: i < j < |a| ==> a[j] != ':'
    ensures ':' !in a[..i] && ':' !in a[i + 1..]
    decreases |a|
  {
    if i < |a| - 1 {
      var init := a[..|a| - 1];
      CountTail(init, i);
      assert init[..i] == a[..i];
    } else {
      assert a[..|a| - 1] == a[..i];
    }
  }

  // ----- Idempotence, and exactly when it fails -----

  /** The address is returned as it was given. */
  predicate LeftAlone(raw: string) {
    var s := TrimSpace(raw);
    var split := SplitScheme(WithoutSlash(s));
    s == "" || ResolveScheme(split.scheme).None? || SplitAuthority(split.authority).host == ""
  }

  function SchemeOf(raw: string): string
    requires !LeftAlone(raw)
  {
    ResolveScheme(SplitScheme(WithoutSlash(TrimSpace(raw))).scheme).value.name
  }

  function AuthorityOf(raw: string): Authority
    requires !LeftAlone(raw)
  {
    SplitAuthority(SplitScheme(WithoutSlash(TrimSpace(raw))).authority)
  }

  function PortOf(raw: string): string
    requires !LeftAlone(raw)
  {
    if AuthorityOf(raw).port == "" then DefaultPort(SchemeOf(raw)) else AuthorityOf(raw).port
  }

  lemma NormalizeIsPrint(raw: string)
    ensures LeftAlone(raw) ==> Normalize(raw) == raw
    ensures !LeftAlone(raw) ==> Normalize(raw) == Print(SchemeOf(raw), AuthorityOf(raw).host, PortOf(raw))
    ensures !LeftAlone(raw) ==> IsCanonicalScheme(SchemeOf(raw)) && PortOf(raw) != ""
  {
    hide TrimSpace, WithoutSlash, SplitScheme, ResolveScheme, SplitAuthority, Print;
  }

  /** A closing bracket inside a literal that was given brackets, not followed by a colon. */
  predicate StrayBracket(host: string) {
    var end := Index(host, "]");
    0 <= end < |host| - 1 && host[end + 1] != ':'
  }

  /** A second pass changes nothing: the port as typed has no space or slash left at its end, and a bare
      IPv6 literal has no stray closing bracket. */
  predicate SafeToRepeat(raw: string)
    requires !LeftAlone(raw)
  {
    EndsCleanly(PortOf(raw)) && !(AuthorityOf(raw).bracketsAdded && StrayBracket(AuthorityOf(raw).host))
  }

  datatype HostShape = Plain | Bracketed | Wrapped

  /** The three shapes an accepted authority can have. */
  lemma HostShapes(a: string) returns (shape: HostShape)
    requires SplitAuthority(a).host != ""
    ensures var at := SplitAuthority(a);
      match shape
      case Plain => PlainHost(at.host) && ':' !in at.port && !at.bracketsAdded
      case Bracketed => BracketedHost(at.host) && !at.bracketsAdded
      case Wrapped => at.bracketsAdded && at.port == "" && at.host == "[" + a + "]" && a != ""
  {
    if a[0] == '[' {
      shape := Bracketed;
      var end := Index(a, "]");
      assert a[end..end + 1] == "]";
      forall j | 0 <= j < end ensures a[j] != ']' {
        assert !OccursAt(a, "]", j);
        assert a[j..j + 1] == [a[j]];
      }
    } else if Count(a, ':') > 1 {
      shape := Wrapped;
    } else {
      shape := Plain;
      var i := LastIndex(a, ':');
      if i >= 0 {
        CountTail(a, i);
      }
    }
  }

  /** Where the first closing bracket of a wrapped literal splits it. */
  lemma FirstBracket(host: string) returns (end: nat)
    requires |host| >= 2 && host[0] == '[' && host[|host| - 1] == ']'
    ensures end == Index(host, "]") && 0 < end < |host| && BracketedHost(host[..end + 1])
  {
    var last := |host| - 1;
    assert host[last..last + 1] == "]";
    assert OccursAt(host, "]", last);
    end := Index(host, "]");
    assert host[end..end + 1] == "]";
    forall j | 0 <= j < end ensures host[j] != ']' {
      assert !OccursAt(host, "]", j);
      assert host[j..j + 1] == [host[j]];
    }
    assert host[..end + 1][..end] == host[..end];
  }

  lemma PrintedIsCanonical(scheme: string, host: string, port: string)
    requires IsCanonicalScheme(scheme) && WellFormed(host, port) && EndsCleanly(port)
    ensures Canonical(Print(scheme, host, port))
  {
    var n := Print(scheme, host, port);
    assert n[|n| - 1] == port[|port| - 1];
    assert PrintsAs(n, scheme, host, port);
  }

  lemma WrappedIsCanonical(scheme: string, host: string, port: string)
    requires IsCanonicalScheme(scheme) && EndsCleanly(port) && !StrayBracket(host)
    requires |host| >= 2 && host[0] == '[' && host[|host| - 1] == ']'
    ensures Canonical(Print(scheme, host, port))
  {
    var end := FirstBracket(host);
    if end < |host| - 1 {
      var port' := host[end + 2..] + ":" + port;
      assert host == host[..end + 1] + ":" + host[end + 2..];
      assert Print(scheme, host, port) == Print(scheme, host[..end + 1], port');
      assert port'[|port'| - 1] == port[|port| - 1];
      PrintedIsCanonical(scheme, host[..end + 1], port');
    } else {
      assert host[..end + 1] == host;
      PrintedIsCanonical(scheme, host, port);
    }
  }

  lemma AcceptedHost(raw: string) returns (shape: HostShape)
    requires !LeftAlone(raw)
    ensures var at, port := AuthorityOf(raw), PortOf(raw);
      match shape
      case Plain => WellFormed(at.host, port) && PlainHost(at.host) && !at.bracketsAdded
      case Bracketed => WellFormed(at.host, port) && BracketedHost(at.host) && !at.bracketsAdded
      case Wrapped => at.bracketsAdded && port == DefaultPort(SchemeOf(raw))
                      && |at.host| >= 2 && at.host[0] == '[' && at.host[|at.host| - 1] == ']'
  {
    shape := HostShapes(SplitScheme(WithoutSlash(TrimSpace(raw))).authority);
  }

  lemma SafeIsCanonical(raw: string)
    requires !LeftAlone(raw) && SafeToRepeat(raw)
    ensures Canonical(Normalize(raw))
  {
    NormalizeIsPrint(raw);
    var shape := AcceptedHost(raw);
    if shape == Wrapped {
      WrappedIsCanonical(SchemeOf(raw), AuthorityOf(raw).host, PortOf(raw));
    } else {
      PrintedIsCanonical(SchemeOf(raw), AuthorityOf(raw).host, PortOf(raw));
    }
  }

  // The converse: what a second pass does to an address it should not have to touch.

  /** Any suffix cut from a printed address, short of its last colon, leaves the same scheme. */
  lemma PrefixParses(scheme: string, authority: string)
    requires IsCanonicalScheme(scheme)
    ensures SplitScheme(scheme + "://" + authority) == Split(scheme, authority)
    ensures ResolveScheme(scheme) == Some(Scheme(scheme, []))
  {
    SchemeRecovered(scheme, authority);
    CanonicalResolves(scheme);
  }

  /** Trimming a text whose head ends in a colon takes something off the tail, and only off the tail. */
  lemma TrimmedTail(head: string, tail: string) returns (kept: string)
    requires head != "" && !IsSpace(head[0]) && head[|head| - 1] == ':'
    requires tail != "" && !EndsCleanly(tail)
    ensures |kept| < |tail| && kept <= tail
    ensures TrimSpace(head + tail) != "" && WithoutSlash(TrimSpace(head + tail)) == head + kept
  {
    var n := head + tail;
    var t := TrimRight(n);
    assert TrimSpace(n) == t;
    assert n[|head| - 1] == ':';
    assert |head| <= |t| && t[|head| - 1] == ':';
    assert n[|n| - 1] == tail[|tail| - 1];
    var s := WithoutSlash(t);
    kept := tail[..|s| - |head|];
    assert s == n[..|s|];
  }

  lemma TrimmedPrint(scheme: string, host: string, port: string) returns (kept: string)
    requires IsCanonicalScheme(scheme) && port != "" && !EndsCleanly(port)
    ensures |kept| < |port| && kept <= port
    ensures var n := Print(scheme, host, port);
            TrimSpace(n) != "" && SplitScheme(WithoutSlash(TrimSpace(n))) == Split(scheme, host + ":" + kept)
  {
    var head := scheme + "://" + host + ":";
    assert head[0] == scheme[0];
    kept := TrimmedTail(head, port);
    PrintJoins(scheme, host, kept);
    PrefixParses(scheme, host + ":" + kept);
  }

  lemma PrintShape(scheme: string, host: string, port: string)
    requires port != ""
    ensures var n := Print(scheme, host, port);
            |n| == |scheme| + |host| + |port| + 4 && n[|n| - 1] == port[|port| - 1]
  {
  }

  /** A second pass over an address with a port to trim gives something else. */
  lemma UncleanPortChanges(scheme: string, host: string, port: string)
    requires IsCanonicalScheme(scheme) && port != "" && !EndsCleanly(port)
    requires BracketedHost(host) || (PlainHost(host) && ':' !in port)
    ensures Normalize(Print(scheme, host, port)) != Print(scheme, host, port)
  {
    var n := Print(scheme, host, port);
    var kept := TrimmedPrint(scheme, host, port);
    hide TrimSpace, WithoutSlash, SplitScheme, ResolveScheme, SplitAuthority, Interpret, Print, BracketedHost, PlainHost;
    hide IsCanonicalScheme, DefaultPort, EndsCleanly, Normalize;
    CanonicalResolves(scheme);
    DefaultEndsCleanly(scheme);
    SplitShorter(host, kept);
    HostsExist(host);
    InterpretRebuilds(n, Scheme(scheme, []), Authority(host, kept, false));
    AnotherPort(scheme, host, port, if kept == "" then DefaultPort(scheme) else kept);
  }

  lemma DefaultEndsCleanly(scheme: string)
    ensures EndsCleanly(DefaultPort(scheme))
  {
  }

  lemma HostsExist(host: string)
    requires BracketedHost(host) || PlainHost(host)
    ensures host != ""
  {
  }

  /** Another port prints another address, if it ends otherwise or is shorter. */
  lemma AnotherPort(scheme: string, host: string, port: string, other: string)
    requires port != "" && other != "" && ((EndsCleanly(other) && !EndsCleanly(port)) || |other| < |port|)
    ensures Print(scheme, host, other) != Print(scheme, host, port)
  {
    PrintShape(scheme, host, port);
    PrintShape(scheme, host, other);
    hide Print;
  }

  lemma SplitShorter(host: string, port: string)
    requires BracketedHost(host) || (PlainHost(host) && ':' !in port)
    ensures SplitAuthority(host + ":" + port) == Authority(host, port, false)
  {
    if port != "" {
      AuthorityRecovered(host, port);
    } else if BracketedHost(host) {
      assert host + ":" + port == host + ":";
      BracketEnds(host, ":");
      assert (host + ":")[..|host|] == host && (host + ":")[|host|..] == ":";
    } else {
      assert host + ":" + port == host + [':'] + "";
      CountSplits(host, "", ':');
      LastIndexSplits(host, "", ':');
      assert (host + ":")[..|host|] == host && (host + ":")[|host| + 1..] == "";
    }
  }

  lemma StrayAuthority(host: string, port: string) returns (cut: string)
    requires StrayBracket(host) && |host| >= 2 && host[0] == '[' && host[|host| - 1] == ']'
    ensures SplitAuthority(host + ":" + port) == Authority(cut, "", false) && 0 < |cut| < |host|
  {
    var end := FirstBracket(host);
    cut := host[..end + 1];
    var a, rest := host + ":" + port, host[end + 1..] + ":" + port;
    assert a == cut + rest;
    BracketEnds(cut, rest);
    assert a[..end + 1] == cut && a[end + 1..] == rest;
  }

  /** A second pass over a literal with a stray bracket cuts it there. */
  lemma StrayBracketChanges(scheme: string, host: string)
    requires IsCanonicalScheme(scheme) && StrayBracket(host)
    requires |host| >= 2 && host[0] == '[' && host[|host| - 1] == ']'
    ensures Normalize(Print(scheme, host, DefaultPort(scheme))) != Print(scheme, host, DefaultPort(scheme))
  {
    var p := DefaultPort(scheme);
    var n := Print(scheme, host, p);
    PrintJoins(scheme, host, p);
    assert n[|n| - 1] == p[|p| - 1] == '3';
    NothingToTrim(scheme, host + ":" + p);
    PrefixParses(scheme, host + ":" + p);
    var cut := StrayAuthority(host, p);
    InterpretRebuilds(n, Scheme(scheme, []), Authority(cut, "", false));
    assert |Print(scheme, cut, p)| < |n|;
  }

  /** A second pass changes nothing exactly when the first left the address alone or the port and
      brackets it read are safe. */
  lemma IdempotentExactlyWhen(raw: string)
    ensures Normalize(Normalize(raw)) == Normalize(raw) <==> LeftAlone(raw) || SafeToRepeat(raw)
  {
    hide TrimSpace, WithoutSlash, SplitScheme, ResolveScheme, SplitAuthority, Interpret, Print, LeftAlone;
    hide Canonical, StrayBracket;
    NormalizeIsPrint(raw);
    if !LeftAlone(raw) {
      if SafeToRepeat(raw) {
        SafeIsCanonical(raw);
        CanonicalIsFixed(Normalize(raw));
      } else {
        var scheme, host, port := SchemeOf(raw), AuthorityOf(raw).host, PortOf(raw);
        var shape := AcceptedHost(raw);
        if shape == Wrapped {
          StrayBracketChanges(scheme, host);
        } else {
          UncleanPortChanges(scheme, host, port);
        }
      }
    }
  }

  lemma UnsafeParts(raw: string, scheme: Scheme, authority: Authority)
    requires TrimSpace(raw) != ""
    requires var split := SplitScheme(WithoutSlash(TrimSpace(raw)));
             ResolveScheme(split.scheme) == Some(scheme) && SplitAuthority(split.authority) == authority
    requires authority.host != ""
    requires if authority.bracketsAdded then StrayBracket(authority.host) else authority.port != "" && !EndsCleanly(authority.port)
    ensures !LeftAlone(raw) && !SafeToRepeat(raw) && Normalize(Normalize(raw)) != Normalize(raw)
  {
    IdempotentExactlyWhen(raw);
    hide TrimSpace, WithoutSlash, SplitScheme, ResolveScheme, SplitAuthority, Interpret, StrayBracket;
  }

  /** Two slashes at the end: the first pass takes one and reads the other as part of the port. */
  lemma TwoSlashesAreUnsafe(scheme: string, host: string, port: string)
    requires IsCanonicalScheme(scheme) && WellFormed(host, port)
    ensures var raw := Print(scheme, host, port) + "//";
      !LeftAlone(raw) && !SafeToRepeat(raw) && Normalize(Normalize(raw)) != Normalize(raw)
  {
    var raw, typed := Print(scheme, host, port) + "//", port + "/";
    assert raw[0] == scheme[0] && raw[|raw| - 1] == '/';
    assert TrimLeft(raw) == raw && TrimSpace(raw) == raw;
    assert WithoutSlash(raw) == scheme + "://" + (host + ":" + typed);
    hide TrimSpace, WithoutSlash, SplitScheme, ResolveScheme, SplitAuthority, Print, LeftAlone, SafeToRepeat, Interpret;
    PrefixParses(scheme, host + ":" + typed);
    AuthorityRecovered(host, typed);
    UnsafeParts(raw, Scheme(scheme, []), Authority(host, typed, false));
  }

  lemma CountSnoc(s: string, c: char, d: char)
    ensures Count(s + [d], c) == Count(s, c) + if d == c then 1 else 0
  {
    assert (s + [d])[..|s|] == s;
  }

  lemma NothingAround(s: string)
    requires s != "" && !IsSpace(s[0]) && EndsCleanly(s)
    ensures TrimSpace(s) == s && WithoutSlash(s) == s
  {
    assert TrimLeft(s) == s;
    hide IsSpace, TrimLeft;
  }

  lemma BareLiteralIsWrapped(raw: string)
    requires Count(raw, ':') > 1 && raw[0] != '['
    ensures SplitAuthority(raw) == Authority("[" + raw + "]", "", true)
  {
    hide Count, LastIndex, Index;
  }

  lemma NoSchemeWithoutSlash(raw: string)
    requires '/' !in raw
    ensures SplitScheme(raw) == Split("", raw)
  {
    var i := Index(raw, "://");
    if i >= 0 {
      SeparatorHasSlash(raw, i);
    }
  }

  lemma SeparatorHasSlash(s: string, i: int)
    requires OccursAt(s, "://", i)
    ensures '/' in s
  {
    assert s[i..i + 3][1] == '/';
  }

  lemma StrayAt(host: string, end: nat)
    requires end + 1 < |host| && host[end] == ']' && ']' !in host[..end] && host[end + 1] != ':'
    ensures StrayBracket(host)
  {
    assert host[end..end + 1] == "]";
    assert OccursAt(host, "]", end);
    forall j | 0 <= j < end ensures !OccursAt(host, "]", j) {
      assert host[j..j + 1][0] == host[..end][j];
      assert host[..end][j] in host[..end];
    }
  }

  /** A bare IPv6 literal with a closing bracket typed by mistake: the first pass wraps it, the second
      cuts it there. */
  lemma StrayBracketIsUnsafe(raw: string, end: nat)
    requires '/' !in raw && Count(raw, ':') > 1 && raw[0] != '[' && !IsSpace(raw[0]) && EndsCleanly(raw)
    requires end < |raw| && raw[end] == ']' && ']' !in raw[..end] && (end + 1 < |raw| ==> raw[end + 1] != ':')
    ensures !LeftAlone(raw) && !SafeToRepeat(raw) && Normalize(Normalize(raw)) != Normalize(raw)
  {
    hide TrimSpace, WithoutSlash, SplitScheme, SplitAuthority, StrayBracket, LeftAlone, SafeToRepeat, Interpret, IsSpace, Count;
    var host := "[" + raw + "]";
    NothingAround(raw);
    BareLiteralIsWrapped(raw);
    NoSchemeWithoutSlash(raw);
    assert host[..end + 1] == "[" + raw[..end];
    StrayAt(host, end + 1);
    UnsafeParts(raw, Scheme("tcp", [AssumedTcp]), Authority(host, "", true));
  }

  /** The two ways to fail, at their shortest. */
  lemma UnsafeAddresses()
    ensures var raw := "tcp://h:1883//";
      !LeftAlone(raw) && !SafeToRepeat(raw) && Normalize(Normalize(raw)) != Normalize(raw)
    ensures var raw := "a]b::c";
      !LeftAlone(raw) && !SafeToRepeat(raw) && Normalize(Normalize(raw)) != Normalize(raw)
  {
    hide LeftAlone, SafeToRepeat, Normalize, Count;
    assert "tcp://h:1883//" == Print("tcp", "h", "1883") + "//";
    TwoSlashesAreUnsafe("tcp", "h", "1883");
    var raw := "a]b::c";
    assert raw == ("a]b" + [':'] + [':']) + ['c'];
    CountSnoc("a]b" + [':'] + [':'], ':', 'c');
    CountSnoc("a]b" + [':'], ':', ':');
    CountSnoc("a]b", ':', ':');
    StrayBracketIsUnsafe(raw, 1);
  }

  /** The fixed points of normalisation: canonical addresses, and those it does not understand. */
  lemma FixedPointsExactly(a: string)
    ensures Normalize(a) == a <==> LeftAlone(a) || Canonical(a)
  {
    NormalizeIsPrint(a);
    if Canonical(a) {
      CanonicalIsFixed(a);
    }
    if Normalize(a) == a && !LeftAlone(a) {
      IdempotentExactlyWhen(a);
      SafeIsCanonical(a);
    }
  }

  // ----- What normalisation is for -----

  lemma KnownSchemeIsLetters(rawScheme: string)
    requires rawScheme != "" && ResolveScheme(rawScheme).Some?
    ensures ':' !in rawScheme && !IsSpace(rawScheme[0])
  {
    var lower := ToLower(rawScheme);
    forall i | 0 <= i < |rawScheme| ensures 'A' <= rawScheme[i] <= 'z' && rawScheme[i] != ':' {
      assert lower[i] == LowerChar(rawScheme[i]);
      assert 'a' <= lower[i] <= 'z';
    }
  }

  /** scheme://host:port in any accepted spelling of the scheme, well formed and cleanly ended, becomes
      the canonical form with the same host and port. */
  lemma WellFormedIsCanonicalised(rawScheme: string, host: string, port: string)
    requires rawScheme != "" && ResolveScheme(rawScheme).Some?
    requires WellFormed(host, port) && EndsCleanly(port)
    ensures var scheme := ResolveScheme(rawScheme).value;
            Normalize(Print(rawScheme, host, port)) == Print(scheme.name, host, port)
            && NotesOf(Print(rawScheme, host, port)) == scheme.notes
  {
    var raw := Print(rawScheme, host, port);
    PrintJoins(rawScheme, host, port);
    KnownSchemeIsLetters(rawScheme);
    assert raw[0] == rawScheme[0] && raw[|raw| - 1] == port[|port| - 1];
    assert TrimLeft(raw) == raw;
    assert TrimSpace(raw) == raw && WithoutSlash(raw) == raw;
    SchemeRecovered(rawScheme, host + ":" + port);
    AuthorityRecovered(host, port);
    InterpretRebuilds(raw, ResolveScheme(rawScheme).value, Authority(host, port, false));
  }

  // ----- The table of schemes and ports -----

  /** The lower-case name in any letter case. */
  predicate Spells(typed: string, name: string) {
    |typed| == |name| && forall i :: 0 <= i < |name| ==> SameLetter(typed[i], name[i])
  }

  predicate SameLetter(typed: char, lower: char) {
    typed == lower || ('A' <= typed <= 'Z' && typed as int + 32 == lower as int)
  }

  predicate LowerCase(name: string) {
    forall i :: 0 <= i < |name| ==> 'a' <= name[i] <= 'z'
  }

  lemma SpellsLowers(typed: string, name: string)
    requires LowerCase(name)
    ensures Spells(typed, name) <==> ToLower(typed) == name
  {
    if ToLower(typed) == name {
      forall i | 0 <= i < |name| ensures SameLetter(typed[i], name[i]) {
        assert ToLower(typed)[i] == LowerChar(typed[i]);
      }
    }
    if Spells(typed, name) {
      assert forall i :: 0 <= i < |name| ==> LowerChar(typed[i]) == name[i];
      assert ToLower(typed) == name;
    }
  }

  /** The documented table, in any letter case: TLS names mean ssl, plain ones and web addresses tcp, and
      paho's own four stand for themselves. */
  predicate Stands(typed: string, name: string) {
    if name == "ssl" then Spells(typed, "ssl") || Spells(typed, "mqtts") || Spells(typed, "tls")
    else if name == "tcp" then Spells(typed, "tcp") || Spells(typed, "mqtt") || Spells(typed, "http") || Spells(typed, "https")
    else (name == "ws" || name == "wss") && Spells(typed, name)
  }

  predicate Recognized(typed: string) {
    Stands(typed, "tcp") || Stands(typed, "ssl") || Stands(typed, "ws") || Stands(typed, "wss")
  }

  lemma SpellsNames(typed: string)
    ensures Spells(typed, "tcp") <==> ToLower(typed) == "tcp"
    ensures Spells(typed, "ssl") <==> ToLower(typed) == "ssl"
    ensures Spells(typed, "ws") <==> ToLower(typed) == "ws"
    ensures Spells(typed, "wss") <==> ToLower(typed) == "wss"
    ensures Spells(typed, "mqtt") <==> ToLower(typed) == "mqtt"
    ensures Spells(typed, "mqtts") <==> ToLower(typed) == "mqtts"
    ensures Spells(typed, "tls") <==> ToLower(typed) == "tls"
    ensures Spells(typed, "http") <==> ToLower(typed) == "http"
    ensures Spells(typed, "https") <==> ToLower(typed) == "https"
  {
    hide Spells, ToLower;
    SpellsLowers(typed, "tcp");
    SpellsLowers(typed, "ssl");
    SpellsLowers(typed, "ws");
    SpellsLowers(typed, "wss");
    SpellsLowers(typed, "mqtt");
    SpellsLowers(typed, "mqtts");
    SpellsLowers(typed, "tls");
    SpellsLowers(typed, "http");
    SpellsLowers(typed, "https");
  }

  /** What the table says a scheme becomes, and what is noted about it. */
  lemma SchemeByTheTable(typed: string, name: string)
    requires typed != ""
    ensures Stands(typed, name) <==> ResolveScheme(typed).Some? && ResolveScheme(typed).value.name == name
    ensures Recognized(typed) <==> ResolveScheme(typed).Some?
  {
    SpellsNames(typed);
    hide Spells, ToLower;
  }

  /** The note on a recognized scheme. */
  predicate SchemeNoted(typed: string, notes: seq<Note>) {
    notes ==
      if Spells(typed, "mqtts") then [ConvertedMqtts]
      else if Spells(typed, "tls") then [ConvertedTls]
      else if Spells(typed, "mqtt") then [ConvertedMqtt]
      else if Spells(typed, "http") || Spells(typed, "https") then [WebScheme]
      else if typed == "tcp" || typed == "ssl" || typed == "ws" || typed == "wss" then []
      else [LoweredScheme]
  }

  lemma NotesByTheTable(typed: string, name: string)
    requires typed != "" && Stands(typed, name)
    ensures ResolveScheme(typed).Some? && SchemeNoted(typed, ResolveScheme(typed).value.notes)
  {
    SpellsNames(typed);
    CanonicalLowers(typed);
    hide Spells, ToLower;
  }

  lemma CanonicalLowers(typed: string)
    ensures IsCanonicalScheme(typed) ==> ToLower(typed) == typed
  {
    if IsCanonicalScheme(typed) {
      forall i | 0 <= i < |typed| ensures LowerChar(typed[i]) == typed[i] {
      }
      assert ToLower(typed) == typed;
    }
  }

  /** A well-formed address under a recognized scheme becomes the one the table says, noted as such. */
  lemma NormalizedByTheTable(typed: string, name: string, host: string, port: string)
    requires typed != "" && Stands(typed, name) && WellFormed(host, port) && EndsCleanly(port)
    ensures var raw := typed + "://" + host + ":" + port;
            Normalize(raw) == name + "://" + host + ":" + port && SchemeNoted(typed, NotesOf(raw))
  {
    SchemeByTheTable(typed, name);
    NotesByTheTable(typed, name);
    hide Spells, ResolveScheme, SchemeNoted, Stands, Normalize, NotesOf;
    WellFormedIsCanonicalised(typed, host, port);
  }

  /** The port of an address that has none. */
  function Unspecified(name: string): string {
    if name == "ssl" then "8883" else "1883"
  }

  lemma HostAlone(host: string)
    requires BracketedHost(host) || PlainHost(host)
    ensures SplitAuthority(host) == Authority(host, "", false)
  {
    if BracketedHost(host) {
      assert host + "" == host;
      BracketEnds(host, "");
      assert host[..|host|] == host && host[|host|..] == "";
    }
  }

  /** What is around the parts of an address under a scheme: nothing to trim. */
  lemma TypedParses(typed: string, rest: string)
    requires typed != "" && ':' !in typed && !IsSpace(typed[0]) && EndsCleanly(rest)
    ensures var raw := typed + "://" + rest;
      && raw != "" && TrimSpace(raw) == raw && WithoutSlash(raw) == raw && SplitScheme(raw) == Split(typed, rest)
  {
    var raw := typed + "://" + rest;
    assert raw[0] == typed[0] && raw[|raw| - 1] == rest[|rest| - 1];
    hide TrimSpace, WithoutSlash, SplitScheme;
    NothingAround(raw);
    SchemeRecovered(typed, rest);
  }

  /** Without a port: 8883 for ssl, 1883 for the rest. */
  lemma PortByTheTable(typed: string, name: string, host: string)
    requires typed != "" && Stands(typed, name) && (BracketedHost(host) || PlainHost(host)) && EndsCleanly(host)
    ensures Normalize(typed + "://" + host) == name + "://" + host + ":" + Unspecified(name)
    ensures var notes := NotesOf(typed + "://" + host);
            notes != [] && SchemeNoted(typed, notes[..|notes| - 1]) && notes[|notes| - 1] == DefaultedPort(Unspecified(name))
  {
    SchemeByTheTable(typed, name);
    NotesByTheTable(typed, name);
    KnownSchemeIsLetters(typed);
    TypedParses(typed, host);
    HostAlone(host);
    var noted := ResolveScheme(typed).value.notes;
    assert (noted + [DefaultedPort(Unspecified(name))])[..|noted|] == noted;
    hide SchemeNoted, Spells, Stands, ResolveScheme, TrimSpace, WithoutSlash, SplitScheme, SplitAuthority, BracketedHost, PlainHost, IsSpace;
    HostsExist(host);
    InterpretRebuilds(typed + "://" + host, ResolveScheme(typed).value, Authority(host, "", false));
  }

  /** Without a scheme, plain MQTT over tcp. */
  lemma NoSchemeMeansTcp(host: string, port: string)
    requires WellFormed(host, port) && EndsCleanly(port) && '/' !in host && '/' !in port && !IsSpace(host[0])
    ensures Normalize(host + ":" + port) == Print("tcp", host, port) && NotesOf(host + ":" + port) == [AssumedTcp]
  {
    hide TrimSpace, WithoutSlash, SplitScheme, SplitAuthority, IsSpace, Print, Normalize;
    var raw := host + ":" + port;
    AuthorityRecovered(host, port);
    BareParses(raw);
    InterpretRebuilds(raw, Scheme("tcp", [AssumedTcp]), Authority(host, port, false));
  }

  lemma BareHostMeansTcp(host: string)
    requires (BracketedHost(host) || PlainHost(host)) && EndsCleanly(host) && '/' !in host && !IsSpace(host[0])
    ensures Normalize(host) == Print("tcp", host, "1883") && NotesOf(host) == [AssumedTcp, DefaultedPort("1883")]
  {
    HostAlone(host);
    BareParses(host);
    hide TrimSpace, WithoutSlash, SplitScheme, SplitAuthority, BracketedHost, PlainHost, IsSpace, Print, Normalize;
    InterpretRebuilds(host, Scheme("tcp", [AssumedTcp]), Authority(host, "", false));
  }

  lemma BareParses(raw: string)
    requires raw != "" && '/' !in raw && !IsSpace(raw[0]) && EndsCleanly(raw)
    ensures TrimSpace(raw) == raw && WithoutSlash(raw) == raw && SplitScheme(raw) == Split("", raw)
  {
    NothingAround(raw);
    NoSchemeWithoutSlash(raw);
  }

  lemma {:induction false} TwoColons(raw: string, i: nat, j: nat)
    requires i < j < |raw| && raw[i] == raw[j] == ':'
    ensures Count(raw, ':') > 1
    decreases |raw|
  {
    var init := raw[..|raw| - 1];
    if j < |raw| - 1 {
      TwoColons(init, i, j);
    } else {
      assert init[i] == ':';
    }
  }

  /** Two colons and no bracket in front are an IPv6 literal: wrapped, with the plain port. */
  lemma LiteralIsWrapped(raw: string, i: nat, j: nat)
    requires i < j < |raw| && raw[i] == raw[j] == ':'
    requires '/' !in raw && raw[0] != '[' && !IsSpace(raw[0]) && EndsCleanly(raw)
    ensures Normalize(raw) == Print("tcp", "[" + raw + "]", "1883")
    ensures NotesOf(raw) == [AssumedTcp, AddedBrackets, DefaultedPort("1883")]
  {
    TwoColons(raw, i, j);
    BareParses(raw);
    BareLiteralIsWrapped(raw);
    hide TrimSpace, WithoutSlash, SplitScheme, SplitAuthority, Count, IsSpace, Print;
    InterpretRebuilds(raw, Scheme("tcp", [AssumedTcp]), Authority("[" + raw + "]", "", true));
  }

  /** Anything else before the separator: the address is returned as it was given. */
  lemma UnknownSchemeIsLeftAlone(typed: string, rest: string)
    requires typed != "" && ':' !in typed && !IsSpace(typed[0]) && EndsCleanly(rest) && !Recognized(typed)
    ensures var raw := typed + "://" + rest; Normalize(raw) == raw && NotesOf(raw) == [UnrecognizedScheme]
  {
    SchemeByTheTable(typed, "tcp");
    TypedParses(typed, rest);
    hide Spells, Stands, Recognized, ResolveScheme, TrimSpace, WithoutSlash, SplitScheme, SplitAuthority, IsSpace;
  }

  predicate Blank(s: string) {
    forall i :: 0 <= i < |s| ==> s[i] == ' ' || s[i] == '\t' || s[i] == '\n' || s[i] == '\r'
  }

  lemma {:induction false} BlanksBefore(l: string, a: string)
    requires Blank(l) && a != "" && !IsSpace(a[0])
    ensures TrimLeft(l + a) == a
    decreases |l|
  {
    if l == "" {
      assert l + a == a;
    } else {
      BlanksBefore(l[1..], a);
      assert (l + a)[1..] == l[1..] + a;
    }
  }

  lemma {:induction false} BlanksBehind(a: string, r: string)
    requires Blank(r) && a != "" && !IsSpace(a[|a| - 1])
    ensures TrimRight(a + r) == a
    decreases |r|
  {
    if r == "" {
      assert a + r == a;
    } else {
      BlanksBehind(a, r[..|r| - 1]);
      assert (a + r)[..|a + r| - 1] == a + r[..|r| - 1];
    }
  }

  function TrimNote(l: string, r: string): seq<Note> {
    if l == "" && r == "" then [] else [TrimmedWhitespace]
  }

  /** Nothing but blanks. */
  lemma BlankIsEmpty(raw: string)
    requires Blank(raw)
    ensures Normalize(raw) == raw && NotesOf(raw) == [EmptyAddress]
  {
    BlanksOnly(raw);
  }

  lemma {:induction false} BlanksOnly(raw: string)
    requires Blank(raw)
    ensures TrimLeft(raw) == ""
    decreases |raw|
  {
    if raw != "" {
      BlanksOnly(raw[1..]);
    }
  }

  /** A recognized scheme, and no host in front of the colon or a bracket that nothing closes. */
  lemma NoHostIsLeftAlone(typed: string, rest: string)
    requires typed != "" && Recognized(typed) && EndsCleanly(rest)
    requires (rest[0] == ':' && ':' !in rest[1..]) || (rest[0] == '[' && ']' !in rest)
    ensures Normalize(typed + "://" + rest) == typed + "://" + rest && NotesOf(typed + "://" + rest) == [Unparseable]
  {
    SchemeByTheTable(typed, "tcp");
    KnownSchemeIsLetters(typed);
    TypedParses(typed, rest);
    NoHost(rest);
    hide Recognized, Stands, ResolveScheme, TrimSpace, WithoutSlash, SplitScheme, SplitAuthority, IsSpace;
  }

  lemma NoHost(rest: string)
    requires rest != ""
    requires (rest[0] == ':' && ':' !in rest[1..]) || (rest[0] == '[' && ']' !in rest)
    ensures SplitAuthority(rest).host == ""
  {
    if rest[0] == '[' {
      var i := Index(rest, "]");
      if i >= 0 {
        BracketOccurs(rest, i);
      }
    } else {
      assert rest == "" + [':'] + rest[1..];
      CountSplits("", rest[1..], ':');
      LastIndexSplits("", rest[1..], ':');
    }
  }

  lemma BracketOccurs(s: string, i: int)
    requires OccursAt(s, "]", i)
    ensures ']' in s
  {
    assert s[i..i + 1][0] == ']';
  }

  lemma Surrounded(l: string, core: string, r: string, a: string)
    requires Blank(l) && Blank(r) && a != "" && !IsSpace(a[0]) && EndsCleanly(a)
    requires core == a || core == a + "/"
    ensures var raw := l + core + r;
      && (LeftAlone(raw) <==> LeftAlone(a))
      && (!LeftAlone(a) ==>
            && Normalize(raw) == Normalize(a)
            && NotesOf(raw) == TrimNote(l, r) + (if core == a then [] else [RemovedTrailingSlash]) + NotesOf(a))
  {
    assert core[0] == a[0] && !IsSpace(core[|core| - 1]);
    assert WithoutSlash(core) == a;
    NothingAround(a);
    Trimmed(l, core, r);
    hide TrimSpace, WithoutSlash, Interpret, LeftAlone, IsSpace, Blank, EndsCleanly;
    SameParts(l + core + r, a);
    LongerIsOther(l, core, r);
  }

  /** Blanks around an address, and one slash at its end, make no difference. */
  lemma SurroundingsAreDropped(l: string, a: string, r: string)
    requires Blank(l) && Blank(r) && a != "" && !IsSpace(a[0]) && EndsCleanly(a)
    ensures LeftAlone(l + a + r) <==> LeftAlone(a)
    ensures LeftAlone(l + a + "/" + r) <==> LeftAlone(a)
    ensures !LeftAlone(a) ==> Normalize(l + a + r) == Normalize(a) == Normalize(l + a + "/" + r)
    ensures !LeftAlone(a) ==> NotesOf(l + a + r) == TrimNote(l, r) + NotesOf(a)
    ensures !LeftAlone(a) ==> NotesOf(l + a + "/" + r) == TrimNote(l, r) + [RemovedTrailingSlash] + NotesOf(a)
  {
    assert |a + "/"| > |a| && l + a + "/" + r == l + (a + "/") + r;
    hide LeftAlone, IsSpace, Blank, EndsCleanly, Normalize, NotesOf, TrimNote;
    Surrounded(l, a, r, a);
    Surrounded(l, a + "/", r, a);
    assert TrimNote(l, r) + [] == TrimNote(l, r);
  }

  lemma LongerIsOther(l: string, a: string, r: string)
    ensures l + a + r == a <==> l == "" && r == ""
  {
    assert |l + a + r| == |l| + |a| + |r|;
    assert l == "" && r == "" ==> l + a + r == a;
  }

  /** An address that trims to another is read like it; only the trimming is noted. */
  lemma SameParts(raw: string, a: string)
    requires a != "" && TrimSpace(a) == a && WithoutSlash(a) == a && WithoutSlash(TrimSpace(raw)) == a
    ensures LeftAlone(raw) <==> LeftAlone(a)
    ensures !LeftAlone(a) ==> Normalize(raw) == Normalize(a) && NotesOf(raw) == TrimNotes(raw, TrimSpace(raw)) + NotesOf(a)
  {
    hide TrimSpace, SplitScheme, ResolveScheme, SplitAuthority, Rebuilt;
    if !LeftAlone(a) {
      var split := SplitScheme(a);
      var scheme, authority := ResolveScheme(split.scheme).value, SplitAuthority(split.authority);
      InterpretRebuilds(a, scheme, authority);
      InterpretRebuilds(raw, scheme, authority);
      hide WithoutSlash, Interpret, AuthorityNotes;
      assert TrimNotes(a, a) == [] by {
        NothingNoted(a);
      }
    }
  }

  lemma NothingNoted(a: string)
    requires WithoutSlash(a) == a
    ensures TrimNotes(a, a) == []
  {
  }

  lemma Trimmed(l: string, a: string, r: string)
    requires Blank(l) && Blank(r) && a != "" && !IsSpace(a[0]) && !IsSpace(a[|a| - 1])
    ensures TrimSpace(l + a + r) == a
  {
    assert l + a + r == l + (a + r) && (a + r)[0] == a[0];
    BlanksBefore(l, a + r);
    BlanksBehind(a, r);
  }
}

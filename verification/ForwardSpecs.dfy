/**
 The forward-port label of internal/dockerx/forward.go: its printer, its lenient
 parser, and the proof that they undo each other.
 */
module ForwardSpecs {
  import opened Text

  datatype ForwardSpec = ForwardSpec(hostPort: int, containerPort: int, proto: string, tls: bool)

  const TLS_SUFFIX := ";tls"

  predicate PortOk(p: int) {
    1 <= p <= 65535
  }

  /** What ParseForwardSpecs promises of every spec it returns. */
  predicate Valid(s: ForwardSpec) {
    && PortOk(s.hostPort) && PortOk(s.containerPort)
    && (s.proto == "tcp" || s.proto == "udp")
    && (s.tls ==> s.proto == "tcp")
  }

  /** A spec as callers build it: an empty protocol stands for tcp. */
  predicate Printable(s: ForwardSpec) {
    && PortOk(s.hostPort) && PortOk(s.containerPort)
    && (s.proto == "" || s.proto == "tcp" || s.proto == "udp")
    && (s.tls ==> s.proto != "udp")
  }

  predicate AllPrintable(specs: seq<ForwardSpec>) {
    forall i :: 0 <= i < |specs| ==> Printable(specs[i])
  }

  function Normal(s: ForwardSpec): ForwardSpec {
    s.(proto := if s.proto == "" then "tcp" else s.proto)
  }

  /** ForwardSpec.String. */
  function Print(s: ForwardSpec): string {
    var proto := if s.proto == "" then "tcp" else s.proto;
    Decimal(s.hostPort) + ":" + Decimal(s.containerPort) + "/" + proto + if s.tls then TLS_SUFFIX else ""
  }

  function PrintAll(specs: seq<ForwardSpec>): (r: seq<string>)
    ensures |r| == |specs|
    ensures forall i :: 0 <= i < |specs| ==> r[i] == Print(specs[i])
  {
    if specs == [] then [] else [Print(specs[0])] + PrintAll(specs[1..])
  }

  function NormalAll(specs: seq<ForwardSpec>): seq<ForwardSpec> {
    seq(|specs|, i requires 0 <= i < |specs| => Normal(specs[i]))
  }

  method FormatForwardSpecs(specs: seq<ForwardSpec>) returns (text: string)
    ensures text == Join(PrintAll(specs), ',')
  {
    var parts: seq<string> := [];
    for i := 0 to |specs|
      invariant |parts| == i
      invariant forall j :: 0 <= j < i ==> parts[j] == Print(specs[j])
    {
      parts := parts + [Print(specs[i])];
    }
    assert parts == PrintAll(specs);
    text := Join(parts, ',');
  }

  /** "host:container", once the protocol and the tls mark are cut off. */
  function ParsePorts(body: string, proto: string, tls: bool): Option<ForwardSpec> {
    var colon := IndexOf(body, ':');
    if colon == |body| then None
    else
      match (Atoi(TrimSpace(body[..colon])), Atoi(TrimSpace(body[colon + 1..])))
      case (Some(hp), Some(cp)) =>
        if PortOk(hp) && PortOk(cp) then Some(ForwardSpec(hp, cp, proto, tls)) else None
      case _ => None
  }

  /** "host:container/proto", once the tls mark is cut off. */
  function ParseBare(bare: string, tls: bool): Option<ForwardSpec> {
    var slash := LastIndexOf(bare, '/');
    var proto := if slash >= 0 then ToLower(TrimSpace(bare[slash + 1..])) else "tcp";
    if (proto != "tcp" && proto != "udp") || (tls && proto != "tcp") then None
    else ParsePorts(if slash >= 0 then bare[..slash] else bare, proto, tls)
  }

  /** One comma-separated entry; None is an entry the parser skips. */
  function ParseEntry(entry: string): Option<ForwardSpec> {
    var raw := TrimSpace(entry);
    if raw == "" then None
    else if HasSuffix(raw, TLS_SUFFIX) then ParseBare(raw[..|raw| - |TLS_SUFFIX|], true)
    else ParseBare(raw, false)
  }

  /** The list a label stands for. */
  function ParseLabel(text: string): seq<ForwardSpec> {
    FilterMap(ParseEntry, Split(text, ','))
  }

  method ParsePortPair(body: string, proto: string, tls: bool) returns (r: Option<ForwardSpec>)
    ensures r == ParsePorts(body, proto, tls)
  {
    hide TrimSpace, Atoi, IndexOf;
    var colon := IndexOf(body, ':');
    if colon == |body| {
      return None;
    }
    var hp := Atoi(TrimSpace(body[..colon]));
    if hp.None? || !PortOk(hp.value) {
      return None;
    }
    var cp := Atoi(TrimSpace(body[colon + 1..]));
    if cp.None? || !PortOk(cp.value) {
      return None;
    }
    return Some(ForwardSpec(hp.value, cp.value, proto, tls));
  }

  /** The body of the parser's loop, one guard at a time. */
  method ParsePiece(piece: string) returns (r: Option<ForwardSpec>)
    ensures r == ParseEntry(piece)
  {
    hide TrimSpace, ToLower, ParsePorts, LastIndexOf;
    var raw := TrimSpace(piece);
    if raw == "" {
      return None;
    }
    var tls := false;
    if HasSuffix(raw, TLS_SUFFIX) {
      tls := true;
      raw := raw[..|raw| - |TLS_SUFFIX|];
    }
    var proto := "tcp";
    var slash := LastIndexOf(raw, '/');
    if slash >= 0 {
      proto := ToLower(TrimSpace(raw[slash + 1..]));
      raw := raw[..slash];
    }
    if proto != "tcp" && proto != "udp" {
      return None;
    }
    if tls && proto != "tcp" {
      return None;
    }
    r := ParsePortPair(raw, proto, tls);
  }

  method ParseForwardSpecs(text: string) returns (out: seq<ForwardSpec>)
    ensures out == ParseLabel(text)
  {
    hide ParseEntry;
    out := [];
    var pieces := Split(text, ',');
    for i := 0 to |pieces|
      invariant out + FilterMap(ParseEntry, pieces[i..]) == ParseLabel(text)
    {
      assert pieces[i..][1..] == pieces[i + 1..];
      var r := ParsePiece(pieces[i]);
      if r.Some? {
        out := out + [r.value];
      }
    }
  }

  // ----- what an entry denotes -----

  /** host ":" container, with the protocol after a slash or left out for tcp, and the mark. */
  function Entry(host: string, container: string, proto: string, tls: bool): string {
    host + ":" + container + proto + if tls then TLS_SUFFIX else ""
  }

  predicate Names(mark: string, proto: string) {
    || (mark == "" && proto == "tcp")
    || (mark != "" && mark[0] == '/' && '/' !in mark[1..] && ToLower(TrimSpace(mark[1..])) == proto)
  }

  /** The text, read by the label's grammar, asks for s. */
  ghost predicate Denotes(text: string, s: ForwardSpec) {
    exists host, container, mark ::
      && TrimSpace(text) == Entry(host, container, mark, s.tls)
      && Atoi(TrimSpace(host)) == Some(s.hostPort) && Atoi(TrimSpace(container)) == Some(s.containerPort)
      && Names(mark, s.proto)
  }

  predicate InNumber(c: char) {
    IsSpace(c) || IsDigit(c) || c == '+' || c == '-'
  }

  /** A number, perhaps padded, holds no mark of the grammar. */
  lemma NumberChars(t: string)
    requires Atoi(TrimSpace(t)).Some?
    ensures t != "" && forall i :: 0 <= i < |t| ==> InNumber(t[i])
  {
    hide TrimSpace;
    var core := TrimSpace(t);
    TrimSpaceIff(t, core);
    var l, r :| AllSpace(l) && AllSpace(r) && t == l + core + r;
    assert forall i :: 0 <= i < |core| ==> InNumber(core[i]) by {
      assert forall i :: 1 <= i < |core| ==> core[i] == core[1..][i - 1];
    }
  }

  lemma NoMark(t: string)
    requires forall i :: 0 <= i < |t| ==> InNumber(t[i])
    ensures ':' !in t && '/' !in t
  {}

  lemma TightEnd(text: string)
    ensures var raw := TrimSpace(text); raw != "" ==> !IsSpace(raw[|raw| - 1])
  {
    hide IsSpace, TrimSpace;
    TrimSpaceIff(text, TrimSpace(text));
  }

  lemma LastChar(l: string, core: string, r: string)
    requires AllSpace(l) && AllSpace(r)
    ensures var q := l + core + r; q != "" ==> IsSpace(q[|q| - 1]) || (core != "" && q[|q| - 1] == core[|core| - 1])
  {
    hide IsSpace;
  }

  lemma LastOfPadded(q: string)
    requires q != "" && !IsSpace(q[|q| - 1])
    ensures TrimSpace(q) != "" && TrimSpace(q)[|TrimSpace(q)| - 1] == q[|q| - 1]
  {
    hide IsSpace, TrimSpace;
    var core := TrimSpace(q);
    TrimSpaceIff(q, core);
    var l, r :| AllSpace(l) && AllSpace(r) && q == l + core + r;
    LastChar(l, core, r);
  }

  lemma LastLower(core: string, proto: string)
    requires core != "" && ToLower(core) == proto && (proto == "tcp" || proto == "udp")
    ensures core[|core| - 1] != 's'
  {
    ToLowerIff(core, proto);
  }

  /** Without the mark the entry does not look as if it had one. */
  lemma NoSuffix(text: string, host: string, container: string, mark: string, proto: string)
    requires TrimSpace(text) == Entry(host, container, mark, false) && Names(mark, proto) && (proto == "tcp" || proto == "udp")
    requires container != "" && forall i :: 0 <= i < |container| ==> InNumber(container[i])
    ensures !HasSuffix(TrimSpace(text), TLS_SUFFIX)
  {
    hide TrimSpace, ToLower;
    var raw := TrimSpace(text);
    TightEnd(text);
    if mark == "" {
      assert raw[|raw| - 1] == container[|container| - 1];
    } else {
      var q := mark[1..];
      TrimSpaceIdle("");
      ToLowerIdle("");
      assert raw[|raw| - 1] == q[|q| - 1];
      LastOfPadded(q);
      LastLower(TrimSpace(q), proto);
    }
  }

  lemma PortsDenoted(host: string, container: string, s: ForwardSpec)
    requires PortOk(s.hostPort) && PortOk(s.containerPort)
    requires Atoi(TrimSpace(host)) == Some(s.hostPort) && Atoi(TrimSpace(container)) == Some(s.containerPort)
    ensures ParsePorts(host + ":" + container, s.proto, s.tls) == Some(s)
  {
    hide TrimSpace, Atoi, IndexOf;
    NumberChars(host);
    NoMark(host);
    CutFirst(host, ':', container);
  }

  lemma NoSlash(t: string)
    requires '/' !in t
    ensures LastIndexOf(t, '/') == -1
  {
    hide LastIndexOf;
  }

  lemma BareDenoted(host: string, container: string, mark: string, s: ForwardSpec)
    requires Valid(s) && Names(mark, s.proto)
    requires Atoi(TrimSpace(host)) == Some(s.hostPort) && Atoi(TrimSpace(container)) == Some(s.containerPort)
    ensures ParseBare(host + ":" + container + mark, s.tls) == Some(s)
  {
    hide TrimSpace, Atoi, ToLower, ParsePorts, LastIndexOf, InNumber;
    NumberChars(host);
    NumberChars(container);
    NoMark(host);
    NoMark(container);
    PortsDenoted(host, container, s);
    var ports := host + ":" + container;
    if mark == "" {
      assert ports + mark == ports;
      NoSlash(ports);
    } else {
      assert ports + mark == ports + "/" + mark[1..];
      CutLast(ports, '/', mark[1..]);
    }
  }

  lemma SuffixOff(bare: string)
    ensures var raw := bare + TLS_SUFFIX; HasSuffix(raw, TLS_SUFFIX) && raw[..|raw| - |TLS_SUFFIX|] == bare
  {}

  lemma DenotedParses(text: string, s: ForwardSpec)
    requires Valid(s) && Denotes(text, s)
    ensures ParseEntry(text) == Some(s)
  {
    hide TrimSpace, Atoi, ToLower, ParseBare, HasSuffix, Names;
    var host, container, mark :|
      && TrimSpace(text) == Entry(host, container, mark, s.tls)
      && Atoi(TrimSpace(host)) == Some(s.hostPort) && Atoi(TrimSpace(container)) == Some(s.containerPort)
      && Names(mark, s.proto);
    var bare := host + ":" + container + mark;
    BareDenoted(host, container, mark, s);
    NumberChars(container);
    if s.tls {
      SuffixOff(bare);
    } else {
      assert bare + "" == bare;
      NoSuffix(text, host, container, mark, s.proto);
    }
  }

  lemma ParsedPorts(ports: string, proto: string, tls: bool, s: ForwardSpec) returns (host: string, container: string)
    requires ParsePorts(ports, proto, tls) == Some(s)
    ensures ports == host + ":" + container && s.proto == proto && s.tls == tls
    ensures Atoi(TrimSpace(host)) == Some(s.hostPort) && Atoi(TrimSpace(container)) == Some(s.containerPort)
  {
    hide TrimSpace, Atoi, IndexOf;
    var colon := IndexOf(ports, ':');
    host, container := ports[..colon], ports[colon + 1..];
  }

  lemma ParsedBare(bare: string, tls: bool, s: ForwardSpec) returns (host: string, container: string, mark: string)
    requires ParseBare(bare, tls) == Some(s)
    ensures bare == host + ":" + container + mark && s.tls == tls
    ensures Atoi(TrimSpace(host)) == Some(s.hostPort) && Atoi(TrimSpace(container)) == Some(s.containerPort)
    ensures Names(mark, s.proto)
  {
    hide TrimSpace, Atoi, ToLower, LastIndexOf, ParsePorts;
    var slash := LastIndexOf(bare, '/');
    mark := if slash >= 0 then bare[slash..] else "";
    var ports := if slash >= 0 then bare[..slash] else bare;
    var proto := if slash >= 0 then ToLower(TrimSpace(bare[slash + 1..])) else "tcp";
    assert bare == ports + mark;
    if slash >= 0 {
      assert mark[1..] == bare[slash + 1..];
      assert forall j :: 0 <= j < |mark[1..]| ==> mark[1..][j] == bare[slash + 1 + j];
    }
    host, container := ParsedPorts(ports, proto, tls, s);
  }

  lemma Denoted(text: string, s: ForwardSpec, host: string, container: string, mark: string)
    requires TrimSpace(text) == Entry(host, container, mark, s.tls) && Names(mark, s.proto)
    requires Atoi(TrimSpace(host)) == Some(s.hostPort) && Atoi(TrimSpace(container)) == Some(s.containerPort)
    ensures Denotes(text, s)
  {
    hide TrimSpace, Atoi, Names;
  }

  lemma EntryIsValid(entry: string)
    ensures ParseEntry(entry).Some? ==> Valid(ParseEntry(entry).value)
  {
    hide TrimSpace, Atoi, IndexOf, LastIndexOf, ToLower;
  }

  /** Main result. An entry is parsed to s exactly when s can be served and the entry, read by
      the grammar, asks for it: number, colon, number, then tcp, udp or nothing for tcp, then
      the mark; with white space around each part, and letters of any case in the protocol. */
  lemma ParsesIff(text: string, s: ForwardSpec)
    ensures ParseEntry(text) == Some(s) <==>
              && 1 <= s.hostPort <= 65535 && 1 <= s.containerPort <= 65535
              && (s.proto == "tcp" || (s.proto == "udp" && !s.tls)) && Denotes(text, s)
  {
    hide TrimSpace, Atoi, ToLower, ParseBare, Names, Denotes;
    if Valid(s) && Denotes(text, s) {
      DenotedParses(text, s);
    }
    if ParseEntry(text) == Some(s) {
      EntryIsValid(text);
      var raw := TrimSpace(text);
      var tls := HasSuffix(raw, TLS_SUFFIX);
      var bare := if tls then raw[..|raw| - |TLS_SUFFIX|] else raw;
      var host, container, mark := ParsedBare(bare, tls, s);
      assert raw == Entry(host, container, mark, s.tls);
      Denoted(text, s, host, container, mark);
    }
  }

  /** A malformed entry never affects its neighbours: joining two labels with a comma
      joins what they parse to, whatever either of them holds. */
  lemma ParseConcat(a: string, b: string)
    ensures ParseLabel(a + "," + b) == ParseLabel(a) + ParseLabel(b)
  {
    SplitConcat(a, b, ',');
    FilterMapConcat(ParseEntry, Split(a, ','), Split(b, ','));
  }

  /** Everything parsed can be served: both ports in range, a known protocol, TLS only on tcp. */
  lemma ParsedAreValid(text: string)
    ensures forall s :: s in ParseLabel(text) ==> Valid(s)
  {
    hide ParseEntry, Split, Valid;
    forall s | s in ParseLabel(text) ensures Valid(s) {
      FilterMapMember(ParseEntry, Split(text, ','), s);
      var entry :| ParseEntry(entry) == Some(s);
      EntryIsValid(entry);
    }
  }

  lemma PortsRoundTrip(hp: nat, cp: nat, proto: string, tls: bool)
    requires PortOk(hp) && PortOk(cp)
    ensures ParsePorts(Itoa(hp) + ":" + Itoa(cp), proto, tls) == Some(ForwardSpec(hp, cp, proto, tls))
  {
    hide TrimSpace, Atoi;
    ItoaDigits(hp);
    ItoaDigits(cp);
    AtoiItoa(hp);
    AtoiItoa(cp);
    CutFirst(Itoa(hp), ':', Itoa(cp));
    TrimSpaceIdle(Itoa(hp));
    TrimSpaceIdle(Itoa(cp));
  }

  lemma BareRoundTrip(hp: nat, cp: nat, proto: string, tls: bool)
    requires PortOk(hp) && PortOk(cp) && (proto == "tcp" || (proto == "udp" && !tls))
    ensures ParseBare(Itoa(hp) + ":" + Itoa(cp) + "/" + proto, tls) == Some(ForwardSpec(hp, cp, proto, tls))
  {
    hide ParsePorts, TrimSpace, ToLower, LastIndexOf, Itoa;
    TrimSpaceIdle(proto);
    ToLowerIdle(proto);
    CutLast(Itoa(hp) + ":" + Itoa(cp), '/', proto);
    PortsRoundTrip(hp, cp, proto, tls);
  }

  /** What is printed before the TLS mark. */
  function Bare(s: ForwardSpec): string
    requires Printable(s)
  {
    Itoa(s.hostPort) + ":" + Itoa(s.containerPort) + "/" + Normal(s).proto
  }

  lemma BareShape(s: ForwardSpec)
    requires Printable(s)
    ensures var b := Bare(s); ',' !in b && b != "" && IsWordChar(b[0]) && b[|b| - 1] == 'p' && !HasSuffix(b, TLS_SUFFIX)
  {
    hide Itoa;
    ItoaDigits(s.hostPort);
    ItoaDigits(s.containerPort);
    var b := Bare(s);
    assert b[0] == Itoa(s.hostPort)[0] && b[|b| - 1] == Normal(s).proto[2];
  }

  lemma PlainEntry(s: ForwardSpec)
    requires Printable(s) && !s.tls
    ensures ParseEntry(Print(s)) == Some(Normal(s)) && ',' !in Print(s)
  {
    hide TrimSpace, ParseBare, Itoa;
    BareShape(s);
    assert Print(s) == Bare(s);
    TrimSpaceIdle(Bare(s));
    BareRoundTrip(s.hostPort, s.containerPort, Normal(s).proto, false);
  }

  lemma PrintIsBare(s: ForwardSpec)
    requires Printable(s)
    ensures Print(s) == Bare(s) + if s.tls then TLS_SUFFIX else ""
  {}

  lemma BareOf(s: ForwardSpec)
    requires Printable(s)
    ensures Bare(s) == Itoa(s.hostPort) + ":" + Itoa(s.containerPort) + "/" + Normal(s).proto
  {}

  lemma TlsEntry(s: ForwardSpec)
    requires Printable(s) && s.tls
    ensures ParseEntry(Print(s)) == Some(Normal(s)) && ',' !in Print(s)
  {
    hide TrimSpace, ParseBare, Bare;
    BareShape(s);
    PrintIsBare(s);
    var raw := Bare(s) + TLS_SUFFIX;
    assert raw[|raw| - 1] == 's' && raw[0] == Bare(s)[0] && raw[..|raw| - 4] == Bare(s);
    TrimSpaceIdle(raw);
    BareOf(s);
    BareRoundTrip(s.hostPort, s.containerPort, Normal(s).proto, true);
  }

  /** A printed spec parses back, with "" normalised to tcp, exactly when it is one that can
      be served. */
  lemma EntryRoundTrip(s: ForwardSpec)
    ensures ParseEntry(Print(s)) == Some(Normal(s)) <==> Printable(s)
    ensures Printable(s) ==> ',' !in Print(s)
  {
    hide ParseEntry, Print;
    if Printable(s) {
      if s.tls {
        TlsEntry(s);
      } else {
        PlainEntry(s);
      }
    }
    EntryIsValid(Print(s));
  }

  lemma EmptyEntry()
    ensures ParseLabel("") == []
  {
    assert Split("", ',') == [""];
    assert FilterMap(ParseEntry, [""][1..]) == [];
    assert ParseEntry("") == None;
  }

  lemma PrintableRoundTrip(specs: seq<ForwardSpec>)
    requires AllPrintable(specs)
    ensures ParseLabel(Join(PrintAll(specs), ',')) == NormalAll(specs)
  {
    hide ParseEntry, Print, FilterMap, Split;
    var parts := PrintAll(specs);
    if specs == [] {
      EmptyEntry();
    } else {
      forall i | 0 <= i < |parts| ensures ',' !in parts[i] && ParseEntry(parts[i]) == Some(NormalAll(specs)[i]) {
        EntryRoundTrip(specs[i]);
      }
      SplitJoin(parts, ',');
      FilterMapAll(ParseEntry, parts, NormalAll(specs));
    }
  }

  lemma ValidIsPrintable(specs: seq<ForwardSpec>)
    requires forall s :: s in NormalAll(specs) ==> Valid(s)
    ensures AllPrintable(specs)
  {
    forall i | 0 <= i < |specs| ensures Printable(specs[i]) {
      assert NormalAll(specs)[i] in NormalAll(specs);
    }
  }

  lemma ValidIsNormal(specs: seq<ForwardSpec>)
    requires forall i :: 0 <= i < |specs| ==> Valid(specs[i])
    ensures AllPrintable(specs) && NormalAll(specs) == specs
  {}

  /** Parsing a printed label gives the specs back, with "" normalised to tcp, exactly when
      all of them can be served. */
  lemma RoundTrip(specs: seq<ForwardSpec>)
    ensures ParseLabel(Join(PrintAll(specs), ',')) == NormalAll(specs) <==> AllPrintable(specs)
    ensures (forall i :: 0 <= i < |specs| ==> Valid(specs[i])) ==> ParseLabel(Join(PrintAll(specs), ',')) == specs
  {
    hide ParseLabel, NormalAll, PrintAll, Valid, AllPrintable;
    if forall i :: 0 <= i < |specs| ==> Valid(specs[i]) {
      ValidIsNormal(specs);
    }
    if AllPrintable(specs) {
      PrintableRoundTrip(specs);
    }
    ParsedAreValid(Join(PrintAll(specs), ','));
    if ParseLabel(Join(PrintAll(specs), ',')) == NormalAll(specs) {
      ValidIsPrintable(specs);
    }
  }

  /** Printing what was parsed from any hand-edited label is a normal form: parsing it
      again loses nothing. */
  lemma ParsePrintParse(text: string)
    ensures AllPrintable(ParseLabel(text))
    ensures ParseLabel(Join(PrintAll(ParseLabel(text)), ',')) == ParseLabel(text)
  {
    hide ParseEntry;
    ParsedAreValid(text);
    assert forall s :: s in ParseLabel(text) ==> Valid(s) && Printable(s);
    RoundTrip(ParseLabel(text));
  }
}

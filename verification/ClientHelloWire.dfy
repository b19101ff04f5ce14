// A serializer for ClientHello messages and handshake records, and what the
// parsers of module ClientHello make of its output.

module ClientHelloWire {
  import opened Options
  import opened ClientHello

  // --- Records ------------------------------------------------------------

  // A handshake record: the two version bytes are free.
  datatype Record = Record(major: Byte, minor: Byte, payload: Bytes)

  ghost predicate ValidRecord(r: Record) {
    1 <= |r.payload| <= TLS_MAX_RECORD_SIZE
  }

  ghost predicate ValidRecords(rs: seq<Record>) {
    forall i :: 0 <= i < |rs| ==> ValidRecord(rs[i])
  }

  ghost function Number16(n: nat): (b: Bytes)
    requires n < 65536
    ensures |b| == 2
  {
    [n / 256, n % 256]
  }

  ghost function EncodeRecord(r: Record): Bytes
    requires ValidRecord(r)
  {
    [TLS_HANDSHAKE, r.major, r.minor] + Number16(|r.payload|) + r.payload
  }

  ghost function Encode(rs: seq<Record>): Bytes
    requires ValidRecords(rs)
  {
    if rs == [] then [] else EncodeRecord(rs[0]) + Encode(rs[1..])
  }

  ghost function Payloads(rs: seq<Record>): Bytes {
    if rs == [] then [] else rs[0].payload + Payloads(rs[1..])
  }

  // All records but the last.
  ghost function Front(rs: seq<Record>): seq<Record>
    requires rs != []
  {
    rs[..|rs| - 1]
  }

  // The records carry `m` and its last byte sits in the last of them.
  ghost predicate Carries(rs: seq<Record>, m: Bytes) {
    && rs != []
    && ValidRecords(rs)
    && m <= Payloads(rs)
    && |Payloads(Front(rs))| < |m|
  }

  // --- Records in, message out --------------------------------------------

  lemma JudgeOfPrefix(h: Bytes, m: Bytes)
    requires IsMessage(m)
    ensures h <= m && |h| < |m| ==> Judge(h) == NeedMore
    ensures m <= h ==> Judge(h) == Complete(m)
  {
    if m <= h {
      assert U24(h, 1) == U24(m, 1);
    } else if h <= m && |h| >= 4 {
      assert U24(h, 1) == U24(m, 1);
    }
  }

  lemma ScanOneRecord(r: Record, rest: Bytes, h: Bytes)
    requires ValidRecord(r)
    ensures var g := h + r.payload;
            Scan(EncodeRecord(r) + rest, h) == if Judge(g) == NeedMore then Scan(rest, g) else Judge(g)
  {
    var data := EncodeRecord(r) + rest;
    var n := |r.payload|;
    assert data[3] as int == n / 256 && data[4] as int == n % 256;
    assert U16(data, 3) == n;
    assert data[5..5 + n] == r.payload;
    assert data[5 + n..] == rest;
  }

  lemma Prepend(r: Record, rs: seq<Record>, h: Bytes)
    requires rs != []
    ensures h + Payloads([r] + rs) == h + r.payload + Payloads(rs)
    ensures h + Payloads(Front([r] + rs)) == h + r.payload + Payloads(Front(rs))
  {
    assert ([r] + rs)[1..] == rs;
    assert Front([r] + rs) == [r] + Front(rs);
    assert ([r] + Front(rs))[1..] == Front(rs);
  }

  lemma EncodePrepend(r: Record, rs: seq<Record>, tail: Bytes)
    requires ValidRecord(r) && ValidRecords(rs)
    ensures ValidRecords([r] + rs)
    ensures Encode([r] + rs) + tail == EncodeRecord(r) + (Encode(rs) + tail)
  {
    assert ([r] + rs)[1..] == rs;
  }

  lemma OneRecord(r: Record, h: Bytes)
    ensures h + Payloads([r]) == h + r.payload
    ensures h + Payloads(Front([r])) == h
  {
    assert Payloads([r]) == r.payload + Payloads([r][1..]);
    assert Front([r]) == [];
  }

  lemma {:induction false} ScanRecords(rs: seq<Record>, tail: Bytes, h: Bytes, m: Bytes)
    requires rs != [] && ValidRecords(rs) && IsMessage(m)
    requires m <= h + Payloads(rs)
    requires |h + Payloads(Front(rs))| < |m|
    ensures Scan(Encode(rs) + tail, h) == Complete(m)
    decreases |rs|
  {
    var r, others := rs[0], rs[1..];
    var g := h + r.payload;
    assert rs == [r] + others;
    EncodePrepend(r, others, tail);
    ScanOneRecord(r, Encode(others) + tail, h);
    JudgeOfPrefix(g, m);
    if others == [] {
      OneRecord(r, h);
    } else {
      Prepend(r, others, h);
      GrowsPayloads(g, others, m);
      ScanRecords(others, tail, g, m);
    }
  }

  // While the front is too short, what was gathered is a proper prefix of the message.
  lemma GrowsPayloads(g: Bytes, rs: seq<Record>, m: Bytes)
    requires rs != [] && m <= g + Payloads(rs) && |g + Payloads(Front(rs))| < |m|
    ensures g <= m && |g| < |m|
  {
    assert g == (g + Payloads(rs))[..|g|];
  }

  // The other way: a complete message was carried by records.
  lemma {:induction false} RecordsOf(data: Bytes, h: Bytes, m: Bytes) returns (rs: seq<Record>, tail: Bytes)
    requires Scan(data, h) == Complete(m)
    requires Judge(h) == NeedMore
    ensures rs != [] && ValidRecords(rs) && data == Encode(rs) + tail
    ensures m <= h + Payloads(rs)
    ensures |h + Payloads(Front(rs))| < |m|
    decreases |data|
  {
    var n := U16(data, 3);
    var r := Record(data[1], data[2], data[5..5 + n]);
    var g := h + r.payload;
    FirstRecord(data);
    if Judge(g) == NeedMore {
      var others;
      others, tail := RecordsOf(data[5 + n..], g, m);
      rs := [r] + others;
      EncodePrepend(r, others, tail);
      Prepend(r, others, h);
    } else {
      rs, tail := [r], data[5 + n..];
      EncodePrepend(r, [], tail);
      assert [r] + [] == [r];
      OneRecord(r, h);
      JudgeBound(h, g);
    }
  }

  lemma FirstRecord(data: Bytes)
    requires |data| >= 5 && data[0] == TLS_HANDSHAKE
    requires 1 <= U16(data, 3) <= TLS_MAX_RECORD_SIZE && 5 + U16(data, 3) <= |data|
    ensures var n := U16(data, 3);
            data == EncodeRecord(Record(data[1], data[2], data[5..5 + n])) + data[5 + n..]
  {
    var n := U16(data, 3);
    assert n / 256 == data[3] as int && n % 256 == data[4] as int;
  }

  // Bytes that do not decide are fewer than the message they grow into.
  lemma JudgeBound(h: Bytes, g: Bytes)
    requires h <= g && Judge(h) == NeedMore && Judge(g).Complete?
    ensures |h| < |Judge(g).message| && Judge(g).message <= g
  {
    if |h| >= 4 {
      assert U24(h, 1) == U24(g, 1);
    }
  }

  // A buffer holds a complete ClientHello exactly when it starts with handshake
  // records that carry it, however they cut it and whatever follows.
  lemma CompleteExactly(data: Bytes, m: Bytes)
    ensures Scan(data, []) == Complete(m) <==>
            IsMessage(m) && exists rs, tail :: Carries(rs, m) && data == Encode(rs) + tail
  {
    if Scan(data, []) == Complete(m) {
      MessageHasHeader(data, []);
      var rs, tail := RecordsOf(data, [], m);
      assert [] + Payloads(rs) == Payloads(rs);
      assert [] + Payloads(Front(rs)) == Payloads(Front(rs));
      assert Carries(rs, m);
    }
    if IsMessage(m) && exists rs, tail :: Carries(rs, m) && data == Encode(rs) + tail {
      var rs, tail :| Carries(rs, m) && data == Encode(rs) + tail;
      assert [] + Payloads(rs) == Payloads(rs);
      assert [] + Payloads(Front(rs)) == Payloads(Front(rs));
      ScanRecords(rs, tail, [], m);
    }
  }

  lemma {:induction false} PayloadsOfFront(rs: seq<Record>)
    requires rs != [] && ValidRecords(rs)
    ensures |Payloads(Front(rs))| < |Payloads(rs)|
    decreases |rs|
  {
    if |rs| > 1 {
      PayloadsOfFront(rs[1..]);
      assert rs == [rs[0]] + rs[1..];
      Prepend(rs[0], rs[1..], []);
    }
  }

  // A message cut into records is carried by them.
  lemma CutCarries(rs: seq<Record>)
    requires ValidRecords(rs) && IsMessage(Payloads(rs))
    ensures Carries(rs, Payloads(rs))
  {
    PayloadsOfFront(rs);
  }

  // --- Messages -----------------------------------------------------------

  datatype Name = Name(kind: Byte, host: Bytes)

  datatype Extension =
    | ServerNames(names: seq<Name>)
    | Other(kind: nat, body: Bytes)

  // `fixed` is the version and the random; a hello may end before the extensions.
  datatype Hello = Hello(
    fixed: Bytes, sessionId: Bytes, ciphers: Bytes, compression: Bytes, extensions: Option<seq<Extension>>)

  ghost predicate ValidNames(ns: seq<Name>) {
    forall i :: 0 <= i < |ns| ==> |ns[i].host| < 65536
  }

  ghost function EncodeNames(ns: seq<Name>): Bytes
    requires ValidNames(ns)
  {
    if ns == [] then []
    else [ns[0].kind] + Number16(|ns[0].host|) + ns[0].host + EncodeNames(ns[1..])
  }

  ghost predicate ValidExtension(e: Extension) {
    match e
    case ServerNames(ns) => ValidNames(ns) && |EncodeNames(ns)| < 65534
    case Other(kind, body) => kind != TLS_EXTENSION_SNI && kind < 65536 && |body| < 65536
  }

  ghost predicate ValidExtensions(es: seq<Extension>) {
    forall i :: 0 <= i < |es| ==> ValidExtension(es[i])
  }

  ghost function ExtensionKind(e: Extension): (k: nat)
    requires ValidExtension(e)
    ensures k < 65536
  {
    if e.ServerNames? then TLS_EXTENSION_SNI else e.kind
  }

  ghost function ExtensionBody(e: Extension): (b: Bytes)
    requires ValidExtension(e)
    ensures |b| < 65536
  {
    match e
    case ServerNames(ns) => Number16(|EncodeNames(ns)|) + EncodeNames(ns)
    case Other(_, body) => body
  }

  ghost function EncodeExtension(e: Extension): Bytes
    requires ValidExtension(e)
  {
    Number16(ExtensionKind(e)) + Number16(|ExtensionBody(e)|) + ExtensionBody(e)
  }

  ghost function EncodeExtensions(es: seq<Extension>): Bytes
    requires ValidExtensions(es)
  {
    if es == [] then [] else EncodeExtension(es[0]) + EncodeExtensions(es[1..])
  }

  ghost predicate ValidHello(h: Hello) {
    && |h.fixed| == 34
    && |h.sessionId| < 256 && |h.ciphers| < 65536 && |h.compression| < 256
    && (h.extensions.Some? ==>
          ValidExtensions(h.extensions.value) && |EncodeExtensions(h.extensions.value)| < 65536)
  }

  ghost function HelloHead(h: Hello): (b: Bytes)
    requires ValidHello(h)
    ensures |b| == 38 + |h.sessionId| + |h.ciphers| + |h.compression|
  {
    h.fixed + [|h.sessionId|] + h.sessionId + Number16(|h.ciphers|) + h.ciphers
    + [|h.compression|] + h.compression
  }

  ghost function HelloBody(h: Hello): Bytes
    requires ValidHello(h)
  {
    match h.extensions
    case None => HelloHead(h)
    case Some(es) => HelloHead(h) + Number16(|EncodeExtensions(es)|) + EncodeExtensions(es)
  }

  ghost function Message(h: Hello): Bytes
    requires ValidHello(h) && |HelloBody(h)| < 0x100_0000
  {
    var n := |HelloBody(h)|;
    [TLS_CLIENT_HELLO, n / 65536, n / 256 % 256, n % 256] + HelloBody(h)
  }

  // The first non-empty host_name of a list.
  ghost function FirstHost(ns: seq<Name>): Option<Bytes> {
    if ns == [] then None
    else if ns[0].kind == 0 && ns[0].host != [] then Some(ns[0].host)
    else FirstHost(ns[1..])
  }

  // What the first server_name extension names, whatever precedes it.
  ghost function NamedHost(es: seq<Extension>): Option<Bytes> {
    if es == [] then None
    else if es[0].ServerNames? then FirstHost(es[0].names)
    else NamedHost(es[1..])
  }

  ghost function HostOf(h: Hello): Option<Bytes> {
    if h.extensions.None? then None else NamedHost(h.extensions.value)
  }

  lemma {:induction false} NamesRoundTrip(ns: seq<Name>)
    requires ValidNames(ns)
    ensures NameIn(EncodeNames(ns)) == FirstHost(ns)
    decreases |ns|
  {
    if ns != [] {
      var b, host := EncodeNames(ns), ns[0].host;
      assert b[1] as int == |host| / 256 && b[2] as int == |host| % 256;
      assert U16(b, 1) == |host|;
      assert b[3..3 + |host|] == host;
      assert b[3 + |host|..] == EncodeNames(ns[1..]);
      NamesRoundTrip(ns[1..]);
    }
  }

  // An extension in front of others is cut off where it ends.
  lemma ExtensionParts(e: Extension, rest: Bytes)
    requires ValidExtension(e)
    ensures var b, body := EncodeExtension(e) + rest, ExtensionBody(e);
            && U16(b, 0) == ExtensionKind(e) && U16(b, 2) == |body| && 4 + |body| <= |b|
            && b[4..4 + |body|] == body && b[4 + |body|..] == rest
  {
    var b, body := EncodeExtension(e) + rest, ExtensionBody(e);
    assert b == Number16(ExtensionKind(e)) + Number16(|body|) + body + rest;
  }

  // The body of a server_name extension is a list with its length.
  lemma NamesBody(ns: seq<Name>)
    requires ValidExtension(ServerNames(ns))
    ensures var body, list := ExtensionBody(ServerNames(ns)), EncodeNames(ns);
            U16(body, 0) == |list| && |body| == 2 + |list| && body[2..2 + |list|] == list
  {
  }

  lemma {:induction false} ExtensionsRoundTrip(es: seq<Extension>)
    requires ValidExtensions(es)
    ensures ExtensionName(EncodeExtensions(es)) == NamedHost(es)
    decreases |es|
  {
    if es != [] {
      ExtensionParts(es[0], EncodeExtensions(es[1..]));
      match es[0] {
        case ServerNames(ns) =>
          NamesBody(ns);
          NamesRoundTrip(ns);
        case Other(_, _) =>
          ExtensionsRoundTrip(es[1..]);
      }
    }
  }

  lemma ExtensionsFound(h: Hello, block: Bytes)
    requires ValidHello(h) && |block| >= 2
    ensures ExtensionsAt(HelloHead(h) + block) == Some(|HelloHead(h)|)
  {
    var b := HelloHead(h) + block;
    var ciphers := 35 + |h.sessionId|;
    assert b[34] as int == |h.sessionId|;
    assert b[ciphers] as int == |h.ciphers| / 256 && b[ciphers + 1] as int == |h.ciphers| % 256;
    assert U16(b, ciphers) == |h.ciphers|;
    assert b[ciphers + 2 + |h.ciphers|] as int == |h.compression|;
  }

  lemma NoExtensionsFound(h: Hello)
    requires ValidHello(h)
    ensures ExtensionsAt(HelloHead(h)) == None
  {
    var b := HelloHead(h);
    var ciphers := 35 + |h.sessionId|;
    assert b[34] as int == |h.sessionId|;
    assert b[ciphers] as int == |h.ciphers| / 256 && b[ciphers + 1] as int == |h.ciphers| % 256;
    assert U16(b, ciphers) == |h.ciphers|;
    assert b[ciphers + 2 + |h.ciphers|] as int == |h.compression|;
  }

  // A vector with a two-byte length behind some head.
  lemma VectorAt(head: Bytes, x: Bytes)
    requires |x| < 65536
    ensures var b, at := head + Number16(|x|) + x, |head|;
            && b == head + (Number16(|x|) + x)
            && |b| == at + 2 + |x| && U16(b, at) == |x| && b[at + 2..at + 2 + |x|] == x
  {
    var b, at := head + Number16(|x|) + x, |head|;
    assert b[at] as int == |x| / 256 && b[at + 1] as int == |x| % 256;
  }

  lemma NameOfBody(b: Bytes, at: nat, x: Bytes)
    requires ExtensionsAt(b) == Some(at) && |b| == at + 2 + |x|
    requires U16(b, at) == |x| && b[at + 2..at + 2 + |x|] == x
    ensures HelloName(b) == ExtensionName(x)
  {
  }

  lemma BodyName(h: Hello, es: seq<Extension>)
    requires ValidHello(h) && h.extensions == Some(es)
    ensures HelloName(HelloBody(h)) == ExtensionName(EncodeExtensions(es))
  {
    var x := EncodeExtensions(es);
    ExtensionsFound(h, Number16(|x|) + x);
    VectorAt(HelloHead(h), x);
    NameOfBody(HelloBody(h), |HelloHead(h)|, x);
  }

  lemma BodyRoundTrip(h: Hello)
    requires ValidHello(h)
    ensures HelloName(HelloBody(h)) == HostOf(h)
  {
    match h.extensions {
      case None =>
        NoExtensionsFound(h);
      case Some(es) =>
        BodyName(h, es);
        ExtensionsRoundTrip(es);
    }
  }

  lemma MessageIsMessage(h: Hello)
    requires ValidHello(h) && |HelloBody(h)| <= MAX_CLIENT_HELLO_SIZE - TLS_HANDSHAKE_HEADER_SIZE
    ensures IsMessage(Message(h)) && Message(h)[4..] == HelloBody(h)
  {
    var n := |HelloBody(h)|;
    assert n / 65536 * 65536 + n / 256 % 256 * 256 + n % 256 == n;
  }

  // Serialize a ClientHello, cut it into records in any way, append anything:
  // the reassembly gives the message back and the parser its host name.
  lemma WireRoundTrip(h: Hello, rs: seq<Record>, tail: Bytes)
    requires ValidHello(h) && |HelloBody(h)| <= MAX_CLIENT_HELLO_SIZE - TLS_HANDSHAKE_HEADER_SIZE
    requires ValidRecords(rs) && Payloads(rs) == Message(h)
    ensures Scan(Encode(rs) + tail, []) == Complete(Message(h))
    ensures ServerName(Encode(rs) + tail) == HostOf(h)
  {
    MessageIsMessage(h);
    CutCarries(rs);
    CompleteExactly(Encode(rs) + tail, Message(h));
    BodyRoundTrip(h);
  }
}

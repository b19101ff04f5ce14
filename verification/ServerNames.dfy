// Exactly which host name extract_sni_from_client_hello (core/tls_mitm.py) finds, in any
// bytes: the layout a buffer must have for the proxy to see the host.

module ServerNames {
  import opened Options
  import opened Sequences
  import opened ClientHello
  import opened ClientHelloWire

  // --- The name list ------------------------------------------------------

  ghost predicate IsHost(n: Name) {
    n.kind == 0 && n.host != []
  }

  // The list starts with these names, and the last of them is its first host.
  ghost predicate NamesLead(ns: seq<Name>, host: Bytes) {
    && ns != [] && ValidNames(ns) && host != [] && ns[|ns| - 1] == Name(0, host)
    && forall i :: 0 <= i < |ns| - 1 ==> !IsHost(ns[i])
  }

  ghost predicate ListHas(list: Bytes, host: Bytes) {
    exists ns, tail :: NamesLead(ns, host) && list == EncodeNames(ns) + tail
  }

  lemma FirstName(list: Bytes) returns (n: Name, tail: Bytes)
    requires |list| >= 3 && 3 + U16(list, 1) <= |list|
    ensures |n.host| == U16(list, 1) && n == Name(list[0], list[3..3 + |n.host|]) && tail == list[3 + |n.host|..]
    ensures list == [n.kind] + Number16(|n.host|) + n.host + tail
  {
    var len := U16(list, 1);
    n, tail := Name(list[0], list[3..3 + len]), list[3 + len..];
    assert len / 256 == list[1] as int && len % 256 == list[2] as int;
  }

  lemma NameInOne(n: Name, tail: Bytes)
    requires |n.host| < 65536
    ensures var list := [n.kind] + Number16(|n.host|) + n.host + tail;
            NameIn(list) == if IsHost(n) then Some(n.host) else NameIn(tail)
  {
    var list := [n.kind] + Number16(|n.host|) + n.host + tail;
    assert list[1] as int == |n.host| / 256 && list[2] as int == |n.host| % 256;
    assert U16(list, 1) == |n.host|;
    assert list[3..3 + |n.host|] == n.host && list[3 + |n.host|..] == tail;
  }

  lemma NamesOfMore(n: Name, ns: seq<Name>, tail: Bytes)
    requires |n.host| < 65536 && ValidNames(ns)
    ensures ValidNames([n] + ns)
    ensures EncodeNames([n] + ns) + tail == [n.kind] + Number16(|n.host|) + n.host + (EncodeNames(ns) + tail)
  {
    assert ([n] + ns)[1..] == ns;
  }

  lemma {:induction false} NamesFound(list: Bytes, host: Bytes) returns (ns: seq<Name>, tail: Bytes)
    requires NameIn(list) == Some(host)
    ensures NamesLead(ns, host) && list == EncodeNames(ns) + tail
    decreases |list|
  {
    var n, rest := FirstName(list);
    if IsHost(n) {
      ns, tail := [n], rest;
      NamesOfMore(n, [], rest);
      assert [n] + [] == [n] && [] + rest == rest;
    } else {
      var more;
      more, tail := NamesFound(rest, host);
      ns := [n] + more;
      NamesOfMore(n, more, tail);
    }
  }

  lemma {:induction false} NamesRead(ns: seq<Name>, host: Bytes, tail: Bytes)
    requires NamesLead(ns, host)
    ensures NameIn(EncodeNames(ns) + tail) == Some(host)
    decreases |ns|
  {
    var n, more := ns[0], ns[1..];
    assert ns == [n] + more;
    NamesOfMore(n, more, tail);
    NameInOne(n, EncodeNames(more) + tail);
    if more != [] {
      NamesRead(more, host, tail);
    }
  }

  lemma NameInExactly(list: Bytes, host: Bytes)
    ensures NameIn(list) == Some(host) <==> ListHas(list, host)
  {
    if NameIn(list) == Some(host) {
      var ns, tail := NamesFound(list, host);
    }
    if ListHas(list, host) {
      var ns, tail :| NamesLead(ns, host) && list == EncodeNames(ns) + tail;
      NamesRead(ns, host, tail);
    }
  }

  // --- The extension block ------------------------------------------------

  // An extension, well-formed inside or not.
  datatype Raw = Raw(kind: nat, body: Bytes)

  ghost predicate ValidRaw(x: Raw) {
    x.kind < 65536 && |x.body| < 65536
  }

  ghost function EncodeRaw(x: Raw): Bytes
    requires ValidRaw(x)
  {
    Number16(x.kind) + Number16(|x.body|) + x.body
  }

  // The extensions the walk skips: other kinds, and server names without a list length.
  ghost predicate Skipped(x: Raw) {
    ValidRaw(x) && (x.kind != 0 || |x.body| < 2)
  }

  ghost predicate AllSkipped(xs: seq<Raw>) {
    forall i :: 0 <= i < |xs| ==> Skipped(xs[i])
  }

  ghost function EncodeRaws(xs: seq<Raw>): Bytes
    requires AllSkipped(xs)
  {
    if xs == [] then [] else EncodeRaw(xs[0]) + EncodeRaws(xs[1..])
  }

  // A vector with a two-byte length, and something behind it.
  ghost predicate Vector(b: Bytes, content: Bytes, behind: Bytes) {
    |content| < 65536 && b == Number16(|content|) + content + behind
  }

  // The body of a server_name extension with this host in its list.
  ghost predicate BodyHas(body: Bytes, host: Bytes) {
    exists list, behind :: Vector(body, list, behind) && ListHas(list, host)
  }

  // The first extension not skipped is a server_name extension with this host.
  ghost predicate BlockHas(block: Bytes, host: Bytes) {
    exists xs, body, tail ::
      && AllSkipped(xs) && 2 <= |body| < 65536 && BodyHas(body, host)
      && block == EncodeRaws(xs) + (EncodeRaw(Raw(0, body)) + tail)
  }

  lemma VectorParts(b: Bytes, content: Bytes, behind: Bytes)
    requires Vector(b, content, behind)
    ensures |b| >= 2 + |content| && U16(b, 0) == |content| && b[2..2 + |content|] == content
  {
    assert b[0] as int == |content| / 256 && b[1] as int == |content| % 256;
  }

  lemma VectorThere(b: Bytes)
    requires |b| >= 2 && 2 + U16(b, 0) <= |b|
    ensures Vector(b, b[2..2 + U16(b, 0)], b[2 + U16(b, 0)..])
  {
    var n := U16(b, 0);
    assert n / 256 == b[0] as int && n % 256 == b[1] as int;
  }

  lemma ListNameExactly(body: Bytes, host: Bytes)
    requires |body| >= 2
    ensures ListName(body) == Some(host) <==> BodyHas(body, host)
  {
    if 2 + U16(body, 0) <= |body| {
      var list := body[2..2 + U16(body, 0)];
      VectorThere(body);
      NameInExactly(list, host);
    }
    if BodyHas(body, host) {
      var list, behind :| Vector(body, list, behind) && ListHas(list, host);
      VectorParts(body, list, behind);
      NameInExactly(list, host);
    }
  }

  lemma FirstRaw(block: Bytes) returns (x: Raw, tail: Bytes)
    requires |block| >= 4 && 4 + U16(block, 2) <= |block|
    ensures ValidRaw(x) && x.kind == U16(block, 0) && |x.body| == U16(block, 2)
    ensures x.body == block[4..4 + |x.body|] && tail == block[4 + |x.body|..]
    ensures block == EncodeRaw(x) + tail
  {
    var kind, len := U16(block, 0), U16(block, 2);
    x, tail := Raw(kind, block[4..4 + len]), block[4 + len..];
    assert kind / 256 == block[0] as int && kind % 256 == block[1] as int;
    assert len / 256 == block[2] as int && len % 256 == block[3] as int;
  }

  lemma RawParts(x: Raw, tail: Bytes)
    requires ValidRaw(x)
    ensures var b := EncodeRaw(x) + tail;
            && |b| >= 4 + |x.body| && U16(b, 0) == x.kind && U16(b, 2) == |x.body|
            && b[4..4 + |x.body|] == x.body && b[4 + |x.body|..] == tail
  {
    var b := EncodeRaw(x) + tail;
    assert b == Number16(x.kind) + (Number16(|x.body|) + (x.body + tail));
  }

  lemma RawsOfMore(x: Raw, xs: seq<Raw>, tail: Bytes)
    requires Skipped(x) && AllSkipped(xs)
    ensures AllSkipped([x] + xs) && EncodeRaws([x] + xs) + tail == EncodeRaw(x) + (EncodeRaws(xs) + tail)
  {
    assert ([x] + xs)[1..] == xs;
  }

  lemma {:induction false} BlockFound(block: Bytes, host: Bytes) returns (xs: seq<Raw>, body: Bytes, tail: Bytes)
    requires ExtensionName(block) == Some(host)
    ensures AllSkipped(xs) && 2 <= |body| < 65536 && BodyHas(body, host)
    ensures block == EncodeRaws(xs) + (EncodeRaw(Raw(0, body)) + tail)
    decreases |block|
  {
    var x, rest := FirstRaw(block);
    if Skipped(x) {
      var more;
      more, body, tail := BlockFound(rest, host);
      xs := [x] + more;
      RawsOfMore(x, more, EncodeRaw(Raw(0, body)) + tail);
    } else {
      xs, body, tail := [], x.body, rest;
      ListNameExactly(body, host);
      assert x == Raw(0, body) && [] + block == block;
    }
  }

  lemma {:induction false} BlockRead(xs: seq<Raw>, body: Bytes, tail: Bytes, host: Bytes)
    requires AllSkipped(xs) && 2 <= |body| < 65536 && BodyHas(body, host)
    ensures ExtensionName(EncodeRaws(xs) + (EncodeRaw(Raw(0, body)) + tail)) == Some(host)
    decreases |xs|
  {
    var rest := EncodeRaw(Raw(0, body)) + tail;
    if xs == [] {
      assert [] + rest == rest;
      RawParts(Raw(0, body), tail);
      ListNameExactly(body, host);
    } else {
      assert xs == [xs[0]] + xs[1..];
      RawsOfMore(xs[0], xs[1..], rest);
      RawParts(xs[0], EncodeRaws(xs[1..]) + rest);
      BlockRead(xs[1..], body, tail, host);
    }
  }

  lemma ExtensionNameExactly(block: Bytes, host: Bytes)
    ensures ExtensionName(block) == Some(host) <==> BlockHas(block, host)
  {
    if ExtensionName(block) == Some(host) {
      var xs, body, tail := BlockFound(block, host);
    }
    if BlockHas(block, host) {
      var xs, body, tail :|
        && AllSkipped(xs) && 2 <= |body| < 65536 && BodyHas(body, host)
        && block == EncodeRaws(xs) + (EncodeRaw(Raw(0, body)) + tail);
      BlockRead(xs, body, tail, host);
    }
  }

  // --- The ClientHello ----------------------------------------------------

  // Version, random, session id, cipher suites and compression methods, then an extension
  // block with this host, then anything.
  ghost predicate HelloHas(hello: Bytes, host: Bytes) {
    exists h, block, tail ::
      && ValidHello(h) && |block| < 65536 && BlockHas(block, host)
      && hello == HelloHead(h) + (Number16(|block|) + block + tail)
  }

  // A head in front of an extension block is read as it was written.
  lemma HeadThere(hello: Bytes) returns (h: Hello)
    requires ExtensionsAt(hello).Some?
    ensures ValidHello(h) && |HelloHead(h)| == ExtensionsAt(hello).value
    ensures hello == HelloHead(h) + hello[|HelloHead(h)|..]
  {
    var ids := hello[34] as int;
    var ciphers := 35 + ids;
    var suites := U16(hello, ciphers);
    var compression := ciphers + 2 + suites;
    var methods := hello[compression] as int;
    assert suites / 256 == hello[ciphers] as int && suites % 256 == hello[ciphers + 1] as int;
    h := Hello(hello[..34], hello[35..ciphers], hello[ciphers + 2..compression],
               hello[compression + 1..compression + 1 + methods], None);
    HeadIs(hello, ids, suites, methods);
  }

  lemma HeadIs(hello: Bytes, ids: nat, suites: nat, methods: nat)
    requires ids < 256 && suites < 65536 && methods < 256 && 38 + ids + suites + methods <= |hello|
    requires hello[34] as int == ids && hello[37 + ids + suites] as int == methods
    requires hello[35 + ids] as int == suites / 256 && hello[36 + ids] as int == suites % 256
    ensures hello[..38 + ids + suites + methods] ==
            hello[..34] + [ids] + hello[35..35 + ids] + Number16(suites) + hello[37 + ids..37 + ids + suites]
            + [methods] + hello[38 + ids + suites..38 + ids + suites + methods]
  {
    var a, b := 35 + ids, 37 + ids + suites;
    assert hello[..a] == hello[..34] + [ids] + hello[35..a];
    assert hello[..a + 2] == hello[..a] + Number16(suites);
    assert hello[..b] == hello[..a + 2] + hello[a + 2..b];
    assert hello[..b + 1] == hello[..b] + [methods];
    assert hello[..b + 1 + methods] == hello[..b + 1] + hello[b + 1..b + 1 + methods];
  }

  lemma BlockAt(hello: Bytes, at: nat) returns (block: Bytes, tail: Bytes)
    requires at + 2 <= |hello| && at + 2 + U16(hello, at) <= |hello|
    ensures |block| == U16(hello, at) && block == hello[at + 2..at + 2 + |block|]
    ensures hello[at..] == Number16(|block|) + block + tail
  {
    var rest, n := hello[at..], U16(hello, at);
    assert U16(rest, 0) == n;
    VectorThere(rest);
    block, tail := rest[2..2 + n], rest[2 + n..];
  }

  lemma HelloFound(hello: Bytes, host: Bytes) returns (h: Hello, block: Bytes, tail: Bytes)
    requires HelloName(hello) == Some(host)
    ensures ValidHello(h) && |block| < 65536 && BlockHas(block, host)
    ensures hello == HelloHead(h) + (Number16(|block|) + block + tail)
  {
    var at := ExtensionsAt(hello).value;
    block, tail := BlockAt(hello, at);
    ExtensionNameExactly(block, host);
    h := HeadThere(hello);
  }

  lemma BehindHead(head: Bytes, block: Bytes, tail: Bytes)
    requires |block| < 65536
    ensures var b, at := head + (Number16(|block|) + block + tail), |head|;
            at + 2 + |block| <= |b| && U16(b, at) == |block| && b[at + 2..at + 2 + |block|] == block
  {
    var rest := Number16(|block|) + block + tail;
    var b := head + rest;
    VectorParts(rest, block, tail);
    assert b[|head|] == rest[0] && b[|head| + 1] == rest[1];
    assert b[|head| + 2..|head| + 2 + |block|] == rest[2..2 + |block|];
  }

  lemma NameOfBlock(b: Bytes, at: nat, block: Bytes)
    requires ExtensionsAt(b) == Some(at) && at + 2 + |block| <= |b|
    requires U16(b, at) == |block| && b[at + 2..at + 2 + |block|] == block
    ensures HelloName(b) == ExtensionName(block)
  {
  }

  lemma HelloRead(h: Hello, block: Bytes, tail: Bytes, host: Bytes)
    requires ValidHello(h) && |block| < 65536 && BlockHas(block, host)
    ensures HelloName(HelloHead(h) + (Number16(|block|) + block + tail)) == Some(host)
  {
    var head := HelloHead(h);
    ExtensionsFound(h, Number16(|block|) + block + tail);
    BehindHead(head, block, tail);
    NameOfBlock(head + (Number16(|block|) + block + tail), |head|, block);
    ExtensionNameExactly(block, host);
  }

  lemma HelloNameExactly(hello: Bytes, host: Bytes)
    ensures HelloName(hello) == Some(host) <==> HelloHas(hello, host)
  {
    if HelloName(hello) == Some(host) {
      var h, block, tail := HelloFound(hello, host);
    }
    if HelloHas(hello, host) {
      var h, block, tail :|
        && ValidHello(h) && |block| < 65536 && BlockHas(block, host)
        && hello == HelloHead(h) + (Number16(|block|) + block + tail);
      HelloRead(h, block, tail, host);
    }
  }

  // A complete message and the records that carry it, in front of anything.
  ghost predicate Delivers(data: Bytes, m: Bytes) {
    IsMessage(m) && exists rs, tail :: Carries(rs, m) && data == Encode(rs) + tail
  }

  lemma DeliveredExactly(data: Bytes, m: Bytes)
    ensures Scan(data, []) == Complete(m) <==> Delivers(data, m)
  {
    CompleteExactly(data, m);
    if Scan(data, []) == Complete(m) {
      var rs, tail :| Carries(rs, m) && data == Encode(rs) + tail;
      assert Delivers(data, m);
    }
    if Delivers(data, m) {
      var rs, tail :| Carries(rs, m) && data == Encode(rs) + tail;
      assert [] + Payloads(rs) == Payloads(rs) && [] + Payloads(Front(rs)) == Payloads(Front(rs));
      ScanRecords(rs, tail, [], m);
    }
  }

  ghost predicate Names(m: Bytes, host: Bytes) {
    |m| >= 4 && HelloHas(m[4..], host)
  }

  lemma NamedExactly(data: Bytes, m: Bytes, host: Bytes)
    requires Scan(data, []) == Complete(m)
    ensures ServerName(data) == Some(host) <==> Names(m, host)
  {
    if |m| >= 4 {
      HelloNameExactly(m[4..], host);
    }
  }

  // The proxy sees a host in a buffer exactly when the buffer starts with handshake
  // records that carry a ClientHello whose first usable server_name extension has it as
  // its first host.
  lemma ServerNameExactly(data: Bytes, host: Bytes)
    ensures ServerName(data) == Some(host) <==> exists m :: Delivers(data, m) && Names(m, host)
  {
    var verdict := Scan(data, []);
    if verdict.Complete? {
      DeliveredExactly(data, verdict.message);
      NamedExactly(data, verdict.message, host);
    }
    if m :| Delivers(data, m) && Names(m, host) {
      DeliveredExactly(data, m);
    }
  }
}

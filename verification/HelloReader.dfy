// _read_complete_client_hello of core/tls_mitm.py: collecting a ClientHello that
// TCP delivers in pieces, and why the pieces do not matter.

module HelloReader {
  import opened Options
  import opened ClientHello
  import opened ClientHelloWire

  // The peer's byte stream. A read returns between one and `n` of the next bytes,
  // as the network pleases, and nothing only at the end of the stream.
  class StreamReader {
    const stream: Bytes
    var pos: nat

    ghost predicate Valid()
      reads this
    {
      pos <= |stream|
    }

    ghost function Rest(): Bytes
      reads this
      requires Valid()
    {
      stream[pos..]
    }

    constructor (stream: Bytes)
      ensures Valid() && Rest() == stream
    {
      this.stream := stream;
      pos := 0;
    }

    method Read(n: nat) returns (chunk: Bytes)
      requires Valid() && n > 0
      modifies this
      ensures Valid() && chunk + Rest() == old(Rest())
      ensures |chunk| <= n && (chunk == [] <==> old(Rest()) == [])
    {
      if pos == |stream| {
        return [];
      }
      var k: nat :| 1 <= k <= n && pos + k <= |stream|;
      chunk := stream[pos..pos + k];
      pos := pos + k;
    }
  }

  // The part of the stream the proxy is willing to look at.
  ghost function Window(whole: Bytes): Bytes {
    if |whole| <= MAX_CLIENT_HELLO_SIZE then whole else whole[..MAX_CLIENT_HELLO_SIZE]
  }

  // A point of `whole` at which the reader may stop: a verdict, the size limit
  // or the end of the stream.
  ghost predicate StopsAt(data: Bytes, whole: Bytes) {
    && data <= whole && |data| <= MAX_CLIENT_HELLO_SIZE
    && (Scan(data, []) != NeedMore || |data| == MAX_CLIENT_HELLO_SIZE || data == whole)
  }

  method ReadCompleteClientHello(reader: StreamReader, initial: Bytes) returns (data: Bytes)
    requires reader.Valid()
    modifies reader
    ensures reader.Valid()
    ensures StopsAt(data, initial + old(reader.Rest()))
    ensures |initial| <= MAX_CLIENT_HELLO_SIZE ==> data + reader.Rest() == initial + old(reader.Rest())
  {
    data := if |initial| <= MAX_CLIENT_HELLO_SIZE then initial else initial[..MAX_CLIENT_HELLO_SIZE];
    ghost var whole := initial + reader.Rest();
    while |data| < MAX_CLIENT_HELLO_SIZE
      invariant reader.Valid()
      invariant |data| <= MAX_CLIENT_HELLO_SIZE && data <= whole
      invariant |initial| <= MAX_CLIENT_HELLO_SIZE ==> data + reader.Rest() == whole
      invariant |initial| > MAX_CLIENT_HELLO_SIZE ==> |data| == MAX_CLIENT_HELLO_SIZE
      decreases MAX_CLIENT_HELLO_SIZE - |data|
    {
      var verdict := ClientHelloMessage(data);
      if verdict != NeedMore {
        break;
      }
      var room := MAX_CLIENT_HELLO_SIZE - |data|;
      var more := reader.Read(if room < 4096 then room else 4096);
      if more == [] {
        assert data == whole;
        break;
      }
      assert (data + more) + reader.Rest() == whole;
      data := data + more;
    }
  }

  // Wherever the reads cut the stream, the verdict and the server name are those
  // of its first 64 KiB.
  lemma CutsDoNotMatter(data: Bytes, whole: Bytes)
    requires StopsAt(data, whole)
    ensures Scan(data, []) == Scan(Window(whole), [])
    ensures ServerName(data) == ServerName(Window(whole))
  {
    if Scan(data, []) != NeedMore {
      assert Window(whole) == data + Window(whole)[|data|..];
      VerdictIsFinal(data, Window(whole)[|data|..], []);
    } else {
      assert data == Window(whole);
    }
  }

  // The header of a record, as far as a buffer shares its first bytes.
  lemma SharedHeader(d: Bytes, r: Record, rest: Bytes)
    requires ValidRecord(r) && d <= EncodeRecord(r) + rest && 5 <= |d|
    ensures d[0] == TLS_HANDSHAKE && U16(d, 3) == |r.payload|
    ensures 5 + |r.payload| <= |d| ==>
              d[5..5 + |r.payload|] == r.payload && d[5 + |r.payload|..] <= rest
  {
    var n, all := |r.payload|, EncodeRecord(r) + rest;
    assert all[3] as int == n / 256 && all[4] as int == n % 256;
    if 5 + n <= |d| {
      assert d[5..5 + n] == all[5..5 + n];
      assert all[5 + n..] == rest;
    }
  }

  // A proper prefix either stops inside the first record or starts with it.
  lemma PrefixOfRecord(d: Bytes, r: Record, rest: Bytes, h: Bytes)
    requires ValidRecord(r) && d < EncodeRecord(r) + rest
    ensures |d| < 5 + |r.payload| ==> Scan(d, h) == NeedMore
    ensures |d| >= 5 + |r.payload| ==> d[5 + |r.payload|..] < rest
    ensures |d| >= 5 + |r.payload| && Judge(h + r.payload) == NeedMore ==>
              Scan(d, h) == Scan(d[5 + |r.payload|..], h + r.payload)
  {
    if 5 <= |d| {
      SharedHeader(d, r, rest);
      if 5 + |r.payload| <= |d| {
        ScanFirst(d, |r.payload|, h);
      }
    }
  }

  // One round of the record loop.
  lemma ScanFirst(d: Bytes, n: nat, h: Bytes)
    requires |d| >= 5 + n && d[0] == TLS_HANDSHAKE && U16(d, 3) == n && 0 < n <= TLS_MAX_RECORD_SIZE
    ensures Judge(h + d[5..5 + n]) == NeedMore ==> Scan(d, h) == Scan(d[5 + n..], h + d[5..5 + n])
  {
  }

  // Records cut short decide nothing.
  lemma {:induction false} ProperPrefixNeedsMore(d: Bytes, rs: seq<Record>, h: Bytes, m: Bytes)
    requires ValidRecords(rs) && IsMessage(m) && h + Payloads(rs) == m
    requires d < Encode(rs)
    ensures Scan(d, h) == NeedMore
    decreases |rs|
  {
    var r, others := rs[0], rs[1..];
    PrefixOfRecord(d, r, Encode(others), h);
    if 5 + |r.payload| <= |d| {
      GatheredSoFar(h, rs, m);
      ProperPrefixNeedsMore(d[5 + |r.payload|..], others, h + r.payload, m);
    }
  }

  // Before the last record, what was gathered leaves the message open.
  lemma GatheredSoFar(h: Bytes, rs: seq<Record>, m: Bytes)
    requires rs != [] && ValidRecords(rs) && IsMessage(m) && h + Payloads(rs) == m
    ensures h + rs[0].payload + Payloads(rs[1..]) == m
    ensures rs[1..] != [] ==> Judge(h + rs[0].payload) == NeedMore
  {
    var g := h + rs[0].payload;
    assert g + Payloads(rs[1..]) == m;
    if rs[1..] != [] {
      PayloadsOfFront(rs[1..]);
      assert g == m[..|g|];
      JudgeOfPrefix(g, m);
    }
  }

  // A ClientHello cut into records yields its host name, through any reads, exactly
  // when its records fit into 64 KiB on the wire (or it names no host at all).
  lemma HostSeenExactly(h: Hello, rs: seq<Record>, tail: Bytes, data: Bytes)
    requires ValidHello(h) && |HelloBody(h)| <= MAX_CLIENT_HELLO_SIZE - TLS_HANDSHAKE_HEADER_SIZE
    requires ValidRecords(rs) && Payloads(rs) == Message(h)
    requires StopsAt(data, Encode(rs) + tail)
    ensures ServerName(data) == HostOf(h) <==> |Encode(rs)| <= MAX_CLIENT_HELLO_SIZE || HostOf(h) == None
  {
    var whole := Encode(rs) + tail;
    CutsDoNotMatter(data, whole);
    WindowSeesExactly(h, rs, tail);
  }

  lemma WindowSeesExactly(h: Hello, rs: seq<Record>, tail: Bytes)
    requires ValidHello(h) && |HelloBody(h)| <= MAX_CLIENT_HELLO_SIZE - TLS_HANDSHAKE_HEADER_SIZE
    requires ValidRecords(rs) && Payloads(rs) == Message(h)
    ensures ServerName(Window(Encode(rs) + tail)) ==
            if |Encode(rs)| <= MAX_CLIENT_HELLO_SIZE then HostOf(h) else None
  {
    var whole := Encode(rs) + tail;
    if |Encode(rs)| <= MAX_CLIENT_HELLO_SIZE {
      var rest := Window(whole)[|Encode(rs)|..];
      assert Window(whole) == Encode(rs) + rest;
      WireRoundTrip(h, rs, rest);
    } else {
      MessageIsMessage(h);
      assert Window(whole) < Encode(rs);
      assert [] + Payloads(rs) == Payloads(rs);
      ProperPrefixNeedsMore(Window(whole), rs, [], Message(h));
    }
  }

  // The start of _handle_connection: first read, collection, extraction. The name
  // depends on the bytes sent, not on how they arrived.
  method ConnectionServerName(reader: StreamReader) returns (name: Option<Bytes>)
    requires reader.Valid()
    modifies reader
    ensures name == ServerName(Window(old(reader.Rest())))
  {
    var data := reader.Read(4096);
    if data == [] {
      return None;
    }
    ghost var whole := data + reader.Rest();
    data := ReadCompleteClientHello(reader, data);
    CutsDoNotMatter(data, whole);
    name := ExtractSni(data);
  }

  // --- A hello that is missed ---------------------------------------------

  // One record for each byte.
  ghost function OneByteRecords(m: Bytes): (rs: seq<Record>)
    ensures ValidRecords(rs)
  {
    if m == [] then [] else [Record(3, 3, [m[0]])] + OneByteRecords(m[1..])
  }

  lemma {:induction false} OneByteRecordsCarry(m: Bytes)
    ensures Payloads(OneByteRecords(m)) == m
    ensures |Encode(OneByteRecords(m))| == 6 * |m|
    decreases |m|
  {
    if m != [] {
      OneByteRecordsCarry(m[1..]);
      assert OneByteRecords(m)[1..] == OneByteRecords(m[1..]);
      assert m == [m[0]] + m[1..];
    }
  }

  ghost function Zeros(n: nat): (b: Bytes)
    ensures |b| == n
  {
    seq(n, _ => 0)
  }

  // A hello with many cipher suites that names one host.
  ghost function LongHello(): (h: Hello)
    ensures ValidHello(h) && |HelloBody(h)| == 11051 && HostOf(h) == Some([97])
  {
    var names := [Name(0, [97])];
    var extensions := [ServerNames(names)];
    assert EncodeNames(names[1..]) == [] && |EncodeNames(names)| == 4;
    assert EncodeExtensions(extensions[1..]) == [] && |EncodeExtensions(extensions)| == 10;
    Hello(Zeros(34), [], Zeros(11000), [0], Some(extensions))
  }

  // Cut into one-byte records, an acceptable hello that names a host is not seen,
  // however it arrives.
  lemma OneByteRecordsHideHost(tail: Bytes)
    ensures HostOf(LongHello()) == Some([97])
    ensures var whole := Encode(OneByteRecords(Message(LongHello()))) + tail;
            StopsAt(Window(whole), whole) && forall data :: StopsAt(data, whole) ==> ServerName(data) == None
  {
    var m := Message(LongHello());
    var whole := Encode(OneByteRecords(m)) + tail;
    OneByteRecordsCarry(m);
    WindowSeesExactly(LongHello(), OneByteRecords(m), tail);
    forall data | StopsAt(data, whole)
      ensures ServerName(data) == None
    {
      CutsDoNotMatter(data, whole);
    }
  }
}

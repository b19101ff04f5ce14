// When _client_hello_message (core/tls_mitm.py) gives up on a buffer and when it asks for
// more, told by the records the buffer starts with.

module ClientHelloVerdicts {
  import opened ClientHello
  import opened ClientHelloWire

  // No ClientHello of acceptable size starts like this: another type of message, or one
  // that announces more than 64 KiB.
  ghost predicate Foreign(h: Bytes) {
    (|h| >= 1 && h[0] != 1) || (|h| >= 4 && 4 + U24(h, 1) > 65536)
  }

  // The start of a ClientHello whose end is still to come.
  ghost predicate Open(h: Bytes) {
    !Foreign(h) && (|h| >= 4 ==> |h| < 4 + U24(h, 1))
  }

  // The header of something else than a handshake record of acceptable size.
  ghost predicate BadHeader(rest: Bytes) {
    |rest| >= 5 && (rest[0] != 0x16 || U16(rest, 3) == 0 || U16(rest, 3) > 18432)
  }

  // A record of which something is missing.
  ghost predicate Cut(rest: Bytes) {
    !BadHeader(rest) && (|rest| < 5 || |rest| < 5 + U16(rest, 3))
  }

  // The last of the records shows that this is no ClientHello, or what follows them is
  // no record.
  ghost predicate Rejected(rs: seq<Record>, rest: Bytes) {
    || (rs != [] && Open(Payloads(Front(rs))) && Foreign(Payloads(rs)))
    || (Open(Payloads(rs)) && BadHeader(rest))
  }

  lemma JudgedExactly(h: Bytes)
    ensures Judge(h) == NeedMore <==> Open(h)
    ensures Judge(h) == Unusable <==> Foreign(h)
  {
  }

  lemma OpenPrefix(g: Bytes, h: Bytes)
    requires g <= h && Open(h)
    ensures Open(g)
  {
    if |g| >= 4 {
      assert U24(g, 1) == U24(h, 1);
    }
  }

  // Records that leave the message open are passed over.
  lemma {:induction false} ScanPast(rs: seq<Record>, rest: Bytes, h: Bytes)
    requires ValidRecords(rs) && Open(h + Payloads(rs))
    ensures Scan(Encode(rs) + rest, h) == Scan(rest, h + Payloads(rs))
    decreases |rs|
  {
    if rs == [] {
      assert [] + rest == rest && h + [] == h;
    } else {
      var g := h + rs[0].payload;
      assert rs == [rs[0]] + rs[1..];
      assert g + Payloads(rs[1..]) == h + Payloads(rs);
      EncodePrepend(rs[0], rs[1..], rest);
      ScanOneRecord(rs[0], Encode(rs[1..]) + rest, h);
      OpenPrefix(g, h + Payloads(rs));
      JudgedExactly(g);
      ScanPast(rs[1..], rest, g);
    }
  }

  // The first record of a buffer, if it is all there.
  lemma HeadRecord(data: Bytes) returns (r: Record, tail: Bytes)
    requires !Cut(data) && !BadHeader(data)
    ensures ValidRecord(r) && data == EncodeRecord(r) + tail && |tail| < |data|
  {
    var n := U16(data, 3);
    FirstRecord(data);
    r, tail := Record(data[1], data[2], data[5..5 + n]), data[5 + n..];
  }

  lemma {:induction false} MoreEncoded(rs: seq<Record>, r: Record)
    requires ValidRecords(rs) && ValidRecord(r)
    ensures ValidRecords(rs + [r]) && Encode(rs + [r]) == Encode(rs) + EncodeRecord(r)
    decreases |rs|
  {
    assert forall i :: 0 <= i < |rs| ==> (rs + [r])[i] == rs[i];
    if rs == [] {
      assert rs + [r] == [r] && [r][1..] == [];
      assert EncodeRecord(r) + [] == EncodeRecord(r) && [] + EncodeRecord(r) == EncodeRecord(r);
    } else {
      var first, others := EncodeRecord(rs[0]), rs[1..];
      assert (rs + [r])[1..] == others + [r];
      MoreEncoded(others, r);
      assert first + (Encode(others) + EncodeRecord(r)) == first + Encode(others) + EncodeRecord(r);
    }
  }

  lemma EncodedBehind(rs: seq<Record>, r: Record, tail: Bytes)
    requires ValidRecords(rs) && ValidRecord(r)
    ensures ValidRecords(rs + [r]) && Encode(rs + [r]) + tail == Encode(rs) + (EncodeRecord(r) + tail)
  {
    MoreEncoded(rs, r);
    var a, b := Encode(rs), EncodeRecord(r);
    assert a + b + tail == a + (b + tail);
  }

  lemma {:induction false} MorePayload(rs: seq<Record>, r: Record)
    ensures Front(rs + [r]) == rs && Payloads(rs + [r]) == Payloads(rs) + r.payload
    decreases |rs|
  {
    if rs == [] {
      assert rs + [r] == [r] && [r][1..] == [];
      assert r.payload + [] == r.payload && [] + r.payload == r.payload;
    } else {
      assert (rs + [r])[1..] == rs[1..] + [r];
      MorePayload(rs[1..], r);
      assert rs[0].payload + (Payloads(rs[1..]) + r.payload) == rs[0].payload + Payloads(rs[1..]) + r.payload;
    }
  }

  ghost predicate Closes(rest: Bytes, h: Bytes) {
    exists r, tail :: ValidRecord(r) && rest == EncodeRecord(r) + tail && !Open(h + r.payload)
  }

  // `data` is records that leave the message open and something behind them.
  ghost predicate Starts(data: Bytes, h: Bytes, rs: seq<Record>, rest: Bytes) {
    ValidRecords(rs) && data == Encode(rs) + rest && Open(h + Payloads(rs))
  }

  lemma StartsWithNone(data: Bytes, h: Bytes)
    requires Open(h)
    ensures Starts(data, h, [], data) && h + Payloads([]) == h
  {
    assert [] + data == data && h + [] == h;
  }

  lemma StartsWithMore(r: Record, tail: Bytes, h: Bytes, rs: seq<Record>, rest: Bytes)
    requires ValidRecord(r) && Starts(tail, h + r.payload, rs, rest)
    ensures Starts(EncodeRecord(r) + tail, h, [r] + rs, rest)
    ensures h + Payloads([r] + rs) == h + r.payload + Payloads(rs)
  {
    EncodePrepend(r, rs, rest);
    assert ([r] + rs)[1..] == rs;
    assert h + (r.payload + Payloads(rs)) == h + r.payload + Payloads(rs);
  }

  // Any buffer starts with records that leave the message open; what follows them is no
  // complete record, or a record that closes the message.
  lemma {:induction false} PastRecords(data: Bytes, h: Bytes) returns (rs: seq<Record>, rest: Bytes)
    requires Open(h)
    ensures Starts(data, h, rs, rest)
    ensures Cut(rest) || BadHeader(rest) || Closes(rest, h + Payloads(rs))
    decreases |data|
  {
    rs, rest := [], data;
    StartsWithNone(data, h);
    if !Cut(data) && !BadHeader(data) {
      var r, tail := HeadRecord(data);
      if Open(h + r.payload) {
        var more;
        more, rest := PastRecords(tail, h + r.payload);
        rs := [r] + more;
        StartsWithMore(r, tail, h, more, rest);
      }
    }
  }

  lemma CutAsks(rest: Bytes, h: Bytes)
    ensures Cut(rest) ==> Scan(rest, h) == NeedMore
    ensures BadHeader(rest) ==> Scan(rest, h) == Unusable
  {
  }

  lemma BadHeaderRejects(rs: seq<Record>, rest: Bytes)
    requires ValidRecords(rs) && Open(Payloads(rs)) && BadHeader(rest)
    ensures Scan(Encode(rs) + rest, []) == Unusable
  {
    assert [] + Payloads(rs) == Payloads(rs);
    ScanPast(rs, rest, []);
    CutAsks(rest, Payloads(rs));
  }

  lemma ForeignRejects(front: seq<Record>, last: Record, rest: Bytes)
    requires ValidRecords(front) && ValidRecord(last)
    requires Open(Payloads(front)) && Foreign(Payloads(front) + last.payload)
    ensures Scan(Encode(front) + (EncodeRecord(last) + rest), []) == Unusable
  {
    assert [] + Payloads(front) == Payloads(front);
    ScanPast(front, EncodeRecord(last) + rest, []);
    ScanOneRecord(last, rest, Payloads(front));
    JudgedExactly(Payloads(front) + last.payload);
  }

  lemma RejectedIsUnusable(rs: seq<Record>, rest: Bytes)
    requires ValidRecords(rs) && Rejected(rs, rest)
    ensures Scan(Encode(rs) + rest, []) == Unusable
  {
    if Open(Payloads(rs)) && BadHeader(rest) {
      BadHeaderRejects(rs, rest);
    } else {
      var front, last := Front(rs), rs[|rs| - 1];
      assert rs == front + [last];
      MorePayload(front, last);
      EncodedBehind(front, last, rest);
      ForeignRejects(front, last, rest);
    }
  }

  lemma Parted(data: Bytes) returns (rs: seq<Record>, rest: Bytes)
    ensures ValidRecords(rs) && data == Encode(rs) + rest && Open(Payloads(rs))
    ensures Cut(rest) || BadHeader(rest) || Closes(rest, Payloads(rs))
    ensures Scan(data, []) == Scan(rest, Payloads(rs))
    ensures Cut(rest) ==> Scan(data, []) == NeedMore
  {
    rs, rest := PastRecords(data, []);
    assert [] + Payloads(rs) == Payloads(rs);
    ScanPast(rs, rest, []);
    CutAsks(rest, Payloads(rs));
  }

  lemma WhyUnusable(data: Bytes) returns (rs: seq<Record>, rest: Bytes)
    requires Scan(data, []) == Unusable
    ensures ValidRecords(rs) && data == Encode(rs) + rest && Rejected(rs, rest)
  {
    rs, rest := Parted(data);
    if !BadHeader(rest) {
      var r, tail := ClosingRecord(rest, Payloads(rs));
      LastRecordRejects(rs, r, tail);
      rs, rest := rs + [r], tail;
    }
  }

  // A record that closes the message and leaves the buffer unusable.
  lemma LastRecordRejects(rs: seq<Record>, r: Record, tail: Bytes)
    requires ValidRecords(rs) && ValidRecord(r) && Open(Payloads(rs)) && !Open(Payloads(rs) + r.payload)
    requires Scan(EncodeRecord(r) + tail, Payloads(rs)) == Unusable
    ensures ValidRecords(rs + [r]) && Encode(rs) + (EncodeRecord(r) + tail) == Encode(rs + [r]) + tail
    ensures Rejected(rs + [r], tail)
  {
    EncodedBehind(rs, r, tail);
    MorePayload(rs, r);
    ForeignRecord(Payloads(rs), r, tail);
  }

  lemma ForeignRecord(h: Bytes, r: Record, tail: Bytes)
    requires ValidRecord(r) && !Open(h + r.payload) && Scan(EncodeRecord(r) + tail, h) == Unusable
    ensures Foreign(h + r.payload)
  {
    ScanOneRecord(r, tail, h);
    JudgedExactly(h + r.payload);
  }

  lemma ClosingRecord(rest: Bytes, h: Bytes) returns (r: Record, tail: Bytes)
    requires Closes(rest, h)
    ensures ValidRecord(r) && rest == EncodeRecord(r) + tail && !Open(h + r.payload)
  {
    r, tail :| ValidRecord(r) && rest == EncodeRecord(r) + tail && !Open(h + r.payload);
  }

  // A buffer is given up at once exactly when it starts with handshake records whose
  // payloads, with the last of them, turn out to be no ClientHello of acceptable size,
  // or with records that leave one open and are followed by no handshake record of
  // acceptable size.
  lemma UnusableExactly(data: Bytes)
    ensures Scan(data, []) == Unusable <==>
            exists rs, rest :: ValidRecords(rs) && data == Encode(rs) + rest && Rejected(rs, rest)
  {
    if exists rs, rest :: ValidRecords(rs) && data == Encode(rs) + rest && Rejected(rs, rest) {
      var rs, rest :| ValidRecords(rs) && data == Encode(rs) + rest && Rejected(rs, rest);
      RejectedIsUnusable(rs, rest);
    }
    if Scan(data, []) == Unusable {
      var rs, rest := WhyUnusable(data);
    }
  }

  // More bytes are asked for exactly when the buffer is records that leave a message
  // open, followed by the beginning of one more or by nothing.
  lemma NeedMoreExactly(data: Bytes)
    ensures Scan(data, []) == NeedMore <==>
            exists rs, rest :: ValidRecords(rs) && data == Encode(rs) + rest && Open(Payloads(rs)) && Cut(rest)
  {
    if exists rs, rest :: ValidRecords(rs) && data == Encode(rs) + rest && Open(Payloads(rs)) && Cut(rest) {
      var rs, rest :| ValidRecords(rs) && data == Encode(rs) + rest && Open(Payloads(rs)) && Cut(rest);
      assert [] + Payloads(rs) == Payloads(rs);
      ScanPast(rs, rest, []);
      CutAsks(rest, Payloads(rs));
    }
    if Scan(data, []) == NeedMore {
      var rs, rest := Parted(data);
      if BadHeader(rest) {
        CutAsks(rest, Payloads(rs));
      } else if !Cut(rest) {
        var r, tail := ClosingRecord(rest, Payloads(rs));
        ScanOneRecord(r, tail, Payloads(rs));
        JudgedExactly(Payloads(rs) + r.payload);
      }
    }
  }
}

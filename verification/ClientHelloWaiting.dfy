// When asking for more bytes can still lead to a ClientHello. The docstring of
// _client_hello_message (core/tls_mitm.py) says callers do not wait for data that
// cannot provide a server name; this module says exactly when they do.

module ClientHelloWaiting {
  import opened ClientHello
  import opened ClientHelloWire

  // What an undecided buffer leaves: the handshake bytes gathered and the unfinished record.
  ghost function Residue(data: Bytes, handshake: Bytes): (r: (Bytes, Bytes))
    requires Scan(data, handshake) == NeedMore
    decreases |data|
  {
    if |data| < 5 || 5 + U16(data, 3) > |data| then (handshake, data)
    else Residue(data[5 + U16(data, 3)..], handshake + data[5..5 + U16(data, 3)])
  }

  // Handshake bytes that some ClientHello of acceptable size starts with.
  ghost predicate Hopeful(v: Bytes) {
    && (|v| >= 1 ==> v[0] == TLS_CLIENT_HELLO)
    && (|v| >= 2 ==> v[1] == 0)
    && (|v| >= 4 ==> TLS_HANDSHAKE_HEADER_SIZE + U24(v, 1) <= MAX_CLIENT_HELLO_SIZE)
  }

  // An unfinished record that may still become one, carrying a hopeful prefix.
  ghost predicate CanFinish(gathered: Bytes, record: Bytes) {
    && (|record| >= 1 ==> record[0] == TLS_HANDSHAKE)
    && (|record| == 4 ==> record[3] as int * 256 <= TLS_MAX_RECORD_SIZE)
    && Hopeful(if |record| < 5 then gathered else gathered + record[5..])
  }

  // Past a complete first record that does not decide.
  lemma PastFirstRecord(data: Bytes, handshake: Bytes, more: Bytes)
    requires |data| >= 5 && 5 + U16(data, 3) <= |data| && Scan(data, handshake) == NeedMore
    ensures var end := 5 + U16(data, 3);
            var gathered := handshake + data[5..end];
            && Judge(gathered) == NeedMore
            && Scan(data, handshake) == Scan(data[end..], gathered)
            && Scan(data + more, handshake) == Scan(data[end..] + more, gathered)
  {
    var all, end := data + more, 5 + U16(data, 3);
    assert all[0] == data[0] && U16(all, 3) == U16(data, 3);
    assert all[5..end] == data[5..end] && all[end..] == data[end..] + more;
  }

  // A record the buffer holds only the beginning of.
  ghost predicate Unfinished(gathered: Bytes, record: Bytes) {
    Scan(record, gathered) == NeedMore && (|record| < 5 || 5 + U16(record, 3) > |record|)
  }

  lemma {:induction false} ResidueUnfinished(data: Bytes, handshake: Bytes)
    requires Scan(data, handshake) == NeedMore
    ensures Unfinished(Residue(data, handshake).0, Residue(data, handshake).1)
    ensures Judge(handshake) == NeedMore ==> Judge(Residue(data, handshake).0) == NeedMore
    decreases |data|
  {
    if |data| >= 5 && 5 + U16(data, 3) <= |data| {
      PastFirstRecord(data, handshake, []);
      ResidueUnfinished(data[5 + U16(data, 3)..], handshake + data[5..5 + U16(data, 3)]);
    }
  }

  // What follows an undecided buffer is judged by its residue alone.
  lemma {:induction false} ResidueDecides(data: Bytes, handshake: Bytes, more: Bytes)
    requires Scan(data, handshake) == NeedMore
    ensures var (g, record) := Residue(data, handshake);
            Scan(data + more, handshake) == Scan(record + more, g)
    decreases |data|
  {
    if |data| >= 5 && 5 + U16(data, 3) <= |data| {
      PastFirstRecord(data, handshake, more);
      ResidueDecides(data[5 + U16(data, 3)..], handshake + data[5..5 + U16(data, 3)], more);
    }
  }

  // --- Nothing helps a hopeless prefix ------------------------------------

  lemma HopelessStays(v: Bytes, w: Bytes)
    requires v <= w && !Hopeful(v)
    ensures !Hopeful(w) && !Judge(w).Complete?
  {
    if |v| >= 4 {
      assert U24(v, 1) == U24(w, 1);
    }
  }

  lemma {:induction false} HopelessNeverCompletes(data: Bytes, g: Bytes)
    requires !Hopeful(g)
    ensures !Scan(data, g).Complete?
    decreases |data|
  {
    if |data| >= 5 && 0 < U16(data, 3) && 5 + U16(data, 3) <= |data| {
      var end := 5 + U16(data, 3);
      HopelessStays(g, g + data[5..end]);
      HopelessNeverCompletes(data[end..], g + data[5..end]);
    }
  }

  lemma StuckNeverCompletes(g: Bytes, record: Bytes, more: Bytes)
    requires Unfinished(g, record)
    requires !CanFinish(g, record)
    ensures !Scan(record + more, g).Complete?
  {
    var d := record + more;
    if |d| >= 5 && d[0] == TLS_HANDSHAKE && 0 < U16(d, 3) <= TLS_MAX_RECORD_SIZE && 5 + U16(d, 3) <= |d| {
      var end := 5 + U16(d, 3);
      var w := g + d[5..end];
      if |record| < 5 {
        HopelessStays(g, w);
      } else {
        assert U16(record, 3) == U16(d, 3);
        assert d[5..end][..|record| - 5] == record[5..];
        HopelessStays(g + record[5..], w);
      }
      HopelessNeverCompletes(d[end..], w);
    }
  }

  // --- A hopeful prefix can be completed ----------------------------------

  // `v` continued to `n` bytes as the smallest ClientHello would.
  ghost function Grown(v: Bytes, n: nat): (w: Bytes)
    requires |v| <= n
    ensures |w| == n && v <= w
    decreases n - |v|
    ensures forall i :: |v| <= i < n ==> w[i] == if i == 0 then TLS_CLIENT_HELLO else 0
  {
    if |v| == n then v else Grown(v + [if |v| == 0 then TLS_CLIENT_HELLO else 0], n)
  }

  lemma GrownIsHopeful(v: Bytes, n: nat)
    requires Hopeful(v) && |v| <= n
    ensures Hopeful(Grown(v, n))
    ensures n >= MAX_CLIENT_HELLO_SIZE ==> Judge(Grown(v, n)).Complete?
  {
    var w := Grown(v, n);
    if |v| >= 4 {
      assert U24(w, 1) == U24(v, 1);
    }
  }

  lemma {:induction false} Finish(g: Bytes) returns (more: Bytes)
    requires Hopeful(g) && Judge(g) == NeedMore
    ensures Scan(more, g).Complete?
    decreases MAX_CLIENT_HELLO_SIZE - |g|
  {
    var w := Grown(g, |g| + 1);
    var r := Record(3, 3, w[|g|..]);
    assert g + r.payload == w;
    GrownIsHopeful(g, |w|);
    more := [];
    if |w| < MAX_CLIENT_HELLO_SIZE && Judge(w) == NeedMore {
      more := Finish(w);
    }
    ScanOneRecord(r, more, g);
    more := EncodeRecord(r) + more;
  }

  // The header of an unfinished record, completed if need be.
  lemma FinishHeader(g: Bytes, record: Bytes) returns (header: Bytes)
    requires Scan(record, g) == NeedMore && CanFinish(g, record)
    ensures |header| == 5 && header[0] == TLS_HANDSHAKE && 1 <= U16(header, 3) <= TLS_MAX_RECORD_SIZE
    ensures if |record| < 5 then record <= header else header == record[..5]
  {
    var low: Byte := if |record| == 4 && record[3] != 0 then 0 else 1;
    var fill: Bytes := [TLS_HANDSHAKE, 3, 3, 0, low];
    header := if |record| >= 5 then record[..5] else record + fill[|record|..];
    if |record| >= 5 {
      assert U16(header, 3) == U16(record, 3);
    } else {
      assert |record| < 4 ==> header[3] == 0;
      assert header[4] == low;
    }
  }

  lemma EncodeWithHeader(header: Bytes, payload: Bytes)
    requires |header| == 5 && header[0] == TLS_HANDSHAKE && |payload| == U16(header, 3)
    requires 1 <= |payload| <= TLS_MAX_RECORD_SIZE
    ensures EncodeRecord(Record(header[1], header[2], payload)) == header + payload
  {
    assert U16(header, 3) / 256 == header[3] as int && U16(header, 3) % 256 == header[4] as int;
  }

  lemma Splits(g: Bytes, sent: Bytes, w: Bytes)
    requires g + sent <= w
    ensures w == g + w[|g|..] && sent <= w[|g|..]
  {
    assert (g + sent)[|g|..] == sent;
    assert w[|g|..][..|sent|] == sent;
  }

  // Handshake bytes `w` grown from hopeful ones decide, or more records do.
  lemma GrownDecides(v: Bytes, n: nat) returns (w: Bytes, others: Bytes)
    requires Hopeful(v) && |v| <= n
    ensures |w| == n && v <= w
    ensures if Judge(w) == NeedMore then Scan(others, w).Complete? else Judge(w).Complete?
  {
    w := Grown(v, n);
    GrownIsHopeful(v, n);
    others := [];
    if Judge(w) == NeedMore {
      others := Finish(w);
    }
  }

  // The record that carries them, under a given header.
  lemma GrownRecord(g: Bytes, header: Bytes, payload: Bytes, others: Bytes)
    requires |header| == 5 && header[0] == TLS_HANDSHAKE && |payload| == U16(header, 3)
    requires 1 <= |payload| <= TLS_MAX_RECORD_SIZE
    requires var w := g + payload;
             if Judge(w) == NeedMore then Scan(others, w).Complete? else Judge(w).Complete?
    ensures Scan(header + payload + others, g).Complete?
  {
    EncodeWithHeader(header, payload);
    ScanOneRecord(Record(header[1], header[2], payload), others, g);
  }

  // The unfinished record completed: its header, then its payload, then more records.
  lemma FinishRecord(g: Bytes, record: Bytes) returns (more: Bytes)
    requires Unfinished(g, record)
    requires CanFinish(g, record)
    ensures Scan(record + more, g).Complete?
  {
    var header := FinishHeader(g, record);
    var sent := SentPayload(g, record, header);
    var w, others := GrownDecides(g + sent, |g| + U16(header, 3));
    Splits(g, sent, w);
    GrownRecord(g, header, w[|g|..], others);
    more := Complement(record, header + w[|g|..]) + others;
    Reassociate(record, header + w[|g|..], others);
  }

  lemma Reassociate(part: Bytes, all: Bytes, others: Bytes)
    requires part <= all
    ensures part + (Complement(part, all) + others) == all + others
  {
  }

  // The part of the payload already there.
  lemma SentPayload(g: Bytes, record: Bytes, header: Bytes) returns (sent: Bytes)
    requires |header| == 5 && (if |record| < 5 then record <= header else header == record[..5])
    requires CanFinish(g, record) && (|record| < 5 || 5 + U16(record, 3) > |record|)
    ensures Hopeful(g + sent) && |sent| <= U16(header, 3)
    ensures forall payload :: sent <= payload ==> record <= header + payload
  {
    if |record| < 5 {
      sent := [];
      assert g + sent == g;
    } else {
      sent := record[5..];
      assert record == header + sent && U16(record, 3) == U16(header, 3);
    }
  }

  ghost function Complement(part: Bytes, all: Bytes): (rest: Bytes)
    requires part <= all
    ensures part + rest == all
  {
    all[|part|..]
  }

  // An undecided buffer can still become a ClientHello exactly when its last,
  // unfinished record can.
  lemma WaitingHelpsExactly(data: Bytes)
    requires Scan(data, []) == NeedMore
    ensures (exists more :: Scan(data + more, []).Complete?) <==>
            CanFinish(Residue(data, []).0, Residue(data, []).1)
  {
    var (g, record) := Residue(data, []);
    ResidueUnfinished(data, []);
    if CanFinish(g, record) {
      var more := FinishRecord(g, record);
      ResidueDecides(data, [], more);
      assert Scan(data + more, []).Complete?;
    } else {
      forall more
        ensures !Scan(data + more, []).Complete?
      {
        ResidueDecides(data, [], more);
        StuckNeverCompletes(g, record, more);
      }
    }
  }

  // A first byte that no handshake record has: the caller is still told to wait.
  lemma WaitsInVain(data: Bytes, more: Bytes)
    requires 0 < |data| < TLS_RECORD_HEADER_SIZE && data[0] != TLS_HANDSHAKE
    ensures Scan(data, []) == NeedMore && !Scan(data + more, []).Complete?
  {
    StuckNeverCompletes([], data, more);
  }

  // And a buffer found unusable is never worth waiting for.
  lemma UnusableStays(data: Bytes, more: Bytes)
    requires Scan(data, []) == Unusable
    ensures !Scan(data + more, []).Complete?
  {
    VerdictIsFinal(data, more, []);
  }
}

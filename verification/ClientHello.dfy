// The TLS ClientHello parsers of core/tls_mitm.py: record and handshake
// reassembly, and the walk to the server name. The wire format is that of
// RFC 8446 (sections 4.1.2 and 5.1) and RFC 6066 (section 3).

module ClientHello {
  import opened Options
  import opened Sequences

  type Byte = b: int | 0 <= b < 256
  type Bytes = seq<Byte>

  const TLS_HANDSHAKE: Byte := 0x16
  const TLS_CLIENT_HELLO: Byte := 0x01
  const TLS_EXTENSION_SNI := 0x0000
  const TLS_RECORD_HEADER_SIZE := 5
  const TLS_HANDSHAKE_HEADER_SIZE := 4
  const TLS_MAX_RECORD_SIZE := 18432
  const TLS_SNI_LIST_LENGTH_SIZE := 2
  const MAX_CLIENT_HELLO_SIZE := 65536

  // (False, None), (True, None) and (True, message).
  datatype Verdict = NeedMore | Unusable | Complete(message: Bytes)

  // Big-endian numbers at position `at`.
  function U16(b: Bytes, at: nat): (n: nat)
    requires at + 2 <= |b|
  {
    b[at] as int * 256 + b[at + 1] as int
  }

  function U24(b: Bytes, at: nat): (n: nat)
    requires at + 3 <= |b|
  {
    b[at] as int * 65536 + b[at + 1] as int * 256 + b[at + 2] as int
  }

  // --- Record layer -------------------------------------------------------

  // What the handshake bytes gathered so far allow to conclude.
  function Judge(handshake: Bytes): Verdict {
    if |handshake| > 0 && handshake[0] != TLS_CLIENT_HELLO then Unusable
    else if |handshake| < TLS_HANDSHAKE_HEADER_SIZE then NeedMore
    else
      var messageLen := TLS_HANDSHAKE_HEADER_SIZE + U24(handshake, 1);
      if messageLen > MAX_CLIENT_HELLO_SIZE then Unusable
      else if |handshake| >= messageLen then Complete(handshake[..messageLen])
      else NeedMore
  }

  // The verdict on `data` when `handshake` was gathered from earlier records.
  function Scan(data: Bytes, handshake: Bytes): Verdict
    decreases |data|
  {
    if |data| < TLS_RECORD_HEADER_SIZE then NeedMore
    else if data[0] != TLS_HANDSHAKE then Unusable
    else
      var recordLen := U16(data, 3);
      if recordLen == 0 || recordLen > TLS_MAX_RECORD_SIZE then Unusable
      else if TLS_RECORD_HEADER_SIZE + recordLen > |data| then NeedMore
      else
        var recordEnd := TLS_RECORD_HEADER_SIZE + recordLen;
        var gathered := handshake + data[TLS_RECORD_HEADER_SIZE..recordEnd];
        var verdict := Judge(gathered);
        if verdict != NeedMore then verdict else Scan(data[recordEnd..], gathered)
  }

  // The same over positions in the buffer.
  ghost function ScanFrom(data: Bytes, pos: nat, handshake: Bytes): Verdict
    requires pos <= |data|
    decreases |data| - pos
  {
    if |data| - pos < TLS_RECORD_HEADER_SIZE then NeedMore
    else if data[pos] != TLS_HANDSHAKE then Unusable
    else
      var recordLen := U16(data, pos + 3);
      var recordEnd := pos + TLS_RECORD_HEADER_SIZE + recordLen;
      if recordLen == 0 || recordLen > TLS_MAX_RECORD_SIZE then Unusable
      else if recordEnd > |data| then NeedMore
      else
        var gathered := handshake + data[pos + TLS_RECORD_HEADER_SIZE..recordEnd];
        if Judge(gathered) != NeedMore then Judge(gathered) else ScanFrom(data, recordEnd, gathered)
  }

  lemma RecordParts(data: Bytes, pos: nat)
    requires pos + TLS_RECORD_HEADER_SIZE <= |data|
    ensures var rest, recordLen := data[pos..], U16(data, pos + 3);
            var recordEnd := pos + TLS_RECORD_HEADER_SIZE + recordLen;
            && rest[0] == data[pos] && U16(rest, 3) == recordLen
            && (recordEnd <= |data| ==>
                  && rest[TLS_RECORD_HEADER_SIZE..TLS_RECORD_HEADER_SIZE + recordLen]
                     == data[pos + TLS_RECORD_HEADER_SIZE..recordEnd]
                  && rest[TLS_RECORD_HEADER_SIZE + recordLen..] == data[recordEnd..])
  {
    var recordLen := U16(data, pos + 3);
    if pos + TLS_RECORD_HEADER_SIZE + recordLen <= |data| {
      assert data[pos..] == data[pos..|data|];
      Slice(data, pos, |data|, TLS_RECORD_HEADER_SIZE, TLS_RECORD_HEADER_SIZE + recordLen);
      Drop(data, pos, TLS_RECORD_HEADER_SIZE + recordLen);
    }
  }

  // One round of the record loop on the rest of the buffer.
  lemma RecordAt(data: Bytes, pos: nat, handshake: Bytes)
    requires pos + TLS_RECORD_HEADER_SIZE <= |data| && data[pos] == TLS_HANDSHAKE
    requires 0 < U16(data, pos + 3) <= TLS_MAX_RECORD_SIZE
    requires pos + TLS_RECORD_HEADER_SIZE + U16(data, pos + 3) <= |data|
    ensures var recordEnd := pos + TLS_RECORD_HEADER_SIZE + U16(data, pos + 3);
            var gathered := handshake + data[pos + TLS_RECORD_HEADER_SIZE..recordEnd];
            Scan(data[pos..], handshake) ==
            if Judge(gathered) != NeedMore then Judge(gathered) else Scan(data[recordEnd..], gathered)
  {
    RecordParts(data, pos);
  }

  lemma {:induction false} ScanFromIsScan(data: Bytes, pos: nat, handshake: Bytes)
    requires pos <= |data|
    ensures ScanFrom(data, pos, handshake) == Scan(data[pos..], handshake)
    decreases |data| - pos
  {
    if pos + TLS_RECORD_HEADER_SIZE <= |data| {
      var recordLen := U16(data, pos + 3);
      var recordEnd := pos + TLS_RECORD_HEADER_SIZE + recordLen;
      if data[pos] == TLS_HANDSHAKE && 0 < recordLen <= TLS_MAX_RECORD_SIZE && recordEnd <= |data| {
        RecordAt(data, pos, handshake);
        ScanFromIsScan(data, recordEnd, handshake + data[pos + TLS_RECORD_HEADER_SIZE..recordEnd]);
      } else {
        RecordParts(data, pos);
      }
    }
  }

  lemma FromTheStart(data: Bytes) returns (answer: Verdict)
    ensures answer == Scan(data, []) == ScanFrom(data, 0, [])
  {
    ScanFromIsScan(data, 0, []);
    assert data[0..] == data;
    answer := Scan(data, []);
  }

  // _client_hello_message: the record loop, over positions in the buffer.
  method ClientHelloMessage(data: Bytes) returns (verdict: Verdict)
    ensures verdict == Scan(data, [])
  {
    var handshake: Bytes := [];
    var recordPos := 0;
    ghost var answer := FromTheStart(data);
    while true
      invariant 0 <= recordPos <= |data|
      invariant ScanFrom(data, recordPos, handshake) == answer
      decreases |data| - recordPos
    {
      if |data| - recordPos < TLS_RECORD_HEADER_SIZE {
        return NeedMore;
      }
      if data[recordPos] != TLS_HANDSHAKE {
        return Unusable;
      }
      var recordLen := U16(data, recordPos + 3);
      if recordLen == 0 || recordLen > TLS_MAX_RECORD_SIZE {
        return Unusable;
      }
      var recordEnd := recordPos + TLS_RECORD_HEADER_SIZE + recordLen;
      if recordEnd > |data| {
        return NeedMore;
      }
      handshake := handshake + data[recordPos + TLS_RECORD_HEADER_SIZE..recordEnd];
      verdict := Conclude(handshake);
      if verdict != NeedMore {
        return;
      }
      recordPos := recordEnd;
    }
  }

  // The end of a round: what the handshake bytes say by now.
  method Conclude(handshake: Bytes) returns (verdict: Verdict)
    ensures verdict == Judge(handshake)
  {
    if |handshake| > 0 && handshake[0] != TLS_CLIENT_HELLO {
      return Unusable;
    }
    if |handshake| >= TLS_HANDSHAKE_HEADER_SIZE {
      var messageLen := TLS_HANDSHAKE_HEADER_SIZE + U24(handshake, 1);
      if messageLen > MAX_CLIENT_HELLO_SIZE {
        return Unusable;
      }
      if |handshake| >= messageLen {
        return Complete(handshake[..messageLen]);
      }
    }
    return NeedMore;
  }

  // --- Server name --------------------------------------------------------

  // The first non-empty host_name of a server_name_list.
  function NameIn(names: Bytes): Option<Bytes>
    decreases |names|
  {
    if |names| < 3 then None
    else
      var nameLen := U16(names, 1);
      if 3 + nameLen > |names| then None
      else if names[0] == 0 && nameLen > 0 then Some(names[3..3 + nameLen])
      else NameIn(names[3 + nameLen..])
  }

  // The answer of a server_name extension: its list, if that fits.
  function ListName(body: Bytes): Option<Bytes>
    requires |body| >= TLS_SNI_LIST_LENGTH_SIZE
  {
    var listLen := U16(body, 0);
    if 2 + listLen > |body| then None else NameIn(body[2..2 + listLen])
  }

  // The answer of the first server_name extension of an extension block.
  function ExtensionName(extensions: Bytes): Option<Bytes>
    decreases |extensions|
  {
    if |extensions| < 4 then None
    else
      var kind, len := U16(extensions, 0), U16(extensions, 2);
      if 4 + len > |extensions| then None
      else
        var body := extensions[4..4 + len];
        if kind == TLS_EXTENSION_SNI && len >= TLS_SNI_LIST_LENGTH_SIZE then
          ListName(body)
        else ExtensionName(extensions[4 + len..])
  }

  // Where the extension block of a ClientHello body starts: past version and
  // random (34 bytes), session id, cipher suites and compression methods.
  function ExtensionsAt(hello: Bytes): (at: Option<nat>)
    ensures at.Some? ==> at.value + 2 <= |hello|
  {
    if 34 >= |hello| then None
    else
      var ciphers := 35 + hello[34] as int;
      if ciphers + 2 > |hello| then None
      else
        var compression := ciphers + 2 + U16(hello, ciphers);
        if compression >= |hello| then None
        else
          var extensions := compression + 1 + hello[compression] as int;
          if extensions + 2 > |hello| then None else Some(extensions)
  }

  // The server name of a ClientHello body.
  function HelloName(hello: Bytes): Option<Bytes> {
    match ExtensionsAt(hello)
    case None => None
    case Some(at) =>
      var end := at + 2 + U16(hello, at);
      if end > |hello| then None else ExtensionName(hello[at + 2..end])
  }

  // The server name the proxy sees in `data`.
  function ServerName(data: Bytes): Option<Bytes> {
    match Scan(data, [])
    case Complete(message) => if |message| < 4 then None else HelloName(message[4..])
    case _ => None
  }

  // extract_sni_from_client_hello: the same walk over positions. The bytes of
  // the name are returned as they are, before UTF-8 decoding.
  method ExtractSni(data: Bytes) returns (name: Option<Bytes>)
    ensures name == ServerName(data)
  {
    var verdict := ClientHelloMessage(data);
    if !verdict.Complete? {
      return None;
    }
    MessageHasHeader(data, []);
    name := WalkHello(verdict.message[4..]);
  }

  // The fixed part of the walk: one vector after the other, then the extensions.
  method WalkHello(hello: Bytes) returns (name: Option<Bytes>)
    ensures name == HelloName(hello)
  {
    var pos := 34;
    if pos >= |hello| {
      return None;
    }
    var sessionIdLen := hello[pos] as int;
    pos := pos + 1 + sessionIdLen;
    if pos + 2 > |hello| {
      return None;
    }
    var cipherLen := U16(hello, pos);
    pos := pos + 2 + cipherLen;
    if pos >= |hello| {
      return None;
    }
    var compressionLen := hello[pos] as int;
    pos := pos + 1 + compressionLen;
    if pos + 2 > |hello| {
      return None;
    }
    var extensionsLen := U16(hello, pos);
    pos := pos + 2;
    var extensionsEnd := pos + extensionsLen;
    if extensionsEnd > |hello| {
      return None;
    }
    name := WalkExtensions(hello, pos, extensionsEnd);
  }

  // The walks over positions of the whole body.
  ghost function NameFrom(hello: Bytes, pos: nat, end: nat): Option<Bytes>
    requires pos <= end <= |hello|
    decreases end - pos
  {
    if end - pos < 3 then None
    else
      var nameLen := U16(hello, pos + 1);
      if pos + 3 + nameLen > end then None
      else if hello[pos] == 0 && nameLen > 0 then Some(hello[pos + 3..pos + 3 + nameLen])
      else NameFrom(hello, pos + 3 + nameLen, end)
  }

  ghost function ListFrom(hello: Bytes, pos: nat, end: nat): Option<Bytes>
    requires pos + 2 <= end <= |hello|
  {
    var listEnd := pos + 2 + U16(hello, pos);
    if listEnd > end then None else NameFrom(hello, pos + 2, listEnd)
  }

  ghost function ExtensionFrom(hello: Bytes, pos: nat, end: nat): Option<Bytes>
    requires pos <= end <= |hello|
    decreases end - pos
  {
    if end - pos < 4 then None
    else
      var kind, len, body := U16(hello, pos), U16(hello, pos + 2), pos + 4;
      if body + len > end then None
      else if kind == TLS_EXTENSION_SNI && len >= TLS_SNI_LIST_LENGTH_SIZE then
        ListFrom(hello, body, body + len)
      else ExtensionFrom(hello, body + len, end)
  }

  // A slice read at a position.
  lemma Numbers(hello: Bytes, pos: nat, end: nat, at: nat)
    requires pos + at + 2 <= end <= |hello|
    ensures U16(hello[pos..end], at) == U16(hello, pos + at)
  {
  }

  lemma {:induction false} NameFromIsNameIn(hello: Bytes, pos: nat, end: nat)
    requires pos <= end <= |hello|
    ensures NameFrom(hello, pos, end) == NameIn(hello[pos..end])
    decreases end - pos
  {
    if end - pos >= 3 {
      Numbers(hello, pos, end, 1);
      var nameLen := U16(hello, pos + 1);
      if pos + 3 + nameLen <= end {
        Slice(hello, pos, end, 3, 3 + nameLen);
        SliceRest(hello, pos, end, 3 + nameLen);
        NameFromIsNameIn(hello, pos + 3 + nameLen, end);
      }
    }
  }

  lemma ListFromIsListName(hello: Bytes, pos: nat, end: nat)
    requires pos + 2 <= end <= |hello|
    ensures ListFrom(hello, pos, end) == ListName(hello[pos..end])
  {
    Numbers(hello, pos, end, 0);
    var listLen := U16(hello, pos);
    if pos + 2 + listLen <= end {
      Slice(hello, pos, end, 2, 2 + listLen);
      NameFromIsNameIn(hello, pos + 2, pos + 2 + listLen);
    }
  }

  lemma {:induction false} ExtensionFromIsExtensionName(hello: Bytes, pos: nat, end: nat)
    requires pos <= end <= |hello|
    ensures ExtensionFrom(hello, pos, end) == ExtensionName(hello[pos..end])
    decreases end - pos
  {
    if end - pos >= 4 {
      Numbers(hello, pos, end, 0);
      Numbers(hello, pos, end, 2);
      var len, body := U16(hello, pos + 2), pos + 4;
      if body + len <= end {
        Slice(hello, pos, end, 4, 4 + len);
        SliceRest(hello, pos, end, 4 + len);
        if U16(hello, pos) == TLS_EXTENSION_SNI && len >= TLS_SNI_LIST_LENGTH_SIZE {
          ListFromIsListName(hello, body, body + len);
        } else {
          ExtensionFromIsExtensionName(hello, body + len, end);
        }
      }
    }
  }

  // The extension loop of extract_sni_from_client_hello.
  method WalkExtensions(hello: Bytes, start: nat, extensionsEnd: nat) returns (name: Option<Bytes>)
    requires start <= extensionsEnd <= |hello|
    ensures name == ExtensionName(hello[start..extensionsEnd])
  {
    var pos := start;
    ExtensionFromIsExtensionName(hello, start, extensionsEnd);
    while pos + 4 <= extensionsEnd
      invariant start <= pos <= extensionsEnd
      invariant ExtensionFrom(hello, pos, extensionsEnd) == ExtensionFrom(hello, start, extensionsEnd)
    {
      var kind, len := U16(hello, pos), U16(hello, pos + 2);
      pos := pos + 4;
      var extensionEnd := pos + len;
      if extensionEnd > extensionsEnd {
        return None;
      }
      if kind == TLS_EXTENSION_SNI && len >= TLS_SNI_LIST_LENGTH_SIZE {
        name := WalkList(hello, pos, extensionEnd);
        return;
      }
      pos := extensionEnd;
    }
    return None;
  }

  // The inside of a server_name extension.
  method WalkList(hello: Bytes, pos: nat, extensionEnd: nat) returns (name: Option<Bytes>)
    requires pos + TLS_SNI_LIST_LENGTH_SIZE <= extensionEnd <= |hello|
    ensures name == ListFrom(hello, pos, extensionEnd)
  {
    var listLen := U16(hello, pos);
    var listEnd := pos + 2 + listLen;
    if listEnd > extensionEnd {
      return None;
    }
    name := WalkNames(hello, pos + 2, listEnd);
    NameFromIsNameIn(hello, pos + 2, listEnd);
  }

  // The server_name_list loop of extract_sni_from_client_hello.
  method WalkNames(hello: Bytes, start: nat, listEnd: nat) returns (name: Option<Bytes>)
    requires start <= listEnd <= |hello|
    ensures name == NameIn(hello[start..listEnd])
  {
    var namePos := start;
    NameFromIsNameIn(hello, start, listEnd);
    while namePos + 3 <= listEnd
      invariant start <= namePos <= listEnd
      invariant NameFrom(hello, namePos, listEnd) == NameFrom(hello, start, listEnd)
    {
      var nameType, nameLen := hello[namePos], U16(hello, namePos + 1);
      namePos := namePos + 3;
      if namePos + nameLen > listEnd {
        return None;
      }
      if nameType == 0 && nameLen > 0 {
        return Some(hello[namePos..namePos + nameLen]);
      }
      namePos := namePos + nameLen;
    }
    return None;
  }

  // --- Laws of the record layer -------------------------------------------

  // A complete message starts with the type and length it was cut by.
  lemma {:induction false} MessageHasHeader(data: Bytes, handshake: Bytes)
    requires Scan(data, handshake).Complete?
    ensures IsMessage(Scan(data, handshake).message)
    decreases |data|
  {
    var recordEnd := TLS_RECORD_HEADER_SIZE + U16(data, 3);
    var gathered := handshake + data[TLS_RECORD_HEADER_SIZE..recordEnd];
    if Judge(gathered) == NeedMore {
      MessageHasHeader(data[recordEnd..], gathered);
    }
  }

  // A ClientHello handshake message within the size the proxy accepts.
  ghost predicate IsMessage(m: Bytes) {
    && TLS_HANDSHAKE_HEADER_SIZE <= |m| <= MAX_CLIENT_HELLO_SIZE
    && m[0] == TLS_CLIENT_HELLO
    && |m| == TLS_HANDSHAKE_HEADER_SIZE + U24(m, 1)
  }

  // A verdict, once reached, survives any bytes appended to the buffer.
  lemma {:induction false} VerdictIsFinal(data: Bytes, more: Bytes, handshake: Bytes)
    requires Scan(data, handshake) != NeedMore
    ensures Scan(data + more, handshake) == Scan(data, handshake)
    decreases |data|
  {
    var all := data + more;
    assert all[0] == data[0] && U16(all, 3) == U16(data, 3);
    var recordLen := U16(data, 3);
    if data[0] == TLS_HANDSHAKE && 0 < recordLen <= TLS_MAX_RECORD_SIZE {
      var recordEnd := TLS_RECORD_HEADER_SIZE + recordLen;
      assert all[TLS_RECORD_HEADER_SIZE..recordEnd] == data[TLS_RECORD_HEADER_SIZE..recordEnd];
      assert all[recordEnd..] == data[recordEnd..] + more;
      var gathered := handshake + data[TLS_RECORD_HEADER_SIZE..recordEnd];
      if Judge(gathered) == NeedMore {
        VerdictIsFinal(data[recordEnd..], more, gathered);
      }
    }
  }
}

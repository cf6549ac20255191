/**
 * The ONC RPC version 2 envelope as the NFS client of lib/nfs/rpc.c writes
 * and reads it: XDR 4-byte units in network byte order (sections 3 and 4.11
 * of RFC 4506), the call header with its fixed AUTH_UNIX credential and null
 * verifier (section 9, section 10.1 and Appendix A of RFC 5531), and the
 * parsing of the fixed part of a reply.
 */
module RpcWire {

  /** An octet */
  type Byte = x: int | 0 <= x < 0x100
  /** An XDR unsigned integer */
  type Word = x: int | 0 <= x < 0x1_0000_0000

  datatype Option<T> = None | Some(value: T)

  const BytesPerXdrUnit: nat := 4

  // enum rpc_msg_type
  const MsgCall: Word := 0
  const MsgReply: Word := 1

  // enum rpc_auth_flavor
  const AuthNull: Word := 0
  const AuthUnix: Word := 1

  /** reply_stat MSG_ACCEPTED of section 9 of RFC 5531 */
  const MsgAccepted: Word := 0

  /** The accept status handed to the callback for a reply that was not accepted */
  const NoAcceptStat: Word := 0xFFFF_FFFF

  const RpcVersion: Word := 2

  /** The hard-coded machine name "barrelfish" of the AUTH_UNIX credential */
  const MachineName: seq<Byte> := [0x62, 0x61, 0x72, 0x72, 0x65, 0x6c, 0x66, 0x69, 0x73, 0x68]
  const MachineNameLen: nat := 10
  const AuthUid: Word := 0
  const AuthGid: Word := 0

  /** XDR's RNDUP: the next multiple of the 4-byte unit */
  function RndUp(n: nat): (r: nat)
    ensures r % BytesPerXdrUnit == 0 && n <= r < n + BytesPerXdrUnit
  {
    (n + BytesPerXdrUnit - 1) / BytesPerXdrUnit * BytesPerXdrUnit
  }

  /** Byte length of the credential body: the padded name and five words */
  const AuthSize: nat := RndUp(MachineNameLen) + BytesPerXdrUnit * 5

  /** Bytes of the whole call header */
  const CallHeaderLen: nat := 10 * BytesPerXdrUnit + AuthSize

  function Zeros(n: nat): (z: seq<Byte>)
    ensures |z| == n && forall k :: 0 <= k < n ==> z[k] == 0
  {
    seq(n, _ => 0)
  }

  /** The big-endian value of four bytes (the ntohl of IXDR_GET_UINT32) */
  function Be32(b: seq<Byte>): Word
    requires |b| == 4
  {
    (b[0] as int) * 0x100_0000 + (b[1] as int) * 0x1_0000 + (b[2] as int) * 0x100 + b[3] as int
  }

  /** The big-endian 32-bit word starting at byte `off` */
  function WordAt(s: seq<Byte>, off: nat): Word
    requires off + 4 <= |s|
  {
    Be32(s[off..off + 4])
  }

  /** The four bytes of `w` in network byte order (IXDR_PUT_UINT32) */
  function WordBytes(w: Word): (b: seq<Byte>)
    ensures |b| == 4 && Be32(b) == w && WordAt(b, 0) == w
  {
    var q1 := w / 0x100;
    var q2 := q1 / 0x100;
    var q3 := q2 / 0x100;
    assert w == q1 * 0x100 + w % 0x100;
    assert q1 == q2 * 0x100 + q1 % 0x100;
    assert q2 == q3 * 0x100 + q2 % 0x100;
    var b := [q3, q2 % 0x100, q1 % 0x100, w % 0x100];
    assert b[0..4] == b;
    b
  }

  lemma BytesRoundTrip(b: seq<Byte>)
    requires |b| == 4
    ensures WordBytes(Be32(b)) == b
  {
    var w := Be32(b);
    assert w / 0x100 == (b[0] as int) * 0x1_0000 + (b[1] as int) * 0x100 + b[2] as int;
    assert w / 0x100 / 0x100 == (b[0] as int) * 0x100 + b[1] as int;
    assert w / 0x100 / 0x100 / 0x100 == b[0];
  }

  /** Reading a word only looks at its own four bytes */
  lemma WordAtPrefix(a: seq<Byte>, b: seq<Byte>, off: nat)
    requires off + 4 <= |a|
    ensures WordAt(a + b, off) == WordAt(a, off)
  {
    assert (a + b)[off..off + 4] == a[off..off + 4];
  }

  lemma WordAtSuffix(a: seq<Byte>, b: seq<Byte>, off: nat)
    requires off + 4 <= |b|
    ensures WordAt(a + b, |a| + off) == WordAt(b, off)
  {
    assert (a + b)[|a| + off..|a| + off + 4] == b[off..off + 4];
  }

  /** A sequence of XDR unsigned integers, back to back */
  function Words(ws: seq<Word>): (b: seq<Byte>)
    ensures |b| == 4 * |ws|
  {
    if ws == [] then [] else WordBytes(ws[0]) + Words(ws[1..])
  }

  lemma {:induction false} WordsSlice(ws: seq<Word>, k: nat)
    requires k < |ws|
    ensures Words(ws)[4 * k..4 * k + 4] == WordBytes(ws[k])
  {
    var rest := Words(ws[1..]);
    if k > 0 {
      WordsSlice(ws[1..], k - 1);
      assert (WordBytes(ws[0]) + rest)[4 * k..4 * k + 4] == rest[4 * (k - 1)..4 * (k - 1) + 4];
    }
  }

  lemma WordsAt(ws: seq<Word>, k: nat)
    requires k < |ws|
    ensures WordAt(Words(ws), 4 * k) == ws[k]
  {
    WordsSlice(ws, k);
  }

  lemma {:induction false} WordsAppend(a: seq<Word>, b: seq<Word>)
    ensures Words(a + b) == Words(a) + Words(b)
  {
    if a == [] {
      assert a + b == b;
    } else {
      assert (a + b)[1..] == a[1..] + b;
      WordsAppend(a[1..], b);
    }
  }

  /** An XDR string: its length, its bytes, zero padding to the 4-byte unit (xdr_string) */
  function XdrString(s: seq<Byte>): (b: seq<Byte>)
    requires |s| < 0x1_0000_0000
    ensures |b| == BytesPerXdrUnit + RndUp(|s|)
    ensures WordAt(b, 0) == |s|
    ensures b[4..4 + |s|] == s
    ensures forall k :: 4 + |s| <= k < |b| ==> b[k] == 0
  {
    var b := WordBytes(|s|) + s + Zeros(RndUp(|s|) - |s|);
    assert b[0..4] == WordBytes(|s|);
    assert b[4..4 + |s|] == s;
    b
  }

  /** The credential body of AUTH_UNIX: stamp, machine name, uid, gid, no gids */
  function CredBody(): seq<Byte>
  {
    Words([0]) + XdrString(MachineName) + Words([AuthUid, AuthGid, 0])
  }

  lemma CredBodyLength()
    ensures |CredBody()| == AuthSize == 32
  {
    assert |MachineName| == MachineNameLen && RndUp(MachineNameLen) == 12;
  }

  /**
   * The 72-byte call header written by rpc_call_init into a fresh buffer:
   * nine words, the machine-name string and five more words.
   */
  function CallHeader(xid: Word, prog: Word, vers: Word, proc: Word): (h: seq<Byte>)
    ensures |h| == CallHeaderLen == 72
    ensures h[32..64] == CredBody() && |CredBody()| == AuthSize
  {
    CredBodyLength();
    var h := Words([xid, MsgCall, RpcVersion, prog, vers, proc, AuthUnix, AuthSize])
      + CredBody() + Words([AuthNull, 0]);
    assert h[32..64] == CredBody();
    h
  }

  /**
   * rpc_call_init writing into a buffer of `capacity` bytes: it fails with
   * LWIP_ERR_BUF when the header does not fit.
   */
  function CallInit(capacity: nat, xid: Word, prog: Word, vers: Word, proc: Word): (r: Option<seq<Byte>>)
    ensures r.Some? <==> capacity >= CallHeaderLen
    ensures r.Some? ==> r.value == CallHeader(xid, prog, vers, proc)
  {
    if capacity < 9 * BytesPerXdrUnit then None
    else if capacity < 9 * BytesPerXdrUnit + BytesPerXdrUnit + RndUp(MachineNameLen) then None
    else if capacity < CallHeaderLen then None
    else Some(CallHeader(xid, prog, vers, proc))
  }

  /** The header as eighteen words; the name's three words are "barr", "elfi", "sh" and two zero bytes */
  function HeaderWords(xid: Word, prog: Word, vers: Word, proc: Word): seq<Word>
  {
    [xid, MsgCall, RpcVersion, prog, vers, proc, AuthUnix, AuthSize, 0,
     MachineNameLen, 0x6261_7272, 0x656c_6669, 0x7368_0000,
     AuthUid, AuthGid, 0, AuthNull, 0]
  }

  lemma MachineNameWords()
    ensures XdrString(MachineName) == Words([MachineNameLen, 0x6261_7272, 0x656c_6669, 0x7368_0000])
  {
    NameStringBytes();
    NameWordBytes();
  }

  /** The encoded machine name, byte by byte: its length word, the ten letters and two zero bytes */
  lemma NameStringBytes()
    ensures XdrString(MachineName) == [0, 0, 0, 10] + MachineName + [0, 0]
  {
    assert WordBytes(MachineNameLen) == [0, 0, 0, 10];
    assert Zeros(2) == [0, 0];
  }

  /** The four words of the encoded machine name, byte by byte */
  lemma NameWordBytes()
    ensures Words([MachineNameLen, 0x6261_7272, 0x656c_6669, 0x7368_0000]) == [0, 0, 0, 10] + MachineName + [0, 0]
  {
    assert WordBytes(MachineNameLen) == [0, 0, 0, 10];
    assert WordBytes(0x6261_7272) == [0x62, 0x61, 0x72, 0x72];
    assert WordBytes(0x656c_6669) == [0x65, 0x6c, 0x66, 0x69];
    assert WordBytes(0x7368_0000) == [0x73, 0x68, 0, 0];
    assert Words([0x7368_0000]) == [0x73, 0x68, 0, 0];
    assert Words([0x656c_6669, 0x7368_0000]) == [0x65, 0x6c, 0x66, 0x69] + Words([0x7368_0000]);
    assert Words([0x6261_7272, 0x656c_6669, 0x7368_0000]) == [0x62, 0x61, 0x72, 0x72] + Words([0x656c_6669, 0x7368_0000]);
    assert Words([MachineNameLen, 0x6261_7272, 0x656c_6669, 0x7368_0000]) == [0, 0, 0, 10] + Words([0x6261_7272, 0x656c_6669, 0x7368_0000]);
  }

  /** The credential body as eight words */
  function CredWords(): seq<Word>
  {
    [0, MachineNameLen, 0x6261_7272, 0x656c_6669, 0x7368_0000, AuthUid, AuthGid, 0]
  }

  lemma CredBodyWords()
    ensures CredBody() == Words(CredWords())
  {
    var name: seq<Word> := [MachineNameLen, 0x6261_7272, 0x656c_6669, 0x7368_0000];
    MachineNameWords();
    WordsAppend([0], name);
    WordsAppend([0] + name, [AuthUid, AuthGid, 0]);
    assert [0] + name + [AuthUid, AuthGid, 0] == CredWords();
  }

  lemma WordsAtAll(ws: seq<Word>)
    ensures forall k :: 0 <= k < |ws| ==> WordAt(Words(ws), 4 * k) == ws[k]
  {
    forall k | 0 <= k < |ws|
      ensures WordAt(Words(ws), 4 * k) == ws[k]
    {
      WordsAt(ws, k);
    }
  }

  lemma CallHeaderWords(xid: Word, prog: Word, vers: Word, proc: Word)
    ensures CallHeader(xid, prog, vers, proc) == Words(HeaderWords(xid, prog, vers, proc))
  {
    HeaderWordsSplit(xid, prog, vers, proc);
    CredBodyWords();
  }

  lemma HeaderWordsSplit(xid: Word, prog: Word, vers: Word, proc: Word)
    ensures Words(HeaderWords(xid, prog, vers, proc))
      == Words([xid, MsgCall, RpcVersion, prog, vers, proc, AuthUnix, AuthSize]) + Words(CredWords()) + Words([AuthNull, 0])
  {
    var first: seq<Word> := [xid, MsgCall, RpcVersion, prog, vers, proc, AuthUnix, AuthSize];
    assert first + CredWords() + [AuthNull, 0] == HeaderWords(xid, prog, vers, proc);
    Words3(first, CredWords(), [AuthNull, 0]);
  }

  lemma Words3(a: seq<Word>, b: seq<Word>, c: seq<Word>)
    ensures Words(a + b + c) == Words(a) + Words(b) + Words(c)
  {
    WordsAppend(a, b);
    WordsAppend(a + b, c);
  }

  /** The call header is exactly the eighteen words of HeaderWords */
  lemma CallHeaderLayout(xid: Word, prog: Word, vers: Word, proc: Word)
    ensures forall k :: 0 <= k < 18 ==>
      WordAt(CallHeader(xid, prog, vers, proc), 4 * k) == HeaderWords(xid, prog, vers, proc)[k]
  {
    CallHeaderWords(xid, prog, vers, proc);
    WordsAtAll(HeaderWords(xid, prog, vers, proc));
  }

  /* ---------------- An independent decoder of call messages ---------------- */

  datatype CallMsg = CallMsg(xid: Word, prog: Word, vers: Word, proc: Word,
                             credFlavor: Word, cred: seq<Byte>,
                             verfFlavor: Word, verf: seq<Byte>, args: seq<Byte>)

  /** An opaque_auth at `off`: flavor, length, body padded to the unit; yields the body and the next offset */
  function DecodeAuth(m: seq<Byte>, off: nat): Option<(Word, seq<Byte>, nat)>
  {
    if off + 8 > |m| then None
    else
      var len := WordAt(m, off + 4);
      if off + 8 + RndUp(len) > |m| then None
      else Some((WordAt(m, off), m[off + 8..off + 8 + len], off + 8 + RndUp(len)))
  }

  /** Reads a CALL message as section 9 of RFC 5531 lays it out */
  function DecodeCall(m: seq<Byte>): Option<CallMsg>
  {
    if |m| < 24 || WordAt(m, 4) != MsgCall || WordAt(m, 8) != RpcVersion then None
    else match DecodeAuth(m, 24)
      case None => None
      case Some((cf, cred, off)) =>
        match DecodeAuth(m, off)
        case None => None
        case Some((vf, verf, off2)) =>
          Some(CallMsg(WordAt(m, 0), WordAt(m, 12), WordAt(m, 16), WordAt(m, 20), cf, cred, vf, verf, m[off2..]))
  }

  /**
   * What rpc_call_init writes is a well-formed CALL: the credential length
   * word AuthSize spans exactly the credential body, the verifier is null,
   * and the argument bytes follow the 72-byte header.
   */
  lemma CallHeaderDecodes(xid: Word, prog: Word, vers: Word, proc: Word, args: seq<Byte>)
    ensures DecodeCall(CallHeader(xid, prog, vers, proc) + args)
         == Some(CallMsg(xid, prog, vers, proc, AuthUnix, CredBody(), AuthNull, [], args))
  {
    CallHeaderLayout(xid, prog, vers, proc);
    DecodeHeader(CallHeader(xid, prog, vers, proc), HeaderWords(xid, prog, vers, proc), args);
  }

  /** Any 72-byte header laid out as ws, with a 32-byte credential and a null verifier, decodes as that CALL */
  lemma DecodeHeader(h: seq<Byte>, ws: seq<Word>, args: seq<Byte>)
    requires |h| == 72 && |ws| == 18
    requires forall k :: 0 <= k < 18 ==> WordAt(h, 4 * k) == ws[k]
    requires ws[1] == MsgCall && ws[2] == RpcVersion && ws[7] == 32 && ws[17] == 0
    ensures DecodeCall(h + args) == Some(CallMsg(ws[0], ws[3], ws[4], ws[5], ws[6], h[32..64], ws[16], [], args))
  {
    var m := h + args;
    HeaderFields(h, ws, args);
    assert DecodeAuth(m, 24) == Some((ws[6], m[32..64], 64));
    assert m[32..64] == h[32..64];
    assert DecodeAuth(m, 64) == Some((ws[16], m[72..72], 72));
    assert m[72..72] == [];
    assert m[72..] == args;
  }

  /** The words the decoder reads from any 72-byte header laid out as ws, with bytes appended */
  lemma HeaderFields(h: seq<Byte>, ws: seq<Word>, args: seq<Byte>)
    requires |h| == 72 && |ws| == 18
    requires forall k :: 0 <= k < 18 ==> WordAt(h, 4 * k) == ws[k]
    ensures var m := h + args;
      && WordAt(m, 0) == ws[0] && WordAt(m, 4) == ws[1] && WordAt(m, 8) == ws[2]
      && WordAt(m, 12) == ws[3] && WordAt(m, 16) == ws[4] && WordAt(m, 20) == ws[5]
      && WordAt(m, 24) == ws[6] && WordAt(m, 28) == ws[7]
      && WordAt(m, 64) == ws[16] && WordAt(m, 68) == ws[17]
  {
    assert WordAt(h, 4 * 0) == ws[0] && WordAt(h, 4 * 1) == ws[1] && WordAt(h, 4 * 2) == ws[2];
    assert WordAt(h, 4 * 3) == ws[3] && WordAt(h, 4 * 4) == ws[4] && WordAt(h, 4 * 5) == ws[5];
    assert WordAt(h, 4 * 6) == ws[6] && WordAt(h, 4 * 7) == ws[7];
    assert WordAt(h, 4 * 16) == ws[16] && WordAt(h, 4 * 17) == ws[17];
    WordAtPrefix(h, args, 0);
    WordAtPrefix(h, args, 4);
    WordAtPrefix(h, args, 8);
    WordAtPrefix(h, args, 12);
    WordAtPrefix(h, args, 16);
    WordAtPrefix(h, args, 20);
    WordAtPrefix(h, args, 24);
    WordAtPrefix(h, args, 28);
    WordAtPrefix(h, args, 64);
    WordAtPrefix(h, args, 68);
  }

  /** The AUTH_UNIX (AUTH_SYS) credential of RFC 5531: stamp, machine name, uid, gid and gids */
  datatype UnixCred = UnixCred(stamp: Word, machine: seq<Byte>, uid: Word, gid: Word, gids: seq<Word>)

  /** n consecutive words from offset off */
  function ReadWords(c: seq<Byte>, off: nat, n: nat): (ws: seq<Word>)
    requires off + 4 * n <= |c|
    ensures |ws| == n && forall k :: 0 <= k < n ==> ws[k] == WordAt(c, off + 4 * k)
    decreases n
  {
    if n == 0 then [] else [WordAt(c, off)] + ReadWords(c, off + 4, n - 1)
  }

  /**
   * Reads a credential body as an AUTH_UNIX credential: a name of at most
   * 255 bytes padded to the unit, at most 16 gids, and nothing left over.
   */
  function DecodeUnixCred(c: seq<Byte>): Option<UnixCred>
  {
    if |c| < 8 || WordAt(c, 4) > 255 then None
    else
      var len := WordAt(c, 4);
      var off := 8 + RndUp(len);
      if off + 12 > |c| then None
      else
        var n := WordAt(c, off + 8);
        if n > 16 || off + 12 + 4 * n != |c| then None
        else Some(UnixCred(WordAt(c, 0), c[8..8 + len], WordAt(c, off), WordAt(c, off + 4), ReadWords(c, off + 12, n)))
  }

  /**
   * The credential rpc_call_init writes decodes as stamp 0, machine
   * "barrelfish", uid AUTH_UID, gid AUTH_GID and no further gids.
   */
  lemma CredBodyDecodes()
    ensures DecodeUnixCred(CredBody()) == Some(UnixCred(0, MachineName, AuthUid, AuthGid, []))
  {
    CredBodyWords();
    CredBodyName();
    DecodeCredWords(CredBody(), CredWords());
  }

  /** The name's bytes sit after the stamp and the length word */
  lemma CredBodyName()
    ensures |CredBody()| >= 18 && CredBody()[8..18] == MachineName
  {
    var a := Words([0]);
    var x := XdrString(MachineName);
    assert |a| == 4 && |MachineName| == 10;
    assert CredBody()[8..18] == x[4..14];
  }

  /** Any credential written as eight words, naming a ten-byte machine and no gids, decodes field by field */
  lemma DecodeCredWords(c: seq<Byte>, ws: seq<Word>)
    requires c == Words(ws) && |ws| == 8
    requires ws[1] == 10 && ws[7] == 0
    ensures DecodeUnixCred(c) == Some(UnixCred(ws[0], c[8..18], ws[5], ws[6], []))
  {
    WordsAtAll(ws);
    assert WordAt(c, 4 * 0) == ws[0] && WordAt(c, 4 * 1) == ws[1];
    assert WordAt(c, 4 * 5) == ws[5] && WordAt(c, 4 * 6) == ws[6] && WordAt(c, 4 * 7) == ws[7];
    assert RndUp(10) == 12;
  }

  /** The credential of a call rpc_call_init writes reads back as that AUTH_UNIX credential */
  lemma CallCredentialDecodes(xid: Word, prog: Word, vers: Word, proc: Word, args: seq<Byte>)
    ensures var m := DecodeCall(CallHeader(xid, prog, vers, proc) + args);
      m.Some? && DecodeUnixCred(m.value.cred) == Some(UnixCred(0, MachineName, AuthUid, AuthGid, []))
  {
    CallHeaderDecodes(xid, prog, vers, proc, args);
    CredBodyDecodes();
  }

  /* ---------------- Replies ---------------- */

  /**
   * xdr_skip_auth on the reply at offset `off`: reserves the flavor and
   * length words, then `length` bytes when the length is not zero.  Yields the
   * offset after the auth data, or None for LWIP_ERR_BUF.
   */
  function SkipAuth(d: seq<Byte>, off: nat): (r: Option<nat>)
    ensures r.Some? <==> off + 8 <= |d| && off + 8 + WordAt(d, off + 4) <= |d|
    ensures r.Some? ==> r.value == off + 8 + WordAt(d, off + 4)
  {
    if off + 8 > |d| then None
    else
      var authSize := WordAt(d, off + 4);
      if authSize > 0 && off + 8 + authSize > |d| then None
      else Some(off + 8 + authSize)
  }

  /** The status fields of a reply to a known call and the offset where its results start */
  datatype Status = Status(replystat: Word, acceptstat: Word, cursor: nat)

  /**
   * The status parsing of rpc_recv_handler, after the three-word envelope has
   * been reserved: an accepted reply has its auth skipped and its accept status
   * read; any other reply status gets the accept status 0xFFFFFFFF.  None is
   * a reply that is dropped for malformed auth data or a missing accept status.
   */
  function ParseStatus(d: seq<Byte>): (r: Option<Status>)
    requires |d| >= 12
    ensures r.Some? ==> r.value.replystat == WordAt(d, 8) && r.value.cursor <= |d|
    ensures WordAt(d, 8) != MsgAccepted ==> r == Some(Status(WordAt(d, 8), NoAcceptStat, 12))
    ensures WordAt(d, 8) == MsgAccepted ==>
      (r.Some? <==> SkipAuth(d, 12).Some? && SkipAuth(d, 12).value + 4 <= |d|)
    ensures r.Some? && WordAt(d, 8) == MsgAccepted ==>
      r.value.acceptstat == WordAt(d, SkipAuth(d, 12).value) && r.value.cursor == SkipAuth(d, 12).value + 4
  {
    var replystat := WordAt(d, 8);
    if replystat == MsgAccepted then
      match SkipAuth(d, 12)
      case None => None
      case Some(off) =>
        if off + 4 > |d| then None
        else Some(Status(replystat, WordAt(d, off), off + 4))
    else Some(Status(replystat, NoAcceptStat, 12))
  }

  /** An accepted reply as a server sends it (section 9 of RFC 5531), with its verifier padded */
  function AcceptedReply(xid: Word, verfFlavor: Word, verf: seq<Byte>, acceptstat: Word, results: seq<Byte>): seq<Byte>
    requires |verf| < 0x1_0000_0000
  {
    Words([xid, MsgReply, MsgAccepted, verfFlavor, |verf|]) + verf + Zeros(RndUp(|verf|) - |verf|)
      + WordBytes(acceptstat) + results
  }

  /** A reply whose status word is not MSG_ACCEPTED, followed by whatever the server put after it */
  function OtherReply(xid: Word, replystat: Word, rest: seq<Byte>): seq<Byte>
  {
    Words([xid, MsgReply, replystat]) + rest
  }

  /**
   * Parsing an accepted reply recovers its accept status and positions the
   * cursor on the results.  The verifier length is a multiple of the unit,
   * because the handler skips exactly the declared auth length (no padding).
   */
  lemma AcceptedReplyParses(xid: Word, verfFlavor: Word, verf: seq<Byte>, acceptstat: Word, results: seq<Byte>)
    requires |verf| < 0x1_0000_0000 && |verf| % BytesPerXdrUnit == 0
    ensures var d := AcceptedReply(xid, verfFlavor, verf, acceptstat, results);
      |d| >= 12 && WordAt(d, 0) == xid && WordAt(d, 4) == MsgReply
      && ParseStatus(d) == Some(Status(MsgAccepted, acceptstat, 24 + |verf|))
      && d[24 + |verf|..] == results
  {
    var ws: seq<Word> := [xid, MsgReply, MsgAccepted, verfFlavor, |verf|];
    var d := AcceptedReply(xid, verfFlavor, verf, acceptstat, results);
    var head := Words(ws);
    var tail := WordBytes(acceptstat) + results;
    assert RndUp(|verf|) == |verf|;
    assert d == (head + verf) + tail;
    assert d == head + (verf + tail);
    WordsAt(ws, 0);
    WordsAt(ws, 1);
    WordsAt(ws, 2);
    WordsAt(ws, 4);
    WordAtPrefix(head, verf + tail, 0);
    WordAtPrefix(head, verf + tail, 4);
    WordAtPrefix(head, verf + tail, 8);
    WordAtPrefix(head, verf + tail, 16);
    WordAtPrefix(WordBytes(acceptstat), results, 0);
    WordAtSuffix(head + verf, tail, 0);
    assert SkipAuth(d, 12) == Some(20 + |verf|);
    assert WordAt(d, 20 + |verf|) == acceptstat;
    assert d[24 + |verf|..] == results;
  }

  /** Parsing a reply that was not accepted yields its status and the sentinel accept status */
  lemma OtherReplyParses(xid: Word, replystat: Word, rest: seq<Byte>)
    requires replystat != MsgAccepted
    ensures var d := OtherReply(xid, replystat, rest);
      |d| >= 12 && WordAt(d, 0) == xid && WordAt(d, 4) == MsgReply
      && ParseStatus(d) == Some(Status(replystat, NoAcceptStat, 12)) && d[12..] == rest
  {
    var ws: seq<Word> := [xid, MsgReply, replystat];
    var d := OtherReply(xid, replystat, rest);
    WordsAt(ws, 0);
    WordsAt(ws, 1);
    WordsAt(ws, 2);
    WordAtPrefix(Words(ws), rest, 0);
    WordAtPrefix(Words(ws), rest, 4);
    WordAtPrefix(Words(ws), rest, 8);
    assert d[12..] == rest;
  }
}

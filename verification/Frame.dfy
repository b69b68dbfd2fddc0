/** Frames on the UART: layout, checksum, building and checking. */
module Frame {
  import opened Bytes

  // head, length_msb, length_lsb, sta_param, sn, pdt_type, cmd_id, data[129]
  const SIZE := 136
  const SENT: byte := 0xD0
  const RECEIVED: byte := 0xC0

  /** A big-endian pair of bytes. */
  function Word(msb: byte, lsb: byte): (n: nat)
    ensures n <= 0xFFFF
  {
    var high: int := msb;
    256 * high + lsb
  }

  /** The length field: how many bytes follow it, the checksum not counted. */
  function Length(f: seq<byte>): (n: nat)
    requires |f| >= 3
    ensures n <= 0xFFFF
  {
    Word(f[1], f[2])
  }

  function Sum(s: seq<byte>): (n: nat)
    ensures n <= 255 * |s|
  {
    if s == [] then 0 else Sum(s[..|s| - 1]) + s[|s| - 1]
  }

  function Low(n: nat): byte { n % 256 }

  /** check_sum_cal */
  method CheckSumCal(p: array<byte>, start: nat, len: nat) returns (checkSum: byte)
    requires start + len <= p.Length && len <= 0xFFFF
    ensures checkSum == Low(Sum(p[start..start + len]))
  {
    var tmp: nat := 0;
    for i := 0 to len
      invariant tmp == Sum(p[start..start + i])
    {
      assert p[start..start + i + 1][..i] == p[start..start + i];
      tmp := tmp + p[start + i];
    }
    checkSum := tmp % 256;
  }

  /** A frame that is complete: the length field, and as many bytes as it says, and a checksum. */
  predicate Complete(f: seq<byte>) { |f| >= 4 && |f| == Length(f) + 4 }

  /** The last byte is the sum of the bytes between the length field and it. */
  predicate Accepted(f: seq<byte>)
    requires Complete(f)
  {
    Length(f) >= 4 && f[|f| - 1] == Low(Sum(f[3..|f| - 1]))
  }

  /** procotol_check on a buffer that holds the frame f */
  method ProcotolCheck(p: array<byte>, ghost f: seq<byte>) returns (ok: bool)
    requires Complete(f) && |f| <= p.Length && p[..|f|] == f
    ensures ok == Accepted(f)
  {
    var dataLen := Word(p[1], p[2]);
    if dataLen < 4 { return false; }
    var checkValue := CheckSumCal(p, 3, dataLen);
    assert p[3..3 + dataLen] == f[3..|f| - 1];
    return p[7 + dataLen - 4] == checkValue;
  }

  // ----- building

  datatype Message = Message(sn: byte, pdtType: byte, cmdId: byte, payload: seq<byte>)

  /** The bytes that the checksum covers. */
  function Body(m: Message): seq<byte> { [0, m.sn, m.pdtType, m.cmdId] + m.payload }

  /** A message on the line, after the head byte. */
  function Tail(m: Message): seq<byte>
    requires |m.payload| <= 0xFFFB
  {
    var n := |m.payload| + 4;
    [n / 256, Low(n)] + Body(m) + [Low(Sum(Body(m)))]
  }

  /** Header and payload are in place. */
  predicate Laid(c: seq<byte>, m: Message) {
    |m.payload| <= 128 && |c| == SIZE && c[0] == SENT && c[3] == 0 && c[4] == m.sn && c[5] == m.pdtType &&
    c[6] == m.cmdId &&
    Word(c[1], c[2]) == |m.payload| + 4 && c[7..7 + |m.payload|] == m.payload
  }

  lemma Sealed(c: seq<byte>, m: Message)
    requires Laid(c, m)
    ensures var n := |m.payload| + 7;
            c[3..n] == Body(m) && c[n := Low(Sum(c[3..n]))][..n + 1] == [SENT] + Tail(m)
  {
    hide Sum;
    var n := |m.payload| + 7;
    assert c[..n] == [SENT, c[1], c[2]] + Body(m);
  }

  /** The frame building of uart_protocol_dispose. */
  method BuildCommand(cmd: array<byte>, m: Message, data: array<byte>)
    requires cmd.Length == SIZE && cmd != data && |m.payload| <= data.Length == 128 && m.payload == data[..|m.payload|]
    modifies cmd
    ensures cmd[..|m.payload| + 8] == [SENT] + Tail(m)
  {
    hide Tail, Body, Sum;
    var len := |m.payload|;
    var n := len + 4;
    cmd[0] := SENT;
    cmd[1], cmd[2] := n / 256, n % 256;
    cmd[3], cmd[4], cmd[5], cmd[6] := 0, m.sn, m.pdtType, m.cmdId;
    if len > 0 {
      forall i | 0 <= i < len { cmd[7 + i] := data[i]; }
    }
    assert cmd[..][7..7 + len] == m.payload && Word(cmd[1], cmd[2]) == n;
    Seal(cmd, m);
  }

  /** The length and checksum of a frame whose header and payload are in place. */
  method Seal(cmd: array<byte>, ghost m: Message)
    requires cmd.Length == SIZE && Laid(cmd[..], m)
    modifies cmd
    ensures cmd[..|m.payload| + 8] == [SENT] + Tail(m)
  {
    hide Tail, Body, Sum;
    var n := Word(cmd[1], cmd[2]);
    ghost var c := cmd[..];
    Sealed(c, m);
    assert cmd[3..3 + n] == c[3..n + 3];
    var sum := CheckSumCal(cmd, 3, n);
    cmd[n + 3] := sum;
    assert cmd[..] == c[n + 3 := sum];
    assert cmd[..n + 4] == cmd[..][..n + 4];
  }

  /** The frame building of uart_protocol_parse around a callback that leaves `reply` in the data field. */
  method BuildResponse(cmd: array<byte>, request: array<byte>, ackword: byte, reply: seq<byte>)
    requires cmd.Length == SIZE && request.Length == SIZE && cmd != request && |reply| <= 128
    modifies cmd
    ensures cmd[..|reply| + 8] == [SENT] + Tail(Message(request[4], request[5], ackword, reply))
  {
    hide Tail, Body, Sum;
    cmd[0] := SENT;
    cmd[3], cmd[4], cmd[5], cmd[6] := 0, request[4], request[5], ackword;
    forall i | 0 <= i < |reply| { cmd[7 + i] := reply[i]; }
    var n := |reply| + 4;
    cmd[1], cmd[2] := n / 256, n % 256;
    assert cmd[..][7..7 + |reply|] == reply && Word(cmd[1], cmd[2]) == n;
    Seal(cmd, Message(request[4], request[5], ackword, reply));
  }

  /** The message a frame carries. */
  function Carried(f: seq<byte>): (m: Message)
    requires |f| >= 8
    ensures |m.payload| == |f| - 8
  {
    Message(f[4], f[5], f[6], f[7..|f| - 1])
  }

  /** A built frame, whatever its head, is complete and accepted, and every field can be read back. */
  lemma BuiltAccepted(head: byte, m: Message)
    requires |m.payload| <= 0xFFFB
    ensures var f := [head] + Tail(m);
            Complete(f) && Accepted(f) && Length(f) == |m.payload| + 4 && f[3] == 0 &&
            m == Carried(f)
  {
    hide Sum;
    var f := [head] + Tail(m);
    assert f[3..|f| - 1] == Body(m);
    assert f[7..|f| - 1] == m.payload;
  }

  lemma AcceptedIsBuilt(f: seq<byte>)
    requires Complete(f) && Accepted(f) && f[3] == 0
    ensures f == [f[0]] + Tail(Carried(f))
  {
    hide Sum;
    var m, n := Carried(f), |f| - 1;
    assert f[3..n] == Body(m);
    assert f == f[..3] + f[3..n] + f[n..];
    assert f[n..] == [f[n]];
    assert f[..3] == [f[0], f[1], f[2]];
  }

  /** The accepted frames with status 0 are exactly the built ones. */
  lemma AcceptedIffBuilt(f: seq<byte>)
    requires Complete(f)
    ensures Accepted(f) && f[3] == 0 <==>
            exists m: Message :: |m.payload| <= 0xFFFB && f == [f[0]] + Tail(m)
  {
    if Accepted(f) && f[3] == 0 { AcceptedIsBuilt(f); }
    if m: Message :| |m.payload| <= 0xFFFB && f == [f[0]] + Tail(m) {
      BuiltAccepted(f[0], m);
    }
  }

  /** The frames byte by byte, as they go out and as they come in. */
  lemma FrameSpelled(m: Message)
    requires |m.payload| <= 128
    ensures var n := |m.payload|;
            var tail := [0x00, 4 + n, 0x00, m.sn, m.pdtType, m.cmdId] + m.payload +
                        [(m.sn + m.pdtType + m.cmdId + Sum(m.payload)) % 256];
            [SENT] + Tail(m) == [0xD0] + tail && [RECEIVED] + Tail(m) == [0xC0] + tail
  {
    SumJoin([0, m.sn, m.pdtType, m.cmdId], m.payload);
    SumJoin([0, m.sn, m.pdtType], [m.cmdId]);
    SumJoin([0, m.sn], [m.pdtType]);
    SumJoin([0], [m.sn]);
    assert [0] + [m.sn] == [0, m.sn] && [0, m.sn] + [m.pdtType] == [0, m.sn, m.pdtType];
    assert [0, m.sn, m.pdtType] + [m.cmdId] == [0, m.sn, m.pdtType, m.cmdId];
    SumOne(0);
    SumOne(m.sn);
    SumOne(m.pdtType);
    SumOne(m.cmdId);
  }

  lemma SumOne(b: byte)
    ensures Sum([b]) == b
  {
    assert [b][..0] == [];
  }

  lemma {:induction false} SumJoin(a: seq<byte>, b: seq<byte>)
    ensures Sum(a + b) == Sum(a) + Sum(b)
  {
    if b == [] {
      assert a + b == a;
    } else {
      var n := |b| - 1;
      assert (a + b)[..|a + b| - 1] == a + b[..n];
      SumJoin(a, b[..n]);
    }
  }

  lemma {:induction false} SumUpdate(s: seq<byte>, i: nat, b: byte)
    requires i < |s|
    ensures Sum(s[i := b]) + s[i] == Sum(s) + b
  {
    var n := |s| - 1;
    if i < n {
      SumUpdate(s[..n], i, b);
      assert s[i := b][..n] == s[..n][i := b];
    } else {
      assert s[i := b][..n] == s[..n];
    }
  }

  /** Changing any one byte behind the length field is detected. */
  lemma ChangeDetected(f: seq<byte>, i: nat, b: byte)
    requires Complete(f) && Accepted(f) && 3 <= i < |f|
    ensures Complete(f[i := b]) && (Accepted(f[i := b]) <==> b == f[i])
  {
    var g, n := f[i := b], |f| - 1;
    if i < n {
      SumUpdate(f[3..n], i - 3, b);
      assert g[3..n] == f[3..n][i - 3 := b];
      LowSum(Sum(g[3..n]), Sum(f[3..n]), f[i], b);
    } else {
      assert g[3..n] == f[3..n];
    }
  }

  lemma LowSum(m: nat, n: nat, a: byte, b: byte)
    requires m + a == n + b
    ensures Low(m) == Low(n) <==> a == b
  {
  }
}

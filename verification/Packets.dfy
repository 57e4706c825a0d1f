/** Length-encoded integers and strings, the packets they travel in, and the row packets of an answer. */
module Packets {
  import opened Common
  import opened Streams

  const TWO24 := 0x100_0000
  const TWO64 := 0x1_0000_0000_0000_0000

  /** `k` bytes of a number, the lowest first. */
  function LittleEndian(n: nat, k: nat): (b: seq<Byte>)
    ensures |b| == k
  {
    if k == 0 then [] else [n % 256] + LittleEndian(n / 256, k - 1)
  }

  function FromLittleEndian(b: seq<Byte>): nat
  {
    if b == [] then 0 else b[0] + 256 * FromLittleEndian(b[1..])
  }

  function Power256(k: nat): (p: nat)
    ensures p > 0
  {
    if k == 0 then 1 else 256 * Power256(k - 1)
  }

  lemma {:induction false} LittleEndianRoundTrip(n: nat, k: nat)
    requires n < Power256(k)
    ensures FromLittleEndian(LittleEndian(n, k)) == n
  {
    if k > 0 {
      assert n / 256 < Power256(k - 1);
      LittleEndianRoundTrip(n / 256, k - 1);
      assert LittleEndian(n, k)[1..] == LittleEndian(n / 256, k - 1);
    }
  }

  lemma {:induction false} FromLittleEndianBound(b: seq<Byte>)
    ensures FromLittleEndian(b) < Power256(|b|)
  {
    if b != [] {
      FromLittleEndianBound(b[1..]);
    }
  }

  // ---- length-encoded integers ----

  function LenEnc(n: nat): (b: seq<Byte>)
    requires n < TWO64
    ensures 1 <= |b| <= 9
  {
    if n < 251 then [n]
    else if n <= 0xffff then [0xfc] + LittleEndian(n, 2)
    else if n <= 0xffffff then [0xfd] + LittleEndian(n, 3)
    else [0xfe] + LittleEndian(n, 8)
  }

  /** `lenenc`: grows the buffer. */
  method AppendLenEnc(buf: seq<Byte>, n: nat) returns (out: seq<Byte>)
    requires n < TWO64
    ensures out == buf + LenEnc(n)
  {
    if n < 251 {
      out := buf + [n];
    } else if n <= 0xffff {
      out := buf + [0xfc] + [n % 256] + [n / 256 % 256];
      assert LittleEndian(n / 256, 1) == [n / 256 % 256];
    } else if n <= 0xffffff {
      out := buf + [0xfd] + [n % 256] + [n / 256 % 256] + [n / 65536 % 256];
      Bytes3(n);
    } else {
      out := AppendEight(buf + [0xfe], n);
      Regroup(buf, [0xfe], LittleEndian(n, 8));
    }
  }

  method AppendEight(buf: seq<Byte>, n: nat) returns (out: seq<Byte>)
    ensures out == buf + LittleEndian(n, 8)
  {
    out := buf;
    var rest := n;
    for i := 0 to 8
      invariant out + LittleEndian(rest, 8 - i) == buf + LittleEndian(n, 8)
    {
      Regroup(out, [rest % 256], LittleEndian(rest / 256, 7 - i));
      out := out + [rest % 256];
      rest := rest / 256;
    }
    assert out + [] == out;
  }

  lemma Bytes3(n: nat)
    ensures LittleEndian(n, 3) == [n % 256, n / 256 % 256, n / 65536 % 256]
    ensures n < TWO24 ==> n == n % 256 + 256 * (n / 256 % 256) + 65536 * (n / 65536 % 256)
  {
    assert LittleEndian(n / 256, 2) == [n / 256 % 256] + LittleEndian(n / 256 / 256, 1);
    assert LittleEndian(n / 256 / 256, 1) == [n / 256 / 256 % 256];
    assert n / 256 / 256 == n / 65536;
  }

  function Number3(a: int, b: int, c: int): int { a + 256 * b + 65536 * c }

  /** `read_lenenc`: the number at the front of `buf` and the bytes it takes; what it does not understand reads as 0 in one byte. */
  function ReadLenEnc(buf: seq<Byte>): (r: (nat, nat))
    ensures 1 <= r.1 <= 4 && (r.1 > 1 ==> r.1 <= |buf|)
  {
    if buf == [] then (0, 1)
    else if buf[0] < 251 then (buf[0], 1)
    else if buf[0] == 0xfc && |buf| >= 3 then (Number3(buf[1], buf[2], 0), 3)
    else if buf[0] == 0xfd && |buf| >= 4 then (Number3(buf[1], buf[2], buf[3]), 4)
    else (0, 1)
  }

  /** Reading gives back what was written exactly for numbers below 2^24. */
  lemma LenEncRoundTrip(n: nat, rest: seq<Byte>)
    requires n < TWO64
    ensures ReadLenEnc(LenEnc(n) + rest) == (n, |LenEnc(n)|) <==> n < TWO24
  {
    var b := LenEnc(n) + rest;
    assert b[0] == LenEnc(n)[0];
    if 251 <= n <= 0xffff {
      Low2Bytes(n, b);
    } else if 0xffff < n <= 0xffffff {
      Low3Bytes(n, b);
    }
  }

  lemma Low2Bytes(n: nat, b: seq<Byte>)
    requires n <= 0xffff && |b| >= 3 && b[..3] == [0xfc] + LittleEndian(n, 2)
    ensures ReadLenEnc(b) == (n, 3)
  {
    hide LittleEndian;
    var s := b[..3];
    Bytes2(n);
    assert b[0] == s[0] && b[1] == s[1] && b[2] == s[2];
  }

  lemma Bytes2(n: nat)
    ensures LittleEndian(n, 2) == [n % 256, n / 256 % 256]
    ensures n <= 0xffff ==> n == n % 256 + 256 * (n / 256 % 256)
  {
    assert LittleEndian(n / 256, 1) == [n / 256 % 256];
  }

  lemma Low3Bytes(n: nat, b: seq<Byte>)
    requires n <= 0xffffff && |b| >= 4 && b[..4] == [0xfd] + LittleEndian(n, 3)
    ensures ReadLenEnc(b) == (n, 4)
  {
    hide LittleEndian;
    var s := b[..4];
    Bytes3(n);
    assert b[0] == s[0] && b[1] == s[1] && b[2] == s[2] && b[3] == s[3];
  }

  /** The first byte tells how long a length-encoded integer is; 0xfb never starts one, so it can stand for NULL. */
  lemma LenEncStart(n: nat)
    requires n < TWO64
    ensures LenEnc(n)[0] != 0xfb && LenEnc(n)[0] != 0xff
    ensures |LenEnc(n)| == match LenEnc(n)[0] case 0xfc => 3 case 0xfd => 4 case 0xfe => 9 case _ => 1
  {
  }

  /** A client of the protocol reads all of the forms. */
  function ClientLenEnc(buf: seq<Byte>): Option<(nat, nat)>
  {
    if buf == [] || buf[0] == 0xfb || buf[0] == 0xff then None
    else if buf[0] < 251 then Some((buf[0], 1))
    else
      var k := if buf[0] == 0xfc then 2 else if buf[0] == 0xfd then 3 else 8;
      if |buf| < 1 + k then None else Some((FromLittleEndian(buf[1..1 + k]), 1 + k))
  }

  lemma ClientReadsLenEnc(n: nat, rest: seq<Byte>)
    requires n < TWO64
    ensures ClientLenEnc(LenEnc(n) + rest) == Some((n, |LenEnc(n)|))
  {
    var b := LenEnc(n) + rest;
    assert b[0] == LenEnc(n)[0];
    if n >= 251 {
      var k := |LenEnc(n)| - 1;
      assert b[1..1 + k] == LittleEndian(n, k);
      Powers();
      LittleEndianRoundTrip(n, k);
    }
  }

  lemma Powers()
    ensures Power256(2) == 0x1_0000 && Power256(3) == TWO24 && Power256(8) == TWO64
  {
    assert Power256(4) == 256 * Power256(3) && Power256(5) == 256 * Power256(4);
    assert Power256(6) == 256 * Power256(5) && Power256(7) == 256 * Power256(6);
  }

  /** No encoding is the beginning of another. */
  lemma LenEncPrefixFree(m: nat, n: nat)
    requires m < TWO64 && n < TWO64 && LenEnc(m) <= LenEnc(n)
    ensures m == n
  {
    ClientReadsLenEnc(m, LenEnc(n)[|LenEnc(m)|..]);
    ClientReadsLenEnc(n, []);
    assert LenEnc(m) + LenEnc(n)[|LenEnc(m)|..] == LenEnc(n) == LenEnc(n) + [];
  }

  // ---- row packets ----

  const NULL_CELL: seq<Byte> := [0x4E, 0x55, 0x4C, 0x4C]

  function LenStr(s: seq<Byte>): seq<Byte>
    requires |s| < TWO64
  {
    LenEnc(|s|) + s
  }

  function CellBytes(v: seq<Byte>): seq<Byte>
    requires |v| < TWO64
  {
    if v == NULL_CELL then [0xfb] else LenStr(v)
  }

  function RowPacket(row: seq<seq<Byte>>): seq<Byte>
    requires forall i :: 0 <= i < |row| ==> |row[i]| < TWO64
  {
    if row == [] then [] else CellBytes(row[0]) + RowPacket(row[1..])
  }

  method AppendCell(buf: seq<Byte>, v: seq<Byte>) returns (out: seq<Byte>)
    requires |v| < TWO64
    ensures out == buf + CellBytes(v)
  {
    hide LenEnc;
    if v == NULL_CELL {
      return buf + [0xfb];
    }
    out := AppendLenEnc(buf, |v|);
    Regroup(buf, LenEnc(|v|), v);
    out := out + v;
  }

  /** The loop of `send_resultset` over one row: `cols` cells, a missing one empty. */
  method MakeRowPacket(row: seq<seq<Byte>>, cols: nat) returns (pkt: seq<Byte>)
    requires forall i :: 0 <= i < |row| ==> |row[i]| < TWO64
    ensures pkt == RowPacket(Shown(row, cols))
  {
    hide CellBytes, RowPacket, Shown;
    pkt := [];
    ghost var shown := Shown(row, cols);
    ghost var left := RowPacket(shown);
    assert shown[0..] == shown;
    for i := 0 to cols
      invariant left == RowPacket(shown[i..]) && pkt + left == RowPacket(shown)
    {
      var v := if i < |row| then row[i] else [];
      NextCell(shown, i);
      left := RowPacket(shown[i + 1..]);
      Regroup(pkt, CellBytes(v), left);
      pkt := AppendCell(pkt, v);
    }
    assert shown[cols..] == [];
    assert pkt + RowPacket([]) == pkt by { NextCell([], 0); }
  }

  lemma NextCell(row: seq<seq<Byte>>, i: nat)
    requires i <= |row| && forall k :: 0 <= k < |row| ==> |row[k]| < TWO64
    ensures RowPacket(row[i..]) == if i == |row| then [] else CellBytes(row[i]) + RowPacket(row[i + 1..])
  {
    assert i < |row| ==> row[i..][1..] == row[i + 1..];
  }

  function Shown(row: seq<seq<Byte>>, cols: nat): (r: seq<seq<Byte>>)
    ensures |r| == cols && forall i :: 0 <= i < cols ==> r[i] == if i < |row| then row[i] else []
  {
    seq(cols, i requires 0 <= i < cols => if i < |row| then row[i] else [])
  }

  /** What a client makes of a row packet of `n` columns; None: it is none. */
  function ClientRow(pkt: seq<Byte>, n: nat): Option<seq<seq<Byte>>>
    decreases n
  {
    if n == 0 then if pkt == [] then Some([]) else None
    else if pkt != [] && pkt[0] == 0xfb then
      var rest := ClientRow(pkt[1..], n - 1);
      if rest.Some? then Some([NULL_CELL] + rest.value) else None
    else
      var len := ClientLenEnc(pkt);
      if len.None? || len.value.1 + len.value.0 > |pkt| then None
      else
        var (size, used) := len.value;
        var rest := ClientRow(pkt[used + size..], n - 1);
        if rest.Some? then Some([pkt[used..used + size]] + rest.value) else None
  }

  /** A row comes back cell by cell: NULL and every text, the empty one included, stay apart. */
  lemma {:induction false} RowRoundTrip(row: seq<seq<Byte>>)
    requires forall i :: 0 <= i < |row| ==> |row[i]| < TWO64
    ensures ClientRow(RowPacket(row), |row|) == Some(row)
  {
    hide LenStr, ClientLenEnc;
    if row != [] {
      var v, rest := row[0], RowPacket(row[1..]);
      var pkt := RowPacket(row);
      RowRoundTrip(row[1..]);
      assert row == [v] + row[1..];
      if v == NULL_CELL {
        assert pkt[1..] == rest;
      } else {
        TextCellComesBack(v, rest);
      }
    }
  }

  lemma TextCellComesBack(v: seq<Byte>, rest: seq<Byte>)
    requires |v| < TWO64
    ensures var pkt, used := LenStr(v) + rest, |LenEnc(|v|)|;
      && used + |v| <= |pkt| && pkt[0] != 0xfb && ClientLenEnc(pkt) == Some((|v|, used))
      && pkt[used..used + |v|] == v && pkt[used + |v|..] == rest
  {
    LenEncStart(|v|);
    ClientReadsLenEnc(|v|, v + rest);
    Regroup(LenEnc(|v|), v, rest);
    hide LenEnc, ClientLenEnc;
    var pkt := LenStr(v) + rest;
    assert pkt[0] == LenEnc(|v|)[0];
  }

  // ---- packets on a stream ----

  /** `read_exact` */
  method ReadExact(sock: Socket<Byte>, n: nat) returns (buf: Option<seq<Byte>>)
    modifies sock
    ensures buf.Some? ==> |buf.value| == n && old(sock.stream) == buf.value + sock.stream
    ensures sock.Alive() && |old(sock.stream)| >= n ==> buf.Some?
  {
    var got: seq<Byte> := [];
    while |got| < n
      invariant |got| <= n && old(sock.stream) == got + sock.stream
    {
      var chunk := sock.Recv(n - |got|);
      if chunk == [] {
        return None;
      }
      Regroup(got, chunk, sock.stream);
      got := got + chunk;
    }
    buf := Some(got);
  }

  /** A packet's bytes: three for the length, one for the sequence number, the payload. */
  function Frame(number: Byte, payload: seq<Byte>): (f: seq<Byte>)
    ensures |f| == 4 + |payload|
  {
    LittleEndian(|payload|, 3) + [number] + payload
  }

  datatype Packet = Packet(number: Byte, payload: seq<Byte>)

  /** The packet at the front of a stream, if it is there whole. */
  function Unframe(s: seq<Byte>): Option<Packet>
  {
    if |s| < 4 then None
    else
      var len := Number3(s[0], s[1], s[2]);
      if |s| < 4 + len then None else Some(Packet(s[3], s[4..4 + len]))
  }

  /** `write_packet` */
  method WritePacket(sock: Socket<Byte>, p: Packet) returns (ok: bool)
    modifies sock
    ensures ok ==> sock.stream == old(sock.stream) + Frame(p.number, p.payload)
    ensures sock.Alive() ==> ok
  {
    var n := |p.payload|;
    var header: seq<Byte> := [n % 256, n / 256 % 256, n / 65536 % 256, p.number];
    Bytes3(n);
    assert Frame(p.number, p.payload) == header + p.payload;
    ok := WriteAll(sock, header);
    if ok && p.payload != [] {
      Regroup(old(sock.stream), header, p.payload);
      ok := WriteAll(sock, p.payload);
    }
  }

  /** `read_packet` */
  method ReadPacket(sock: Socket<Byte>) returns (p: Option<Packet>)
    modifies sock
    ensures p.Some? ==> Unframe(old(sock.stream)) == p && |old(sock.stream)| == 4 + |p.value.payload| + |sock.stream|
                        && sock.stream == old(sock.stream)[4 + |p.value.payload|..]
    ensures sock.Alive() && Unframe(old(sock.stream)).Some? ==> p.Some?
  {
    ghost var whole := sock.stream;
    var h := ReadExact(sock, 4);
    if h.None? {
      return None;
    }
    var len := Number3(h.value[0], h.value[1], h.value[2]);
    assert whole[..4] == h.value && whole[4..] == sock.stream;
    var payload := Some([]);
    if len > 0 {
      payload := ReadExact(sock, len);
    }
    if payload.None? {
      return None;
    }
    assert whole[4..4 + len] == payload.value && whole[4 + len..] == sock.stream;
    p := Some(Packet(h.value[3], payload.value));
  }

  /** A packet is read back as it was written exactly when its payload is shorter than 2^24 bytes. */
  lemma FrameRoundTrip(p: Packet, rest: seq<Byte>)
    ensures Unframe(Frame(p.number, p.payload) + rest) == Some(p) <==> |p.payload| < TWO24
  {
    var f := Frame(p.number, p.payload);
    var s := f + rest;
    var n := |p.payload|;
    Bytes3(n);
    assert s[0] == n % 256 && s[1] == n / 256 % 256 && s[2] == n / 65536 % 256 && s[3] == p.number;
    if n < TWO24 {
      assert s[4..4 + n] == p.payload;
    }
  }

  function Frames(ps: seq<Packet>): seq<Byte>
  {
    if ps == [] then [] else Frame(ps[0].number, ps[0].payload) + Frames(ps[1..])
  }

  /** A whole exchange: however send and recv cut the bytes, the packets arrive one by one as they were written. */
  method Exchange(sock: Socket<Byte>, ps: seq<Packet>) returns (got: seq<Packet>)
    requires sock.stream == [] && sock.Alive() && forall i :: 0 <= i < |ps| ==> |ps[i].payload| < TWO24
    modifies sock
    ensures got == ps && sock.stream == []
  {
    for i := 0 to |ps|
      invariant sock.stream + Frames(ps[i..]) == Frames(ps)
    {
      assert ps[i..][1..] == ps[i + 1..];
      Regroup(sock.stream, Frame(ps[i].number, ps[i].payload), Frames(ps[i + 1..]));
      var ok := WritePacket(sock, ps[i]);
      assert ok;
    }
    assert sock.stream + [] == sock.stream;
    got := [];
    for i := 0 to |ps|
      invariant got == ps[..i] && sock.stream == Frames(ps[i..])
    {
      assert ps[i..][1..] == ps[i + 1..];
      FrameRoundTrip(ps[i], Frames(ps[i + 1..]));
      var p := ReadPacket(sock);
      assert sock.stream == Frames(ps[i + 1..]);
      got := got + [p.value];
    }
    assert ps[..|ps|] == ps;
  }
}

/** The ZCL classes of zcl.cpp: attributes, commands and frames that read and write a byte stream. */
module Zcl {
  import opened Wrappers
  import opened SStreamSpec
  import E = Endian
  import Z = ZclSpec

  // A QDataStream in little-endian order over a byte array: writing appends, reading moves a cursor.
  class DataStream {
    var data: Z.Bytes
    var pos: nat
    var pastEnd: bool

    constructor (bytes: Z.Bytes)
      ensures data == bytes && pos == 0 && !pastEnd
    {
      data, pos, pastEnd := bytes, 0, false;
    }

    predicate AtEnd()
      reads this
    {
      pos >= |data|
    }

    method PutByte(b: Octet)
      modifies this`data
      ensures data == old(data) + [b]
    {
      data := data + [b];
    }

    // operator<< for the unsigned types of n bytes
    method Put(v: nat, n: nat)
      modifies this`data
      ensures data == old(data) + E.LittleEndian(v, n)
    {
      var tmp := v;
      var i := 0;
      while i < n
        invariant i <= n
        invariant data + E.LittleEndian(tmp, n - i) == old(data) + E.LittleEndian(v, n)
      {
        data := data + [tmp % 256];
        tmp := tmp / 256;
        i := i + 1;
      }
    }

    // readRawData: a short read takes what is there.
    method GetRaw(n: nat) returns (b: Z.Bytes)
      requires pos <= |data|
      modifies this`pos, this`pastEnd
      ensures pos <= |data|
      ensures if old(pos) + n <= |data| then pos == old(pos) + n && b == data[old(pos)..pos] && pastEnd == old(pastEnd)
              else pos == |data| && |b| < n && pastEnd
    {
      var end := if pos + n <= |data| then pos + n else |data|;
      b := data[pos..end];
      pos := end;
      if |b| != n {
        pastEnd := true;
      }
    }

    // operator>> for the unsigned types of n bytes
    method Get(n: nat) returns (v: nat)
      requires pos <= |data|
      modifies this`pos, this`pastEnd
      ensures pos <= |data|
      ensures if old(pos) + n <= |data|
              then pos == old(pos) + n && v == E.FromLittleEndian(data[old(pos)..pos]) && pastEnd == old(pastEnd)
              else pos == |data| && v == 0 && pastEnd
    {
      var b := GetRaw(n);
      v := if |b| == n then E.FromLittleEndian(b) else 0;
    }
  }

  // operator>> for quint8
  method GetByte(stream: DataStream) returns (b: Octet)
    requires stream.pos <= |stream.data|
    modifies stream`pos, stream`pastEnd
    ensures stream.pos <= |stream.data|
    ensures if old(stream.pos) < |stream.data|
            then stream.pos == old(stream.pos) + 1 && b == stream.data[old(stream.pos)] && stream.pastEnd == old(stream.pastEnd)
            else stream.pos == |stream.data| && b == 0 && stream.pastEnd
  {
    var raw := stream.GetRaw(1);
    b := if |raw| == 1 then raw[0] else 0;
  }

  class ZclAttribute {
    const dataType: Z.DataType
    var num: nat                 // m_numericValue.u64
    var bitmap: nat              // m_valueState.bitmap
    var bytes: Option<Z.Bytes>   // m_value, when it holds a byte array

    constructor (a: Z.Attr)
      ensures Model() == a
    {
      dataType, num, bitmap, bytes := a.dataType, a.num, a.bitmap, a.bytes;
    }

    function Model(): Z.Attr
      reads this
    {
      Z.Attr(dataType, num, bitmap, bytes)
    }

    // Only the top byte of a negative number differs from its magnitude.
    static lemma MagnitudeByte(s: int, n: Z.Width, i: nat)
      requires i < n
      ensures var m := E.LittleEndian(if s >= 0 then s else -s, n);
              Z.SignMagnitude(s, n)[i] == if i == n - 1 && s < 0 && m[i] < 128 then m[i] + 128 else m[i]
    {
      hide E.LittleEndian;
    }

    // An integer without a union member of its own; m_numericValue.s64 is `s`. What is put into the stream
    // for each byte is an int.
    method WriteSigned(stream: DataStream, s: int, n: Z.Width)
      modifies stream`data
      ensures stream.data == old(stream.data) + Z.Spread(Z.SignMagnitude(s, n))
    {
      hide E.LittleEndian, Z.Spread, Z.SignMagnitude;
      var tmp: nat := if s >= 0 then s else -s;
      ghost var m, signed := E.LittleEndian(tmp, n), Z.SignMagnitude(s, n);
      var i: nat := 0;
      NoBytes(signed);
      while i < n
        invariant i <= n && E.LittleEndian(tmp, n - i) == m[i..]
        invariant stream.data == old(stream.data) + Z.Spread(signed[..i])
      {
        var b := tmp % 256;
        if i == n - 1 && s < 0 {
          b := if b < 128 then b + 128 else b;
        }
        NextByte(tmp, n - i);
        assert m[i] == m[i..][0] && m[i..][1..] == m[i + 1..];
        MagnitudeByte(s, n, i);
        assert b == signed[i] && signed[..i + 1] == signed[..i] + [b];
        Z.SpreadSnoc(signed[..i], b);
        IntBytes(b);
        stream.Put(b, 4);
        tmp := tmp / 256;
        i := i + 1;
      }
      assert signed[..i] == signed;
    }

    // ZclAttribute::writeToStream
    method WriteToStream(stream: DataStream) returns (ok: bool)
      modifies stream`data
      ensures ok == Z.WriteAttr(Model()).Some?
      ensures stream.data == old(stream.data) + Z.WriteAttr(Model()).GetOr([])
    {
      hide E.LittleEndian, Z.SignMagnitude, Z.Spread, E.Pow256;
      ok := true;
      match dataType {
        case Bitmap(n) => stream.Put(bitmap, n);
        case Data(n) =>
          ok := n == 1 || n == 2 || n == 4 || n == 8;
          if ok { stream.Put(num, n); }
        case Int(n) =>
          if n == 1 || n == 2 || n == 4 || n == 8 {
            stream.Put(num, n);
          } else {
            var s64 := if num >= 0x8000_0000_0000_0000 then num - 0x1_0000_0000_0000_0000 else num;
            E.Powers();
            WriteSigned(stream, s64, n);
          }
        case Enum8 =>
          ok := num % 0x1_0000_0000 <= 0xFF;
          if ok { stream.Put(num, 1); }
        case Enum16 =>
          ok := num % 0x1_0000_0000 <= 0xFFFF;
          if ok { stream.Put(num, 2); }
        case OctetString =>
          ok := WriteOctets(stream);
        case SecurityKey =>
          ok := WriteKey(stream);
        case t => stream.Put(num, Z.Length(t));
      }
    }

    method WriteOctets(stream: DataStream) returns (ok: bool)
      requires dataType == Z.OctetString
      modifies stream`data
      ensures ok == Z.WriteAttr(Model()).Some?
      ensures stream.data == old(stream.data) + Z.WriteAttr(Model()).GetOr([])
    {
      ok := true;
      if bytes.Some? {
        if |bytes.value| > 255 {
          return false;
        }
        stream.PutByte(|bytes.value|);
        stream.data := stream.data + bytes.value;
      } else {
        stream.PutByte(0);
      }
    }

    method WriteKey(stream: DataStream) returns (ok: bool)
      requires dataType == Z.SecurityKey
      modifies stream`data
      ensures ok == Z.WriteAttr(Model()).Some?
      ensures stream.data == old(stream.data) + Z.WriteAttr(Model()).GetOr([])
    {
      var key := bytes.GetOr([]);
      ok := |key| == 16;
      if ok {
        var i := 0;
        while i < 16
          invariant i <= 16 && stream.data == old(stream.data) + key[..i]
        {
          assert key[..i + 1] == key[..i] + [key[i]];
          stream.PutByte(key[i]);
          i := i + 1;
        }
      }
    }

    // ZclAttribute::readFromStream
    method ReadFromStream(stream: DataStream) returns (ok: bool)
      requires stream.pos <= |stream.data| && !stream.pastEnd
      modifies this, stream`pos, stream`pastEnd
      ensures stream.pos <= |stream.data| && (ok ==> !stream.pastEnd)
      ensures ok == Z.ReadAttr(old(Model()), stream.data, old(stream.pos)).Some?
      ensures ok ==> Z.ReadAttr(old(Model()), stream.data, old(stream.pos)) == Some((Model(), stream.pos))
    {
      hide E.FromLittleEndian;
      if stream.AtEnd() {
        return false;
      }
      ghost var was := Model();
      num := 0;
      assert Z.ReadAttr(Model(), stream.data, stream.pos) == Z.ReadAttr(was, stream.data, stream.pos);
      match dataType {
        case OctetString =>
          var b;
          ok, b := ReadOctets(stream);
          if ok {
            bytes, num := Some(b), |b|;
          }
          return;
        case SecurityKey =>
          var key := ReadKey(stream);
          bytes := Some(key);
        case BacnetOid =>
          return false;
        case t =>
          ReadNumber(stream);
      }
      ok := !stream.pastEnd;
    }

    // The numeric types, each with its length.
    method ReadNumber(stream: DataStream)
      requires dataType != Z.OctetString && dataType != Z.SecurityKey && dataType != Z.BacnetOid
      requires stream.pos < |stream.data| && !stream.pastEnd
      modifies this, stream`pos, stream`pastEnd
      ensures stream.pos <= |stream.data|
      ensures stream.pastEnd == Z.ReadAttr(old(Model()), stream.data, old(stream.pos)).None?
      ensures !stream.pastEnd ==> Z.ReadAttr(old(Model()), stream.data, old(stream.pos)) == Some((Model(), stream.pos))
    {
      hide E.FromLittleEndian;
      var v := stream.Get(Z.Length(dataType));
      num, bytes := v, None;
      match dataType {
        case Boolean => num := if v == 1 then 1 else 0;
        case Bitmap(_) => bitmap := v;
        case _ =>
      }
    }

    method ReadOctets(stream: DataStream) returns (ok: bool, b: Z.Bytes)
      requires stream.pos < |stream.data| && !stream.pastEnd
      modifies stream`pos, stream`pastEnd
      ensures stream.pos <= |stream.data|
      ensures ok <==> old(stream.pos) + 1 + stream.data[old(stream.pos)] <= |stream.data|
      ensures ok ==> !stream.pastEnd && stream.pos == old(stream.pos) + 1 + |b| && |b| == stream.data[old(stream.pos)]
                     && b == stream.data[old(stream.pos) + 1..stream.pos]
    {
      hide E.FromLittleEndian;
      b := [];
      var len := GetByte(stream);
      if len > 0 && stream.AtEnd() {
        return false, b;
      }
      b := stream.GetRaw(len);
      ok := |b| == len;
    }

    method ReadKey(stream: DataStream) returns (key: Z.Bytes)
      requires stream.pos <= |stream.data| && !stream.pastEnd
      modifies stream`pos, stream`pastEnd
      ensures stream.pos <= |stream.data|
      ensures stream.pastEnd <==> old(stream.pos) + 16 > |stream.data|
      ensures !stream.pastEnd ==> stream.pos == old(stream.pos) + 16 && key == stream.data[old(stream.pos)..stream.pos]
    {
      hide E.FromLittleEndian;
      key := [];
      var i := 0;
      ghost var p := stream.pos;
      while i < 16
        invariant i <= 16 && |key| == i && stream.pos <= |stream.data|
        invariant stream.pastEnd <==> p + i > |stream.data|
        invariant !stream.pastEnd ==> stream.pos == p + i && key == stream.data[p..p + i]
        invariant stream.pastEnd ==> stream.pos == |stream.data|
      {
        var u8 := GetByte(stream);
        key := key + [u8];
        i := i + 1;
      }
    }
  }

  lemma NoBytes(b: Z.Bytes)
    ensures Z.Spread(b[..0]) == []
  {
  }

  lemma NextByte(v: nat, n: nat)
    requires n > 0
    ensures E.LittleEndian(v, n)[0] == v % 256 && E.LittleEndian(v, n)[1..] == E.LittleEndian(v / 256, n - 1)
  {
  }

  lemma IntBytes(b: Octet)
    ensures E.LittleEndian(b, 4) == [b, 0, 0, 0]
  {
    assert E.LittleEndian(0, 1) == [0];
    assert E.LittleEndian(0, 2) == [0] + E.LittleEndian(0, 1);
    assert E.LittleEndian(0, 3) == [0] + E.LittleEndian(0, 2);
  }

  // The parameters of a command are objects of their own.
  ghost predicate Distinct(s: seq<ZclAttribute>) {
    forall i, j :: 0 <= i < j < |s| ==> s[i] != s[j]
  }

  ghost function Models(s: seq<ZclAttribute>): (r: seq<Z.Attr>)
    reads s
    ensures |r| == |s| && forall i :: 0 <= i < |s| ==> r[i] == s[i].Model()
  {
    seq(|s|, i requires 0 <= i < |s| reads s => s[i].Model())
  }

  class ZclCommand {
    const id: Octet
    const recv: bool
    const params: seq<ZclAttribute>

    constructor (commandId: Octet, received: bool, parameters: seq<ZclAttribute>)
      ensures id == commandId && recv == received && params == parameters
    {
      id, recv, params := commandId, received, parameters;
    }

    ghost function Model(): Z.Command
      reads params
    {
      Z.Command(id, recv, Models(params))
    }

    // ZclCommand::writeToStream
    method WriteToStream(stream: DataStream) returns (ok: bool)
      modifies stream`data
      ensures (ok, stream.data) == (Z.WriteUpTo(Models(params), |params|).0,
                                    old(stream.data) + Z.WriteUpTo(Models(params), |params|).1)
    {
      hide Z.WriteAttr;
      ok := true;
      var i := 0;
      while i < |params|
        invariant i <= |params| && Models(params) == old(Models(params))
        invariant ok == Z.WriteUpTo(Models(params), i).0
        invariant stream.data == old(stream.data) + Z.WriteUpTo(Models(params), i).1
      {
        if ok {
          ok := params[i].WriteToStream(stream);
        }
        i := i + 1;
      }
    }

    // Parameter k is the first that could not be read; those behind it are as they were.
    static ghost predicate StoppedAt(before: seq<Z.Attr>, now: seq<Z.Attr>, data: Z.Bytes, start: nat, k: nat) {
      && k < |now| == |before| && now[k + 1..] == before[k + 1..]
      && Z.ReadUpTo(before, data, start, k + 1).None?
      && var r := Z.ReadUpTo(before, data, start, k); r.Some? && now[..k] == r.value.0
    }

    // ZclCommand::readFromStream: reading ends with the first parameter that cannot be read, the k-th one.
    method ReadFromStream(stream: DataStream) returns (ok: bool, ghost k: nat)
      requires stream.pos <= |stream.data| && !stream.pastEnd && Distinct(params)
      modifies params, stream`pos, stream`pastEnd
      ensures ok == Z.ReadUpTo(old(Models(params)), stream.data, old(stream.pos), |params|).Some?
      ensures ok ==> Z.ReadUpTo(old(Models(params)), stream.data, old(stream.pos), |params|) == Some((Models(params), stream.pos))
      ensures !ok ==> StoppedAt(old(Models(params)), Models(params), stream.data, old(stream.pos), k)
    {
      hide Z.ReadAttr, Models;
      ghost var before, start := Models(params), stream.pos;
      assert Z.ReadUpTo(before, stream.data, start, 0) == Some(([], start));
      hide Z.ReadUpTo;
      ok, k := true, 0;
      var i := 0;
      while i < |params|
        invariant k <= i <= |params| && stream.pos <= |stream.data|
        invariant ok ==> k == i && !stream.pastEnd && Z.ReadUpTo(before, stream.data, start, i) == Some((Models(params)[..i], stream.pos))
        invariant ok ==> Models(params)[i..] == before[i..]
        invariant !ok ==> k < i && StoppedAt(before, Models(params), stream.data, start, k)
      {
        if ok {
          ghost var was := Models(params);
          assert was[i] == before[i] by { assert was[i..][0] == before[i..][0]; }
          Z.ReadStep(before, stream.data, start, i);
          ok := params[i].ReadFromStream(stream);
          Changed(params, i, was, before);
          if ok {
            k := i + 1;
          }
        }
        i := i + 1;
      }
      if ok {
        assert Models(params)[..|params|] == Models(params);
      } else {
        Z.StaysUnread(before, stream.data, start, k + 1, |params|);
      }
    }
  }

  // One parameter has been read.
  lemma Changed(params: seq<ZclAttribute>, i: nat, was: seq<Z.Attr>, before: seq<Z.Attr>)
    requires i < |params| == |was| == |before| && was[i..] == before[i..]
    requires forall j :: 0 <= j < |params| && j != i ==> params[j].Model() == was[j]
    ensures Models(params)[..i] == was[..i] && Models(params)[i + 1..] == before[i + 1..]
    ensures Models(params)[..i + 1] == was[..i] + [params[i].Model()]
  {
    assert forall j :: i <= j < |params| ==> was[j] == was[i..][j - i] == before[i..][j - i] == before[j];
  }

  class ZclFrame {
    var frameControl: Octet
    var manufacturerCode: nat
    var seqNumber: Octet
    var commandId: Octet
    var payload: Z.Bytes
    var valid: bool

    constructor ()
      ensures !valid && Model() == Z.Frame(0, 0xFFFF, 0, 0, [])
    {
      frameControl, manufacturerCode, seqNumber, commandId, payload, valid := 0, 0xFFFF, 0, 0, [], false;
    }

    function Model(): Z.Frame
      reads this
    {
      Z.Frame(frameControl, manufacturerCode, seqNumber, commandId, payload)
    }

    // ZclFrame::writeToStream
    method WriteToStream(stream: DataStream)
      modifies stream`data
      ensures stream.data == old(stream.data) + Z.WriteFrame(Model())
    {
      hide E.LittleEndian;
      stream.PutByte(frameControl);
      if (frameControl / 4) % 2 == 1 {
        stream.Put(manufacturerCode, 2);
      }
      stream.PutByte(seqNumber);
      stream.PutByte(commandId);
      var i := 0;
      ghost var header := stream.data;
      while i < |payload|
        invariant i <= |payload| && stream.data == header + payload[..i]
      {
        stream.PutByte(payload[i]);
        i := i + 1;
      }
      assert payload[..i] == payload;
    }

    // ZclFrame::readFromStream
    method ReadFromStream(stream: DataStream)
      requires stream.pos <= |stream.data| && !stream.pastEnd
      modifies this, stream`pos, stream`pastEnd
      ensures stream.pos == |stream.data|
      ensures valid == Z.ReadFrame(stream.data[old(stream.pos)..]).Some?
      ensures valid ==> Z.ReadFrame(stream.data[old(stream.pos)..]) == Some(Model())
      ensures !valid ==> payload == []
    {
      hide E.FromLittleEndian;
      ghost var start, rest := stream.pos, stream.data[stream.pos..];
      valid := false;
      frameControl := GetByte(stream);
      assert rest != [] ==> rest[0] == frameControl;
      if (frameControl / 4) % 2 == 1 {
        manufacturerCode := stream.Get(2);
        assert start + 3 <= |stream.data| ==> stream.data[start + 1..start + 3] == rest[1..3];
      } else {
        manufacturerCode := 0x0000;
      }
      seqNumber := GetByte(stream);
      commandId := GetByte(stream);
      if !stream.pastEnd {
        valid := true;
      }
      ghost var n := stream.pos - start;
      ReadPayload(stream);
      if valid {
        assert rest[n - 2] == seqNumber && rest[n - 1] == commandId;
        assert payload == rest[n..];
      }
    }

    // The rest of the stream is the payload.
    method ReadPayload(stream: DataStream)
      requires stream.pos <= |stream.data|
      modifies this`payload, stream`pos, stream`pastEnd
      ensures stream.pos == |stream.data| && payload == stream.data[old(stream.pos)..]
    {
      payload := [];
      ghost var h := stream.pos;
      while !stream.AtEnd()
        invariant h <= stream.pos <= |stream.data| && payload == stream.data[h..stream.pos]
        decreases |stream.data| - stream.pos
      {
        var u8 := GetByte(stream);
        payload := payload + [u8];
      }
    }
  }

  class ZclCluster {
    const isZcl: bool
    const isServer: bool
    const commands: seq<ZclCommand>

    constructor (zcl: bool, server: bool, cs: seq<ZclCommand>)
      ensures isZcl == zcl && isServer == server && commands == cs
    {
      isZcl, isServer, commands := zcl, server, cs;
    }

    // The parameters of all commands are objects of their own.
    ghost predicate Valid() {
      && (forall i :: 0 <= i < |commands| ==> Distinct(commands[i].params))
      && forall i, j :: 0 <= i < |commands| && 0 <= j < |commands| && i != j ==> forall x :: x in commands[i].params ==> x !in commands[j].params
    }

    ghost function Parameters(): set<ZclAttribute> {
      set i, j | 0 <= i < |commands| && 0 <= j < |commands[i].params| :: commands[i].params[j]
    }

    ghost function Model(): (cs: seq<Z.Command>)
      reads Parameters()
      ensures |cs| == |commands| && forall i :: 0 <= i < |cs| ==> cs[i] == commands[i].Model()
    {
      seq(|commands|, i requires 0 <= i < |commands| reads Parameters() => commands[i].Model())
    }

    // ZclCluster::readCommand
    method ReadCommand(frame: ZclFrame) returns (ok: bool)
      requires Valid()
      modifies Parameters()
      ensures ok == Z.ReadCommand(isZcl, isServer, old(Model()), frame.Model()).Some?
      ensures ok ==> Z.ReadCommand(isZcl, isServer, old(Model()), frame.Model()) == Some(Model())
      ensures var carried := Z.FirstCarried(frame.Model(), old(Model()), isServer, 0);
              forall k :: 0 <= k < |commands| && k != carried ==> Model()[k] == old(Model()[k])
    {
      hide Z.ReadUpTo, Z.FirstCarried;
      if !isZcl {
        return false;
      }
      ghost var cs := Model();
      var stream := new DataStream(frame.payload);
      var k := FindCommand(frame);
      if k == |commands| {
        return false;
      }
      ok := ReadInto(k, stream);
      assert ok ==> Model() == cs[k := Model()[k]];
    }

    // The loop over the commands: the first one with this id and direction.
    method FindCommand(frame: ZclFrame) returns (i: nat)
      ensures i == Z.FirstCarried(frame.Model(), Model(), isServer, 0)
    {
      var toClient := (frame.frameControl / 8) % 2 == 1;
      ghost var f, cs := frame.Model(), Model();
      i := 0;
      while i < |commands|
        invariant i <= |commands| && Z.FirstCarried(f, cs, isServer, 0) == Z.FirstCarried(f, cs, isServer, i)
      {
        var c := commands[i];
        if c.id == frame.commandId {
          if isServer {
            if c.recv && !toClient {
              return;
            } else if !c.recv && toClient {
              return;
            }
          } else {
            if c.recv && toClient {
              return;
            } else if !c.recv && !toClient {
              return;
            }
          }
        }
        i := i + 1;
      }
    }

    // Reading the parameters of command k leaves the other commands alone.
    method ReadInto(k: nat, stream: DataStream) returns (ok: bool)
      requires Valid() && k < |commands| && stream.pos == 0 && !stream.pastEnd
      modifies Parameters(), stream
      ensures ok == Z.ReadUpTo(old(Model())[k].params, old(stream.data), 0, |commands[k].params|).Some?
      ensures ok ==> Model()[k] == old(Model())[k].(params := Z.ReadUpTo(old(Model())[k].params, old(stream.data), 0, |commands[k].params|).value.0)
      ensures forall j :: 0 <= j < |commands| && j != k ==> Model()[j] == old(Model()[j])
    {
      hide Z.ReadUpTo;
      ghost var failed;
      ok, failed := commands[k].ReadFromStream(stream);
      forall j | 0 <= j < |commands| && j != k ensures commands[j].Model() == old(commands[j].Model()) {
        var ps := commands[j].params;
        forall i | 0 <= i < |ps| ensures ps[i].Model() == old(ps[i].Model()) {
          assert ps[i] in commands[j].params && ps[i] !in commands[k].params;
        }
        assert Models(ps) == old(Models(ps));
      }
    }
  }
}

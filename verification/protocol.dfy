/**
  The w3mimgdisplay line protocol: the opcodes, the command line each session
  call writes, a decoder that inverts the encoding, and the parse of the size
  reply.
 */
module Protocol {
  import opened Wrappers
  import opened Ascii

  /** The opcodes of `W3MOpcode`. */
  datatype Opcode = Draw | Redraw | Terminate | SyncDrawing | SyncCommunication | GetSize | ClearImage
  {
    /** The integer the enum member stands for. */
    function Value(): (v: nat)
      ensures v <= 6
    {
      match this
      case Draw => 0
      case Redraw => 1
      case Terminate => 2
      case SyncDrawing => 3
      case SyncCommunication => 4
      case GetSize => 5
      case ClearImage => 6
    }
  }

  /** `W3MOpcode(v)`: the member with value `v`, if there is one. */
  function OpcodeOf(v: int): (r: Option<Opcode>)
    ensures r.Some? <==> 0 <= v <= 6
    ensures r.Some? ==> r.value.Value() == v
  {
    if v == 0 then Some(Draw)
    else if v == 1 then Some(Redraw)
    else if v == 2 then Some(Terminate)
    else if v == 3 then Some(SyncDrawing)
    else if v == 4 then Some(SyncCommunication)
    else if v == 5 then Some(GetSize)
    else if v == 6 then Some(ClearImage)
    else None
  }

  /** The seven opcodes carry seven distinct values, and `OpcodeOf` finds each one. */
  lemma OpcodeValuesDistinct(a: Opcode, b: Opcode)
    ensures a.Value() == b.Value() <==> a == b
    ensures OpcodeOf(a.Value()) == Some(a)
  {
  }

  // ---------------------------------------------------------------------------
  // Command lines
  // ---------------------------------------------------------------------------

  /** The integer arguments of a draw or redraw call, in the order they go on the wire. */
  datatype Placement = Placement(n: int, x: int, y: int, w: int, h: int, sx: int, sy: int, sw: int, sh: int)
  {
    function Values(): (v: seq<int>)
      ensures |v| == 9
    {
      [n, x, y, w, h, sx, sy, sw, sh]
    }
  }

  function PlacementOf(v: seq<int>): (p: Placement)
    requires |v| == 9
    ensures p.Values() == v
  {
    Placement(v[0], v[1], v[2], v[3], v[4], v[5], v[6], v[7], v[8])
  }

  /** The integers `v`, each in `%d` form and followed by `;`. */
  function Fields(v: seq<int>): Bytes {
    if v == [] then [] else Decimal(v[0]) + [SEMICOLON] + Fields(v[1..])
  }

  /**
    The line `_draw` writes: the opcode and the nine integers, each in `%d` form
    and followed by `;`, then the path as raw bytes and a newline. The sizes and
    offsets the caller leaves out are 0.
   */
  function DrawLine(op: Opcode, path: Bytes, n: int, x: int, y: int,
                    w: int := 0, h: int := 0, sx: int := 0, sy: int := 0, sw: int := 0, sh: int := 0): (r: Bytes)
    ensures var k := |r| - |path| - 1;
      && 0 <= k && r[k..] == path + [NEWLINE] && NEWLINE !in r[..k]
      && var prefix := Decimal(op.Value()) + [SEMICOLON];
         |prefix| <= k && r[..|prefix|] == prefix
  {
    var v := [op.Value(), n, x, y, w, h, sx, sy, sw, sh];
    DrawLineShape(v, path);
    Fields(v) + path + [NEWLINE]
  }

  /** `b'2;\n'`, written by `terminate`: the terminate opcode as a lone field. */
  function TerminateLine(): (r: Bytes)
    ensures r == Fields([Terminate.Value()]) + [NEWLINE]
  {
    FieldsOne(2);
    AsciiOf("2;\n")
  }

  /** `b'3;\n'`, written by `sync`: the sync-drawing opcode as a lone field. */
  function SyncLine(): (r: Bytes)
    ensures r == Fields([SyncDrawing.Value()]) + [NEWLINE]
  {
    FieldsOne(3);
    AsciiOf("3;\n")
  }

  /** `b'4;\n'`, written by `nop`: the sync-communication opcode as a lone field. */
  function NopLine(): (r: Bytes)
    ensures r == Fields([SyncCommunication.Value()]) + [NEWLINE]
  {
    FieldsOne(4);
    AsciiOf("4;\n")
  }

  /** The line `get_size` writes: `5;path` and a newline, the opcode as the first field. */
  function GetSizeLine(path: Bytes): (r: Bytes)
    ensures r == Fields([GetSize.Value()]) + path + [NEWLINE]
  {
    FieldsOne(5);
    AsciiOf("5;") + path + [NEWLINE]
  }

  /** The line `clear` writes: `6;x;y;w;h` and a newline, its only newline. */
  function ClearLine(x: int, y: int, w: int, h: int): (r: Bytes)
    ensures |r| > 0 && r[|r| - 1] == NEWLINE && NEWLINE !in r[..|r| - 1]
  {
    ClearLineShape(x, y, w, h);
    AsciiOf("6;") + Fields([x, y, w]) + Decimal(h) + [NEWLINE]
  }

  /** One request, as the session's public calls issue them. */
  datatype Command =
    | DrawCmd(path: Bytes, at: Placement)
    | RedrawCmd(path: Bytes, at: Placement)
    | TerminateCmd
    | SyncCmd
    | NopCmd
    | GetSizeCmd(path: Bytes)
    | ClearCmd(x: int, y: int, w: int, h: int)
  {
    function Op(): Opcode {
      match this
      case DrawCmd(_, _) => Draw
      case RedrawCmd(_, _) => Redraw
      case TerminateCmd => Terminate
      case SyncCmd => SyncDrawing
      case NopCmd => SyncCommunication
      case GetSizeCmd(_) => GetSize
      case ClearCmd(_, _, _, _) => ClearImage
    }

    /** The path, where there is one, holds no newline, so the command stays on one line. */
    predicate Framed() {
      match this
      case DrawCmd(path, _) => NEWLINE !in path
      case RedrawCmd(path, _) => NEWLINE !in path
      case GetSizeCmd(path) => NEWLINE !in path
      case _ => true
    }
  }

  /** The bytes the session writes for a command: one line, ended by a newline. */
  function Encode(c: Command): (r: Bytes)
    ensures |r| > 0 && r[|r| - 1] == NEWLINE
  {
    match c
    case DrawCmd(path, p) => DrawLine(Draw, path, p.n, p.x, p.y, p.w, p.h, p.sx, p.sy, p.sw, p.sh)
    case RedrawCmd(path, p) => DrawLine(Redraw, path, p.n, p.x, p.y, p.w, p.h, p.sx, p.sy, p.sw, p.sh)
    case TerminateCmd => TerminateLine()
    case SyncCmd => SyncLine()
    case NopCmd => NopLine()
    case GetSizeCmd(path) => GetSizeLine(path)
    case ClearCmd(x, y, w, h) => ClearLine(x, y, w, h)
  }

  /**
    Every command line begins with its opcode's `%d` value and `;`, ends with a
    newline, and holds no other newline exactly when the command is framed.
   */
  lemma EncodeShape(c: Command)
    ensures var line := Encode(c);
      && |line| > 0 && line[|line| - 1] == NEWLINE
      && (c.Framed() <==> NEWLINE !in line[..|line| - 1])
      && var prefix := Decimal(c.Op().Value()) + [SEMICOLON];
         |prefix| < |line| && line[..|prefix|] == prefix
  {
    var op := c.Op().Value();
    EncodeArguments(c);
    FramedArguments(c);
    FieldsOne(op);
    LineShape([op], Arguments(c));
  }

  // ---------------------------------------------------------------------------
  // Every line is a run of `;`-terminated integers, then a tail, then a newline
  // ---------------------------------------------------------------------------

  lemma {:induction false} FieldsAppend(u: seq<int>, v: seq<int>)
    ensures Fields(u + v) == Fields(u) + Fields(v)
    decreases |u|
  {
    if u == [] {
      assert u + v == v;
    } else {
      var w := u[1..];
      assert u == [u[0]] + w;
      assert u + v == [u[0]] + (w + v);
      FieldsAppend(w, v);
      FieldsCons(u[0], w + v);
      FieldsCons(u[0], w);
      ConcatAssoc(Decimal(u[0]) + [SEMICOLON], Fields(w), Fields(v));
    }
  }

  lemma ConcatAssoc(a: Bytes, b: Bytes, c: Bytes)
    ensures a + (b + c) == (a + b) + c
  {
  }

  lemma FieldsCons(i: int, v: seq<int>)
    ensures Fields([i] + v) == Decimal(i) + [SEMICOLON] + Fields(v)
  {
    assert ([i] + v)[1..] == v;
  }

  lemma FieldsOne(i: int)
    ensures Fields([i]) == Decimal(i) + [SEMICOLON]
  {
    assert [i][1..] == [];
  }

  lemma {:induction false} FieldsNoNewline(v: seq<int>)
    ensures NEWLINE !in Fields(v)
    decreases |v|
  {
    if v != [] {
      DecimalHasNoSeparator(v[0]);
      FieldsNoNewline(v[1..]);
    }
  }

  /**
    A line made of `;`-terminated integers, a tail and a newline starts with its
    first integer and `;`, and holds no other newline exactly when the tail holds none.
   */
  lemma LineShape(v: seq<int>, tail: Bytes)
    requires v != []
    ensures var line := Fields(v) + tail + [NEWLINE];
      && line[..|line| - 1] == Fields(v) + tail
      && (NEWLINE !in line[..|line| - 1] <==> NEWLINE !in tail)
      && |Fields([v[0]])| < |line| && line[..|Fields([v[0]])|] == Fields([v[0]])
  {
    LineBody(v, tail);
    LineHead(v, tail);
  }

  lemma LineBody(v: seq<int>, tail: Bytes)
    ensures var line := Fields(v) + tail + [NEWLINE];
      && line[..|line| - 1] == Fields(v) + tail
      && (NEWLINE !in line[..|line| - 1] <==> NEWLINE !in tail)
  {
    var body := Fields(v) + tail;
    PrefixOfConcat(body, [NEWLINE]);
    FieldsNoNewline(v);
  }

  lemma LineHead(v: seq<int>, tail: Bytes)
    requires v != []
    ensures var line := Fields(v) + tail + [NEWLINE];
      |Fields([v[0]])| < |line| && line[..|Fields([v[0]])|] == Fields([v[0]])
  {
    var head := Fields([v[0]]);
    var rest := Fields(v[1..]);
    FieldsHead(v);
    ConcatAssoc(head, rest, tail);
    ConcatAssoc(head, rest + tail, [NEWLINE]);
    PrefixOfConcat(head, rest + tail + [NEWLINE]);
  }

  lemma FieldsHead(v: seq<int>)
    requires v != []
    ensures Fields(v) == Fields([v[0]]) + Fields(v[1..])
  {
    FieldsOne(v[0]);
  }

  lemma PrefixOfConcat(a: Bytes, b: Bytes)
    ensures (a + b)[..|a|] == a
  {
  }

  lemma DrawLineShape(v: seq<int>, path: Bytes)
    requires v != []
    ensures var r := Fields(v) + path + [NEWLINE]; var k := |r| - |path| - 1;
      && 0 <= k && r[k..] == path + [NEWLINE] && NEWLINE !in r[..k]
      && var prefix := Decimal(v[0]) + [SEMICOLON];
         |prefix| <= k && r[..|prefix|] == prefix
  {
    var r := Fields(v) + path + [NEWLINE];
    LineTail(Fields(v), path);
    FieldsNoNewline(v);
    assert |r| - |path| - 1 == |Fields(v)|;
    LineHead(v, path);
    FieldsOne(v[0]);
  }

  lemma LineTail(a: Bytes, tail: Bytes)
    ensures var r := a + tail + [NEWLINE];
      r[|a|..] == tail + [NEWLINE] && r[..|a|] == a
  {
    ConcatAssoc(a, tail, [NEWLINE]);
  }

  lemma ClearLineShape(x: int, y: int, w: int, h: int)
    ensures var r := AsciiOf("6;") + Fields([x, y, w]) + Decimal(h) + [NEWLINE];
      r[|r| - 1] == NEWLINE && NEWLINE !in r[..|r| - 1]
  {
    var body := AsciiOf("6;") + Fields([x, y, w]) + Decimal(h);
    FieldsNoNewline([x, y, w]);
    DecimalHasNoSeparator(h);
    PrefixOfConcat(body, [NEWLINE]);
  }

  lemma DrawLineFields(op: Opcode, path: Bytes, p: Placement)
    ensures DrawLine(op, path, p.n, p.x, p.y, p.w, p.h, p.sx, p.sy, p.sw, p.sh)
         == Fields([op.Value()] + p.Values()) + path + [NEWLINE]
  {
    assert [op.Value()] + p.Values() == [op.Value(), p.n, p.x, p.y, p.w, p.h, p.sx, p.sy, p.sw, p.sh];
  }

  // ---------------------------------------------------------------------------
  // Decoding: the inverse of `Encode`
  // ---------------------------------------------------------------------------

  /** What follows the opcode field on a command's line, before the newline. */
  function Arguments(c: Command): Bytes {
    match c
    case DrawCmd(path, p) => Fields(p.Values()) + path
    case RedrawCmd(path, p) => Fields(p.Values()) + path
    case TerminateCmd => []
    case SyncCmd => []
    case NopCmd => []
    case GetSizeCmd(path) => path
    case ClearCmd(x, y, w, h) => Fields([x, y, w]) + Decimal(h)
  }

  /** The bytes before the first `;`, and those after it. */
  function NextField(s: Bytes): (r: Option<(Bytes, Bytes)>)
    ensures r.Some? <==> SEMICOLON in s
    ensures r.Some? ==> SEMICOLON !in r.value.0 && s == r.value.0 + [SEMICOLON] + r.value.1
    decreases |s|
  {
    if s == [] then None
    else if s[0] == SEMICOLON then Some(([], s[1..]))
    else match NextField(s[1..])
      case None => None
      case Some((f, rest)) => Some(([s[0]] + f, rest))
  }

  /** The first `count` fields of `s` read as canonical integers, and what follows them. */
  function NextInts(s: Bytes, count: nat): (r: Option<(seq<int>, Bytes)>)
    ensures r.Some? ==> |r.value.0| == count && s == Fields(r.value.0) + r.value.1
    decreases count
  {
    if count == 0 then Some(([], s))
    else
      var field := NextField(s);
      if field.None? then None
      else
        var (f, rest) := field.value;
        var i := ParseDecimal(f);
        if i.None? then None
        else
          var more := NextInts(rest, count - 1);
          if more.None? then None
          else
            var (v, tail) := more.value;
            FieldsCons(i.value, v);
            assert f == Decimal(i.value) && rest == Fields(v) + tail;
            ConcatAssoc(Decimal(i.value) + [SEMICOLON], Fields(v), tail);
            Some(([i.value] + v, tail))
  }

  /** The nine integers of a draw or redraw line, and the path after them. */
  function DecodePlacement(rest: Bytes): Option<(Placement, Bytes)> {
    var v := NextInts(rest, 9);
    if v.None? then None else Some((PlacementOf(v.value.0), v.value.1))
  }

  /** The arguments of a clear line: three `;`-terminated integers and a last one. */
  function DecodeClear(rest: Bytes): Option<Command> {
    var v := NextInts(rest, 3);
    if v.None? then None
    else
      var h := ParseDecimal(v.value.1);
      if h.None? then None
      else Some(ClearCmd(v.value.0[0], v.value.0[1], v.value.0[2], h.value))
  }

  /** The command with opcode value `op` whose arguments are `rest`, if `rest` is well formed for it. */
  function DecodeArguments(op: int, rest: Bytes): Option<Command> {
    var code := OpcodeOf(op);
    if code.None? then None
    else match code.value
      case Draw =>
        var d := DecodePlacement(rest);
        if d.None? then None else Some(DrawCmd(d.value.1, d.value.0))
      case Redraw =>
        var d := DecodePlacement(rest);
        if d.None? then None else Some(RedrawCmd(d.value.1, d.value.0))
      case Terminate => if rest == [] then Some(TerminateCmd) else None
      case SyncDrawing => if rest == [] then Some(SyncCmd) else None
      case SyncCommunication => if rest == [] then Some(NopCmd) else None
      case GetSize => Some(GetSizeCmd(rest))
      case ClearImage => DecodeClear(rest)
  }

  /** The command a single protocol line carries, if it carries one. */
  function Decode(line: Bytes): Option<Command> {
    if line == [] || line[|line| - 1] != NEWLINE then None
    else DecodeBody(line[..|line| - 1])
  }

  /** The command a line carries, given the line without its final newline. */
  function DecodeBody(body: Bytes): Option<Command> {
    if NEWLINE in body then None
    else
      var op := NextInts(body, 1);
      if op.None? then None else DecodeArguments(op.value.0[0], op.value.1)
  }

  lemma {:induction false} NextFieldAfter(a: Bytes, b: Bytes)
    requires SEMICOLON !in a
    ensures NextField(a + [SEMICOLON] + b) == Some((a, b))
    decreases |a|
  {
    var s := a + [SEMICOLON] + b;
    if a == [] {
      assert s == [SEMICOLON] + b && s[1..] == b;
    } else {
      assert s[1..] == a[1..] + [SEMICOLON] + b;
      NextFieldAfter(a[1..], b);
      assert [a[0]] + a[1..] == a;
    }
  }

  lemma {:induction false} NextIntsFields(v: seq<int>, tail: Bytes)
    ensures NextInts(Fields(v) + tail, |v|) == Some((v, tail))
    decreases |v|
  {
    if v != [] {
      var s := Fields(v) + tail;
      var rest := Fields(v[1..]) + tail;
      FieldsCons(v[0], v[1..]);
      assert [v[0]] + v[1..] == v;
      ConcatAssoc(Decimal(v[0]) + [SEMICOLON], Fields(v[1..]), tail);
      assert s == Decimal(v[0]) + [SEMICOLON] + rest;
      DecimalHasNoSeparator(v[0]);
      NextFieldAfter(Decimal(v[0]), rest);
      ParseDecimalIff(Decimal(v[0]), v[0]);
      NextIntsFields(v[1..], tail);
    } else {
      assert Fields(v) + tail == tail;
    }
  }

  lemma DrawArguments(op: Opcode, path: Bytes, p: Placement)
    ensures DrawLine(op, path, p.n, p.x, p.y, p.w, p.h, p.sx, p.sy, p.sw, p.sh)
         == Fields([op.Value()]) + (Fields(p.Values()) + path) + [NEWLINE]
  {
    DrawLineFields(op, path, p);
    FieldsAppend([op.Value()], p.Values());
    ConcatAssoc(Fields([op.Value()]), Fields(p.Values()), path);
  }

  lemma ClearArguments(x: int, y: int, w: int, h: int)
    ensures ClearLine(x, y, w, h) == Fields([ClearImage.Value()]) + (Fields([x, y, w]) + Decimal(h)) + [NEWLINE]
  {
    FieldsOne(6);
    ConcatAssoc(AsciiOf("6;"), Fields([x, y, w]), Decimal(h));
  }

  /** A command's line is its opcode field, its arguments and a newline. */
  lemma EncodeArguments(c: Command)
    ensures Encode(c) == Fields([c.Op().Value()]) + Arguments(c) + [NEWLINE]
  {
    if c.DrawCmd? || c.RedrawCmd? {
      EncodeDrawArguments(c);
    } else if c.ClearCmd? {
      ClearArguments(c.x, c.y, c.w, c.h);
    } else if c.GetSizeCmd? {
      assert Arguments(c) == c.path;
    } else {
      EncodeFixedArguments(c);
    }
  }

  lemma EncodeDrawArguments(c: Command)
    requires c.DrawCmd? || c.RedrawCmd?
    ensures Encode(c) == Fields([c.Op().Value()]) + Arguments(c) + [NEWLINE]
  {
    DrawArguments(c.Op(), c.path, c.at);
  }

  lemma EncodeFixedArguments(c: Command)
    requires c.TerminateCmd? || c.SyncCmd? || c.NopCmd?
    ensures Encode(c) == Fields([c.Op().Value()]) + Arguments(c) + [NEWLINE]
  {
    assert Arguments(c) == [];
  }

  /** A command is framed exactly when its arguments hold no newline. */
  lemma FramedArguments(c: Command)
    ensures c.Framed() <==> NEWLINE !in Arguments(c)
  {
    match c
    case DrawCmd(path, p) => FieldsNoNewline(p.Values());
    case RedrawCmd(path, p) => FieldsNoNewline(p.Values());
    case ClearCmd(x, y, w, h) =>
      FieldsNoNewline([x, y, w]);
      DecimalHasNoSeparator(h);
    case _ =>
  }

  lemma DecodeArgumentsComplete(c: Command)
    ensures DecodeArguments(c.Op().Value(), Arguments(c)) == Some(c)
  {
    OpcodeValuesDistinct(c.Op(), c.Op());
    match c
    case DrawCmd(path, p) => PlacementComplete(p, path);
    case RedrawCmd(path, p) => PlacementComplete(p, path);
    case ClearCmd(x, y, w, h) => ClearComplete(x, y, w, h);
    case _ =>
  }

  lemma PlacementComplete(p: Placement, path: Bytes)
    ensures DecodePlacement(Fields(p.Values()) + path) == Some((p, path))
  {
    NextIntsFields(p.Values(), path);
    assert PlacementOf(p.Values()) == p;
  }

  lemma ClearComplete(x: int, y: int, w: int, h: int)
    ensures DecodeClear(Fields([x, y, w]) + Decimal(h)) == Some(ClearCmd(x, y, w, h))
  {
    NextIntsFields([x, y, w], Decimal(h));
    ParseDecimalIff(Decimal(h), h);
  }

  lemma DecodeArgumentsSound(op: int, rest: Bytes, c: Command)
    requires DecodeArguments(op, rest) == Some(c)
    ensures op == c.Op().Value() && rest == Arguments(c)
  {
    var code := OpcodeOf(op).value;
    assert op == code.Value();
    match code
    case Draw => PlacementSound(rest);
    case Redraw => PlacementSound(rest);
    case ClearImage =>
      var ints := NextInts(rest, 3).value;
      ClearSound(rest, ints.0, ints.1, c);
    case _ =>
  }

  lemma PlacementSound(rest: Bytes)
    requires DecodePlacement(rest).Some?
    ensures var d := DecodePlacement(rest).value; rest == Fields(d.0.Values()) + d.1
  {
  }

  lemma ClearSound(rest: Bytes, v: seq<int>, last: Bytes, c: Command)
    requires rest == Fields(v) + last && |v| == 3
    requires c.ClearCmd? && c == ClearCmd(v[0], v[1], v[2], c.h) && last == Decimal(c.h)
    ensures rest == Arguments(c)
  {
    assert v == [v[0], v[1], v[2]];
  }

  /** A framed command's line decodes back to the command. */
  lemma DecodeEncode(c: Command)
    requires c.Framed()
    ensures Decode(Encode(c)) == Some(c)
  {
    var body := Fields([c.Op().Value()]) + Arguments(c);
    EncodeArguments(c);
    PrefixOfConcat(body, [NEWLINE]);
    DecodeBodyComplete(c);
  }

  lemma DecodeBodyComplete(c: Command)
    requires c.Framed()
    ensures DecodeBody(Fields([c.Op().Value()]) + Arguments(c)) == Some(c)
  {
    FramedArguments(c);
    FieldsNoNewline([c.Op().Value()]);
    NextIntsFields([c.Op().Value()], Arguments(c));
    DecodeArgumentsComplete(c);
  }

  lemma LastSplit(line: Bytes)
    requires line != []
    ensures line == line[..|line| - 1] + [line[|line| - 1]]
  {
  }

  /** A line that decodes is the command's opcode field, its arguments and a newline. */
  lemma DecodedLine(line: Bytes, c: Command)
    requires Decode(line) == Some(c)
    ensures line == Fields([c.Op().Value()]) + Arguments(c) + [NEWLINE]
    ensures NEWLINE !in Arguments(c)
  {
    var body := line[..|line| - 1];
    assert DecodeBody(body) == Some(c);
    DecodedBody(body, c);
    LastSplit(line);
  }

  lemma DecodedBody(body: Bytes, c: Command)
    requires DecodeBody(body) == Some(c)
    ensures body == Fields([c.Op().Value()]) + Arguments(c)
    ensures NEWLINE !in Arguments(c)
  {
    var first := NextInts(body, 1);
    var op := first.value.0;
    var rest := first.value.1;
    assert NEWLINE !in body && body == Fields(op) + rest;
    DecodeArgumentsSound(op[0], rest, c);
    assert op == [op[0]];
    assert rest == body[|Fields(op)|..];
  }

  /** A line decodes to a command only if it is that command's line, byte for byte. */
  lemma EncodeDecode(line: Bytes, c: Command)
    requires Decode(line) == Some(c)
    ensures c.Framed() && Encode(c) == line
  {
    DecodedLine(line, c);
    FramedArguments(c);
    EncodeArguments(c);
  }

  /** Decoding is the exact inverse of encoding on framed commands. */
  lemma DecodeIff(line: Bytes, c: Command)
    ensures Decode(line) == Some(c) <==> c.Framed() && line == Encode(c)
  {
    if Decode(line) == Some(c) {
      EncodeDecode(line, c);
    }
    if c.Framed() && line == Encode(c) {
      DecodeEncode(c);
    }
  }

  // ---------------------------------------------------------------------------
  // The reply to `get_size`
  // ---------------------------------------------------------------------------

  /**
    Why `get_size` raises after reading its reply: `int()` rejects the first or
    the second field (`ValueError`), or the reply has no second field (`IndexError`).
   */
  datatype SizeError = InvalidInteger(field: nat) | MissingField

  /**
    `wh = reply.split(" ")` then `(int(wh[0]), int(wh[1]))`, in Python's order of
    evaluation: the first field is converted before the second is looked up.
   */
  function ParseSize(reply: Bytes): (r: Result<(int, int), SizeError>)
    ensures r.Success? ==> SPACE in reply
    ensures r == Failure(MissingField) ==> SPACE !in reply
  {
    var wh := Split(reply, SPACE);
    var w := ParseInt(wh[0]);
    if w.None? then Failure(InvalidInteger(0))
    else if |wh| < 2 then Failure(MissingField)
    else
      var h := ParseInt(wh[1]);
      if h.None? then Failure(InvalidInteger(1)) else Success((w.value, h.value))
  }

  /** The reply whose first two fields are the numbers `w` and `h` parses to the pair. */
  lemma ParseSizeFields(reply: Bytes, w: int, h: int, first: Bytes, rest: Bytes)
    requires reply == first + [SPACE] + rest && SPACE !in first
    requires ParseInt(first) == Some(w)
    requires ParseInt(Split(rest, SPACE)[0]) == Some(h)
    ensures ParseSize(reply) == Success((w, h))
  {
    SplitAfter(first, SPACE, rest);
  }

  /**
    The converse of `ParseSizeFields`: a reply parses to the pair only when it
    is a space-free first field holding `w`, a space, and a rest whose first
    field holds `h`.
   */
  lemma ParseSizeSuccess(reply: Bytes, w: int, h: int)
    requires ParseSize(reply) == Success((w, h))
    ensures exists first, rest :: reply == first + [SPACE] + rest && SPACE !in first
                                  && ParseInt(first) == Some(w)
                                  && ParseInt(Split(rest, SPACE)[0]) == Some(h)
  {
    var wh := Split(reply, SPACE);
    var first, rest := wh[0], Join(wh[1..], SPACE);
    JoinSplit(reply, SPACE);
    assert reply == first + [SPACE] + rest;
    SplitSeparates(reply, SPACE);
    assert SPACE !in first;
    SplitAfter(first, SPACE, rest);
    assert Split(rest, SPACE) == wh[1..];
  }

  /** The helper's reply `width height` and a newline parses to the pair. */
  lemma ParseSizeReply(w: int, h: int)
    ensures ParseSize(Decimal(w) + [SPACE] + Decimal(h) + [NEWLINE]) == Success((w, h))
  {
    var tail := Decimal(h) + [NEWLINE];
    ParseIntDecimal(w, []);
    assert Decimal(w) + [] == Decimal(w);
    DecimalHasNoSeparator(w);
    LastFieldIsNumber(h);
    ConcatAssoc(Decimal(w) + [SPACE], Decimal(h), [NEWLINE]);
    ParseSizeFields(Decimal(w) + [SPACE] + Decimal(h) + [NEWLINE], w, h, Decimal(w), tail);
  }

  /** Fields after the second are ignored, whatever they hold. */
  lemma ParseSizeExtraFields(w: int, h: int, more: Bytes)
    ensures ParseSize(Decimal(w) + [SPACE] + Decimal(h) + [SPACE] + more) == Success((w, h))
  {
    var head := Decimal(w) + [SPACE];
    var tail := Decimal(h) + [SPACE] + more;
    ParseIntDecimal(w, []);
    assert Decimal(w) + [] == Decimal(w);
    DecimalHasNoSeparator(w);
    FirstFieldIsNumber(h, more);
    ConcatAssoc(head, Decimal(h) + [SPACE], more);
    ConcatAssoc(head, Decimal(h), [SPACE]);
    ParseSizeFields(head + Decimal(h) + [SPACE] + more, w, h, Decimal(w), tail);
  }

  lemma LastFieldIsNumber(h: int)
    ensures ParseInt(Split(Decimal(h) + [NEWLINE], SPACE)[0]) == Some(h)
  {
    var tail := Decimal(h) + [NEWLINE];
    DecimalHasNoSeparator(h);
    SplitWhole(tail, SPACE);
    ParseIntDecimal(h, [NEWLINE]);
  }

  lemma FirstFieldIsNumber(h: int, more: Bytes)
    ensures ParseInt(Split(Decimal(h) + [SPACE] + more, SPACE)[0]) == Some(h)
  {
    assert SPACE !in Decimal(h) by {
      DecimalHasNoSeparator(h);
    }
    SplitAfter(Decimal(h), SPACE, more);
    ParseIntDecimal(h, []);
    assert Decimal(h) + [] == Decimal(h);
  }

  /** A reply holding a single number is an `IndexError`. */
  lemma ParseSizeOneField(w: int)
    ensures ParseSize(Decimal(w) + [NEWLINE]) == Failure(MissingField)
  {
    DecimalHasNoSeparator(w);
    assert SPACE !in Decimal(w) + [NEWLINE];
    SplitWhole(Decimal(w) + [NEWLINE], SPACE);
    ParseIntDecimal(w, [NEWLINE]);
  }

  /** Two spaces in a row leave an empty second field, which `int()` rejects. */
  lemma ParseSizeDoubleSpace(w: int, more: Bytes)
    ensures ParseSize(Decimal(w) + [SPACE, SPACE] + more) == Failure(InvalidInteger(1))
  {
    DecimalHasNoSeparator(w);
    assert Decimal(w) + [SPACE, SPACE] + more == Decimal(w) + [SPACE] + ([] + [SPACE] + more);
    SplitAfter(Decimal(w), SPACE, [] + [SPACE] + more);
    SplitAfter([], SPACE, more);
    ParseIntDecimal(w, []);
    assert Decimal(w) + [] == Decimal(w);
    ParseIntNeedsDigit([]);
  }

  /** A reply whose first field holds no digit, such as `abc`, is a `ValueError` on that field. */
  lemma ParseSizeNotANumber(reply: Bytes)
    requires forall k | 0 <= k < |reply| :: !IsDigit(reply[k])
    ensures ParseSize(reply) == Failure(InvalidInteger(0))
  {
    var first := Split(reply, SPACE)[0];
    SplitFirst(reply, SPACE);
    ParseIntNeedsDigit(first);
  }

  // ---------------------------------------------------------------------------
  // Concrete lines
  // ---------------------------------------------------------------------------

  /**
    Drawing image `path` as image 1 at the origin, 64 by 64, with the other
    sizes left out, writes `0;1;0;0;64;64;0;0;0;0;`, the path and a newline.
   */
  lemma ExampleDrawLine(path: Bytes)
    ensures DrawLine(Draw, path, 1, 0, 0, 64, 64)
         == AsciiOf("0;1;0;0;") + AsciiOf("64;64;") + AsciiOf("0;0;0;0;") + path + [NEWLINE]
  {
    assert DrawLine(Draw, path, 1, 0, 0, 64, 64) == Fields([0, 1, 0, 0] + [64, 64] + [0, 0, 0, 0]) + path + [NEWLINE] by {
      assert [Draw.Value(), 1, 0, 0, 64, 64, 0, 0, 0, 0] == [0, 1, 0, 0] + [64, 64] + [0, 0, 0, 0];
    }
    ExampleFields();
  }

  lemma ExampleFields()
    ensures Fields([0, 1, 0, 0] + [64, 64] + [0, 0, 0, 0])
         == AsciiOf("0;1;0;0;") + AsciiOf("64;64;") + AsciiOf("0;0;0;0;")
  {
    FieldsAppend([0, 1, 0, 0] + [64, 64], [0, 0, 0, 0]);
    FieldsAppend([0, 1, 0, 0], [64, 64]);
    ExampleOrigin();
    ExampleSize();
    ExampleZeros();
  }

  lemma ExampleOrigin()
    ensures Fields([0, 1, 0, 0]) == AsciiOf("0;1;0;0;")
  {
    FieldsCons(0, [1, 0, 0]); FieldsCons(1, [0, 0]); FieldsCons(0, [0]); FieldsOne(0);
    assert [0] + [1, 0, 0] == [0, 1, 0, 0] && [1] + [0, 0] == [1, 0, 0] && [0] + [0] == [0, 0];
  }

  lemma ExampleSize()
    ensures Fields([64, 64]) == AsciiOf("64;64;")
  {
    FieldsCons(64, [64]); FieldsOne(64);
    assert [64] + [64] == [64, 64];
    assert NatDigits(64) == NatDigits(6) + [DigitOf(4)];
  }

  lemma ExampleZeros()
    ensures Fields([0, 0, 0, 0]) == AsciiOf("0;0;0;0;")
  {
    FieldsCons(0, [0, 0, 0]); FieldsCons(0, [0, 0]); FieldsCons(0, [0]); FieldsOne(0);
    assert [0] + [0, 0, 0] == [0, 0, 0, 0] && [0] + [0, 0] == [0, 0, 0] && [0] + [0] == [0, 0];
  }

  /** The reply `100 200` and a newline is the size (100, 200); `int()` ignores the newline. */
  lemma ExampleSizeReply()
    ensures ParseSize(AsciiOf("100 200\n")) == Success((100, 200))
  {
    assert NatDigits(100) == NatDigits(10) + [DigitOf(0)];
    assert NatDigits(10) == NatDigits(1) + [DigitOf(0)];
    assert NatDigits(200) == NatDigits(20) + [DigitOf(0)];
    assert NatDigits(20) == NatDigits(2) + [DigitOf(0)];
    assert AsciiOf("100 200\n") == Decimal(100) + [SPACE] + Decimal(200) + [NEWLINE];
    ParseSizeReply(100, 200);
  }

  /** The reply `abc` and a newline is a `ValueError` on the first field. */
  lemma ExampleBadReply()
    ensures ParseSize(AsciiOf("abc\n")) == Failure(InvalidInteger(0))
  {
    ParseSizeNotANumber(AsciiOf("abc\n"));
  }
}

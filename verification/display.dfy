/**
  `W3MImageDisplay`: a session with one w3mimgdisplay helper. The helper's
  standard input is modelled as the list of byte strings the session has
  written to it, one per `write` call; its standard output as the reply lines
  each reading call is given.
 */
module Display {
  import opened Wrappers
  import opened Ascii
  import opened Protocol

  /** The bytes of the writes `chunks`, in order: what the helper reads. */
  function Concat(chunks: seq<Bytes>): (r: Bytes)
    ensures chunks == [] ==> r == []
    ensures chunks != [] ==> chunks[0] <= r
  {
    if chunks == [] then [] else Concat(chunks[..|chunks| - 1]) + chunks[|chunks| - 1]
  }

  /** Writing `a` then `b` puts the bytes of `a` then those of `b` on the stream. */
  lemma {:induction false} ConcatAppend(a: seq<Bytes>, b: seq<Bytes>)
    ensures Concat(a + b) == Concat(a) + Concat(b)
    decreases |b|
  {
    if b == [] {
      assert a + b == a;
    } else {
      var last := b[|b| - 1];
      assert (a + b)[..|a + b| - 1] == a + b[..|b| - 1];
      ConcatAppend(a, b[..|b| - 1]);
    }
  }

  class W3MImageDisplay {
    /** The helper executable; spawning it is not modelled. */
    const path: Bytes
    /** Whether every draw and redraw is followed by a sync. */
    const autoSync: bool
    /** The argument of every `write` call so far, oldest first. */
    var written: seq<Bytes>
    /** Every reply line read from the helper so far, oldest first. */
    var received: seq<Bytes>

    constructor (path: Bytes := AsciiOf("w3mimgdisplay"), autoSync: bool := true)
      ensures this.path == path && this.autoSync == autoSync
      ensures written == [] && received == []
    {
      this.path := path;
      this.autoSync := autoSync;
      written := [];
      received := [];
    }

    /** The bytes sent to the helper so far. */
    function Wire(): (r: Bytes)
      reads this
      ensures written == [] ==> r == []
      ensures written != [] ==> written[0] <= r
    {
      Concat(written)
    }

    /** Sends `data` to the helper; nothing already sent changes. */
    method Write(data: Bytes)
      modifies this`written
      ensures written == old(written) + [data]
      ensures Wire() == old(Wire()) + data
    {
      written := written + [data];
      assert written[..|written| - 1] == old(written);
    }

    /** `_draw`: the draw line for `op`, then a sync line when auto-sync is on. */
    method DrawWith(op: Opcode, imagePath: Bytes, n: int, x: int, y: int,
                    w: int, h: int, sx: int, sy: int, sw: int, sh: int)
      modifies this`written
      ensures written == old(written) + [DrawLine(op, imagePath, n, x, y, w, h, sx, sy, sw, sh)]
                                      + (if autoSync then [SyncLine()] else [])
      ensures Wire() == old(Wire()) + DrawLine(op, imagePath, n, x, y, w, h, sx, sy, sw, sh)
                                    + (if autoSync then SyncLine() else [])
    {
      Write(DrawLine(op, imagePath, n, x, y, w, h, sx, sy, sw, sh));
      if autoSync {
        Sync();
      }
    }

    /** `draw`: shows image `imagePath` as image number `n` with its top left corner at (`x`, `y`). */
    method Draw(imagePath: Bytes, n: int, x: int, y: int,
                w: int := 0, h: int := 0, sx: int := 0, sy: int := 0, sw: int := 0, sh: int := 0)
      modifies this`written
      ensures written == old(written) + [DrawLine(Protocol.Draw, imagePath, n, x, y, w, h, sx, sy, sw, sh)]
                                      + (if autoSync then [SyncLine()] else [])
      ensures Wire() == old(Wire()) + DrawLine(Protocol.Draw, imagePath, n, x, y, w, h, sx, sy, sw, sh)
                                    + (if autoSync then SyncLine() else [])
    {
      DrawWith(Protocol.Draw, imagePath, n, x, y, w, h, sx, sy, sw, sh);
    }

    /** `redraw`: as `draw`, with the redraw opcode. */
    method Redraw(imagePath: Bytes, n: int, x: int, y: int,
                  w: int := 0, h: int := 0, sx: int := 0, sy: int := 0, sw: int := 0, sh: int := 0)
      modifies this`written
      ensures written == old(written) + [DrawLine(Protocol.Redraw, imagePath, n, x, y, w, h, sx, sy, sw, sh)]
                                      + (if autoSync then [SyncLine()] else [])
      ensures Wire() == old(Wire()) + DrawLine(Protocol.Redraw, imagePath, n, x, y, w, h, sx, sy, sw, sh)
                                    + (if autoSync then SyncLine() else [])
    {
      DrawWith(Protocol.Redraw, imagePath, n, x, y, w, h, sx, sy, sw, sh);
    }

    /** `terminate`: tells the helper to stop drawing. */
    method Terminate()
      modifies this`written
      ensures written == old(written) + [TerminateLine()]
      ensures Wire() == old(Wire()) + TerminateLine()
    {
      Write(TerminateLine());
    }

    /** `sync`: tells the helper to flush its drawing. */
    method Sync()
      modifies this`written
      ensures written == old(written) + [SyncLine()]
      ensures Wire() == old(Wire()) + SyncLine()
    {
      Write(SyncLine());
    }

    /**
      `nop`: asks the helper to acknowledge, then reads one reply line and drops
      it. `reply` is the line the helper answers with.
     */
    method Nop(reply: Bytes)
      modifies this`written, this`received
      ensures written == old(written) + [NopLine()]
      ensures Wire() == old(Wire()) + NopLine()
      ensures received == old(received) + [reply]
    {
      Write(NopLine());
      received := received + [reply];
    }

    /**
      `get_size`: asks for the size of image `imagePath`, reads one reply line
      and converts its first two fields. The source formats a `str` path with
      `b'5;%s\n' % path`, which Python 3 rejects with a `TypeError` before
      anything is written; the path here is already bytes, as that format needs.
     */
    method GetSize(imagePath: Bytes, reply: Bytes) returns (size: Result<(int, int), SizeError>)
      modifies this`written, this`received
      ensures written == old(written) + [GetSizeLine(imagePath)]
      ensures Wire() == old(Wire()) + GetSizeLine(imagePath)
      ensures received == old(received) + [reply]
      ensures size == ParseSize(reply)
    {
      Write(GetSizeLine(imagePath));
      received := received + [reply];
      size := ParseSize(reply);
    }

    /** `clear`: clears the rectangle of width `w` and height `h` at (`x`, `y`). */
    method Clear(x: int, y: int, w: int, h: int)
      modifies this`written
      ensures written == old(written) + [ClearLine(x, y, w, h)]
      ensures Wire() == old(Wire()) + ClearLine(x, y, w, h)
    {
      Write(ClearLine(x, y, w, h));
    }

    /**
      `__del__`: sends the terminate line; waiting for the helper to exit is not
      modelled. Nothing keeps track of an earlier `terminate`, so a session that
      was terminated explicitly sends the line a second time here.
     */
    method Close()
      modifies this`written
      ensures written == old(written) + [TerminateLine()]
      ensures Wire() == old(Wire()) + TerminateLine()
    {
      Terminate();
    }
  }

  /** A session without auto-sync writes exactly one line for one draw. */
  method DrawOnce(imagePath: Bytes) returns (d: W3MImageDisplay)
    ensures d.written == [AsciiOf("0;1;0;0;") + AsciiOf("64;64;") + AsciiOf("0;0;0;0;") + imagePath + [NEWLINE]]
  {
    d := new W3MImageDisplay(AsciiOf("/usr/lib/w3m/w3mimgdisplay"), false);
    d.Draw(imagePath, 1, 0, 0, 64, 64);
    ExampleDrawLine(imagePath);
  }
}

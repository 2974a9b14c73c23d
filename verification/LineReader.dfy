/** Reading a script line by line through a fixed chunk and a growing buffer
    (exec_frame_stream_core, src/exec_frame.c). */
module LineReader {
  import opened Options
  import opened Strings

  predicate NulFree(s: string) { forall i :: 0 <= i < |s| ==> s[i] != '\0' }

  /** The end of the line starting at p, its newline included. */
  function LineEnd(data: string, p: nat): (e: nat)
    requires p <= |data|
    ensures p <= e <= |data| && (p < |data| ==> e > p)
    ensures e < |data| ==> e > p && data[e - 1] == '\n'
    ensures forall i :: p <= i < e - 1 ==> data[i] != '\n'
    decreases |data| - p
  {
    if p == |data| then p else if data[p] == '\n' then p + 1 else LineEnd(data, p + 1)
  }

  /** Where fgets stops: after a newline, at the limit or at the end. */
  function ChunkEnd(data: string, p: nat, limit: nat): (e: nat)
    requires p <= |data|
    ensures p <= e <= |data| && e <= p + limit && (p < |data| && limit > 0 ==> e > p)
    decreases |data| - p
  {
    if p == |data| || limit == 0 then p
    else if data[p] == '\n' then p + 1
    else ChunkEnd(data, p + 1, limit - 1)
  }

  /** A chunk that ends with a newline completes the line; any other leaves the
      rest of the same line. */
  lemma {:induction false} ChunkOfLine(data: string, p: nat, limit: nat)
    requires p < |data| && limit > 0
    ensures var e := ChunkEnd(data, p, limit);
            if data[e - 1] == '\n' then LineEnd(data, p) == e else LineEnd(data, p) == LineEnd(data, e)
    decreases limit
  {
    if data[p] == '\n' || p + 1 == |data| || limit == 1 {
    } else {
      ChunkOfLine(data, p + 1, limit - 1);
    }
  }

  function Lines(data: string, p: nat): seq<string>
    requires p <= |data|
    decreases |data| - p
  {
    if p == |data| then [] else [data[p..LineEnd(data, p)]] + Lines(data, LineEnd(data, p))
  }

  predicate IsWholeLine(line: string, last: bool) {
    && line != ""
    && (forall i :: 0 <= i < |line| - 1 ==> line[i] != '\n')
    && (last || line[|line| - 1] == '\n')
  }

  /** The lines are whole, and together they are the stream. */
  lemma {:induction false} LinesAreTheStream(data: string, p: nat)
    requires p <= |data|
    ensures Concat(Lines(data, p)) == data[p..]
    ensures var ls := Lines(data, p);
            forall k :: 0 <= k < |ls| ==> IsWholeLine(ls[k], k == |ls| - 1)
    decreases |data| - p
  {
    if p == |data| {
    } else {
      var e := LineEnd(data, p);
      LinesAreTheStream(data, e);
      LineIsWhole(data, p);
      var ls := Lines(data, p);
      assert ls[1..] == Lines(data, e);
      forall k | 0 <= k < |ls| ensures IsWholeLine(ls[k], k == |ls| - 1) {
        assert k > 0 ==> ls[k] == ls[1..][k - 1];
      }
    }
  }

  lemma LineIsWhole(data: string, p: nat)
    requires p < |data|
    ensures var e := LineEnd(data, p);
            && data[p..] == data[p..e] + data[e..]
            && IsWholeLine(data[p..e], e == |data|)
            && (Lines(data, e) == [] <==> e == |data|)
  {
  }

  class Stream {
    const data: string
    var pos: nat

    constructor (data: string)
      ensures this.data == data && pos == 0
    {
      this.data, this.pos := data, 0;
    }

    /** fgets: false at the end of the stream; otherwise the chunk holds the
        characters read and a NUL. */
    method Fgets(chunk: array<char>) returns (got: bool)
      requires chunk.Length >= 2 && pos <= |data|
      modifies this, chunk
      ensures got <==> old(pos) < |data|
      ensures pos == ChunkEnd(data, old(pos), chunk.Length - 1)
      ensures got ==> chunk[..pos - old(pos)] == data[old(pos)..pos] && chunk[pos - old(pos)] == '\0'
    {
      if pos == |data| {
        return false;
      }
      var n := 0;
      ghost var start := pos;
      ghost var stop := ChunkEnd(data, start, chunk.Length - 1);
      while n < chunk.Length - 1 && pos < |data| && (n == 0 || data[pos - 1] != '\n')
        invariant n < chunk.Length && pos == start + n <= |data|
        invariant chunk[..n] == data[start..pos]
        invariant if n > 0 && data[pos - 1] == '\n' then stop == pos
                  else stop == ChunkEnd(data, pos, chunk.Length - 1 - n)
        decreases |data| - pos
      {
        chunk[n] := data[pos];
        n, pos := n + 1, pos + 1;
      }
      chunk[n] := '\0';
      got := true;
    }
  }

  method StrLen(a: array<char>) returns (n: nat)
    requires exists k :: 0 <= k < a.Length && a[k] == '\0'
    ensures n < a.Length && a[n] == '\0' && NulFree(a[..n])
  {
    n := 0;
    while a[n] != '\0'
      invariant n < a.Length && forall i :: 0 <= i < n ==> a[i] != '\0'
      invariant exists k :: n <= k < a.Length && a[k] == '\0'
      decreases a.Length - n
    {
      n := n + 1;
    }
  }

  /** The text a character array holds is the text before its first NUL. */
  lemma FirstNul(a: seq<char>, n: nat, k: nat)
    requires n < |a| && k < |a| && a[n] == '\0' && NulFree(a[..n]) && a[k] == '\0'
    ensures n <= k
    ensures NulFree(a[..k]) ==> n == k
  {
    assert forall i :: 0 <= i < n ==> a[..n][i] == a[i];
    assert forall i :: 0 <= i < k ==> a[..k][i] == a[i];
  }

  datatype Status = Ok | Failed | NotImplemented | Incomplete | Empty | Exit

  /** What the reader reports for the status of the line it ran: its switch
      knows four statuses, and the rest leave the initial one. */
  function FinalStatus(s: Status): Status {
    match s
    case Ok | Empty => Ok
    case Incomplete => Incomplete
    case Failed => Failed
    case NotImplemented | Exit => Ok
  }

  /** The growing line buffer: size is its allocation, len the characters held,
      and a NUL always fits behind them. */
  class LineBuffer {
    var buf: array<char>
    var len: nat

    ghost predicate Valid()
      reads this, buf
    {
      len < buf.Length && buf[len] == '\0'
    }

    ghost function Text(): string
      requires Valid()
      reads this, buf
    {
      buf[..len]
    }

    /** The first allocation, for the first chunk of a long line. */
    constructor (chunk: array<char>, n: nat)
      requires n <= chunk.Length
      ensures Valid() && fresh(buf) && Text() == chunk[..n] && len == n
    {
      var size := (n + 1) * 2;
      var b := new char[size](_ => ' ');
      for i := 0 to n
        invariant b[..i] == chunk[..i]
      {
        b[i] := chunk[i];
      }
      b[n] := '\0';
      buf := b;
      len := n;
    }

    /** Room for n more characters and the NUL. */
    method Reserve(n: nat)
      requires Valid()
      modifies this`buf
      ensures Valid() && (buf == old(buf) || fresh(buf))
      ensures Text() == old(Text()) && len + n + 1 <= buf.Length
    {
      if len + n + 1 > buf.Length {
        var b := new char[(len + n + 1) * 2](_ => ' ');
        for i := 0 to len
          modifies b
          invariant b[..i] == buf[..i]
        {
          b[i] := buf[i];
        }
        b[len] := '\0';
        buf := b;
      }
    }

    /** Grow when the chunk and a NUL would not fit, then copy. */
    method Append(chunk: array<char>, n: nat)
      requires Valid() && n <= chunk.Length && chunk != buf
      modifies this, buf
      ensures Valid() && (buf == old(buf) || fresh(buf))
      ensures Text() == old(Text()) + chunk[..n] && len == old(len) + n
    {
      Reserve(n);
      for i := 0 to n
        modifies buf
        invariant buf[..len + i] == old(Text()) + chunk[..i]
      {
        buf[len + i] := chunk[i];
      }
      len := len + n;
      buf[len] := '\0';
    }
  }

  /** fgets and strlen: the chunk holds n characters before its first NUL. */
  method ReadPiece(fp: Stream, chunk: array<char>) returns (got: bool, n: nat)
    requires fp.pos <= |fp.data| && chunk.Length >= 2
    modifies fp, chunk
    ensures got <==> old(fp.pos) < |fp.data|
    ensures fp.pos == ChunkEnd(fp.data, old(fp.pos), chunk.Length - 1)
    ensures got ==> n < chunk.Length && NulFree(chunk[..n])
    ensures got && NulFree(fp.data) ==>
      n == fp.pos - old(fp.pos) && chunk[..n] == fp.data[old(fp.pos)..fp.pos] && chunk[n - 1] == fp.data[fp.pos - 1]
  {
    n := 0;
    got := fp.Fgets(chunk);
    if got {
      n := StrLen(chunk);
      WholePiece(chunk[..], fp.data, old(fp.pos), fp.pos, n);
    }
  }

  /** The line from start has been read: up to pos, as text. */
  ghost predicate Finished(data: string, start: nat, pos: nat, text: Option<string>)
    requires start <= pos <= |data|
  {
    pos == LineEnd(data, start) && text == if start == |data| then None else Some(data[start..pos])
  }

  /** The text collected so far is part of the line, if the stream has no NULs. */
  ghost predicate PartOf(data: string, start: nat, pos: nat, text: Option<string>) {
    start <= pos <= |data| && (NulFree(data) ==> Collected(data, start, pos, text))
  }

  ghost predicate WholeOf(data: string, start: nat, pos: nat, text: Option<string>) {
    start <= pos <= |data| && (NulFree(data) ==> Finished(data, start, pos, text))
  }

  lemma AtTheEnd(data: string, start: nat, from: nat, pos: nat, limit: nat, text: Option<string>)
    requires PartOf(data, start, from, text) && from == |data| && pos == ChunkEnd(data, from, limit)
    ensures pos == |data| && WholeOf(data, start, pos, text)
  {
    if NulFree(data) {
      CollectedAtEnd(data, start, text);
    }
  }

  /** The piece from from to pos either completes the line or is one more part of it. */
  lemma OnePiece(data: string, start: nat, from: nat, pos: nat, limit: nat, text: Option<string>, piece: string)
    requires PartOf(data, start, from, text) && from < |data| && limit > 0 && pos == ChunkEnd(data, from, limit)
    requires NulFree(data) ==> piece != "" && piece == data[from..pos]
    ensures var more := Some(TextOf(text) + piece);
            if piece != "" && piece[|piece| - 1] == '\n'
            then WholeOf(data, start, pos, more) && (TextOf(text) == "" ==> WholeOf(data, start, pos, Some(piece)))
            else PartOf(data, start, pos, more)
  {
    hide LineEnd, ChunkEnd;
    if NulFree(data) {
      Collect(data, start, from, limit, text);
      assert piece[|piece| - 1] == data[pos - 1];
      assert TextOf(text) == "" ==> TextOf(text) + piece == piece;
    }
  }

  /** One turn of the loop. A whole line in one chunk is returned as such;
      otherwise the piece joins the line, or the stream is at its end. */
  method TakePiece(fp: Stream, chunk: array<char>, line: LineBuffer?, ghost start: nat, ghost text: Option<string>)
    returns (line': LineBuffer?, ghost text': Option<string>, more: bool, whole: Option<string>)
    requires PartOf(fp.data, start, fp.pos, text) && chunk.Length >= 2
    requires if line == null then text.None? else Holds(line, text) && line.buf != chunk
    modifies fp, chunk, line, if line == null then {} else {line.buf}
    ensures fp.pos <= |fp.data| && (if more then fp.pos > old(fp.pos) else fp.pos >= old(fp.pos))
    ensures line' == line || fresh(line')
    ensures line' != null ==> fresh(line'.buf) || (line' == line && line'.buf == old(line.buf))
    ensures if line' == null then text'.None? else Holds(line', text') && line'.buf != chunk
    ensures more ==> whole.None? && PartOf(fp.data, start, fp.pos, text')
    ensures !more ==> WholeOf(fp.data, start, fp.pos, if whole.Some? then whole else text')
  {
    hide Holds, PartOf, WholeOf, NulFree, Collected, Finished, LineEnd, ChunkEnd;
    PartIsInside(fp.data, start, fp.pos, text);
    ghost var from := fp.pos;
    line', text', more, whole := line, text, false, None;
    var got, n := ReadPiece(fp, chunk);
    if !got {
      AtTheEnd(fp.data, start, from, fp.pos, chunk.Length - 1, text);
      return;
    }
    ghost var piece := chunk[..n];
    OnePiece(fp.data, start, from, fp.pos, chunk.Length - 1, text, piece);
    var newline := n > 0 && chunk[n - 1] == '\n';
    if line != null {
      HoldsText(line, text);
    }
    if newline && (line == null || line.len == 0) {
      whole := Some(chunk[..n]);
      return;
    }
    line' := Extend(line, chunk, n, text);
    text' := Some(TextOf(text) + piece);
    more := !newline;
  }

  lemma PartIsInside(data: string, start: nat, pos: nat, text: Option<string>)
    requires PartOf(data, start, pos, text)
    ensures start <= pos <= |data|
  {
  }

  /** Reads one line and hands it to run; handed is the text passed on. For a
      stream without NULs it is exactly the next line, and nothing is handed
      on only at the end of the stream. */
  method StreamCore(fp: Stream, chunkSize: nat, run: string -> Status)
    returns (status: Status, handed: Option<string>)
    requires fp.pos <= |fp.data| && chunkSize >= 2
    modifies fp
    ensures old(fp.pos) <= fp.pos <= |fp.data|
    ensures status == if handed.Some? && run(handed.value) in {Incomplete, Failed} then run(handed.value) else Ok
    ensures NulFree(fp.data) ==>
      && fp.pos == LineEnd(fp.data, old(fp.pos))
      && handed == if old(fp.pos) == |fp.data| then None else Some(fp.data[old(fp.pos)..fp.pos])
  {
    hide Holds, Collected, NulFree, PartOf;
    ghost var start := fp.pos;
    var chunk := new char[chunkSize](_ => ' ');
    var line: LineBuffer? := null;
    ghost var text: Option<string> := None;
    NothingCollected(fp.data, start);
    var more := true;
    while more
      invariant start <= fp.pos <= |fp.data|
      invariant line != null ==> fresh(line) && fresh(line.buf)
      invariant if line == null then text.None? else Holds(line, text) && line.buf != chunk
      invariant if more then PartOf(fp.data, start, fp.pos, text) else WholeOf(fp.data, start, fp.pos, text)
      decreases |fp.data| - fp.pos, more
    {
      var whole;
      line, text, more, whole := TakePiece(fp, chunk, line, start, text);
      if whole.Some? {
        return FinalStatus(run(whole.value)), whole;
      }
    }
    status, handed := Ok, None;
    if line != null {
      HoldsText(line, text);
    }
    if line != null && line.len > 0 {
      handed := Some(line.buf[..line.len]);
      status := FinalStatus(run(line.buf[..line.len]));
    }
  }

  lemma HoldsText(line: LineBuffer, text: Option<string>)
    requires Holds(line, text)
    ensures line.len <= line.buf.Length && text == Some(line.buf[..line.len]) && NulFree(TextOf(text))
  {
  }

  lemma NothingCollected(data: string, start: nat)
    requires start <= |data|
    ensures PartOf(data, start, start, None)
  {
  }

  function TextOf(text: Option<string>): string {
    if text.None? then "" else text.value
  }

  /** Starts the buffer with the chunk's n characters, or adds them to it. */
  method Extend(line: LineBuffer?, chunk: array<char>, n: nat, ghost text: Option<string>) returns (line': LineBuffer)
    requires if line == null then text.None? else Holds(line, text) && line.buf != chunk
    requires n <= chunk.Length && NulFree(chunk[..n])
    modifies line, if line == null then {} else {line.buf}
    ensures Holds(line', Some(TextOf(text) + chunk[..n])) && line'.buf != chunk
    ensures if line == null then fresh(line') && fresh(line'.buf)
            else line' == line && (line.buf == old(line.buf) || fresh(line.buf))
  {
    ghost var piece := chunk[..n];
    JoinNulFree(TextOf(text), piece);
    if line == null {
      line' := new LineBuffer(chunk, n);
      assert "" + piece == piece;
    } else {
      line' := line;
      line.Append(chunk, n);
    }
  }

  /** line holds text, which its NUL ends. */
  ghost predicate Holds(line: LineBuffer, text: Option<string>)
    reads line, line.buf
  {
    line.Valid() && text == Some(line.Text()) && NulFree(line.Text()) && line.len == |line.Text()|
  }

  /** Reading until nothing is handed on gives run the lines of the stream, in order. */
  method ReadAll(fp: Stream, chunkSize: nat, run: string -> Status) returns (lines: seq<string>)
    requires fp.pos <= |fp.data| && chunkSize >= 2 && NulFree(fp.data)
    modifies fp
    ensures lines == Lines(fp.data, old(fp.pos))
  {
    lines := [];
    ghost var start := fp.pos;
    while true
      invariant fp.pos <= |fp.data|
      invariant lines + Lines(fp.data, fp.pos) == Lines(fp.data, start)
      decreases |fp.data| - fp.pos
    {
      ghost var from := fp.pos;
      var _, handed := StreamCore(fp, chunkSize, run);
      if handed.None? {
        break;
      }
      ghost var rest := Lines(fp.data, fp.pos);
      assert lines + ([handed.value] + rest) == (lines + [handed.value]) + rest;
      lines := lines + [handed.value];
    }
  }

  /** Part of one line, from start up to pos, has been collected as text. */
  ghost predicate Collected(data: string, start: nat, pos: nat, text: Option<string>)
    requires start <= pos <= |data|
  {
    match text
    case None => pos == start
    case Some(t) => t != "" && t == data[start..pos] && LineEnd(data, pos) == LineEnd(data, start)
  }

  lemma CollectedAtEnd(data: string, start: nat, text: Option<string>)
    requires start <= |data| && Collected(data, start, |data|, text)
    ensures LineEnd(data, start) == |data|
    ensures text.None? <==> start == |data|
    ensures text.Some? ==> text.value != "" && text.value == data[start..|data|]
  {
  }

  /** Adding the chunk fgets read at from either completes the line or goes on
      collecting it. */
  lemma Collect(data: string, start: nat, from: nat, limit: nat, text: Option<string>)
    requires start <= from < |data| && limit > 0 && Collected(data, start, from, text)
    ensures var pos := ChunkEnd(data, from, limit);
            var whole := TextOf(text) + data[from..pos];
            && whole == data[start..pos] && whole != ""
            && (text.None? ==> whole == data[from..pos])
            && (text.Some? ==> text.value != "")
            && if data[pos - 1] == '\n' then pos == LineEnd(data, start) else Collected(data, start, pos, Some(whole))
  {
    ChunkOfLine(data, from, limit);
    var pos := ChunkEnd(data, from, limit);
    assert data[start..pos] == data[start..from] + data[from..pos];
  }

  /** In a stream without NULs strlen measures exactly what fgets read. */
  lemma WholePiece(chunk: seq<char>, data: string, from: nat, pos: nat, n: nat)
    requires from < pos <= |data| && pos - from < |chunk| && n < |chunk|
    requires chunk[..pos - from] == data[from..pos] && chunk[pos - from] == '\0'
    requires chunk[n] == '\0' && NulFree(chunk[..n])
    ensures NulFree(data) ==> n == pos - from && chunk[..n] == data[from..pos] && chunk[n - 1] == data[pos - 1]
  {
    if NulFree(data) {
      assert forall i :: 0 <= i < pos - from ==> data[from..pos][i] == data[from + i];
      FirstNul(chunk, n, pos - from);
      assert chunk[..n][n - 1] == data[from..pos][n - 1];
    }
  }

  lemma JoinNulFree(a: string, b: string)
    requires NulFree(a) && NulFree(b)
    ensures NulFree(a + b)
  {
  }
}

/** BufferedFileReader: lines out of a fixed buffer that is filled by reads of any size. */
module BufferedFileReader {
  import opened Chars
  import opened Sequences

  function Min(a: nat, b: nat): nat {
    if a < b then a else b
  }

  /** An open file: what has not been read yet. With `full`, reads deliver all they can and never fail. */
  class File {
    const full: bool
    var pending: string
    /** Whether the last read has failed. */
    ghost var failed: bool

    constructor (contents: string, full: bool)
      ensures pending == contents && this.full == full && !failed
    {
      pending, this.full, failed := contents, full, false;
    }

    /** `read`: -1 on an error, 0 at the end of the file, and otherwise any number of bytes. */
    method Read(len: nat) returns (n: int, bytes: string)
      requires len > 0
      modifies this
      ensures -1 <= n <= len && (n <= 0 ==> bytes == "") && (n >= 0 ==> |bytes| == n)
      ensures old(pending) == bytes + pending
      ensures n == 0 <==> old(pending) == "" && n != -1
      ensures full ==> n == Min(len, |old(pending)|)
      ensures failed <==> n == -1
    {
      failed := false;
      var most := Min(len, |pending|);
      var fails: bool, some: int := *, *;
      if full {
        n := most;
      } else if fails {
        failed := true;
        return -1, "";
      } else {
        n := if 1 <= some <= most then some else most;
      }
      bytes, pending := pending[..n], pending[n..];
    }
  }

  /** A chunk, whether a newline ended it, and what follows. */
  datatype Chunk = Chunk(text: string, ended: bool, rest: string)

  /** The next chunk when reads are full: up to the first newline among the next `cap` bytes, or all of these. */
  function Next(rest: string, cap: nat): (c: Chunk)
    requires cap > 0 && rest != ""
    ensures |c.rest| < |rest| && rest == c.text + (if c.ended then "\n" else "") + c.rest
  {
    var n := Min(cap, |rest|);
    var i := Newline(rest[..n]);
    if i < n then Chunk(rest[..i], true, rest[i + 1..]) else Chunk(rest[..n], false, rest[n..])
  }

  class Reader {
    const file: File
    const bufLen: nat
    const data: array<char>
    var startNum: nat
    var endNum: nat
    var bytes: nat
    var lines: nat

    ghost predicate Valid()
      reads this, data
    {
      bufLen > 0 && data.Length == bufLen + 1 && startNum <= endNum <= bufLen
      && (startNum > 0 ==> startNum < endNum) && (startNum == 0 ==> endNum < bufLen && '\n' !in data[..endNum])
    }

    /** What has been read but not returned, and what is still to be read. */
    ghost function Rest(): string
      requires Valid()
      reads this, data, file
    {
      data[startNum..endNum] + file.pending
    }

    /** `Open`. */
    constructor (file: File, bufLen: nat)
      requires bufLen > 0
      ensures Valid() && this.file == file && this.bufLen == bufLen && fresh(data)
      ensures Rest() == file.pending && bytes == 0 && lines == 0
    {
      this.file, this.bufLen := file, bufLen;
      data := new char[bufLen + 1];
      startNum, endNum, bytes, lines := 0, 0, 0, 0;
    }

    /** The buffer while a line is being looked for. */
    ghost predicate Open()
      reads this
    {
      bufLen > 0 && data.Length == bufLen + 1 && startNum <= endNum <= bufLen
    }

    ghost function Left(): string
      requires Open()
      reads this, data, file
    {
      data[startNum..endNum] + file.pending
    }

    /** The read at the start of a round. */
    method Refill() returns (readNum: int)
      requires Open() && startNum == 0 && endNum < bufLen
      modifies this`endNum, this`bytes, data, file
      ensures Open() && startNum == 0 && Left() == old(Left())
      ensures readNum <= 0 ==> endNum == old(endNum) && data[..endNum] == old(data[..endNum])
                               && bytes == old(bytes) && file.pending == old(file.pending)
      ensures readNum == 0 ==> file.pending == ""
      ensures file.failed <==> readNum < 0
      ensures readNum > 0 ==> endNum > 0 && data[endNum] == '\0'
      ensures bytes + |file.pending| == old(bytes + |file.pending|)
      ensures file.full ==> readNum >= 0 && endNum == Min(bufLen, |Left()|)
    {
      ghost var before := data[..endNum];
      var got;
      readNum, got := file.Read(bufLen - endNum);
      if readNum <= 0 {
        return;
      }
      bytes := bytes + readNum;
      forall j | 0 <= j < readNum {
        data[endNum + j] := got[j];
      }
      endNum := endNum + readNum;
      data[endNum] := '\0';
      assert data[..endNum] == before + got;
      assert before + got + file.pending == before + (got + file.pending);
    }

    /** The scan for a newline; the end of the buffer if there is none. */
    method Scan() returns (idx: nat)
      requires Open()
      ensures startNum <= idx <= endNum && (idx < endNum ==> data[idx] == '\n') && '\n' !in data[startNum..idx]
    {
      idx := startNum;
      while idx < endNum
        invariant startNum <= idx <= endNum && '\n' !in data[startNum..idx]
      {
        if data[idx] == '\n' {
          return;
        }
        idx := idx + 1;
      }
    }

    /** A chunk was taken from the front of `rest`: it is in the buffer at `pos`, ended by a NUL, and free of newlines. */
    ghost predicate Took(rest: string, line: string, pos: nat, ended: bool)
      reads this, data, file
    {
      Valid() && rest == line + (if ended then "\n" else "") + Rest() && '\n' !in line && (ended || line != "")
      && pos + |line| < data.Length && data[pos..pos + |line|] == line && data[pos + |line|] == '\0'
      && (file.full ==> rest != "" && Chunk(line, ended, Rest()) == Next(rest, bufLen))
    }

    /** The chunk that a newline ends. */
    method TakeLine(idx: nat) returns (line: string)
      requires Open() && startNum <= idx < endNum && data[idx] == '\n' && '\n' !in data[startNum..idx]
      modifies this`startNum, this`endNum, this`lines, data
      ensures Took(old(Left()), line, old(startNum), true) && lines == old(lines) + 1
    {
      hide Next;
      line := data[startNum..idx];
      ghost var behind := data[idx + 1..endNum];
      assert data[startNum..endNum] == line + "\n" + behind;
      assert line + "\n" + behind + file.pending == line + "\n" + (behind + file.pending);
      data[idx] := '\0';
      startNum := idx + 1;
      assert data[startNum..endNum] == behind;
      if startNum >= endNum {
        startNum, endNum := 0, 0;
      }
      lines := lines + 1;
      NextIsLine(old(Left()), line, Rest(), bufLen);
    }

    /** All that is in the buffer, as a chunk. */
    method TakeAll() returns (line: string)
      requires Open() && startNum == 0 && '\n' !in data[..endNum]
      requires endNum > 0 && (file.full ==> endNum == Min(bufLen, |Left()|))
      modifies this`startNum, this`endNum, this`lines, data
      ensures Took(old(Left()), line, 0, false) && lines == old(lines) + 1
    {
      hide Next;
      line := data[..endNum];
      data[endNum] := '\0';
      startNum, endNum := 0, 0;
      lines := lines + 1;
      assert Rest() == file.pending && line + "" == line;
      if file.full {
        NextIsPart(old(Left()), line, Rest(), bufLen);
      }
    }

    /** `memmove` of the unread bytes to the front. */
    method MoveDown()
      requires Open() && 0 < startNum < endNum && '\n' !in data[startNum..endNum]
      modifies this`startNum, this`endNum, data
      ensures Valid() && Rest() == old(Left()) && startNum == 0
    {
      ghost var left := data[startNum..endNum];
      var n := endNum - startNum;
      forall j | 0 <= j < n {
        data[j] := data[startNum + j];
      }
      endNum := n;
      startNum := 0;
      assert data[..n] == left;
    }

    /** `ReadLine`: the chunk and its place in the buffer, or nothing at the end of the file or on an error. */
    method ReadLine() returns (line: Option<string>, pos: nat, ended: bool)
      requires Valid()
      modifies this`startNum, this`endNum, this`bytes, this`lines, data, file
      ensures Valid() && bytes + |file.pending| == old(bytes + |file.pending|)
      ensures line.Some? ==> Took(old(Rest()), line.value, pos, ended) && lines == old(lines) + 1
      ensures line.None? ==> Rest() == old(Rest()) && lines == old(lines) && (Rest() == "" || file.failed)
      ensures file.full ==> (line.None? <==> old(Rest()) == "")
    {
      hide Took;
      pos, ended := 0, false;
      ghost var rest := Rest();
      while true
        invariant Valid() && Rest() == rest && lines == old(lines)
        invariant bytes + |file.pending| == old(bytes + |file.pending|)
        decreases startNum
      {
        if startNum == 0 {
          var readNum := Refill();
          if readNum < 0 {
            return None, 0, false;
          }
          if readNum == 0 {
            if endNum == 0 {
              return None, 0, false;
            }
            var tail := TakeAll();
            TookIs(rest, tail, 0, false);
            return Some(tail), 0, false;
          }
        }
        var linePos := startNum;
        var idx := Scan();
        if idx < endNum {
          var text := TakeLine(idx);
          TookIs(rest, text, linePos, true);
          return Some(text), linePos, true;
        }
        if startNum == 0 {
          var all := TakeAll();
          TookIs(rest, all, 0, false);
          return Some(all), 0, false;
        }
        MoveDown();
      }
    }

    lemma TookIs(rest: string, line: string, pos: nat, ended: bool)
      requires Took(rest, line, pos, ended)
      ensures Valid() && rest != "" && rest == line + (if ended then "\n" else "") + Rest() && (ended || line != "")
      ensures '\n' !in line && (file.full ==> Chunk(line, ended, Rest()) == Next(rest, bufLen))
    {
    }
  }

  lemma NextIsLine(rest: string, line: string, behind: string, cap: nat)
    requires rest == line + "\n" + behind && '\n' !in line && |line| < cap
    ensures Next(rest, cap) == Chunk(line, true, behind)
  {
    var n := Min(cap, |rest|);
    assert rest[..n][|line|] == '\n' && forall j :: 0 <= j < |line| ==> rest[..n][j] == line[j];
    NewlineIs(rest[..n], |line|);
    assert rest[..|line|] == line && rest[|line| + 1..] == behind;
  }

  lemma NextIsPart(rest: string, part: string, behind: string, cap: nat)
    requires rest == part + behind && '\n' !in part && |part| == Min(cap, |rest|) && cap > 0 && rest != ""
    ensures Next(rest, cap) == Chunk(part, false, behind)
  {
    assert rest[..|part|] == part && rest[|part|..] == behind;
    NewlineIs(part, |part|);
  }

  // ---------- whole files ----------

  datatype Piece = Piece(text: string, ended: bool)

  /** The bytes that pieces stand for. */
  function Glue(pieces: seq<Piece>): string {
    if pieces == [] then ""
    else
      var last := pieces[|pieces| - 1];
      Glue(pieces[..|pieces| - 1]) + last.text + (if last.ended then "\n" else "")
  }

  /** The pieces that full reads give. */
  function Pieces(text: string, cap: nat): seq<Piece>
    requires cap > 0
    decreases |text|
  {
    if text == "" then []
    else
      var c := Next(text, cap);
      [Piece(c.text, c.ended)] + Pieces(c.rest, cap)
  }

  /** The lines of a text; the last need not be ended by a newline. */
  function Lines(text: string): seq<Piece>
    decreases |text|
  {
    if text == "" then []
    else
      var i := Newline(text);
      if i < |text| then [Piece(text[..i], true)] + Lines(text[i + 1..]) else [Piece(text, false)]
  }

  predicate AllFit(lines: seq<Piece>, cap: nat) {
    forall p :: p in lines ==> if p.ended then |p.text| < cap else |p.text| <= cap
  }

  /** Every line leaves room for its newline in the buffer, and the last one fits it. */
  predicate LinesFit(text: string, cap: nat) {
    AllFit(Lines(text), cap)
  }

  lemma AllFitFirst(p: Piece, rest: seq<Piece>, cap: nat)
    ensures AllFit([p] + rest, cap) <==> (if p.ended then |p.text| < cap else |p.text| <= cap) && AllFit(rest, cap)
  {
    assert forall q :: q in [p] + rest <==> q == p || q in rest;
  }

  lemma NextOfLine(text: string, cap: nat)
    requires cap > 0 && text != ""
    ensures var c, i := Next(text, cap), Newline(text);
            if i < cap && i < |text| then c == Chunk(text[..i], true, text[i + 1..])
            else c == Chunk(text[..Min(cap, |text|)], false, text[Min(cap, |text|)..]) && '\n' !in c.text
  {
    var n, i := Min(cap, |text|), Newline(text);
    NewlineIs(text[..n], Min(i, n));
  }

  lemma LinesStep(text: string, cap: nat)
    requires text != ""
    ensures var i := Newline(text);
            if i < |text| then Lines(text) == [Piece(text[..i], true)] + Lines(text[i + 1..])
            else Lines(text) == [Piece(text, false)]
    ensures AllFit([], cap)
  {
    hide Newline;
  }

  lemma PiecesStep(text: string, cap: nat)
    requires text != "" && cap > 0
    ensures var c := Next(text, cap); Pieces(text, cap) == [Piece(c.text, c.ended)] + Pieces(c.rest, cap)
    ensures Pieces("", cap) == []
  {
    hide Next;
  }

  /** Full reads give the lines of the file exactly if every line fits the buffer. */
  lemma {:induction false} PiecesAreLinesIff(text: string, cap: nat)
    requires cap > 0
    ensures Pieces(text, cap) == Lines(text) <==> LinesFit(text, cap)
    decreases |text|
  {
    hide Next, Pieces, Lines, LinesFit;
    if text == "" {
      NoLines(cap);
    } else {
      if Newline(text) < |text| {
        PiecesAreLinesIff(text[Newline(text) + 1..], cap);
        LineOrPiece(text, cap);
      } else {
        LastLineOrPiece(text, cap);
      }
    }
  }

  lemma NoLines(cap: nat)
    requires cap > 0
    ensures Lines("") == Pieces("", cap) == [] && LinesFit("", cap)
  {
  }

  lemma LineOrPiece(text: string, cap: nat)
    requires cap > 0 && Newline(text) < |text|
    requires Pieces(text[Newline(text) + 1..], cap) == Lines(text[Newline(text) + 1..])
             <==> LinesFit(text[Newline(text) + 1..], cap)
    ensures Pieces(text, cap) == Lines(text) <==> LinesFit(text, cap)
  {
    hide Next, Newline, Pieces, Lines, AllFit;
    var i := Newline(text);
    NextOfLine(text, cap);
    LinesStep(text, cap);
    PiecesStep(text, cap);
    AllFitFirst(Piece(text[..i], true), Lines(text[i + 1..]), cap);
    var c := Next(text, cap);
    FirstOf(Piece(c.text, c.ended), Pieces(c.rest, cap), Piece(text[..i], true), Lines(text[i + 1..]));
  }

  lemma FirstOf(p: Piece, ps: seq<Piece>, q: Piece, qs: seq<Piece>)
    ensures [p] + ps == [q] + qs <==> p == q && ps == qs
  {
    assert ([p] + ps)[0] == p && ([p] + ps)[1..] == ps;
    assert ([q] + qs)[0] == q && ([q] + qs)[1..] == qs;
  }

  lemma LastLineOrPiece(text: string, cap: nat)
    requires cap > 0 && text != "" && Newline(text) == |text|
    ensures Pieces(text, cap) == Lines(text) <==> LinesFit(text, cap)
  {
    hide Next, Newline, Pieces, Lines, AllFit;
    NextOfLine(text, cap);
    LinesStep(text, cap);
    PiecesStep(text, cap);
    AllFitFirst(Piece(text, false), [], cap);
    var c := Next(text, cap);
    FirstOf(Piece(c.text, c.ended), Pieces(c.rest, cap), Piece(text, false), []);
    assert [Piece(text, false)] + [] == [Piece(text, false)];
    assert |text| <= cap ==> text[|text|..] == "" && text[..|text|] == text;
  }

  lemma GlueMore(pieces: seq<Piece>, text: string, ended: bool)
    ensures Glue(pieces + [Piece(text, ended)]) == Glue(pieces) + (text + if ended then "\n" else "")
  {
    assert (pieces + [Piece(text, ended)])[..|pieces|] == pieces;
    assert Glue(pieces) + text + (if ended then "\n" else "") == Glue(pieces) + (text + if ended then "\n" else "");
  }

  lemma PiecesMore(pieces: seq<Piece>, rest: string, cap: nat)
    requires cap > 0
    ensures rest != "" ==> pieces + Pieces(rest, cap)
                           == pieces + [Piece(Next(rest, cap).text, Next(rest, cap).ended)] + Pieces(Next(rest, cap).rest, cap)
    ensures rest == "" ==> pieces + Pieces(rest, cap) == pieces
  {
    hide Next, Pieces;
    if rest != "" {
      PiecesStep(rest, cap);
      var c := Next(rest, cap);
      Regroup(pieces, [Piece(c.text, c.ended)], Pieces(c.rest, cap));
    } else {
      NoPieces(cap);
    }
  }

  lemma NoPieces(cap: nat)
    requires cap > 0
    ensures Pieces("", cap) == []
  {
  }

  /** Reading until nothing comes, with reads of any size: unless the last read has failed, the pieces and the newlines
      that ended them are the whole file, in order. With full reads the pieces are the lines if these fit. */
  method ReadAll(contents: string, full: bool, bufLen: nat) returns (pieces: seq<Piece>, reader: Reader)
    requires bufLen > 0
    ensures reader.Valid() && contents == Glue(pieces) + reader.Rest() && reader.lines == |pieces|
    ensures contents == Glue(pieces) || reader.file.failed
    ensures forall p :: p in pieces ==> '\n' !in p.text
    ensures full ==> reader.Rest() == "" && pieces == Pieces(contents, bufLen)
    ensures full && LinesFit(contents, bufLen) ==> pieces == Lines(contents)
  {
    hide Next, Pieces, Lines, LinesFit, Glue, Reader.Took;
    var file := new File(contents, full);
    reader := new Reader(file, bufLen);
    pieces := [];
    PiecesAreLinesIff(contents, bufLen);
    StartGlue(contents);
    assert [] + Pieces(contents, bufLen) == Pieces(contents, bufLen);
    var more := true;
    while more
      invariant reader.Valid() && reader.file == file && reader.bufLen == bufLen && file.full == full
      invariant fresh(reader) && fresh(reader.data) && fresh(file)
      invariant contents == Glue(pieces) + reader.Rest() && reader.lines == |pieces|
      invariant forall p :: p in pieces ==> '\n' !in p.text
      invariant full ==> Pieces(contents, bufLen) == pieces + Pieces(reader.Rest(), bufLen)
      invariant !more ==> reader.Rest() == "" || file.failed
      invariant full && !more ==> reader.Rest() == ""
      decreases |reader.Rest()|, more
    {
      ghost var rest := reader.Rest();
      PiecesMore(pieces, rest, bufLen);
      var line, pos, ended := reader.ReadLine();
      if line.None? {
        more := false;
      } else {
        reader.TookIs(rest, line.value, pos, ended);
        GlueMore(pieces, line.value, ended);
        Regroup(Glue(pieces), line.value + (if ended then "\n" else ""), reader.Rest());
        pieces := pieces + [Piece(line.value, ended)];
      }
    }
    PiecesMore(pieces, "", bufLen);
    assert Glue(pieces) + "" == Glue(pieces);
  }

  lemma StartGlue(s: string)
    ensures Glue([]) + s == s
  {
  }
}

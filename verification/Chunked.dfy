/**
 The decoder for the chunked transfer coding (section 7.1 of RFC 9112) in the gateway's HTTP client,
 and an encoder for the format it is meant to read.
 */
module Chunked {
  import opened Common

  // Bytes are characters here; nothing depends on there being only 256 of them.

  const NUL := '\0'
  const CR := '\r'
  const CRLF := "\r\n"

  // ----- the number on a chunk-size line, as strtol with base 16 reads it

  predicate IsHex(c: char) {
    '0' <= c <= '9' || 'A' <= c <= 'F' || 'a' <= c <= 'f'
  }

  function HexDigit(c: char): (d: nat)
    requires IsHex(c)
    ensures d < 16
  {
    if c <= '9' then c as int - 48 else if c <= 'F' then c as int - 55 else c as int - 87
  }

  /** The value of the leading hex digits, on top of those read before. */
  function HexFrom(acc: nat, t: string): nat
    decreases |t|
  {
    if t == [] || !IsHex(t[0]) then acc else HexFrom(acc * 16 + HexDigit(t[0]), t[1..])
  }

  predicate IsSpace(c: char) {
    '\t' <= c <= '\r' || c == ' '
  }

  function SkipSpaces(t: string): string {
    if t != [] && IsSpace(t[0]) then SkipSpaces(t[1..]) else t
  }

  /** A 0x prefix is skipped only if a hex digit follows it. */
  function SkipPrefix(t: string): string {
    if |t| > 2 && t[0] == '0' && (t[1] == 'x' || t[1] == 'X') && IsHex(t[2]) then t[2..] else t
  }

  const LONG_MAX: int := 0x7FFF_FFFF_FFFF_FFFF

  function Strtol16(t: string): int {
    var u := SkipSpaces(t);
    if u != [] && u[0] == '-' then -Min(HexFrom(0, SkipPrefix(u[1..])), LONG_MAX + 1)
    else if u != [] && u[0] == '+' then Min(HexFrom(0, SkipPrefix(u[1..])), LONG_MAX)
    else Min(HexFrom(0, SkipPrefix(u)), LONG_MAX)
  }

  /** Assigning a long to an int. */
  function ToInt32(v: int): int {
    var w := v % 0x1_0000_0000;
    if w >= 0x8000_0000 then w - 0x1_0000_0000 else w
  }

  // ----- the decoder

  datatype LineEnd = At(index: nat) | NoLineEnd | PastEnd

  /** strchr for CR from index i: a NUL before any CR means there is none. */
  function FindCr(s: string, i: nat): (r: LineEnd)
    requires i <= |s|
    ensures r.At? ==> i <= r.index < |s| && s[r.index] == CR
    decreases |s| - i
  {
    if i == |s| then PastEnd
    else if s[i] == CR then At(i)
    else if s[i] == NUL then NoLineEnd
    else FindCr(s, i + 1)
  }

  function ChunkLength(line: string): int {
    ToInt32(Strtol16(line))
  }

  /** Reads the number on a size line; the program's is ChunkLength. */
  type Reader = string -> int

  /**
   What the program finds at index p: the end of the body (a NUL, no line end, or a size of zero), or n
   bytes of data from an index on. Undefined when it would read past s or was given a negative size.
   */
  datatype SizeLine = Stop | Data(from: nat, n: nat) | Undefined

  function ReadSizeLine(len: Reader, s: string, p: nat): (r: SizeLine)
    ensures r.Data? ==> p + 2 <= r.from && r.n > 0 && r.from + r.n + 2 <= |s|
  {
    if p >= |s| then Undefined
    else if s[p] == NUL then Stop
    else
      match FindCr(s, p)
      case PastEnd => Undefined
      case NoLineEnd => Stop
      case At(e) =>
        var n := len(s[p..e]);
        if n == 0 then Stop else if n < 0 || e + 2 + n + 2 > |s| then Undefined else Data(e + 2, n)
  }

  /**
   The contents of the body once decoding ends, if it holds `done` when the received bytes s are decoded
   up to index p, and `left` bytes of it remain. None when what the program does is undefined.
   */
  function DecodeAt(len: Reader, s: string, p: nat, left: nat, done: string): Option<string>
    decreases |s| - p
  {
    if left == 0 then Some(done)
    else
      match ReadSizeLine(len, s, p)
      case Stop => Some(done)
      case Undefined => None
      case Data(from, n) =>
        DecodeAt(len, s, from + n + 2, left - Min(n, left - 1), done + s[from..from + Min(n, left - 1)])
  }

  function Decode(s: string, p: nat, left: nat): Option<string> {
    DecodeAt(ChunkLength, s, p, left, "")
  }

  /** One turn of the loop, from (p, left, done) to (p', left', done'). */
  lemma DecodeStep(len: Reader, s: string, p: nat, left: nat, done: string, p': nat, left': nat, done': string)
    requires left > 0 && ReadSizeLine(len, s, p).Data?
    requires var line := ReadSizeLine(len, s, p);
             var k := Min(line.n, left - 1);
             p' == line.from + line.n + 2 && left' == left - k && done' == done + s[line.from..line.from + k]
    ensures DecodeAt(len, s, p, left, done) == DecodeAt(len, s, p', left', done')
  {
  }

  // ----- the decoding loop; `was` is the received bytes before it overwrote any line end

  ghost predicate SameFrom(raw: array<char>, was: string, p: nat)
    reads raw
  {
    p <= raw.Length == |was| && forall i :: p <= i < |was| ==> raw[i] == was[i]
  }

  method FindLineEnd(raw: array<char>, p: nat, ghost was: string) returns (r: LineEnd)
    requires SameFrom(raw, was, p) && !FindCr(was, p).PastEnd?
    ensures r == FindCr(was, p)
  {
    var i := p;
    while raw[i] != CR && raw[i] != NUL
      invariant p <= i < raw.Length && FindCr(was, i) == FindCr(was, p)
      decreases raw.Length - i
    {
      i := i + 1;
    }
    return if raw[i] == CR then At(i) else NoLineEnd;
  }

  /** Reads the size line at p and cuts it off with a NUL. */
  method TakeSizeLine(len: Reader, raw: array<char>, p: nat, ghost was: string) returns (r: SizeLine)
    requires SameFrom(raw, was, p) && !ReadSizeLine(len, was, p).Undefined?
    modifies raw
    ensures r == ReadSizeLine(len, was, p)
    ensures r.Data? ==> SameFrom(raw, was, r.from)
  {
    if raw[p] == NUL {
      return Stop;
    }
    var lineEnd := FindLineEnd(raw, p, was);
    if lineEnd.NoLineEnd? {
      return Stop;
    }
    var e := lineEnd.index;
    assert raw[p..e] == was[p..e];
    var chunkLen := len(raw[p..e]);
    raw[e] := NUL;
    if chunkLen == 0 {
      return Stop;
    }
    return Data(e + 2, chunkLen);
  }

  /** memcpy of n bytes behind what the body holds already. */
  method Append(raw: array<char>, from: nat, body: array<char>, to: nat, n: nat)
    requires raw != body && from + n <= raw.Length && to + n <= body.Length
    modifies body
    ensures body[..to + n] == old(body[..to]) + raw[from..from + n]
  {
    for i := 0 to n
      invariant body[..to + i] == old(body[..to]) + raw[from..from + i]
    {
      body[to + i] := raw[from + i];
    }
  }

  /** One turn of the loop, from (p, bodyLen, outLeft) to (p', bodyLen', outLeft'), unless it stops. */
  method TakeChunk(len: Reader, raw: array<char>, p: nat, body: array<char>, bodyLen: nat, outLeft: nat,
                   ghost was: string)
    returns (stop: bool, p': nat, bodyLen': nat, outLeft': nat)
    requires raw != body && SameFrom(raw, was, p) && outLeft > 0 && bodyLen + outLeft == body.Length - 1
    requires !ReadSizeLine(len, was, p).Undefined?
    modifies raw, body
    ensures stop <==> ReadSizeLine(len, was, p).Stop?
    ensures stop ==> bodyLen' == bodyLen && body[..bodyLen] == old(body[..bodyLen])
    ensures !stop ==> p < p' && SameFrom(raw, was, p') && bodyLen' + outLeft' == body.Length - 1
    ensures !stop ==> DecodeAt(len, was, p', outLeft', body[..bodyLen'])
                      == DecodeAt(len, was, p, outLeft, old(body[..bodyLen]))
  {
    stop, p', bodyLen', outLeft' := true, p, bodyLen, outLeft;
    var line := TakeSizeLine(len, raw, p, was);
    if line.Stop? {
      return;
    }
    var k := Min(line.n, outLeft - 1);
    assert raw[line.from..line.from + k] == was[line.from..line.from + k];
    Append(raw, line.from, body, bodyLen, k);
    stop, p', bodyLen', outLeft' := false, line.from + line.n + 2, bodyLen + k, outLeft - k;
    DecodeStep(len, was, p, outLeft, old(body[..bodyLen]), p', outLeft', body[..bodyLen']);
  }

  /** The loop: p walks the received bytes and the body fills up. */
  method DecodeLoop(len: Reader, raw: array<char>, start: nat, body: array<char>) returns (bodyLen: nat)
    requires raw != body && start <= raw.Length && body.Length > 0
    requires DecodeAt(len, raw[..], start, body.Length - 1, "").Some?
    modifies raw, body
    ensures bodyLen < body.Length
    ensures Some(body[..bodyLen]) == DecodeAt(len, old(raw[..]), start, body.Length - 1, "")
  {
    var p, outLeft := start, body.Length - 1;
    bodyLen := 0;
    ghost var was := raw[..];
    assert body[..0] == "";
    while outLeft > 0
      invariant SameFrom(raw, was, p) && 0 <= outLeft && bodyLen + outLeft == body.Length - 1
      invariant DecodeAt(len, was, p, outLeft, body[..bodyLen]) == DecodeAt(len, was, start, body.Length - 1, "")
      decreases raw.Length - p
    {
      var stop, p', bodyLen', outLeft' := TakeChunk(len, raw, p, body, bodyLen, outLeft, was);
      if stop {
        break;
      }
      p, bodyLen, outLeft := p', bodyLen', outLeft';
    }
  }

  /** Decodes the received bytes from `start` on into the body and ends it with a NUL. */
  method DecodeBody(raw: array<char>, start: nat, body: array<char>) returns (bodyLen: nat)
    requires raw != body && start <= raw.Length && body.Length > 0
    requires Decode(raw[..], start, body.Length - 1).Some?
    modifies raw, body
    ensures bodyLen < body.Length && body[bodyLen] == NUL
    ensures Some(body[..bodyLen]) == Decode(old(raw[..]), start, body.Length - 1)
  {
    bodyLen := DecodeLoop(ChunkLength, raw, start, body);
    body[bodyLen] := NUL;
  }

  // ----- the format

  /** One chunk: the digits of its size, an optional extension and its data. */
  datatype Chunk = Chunk(size: string, ext: string, data: string)

  function HexValue(t: string): nat {
    HexFrom(0, t)
  }

  /** One or more hex digits. */
  predicate IsSize(t: string) {
    t != [] && forall i :: 0 <= i < |t| ==> IsHex(t[i])
  }

  /** A chunk extension, with the white space allowed before it, stays on its line. */
  predicate IsExtension(t: string) {
    && (t != [] ==> t[0] == ';' || t[0] == ' ' || t[0] == '\t')
    && CR !in t && NUL !in t
  }

  /** The data is not empty, its length fits an int, and the data itself is arbitrary. */
  predicate ValidChunk(c: Chunk) {
    IsSize(c.size) && IsExtension(c.ext) && HexValue(c.size) == |c.data| && 0 < |c.data| < 0x8000_0000
  }

  function EncodeChunk(c: Chunk): string {
    c.size + c.ext + CRLF + c.data + CRLF
  }

  function EncodeChunks(cs: seq<Chunk>): string {
    if cs == [] then [] else EncodeChunk(cs[0]) + EncodeChunks(cs[1..])
  }

  /** The last chunk: a size of zero, in any number of digits, and an extension. */
  datatype LastChunk = LastChunk(size: string, ext: string)

  predicate ValidLast(l: LastChunk) {
    IsSize(l.size) && IsExtension(l.ext) && HexValue(l.size) == 0
  }

  /** A chunked body: behind the line of its last chunk comes a trailer section, at least an empty line. */
  function Encode(cs: seq<Chunk>, last: LastChunk, trailer: string): string {
    EncodeChunks(cs) + (last.size + last.ext + CRLF + trailer)
  }

  function Contents(cs: seq<Chunk>): string {
    if cs == [] then [] else cs[0].data + Contents(cs[1..])
  }

  // ----- reading one line back

  lemma {:induction false} HexStops(acc: nat, t: string, u: string)
    requires u == [] || !IsHex(u[0])
    requires forall i :: 0 <= i < |t| ==> IsHex(t[i])
    ensures HexFrom(acc, t + u) == HexFrom(acc, t)
    decreases |t|
  {
    if t == [] {
      assert t + u == u;
    } else {
      assert (t + u)[1..] == t[1..] + u;
      HexStops(acc * 16 + HexDigit(t[0]), t[1..], u);
    }
  }

  lemma StrtolOfSize(size: string, ext: string)
    requires IsSize(size) && IsExtension(ext)
    ensures Strtol16(size + ext) == Min(HexValue(size), LONG_MAX)
  {
    var t := size + ext;
    assert IsHex(t[0]) && t[0] == size[0];
    assert |t| > 1 ==> t[1] != 'x' && t[1] != 'X';
    HexStops(0, size, ext);
  }

  lemma {:induction false} CrFound(s: string, i: nat, e: nat)
    requires i <= e < |s| && s[e] == CR && forall j :: i <= j < e ==> s[j] != CR && s[j] != NUL
    ensures FindCr(s, i) == At(e)
    decreases e - i
  {
    if i < e {
      CrFound(s, i + 1, e);
    }
  }

  lemma SizeLineValue(size: string, ext: string)
    requires IsSize(size) && IsExtension(ext) && HexValue(size) < 0x8000_0000
    ensures size + ext != [] && CR !in size + ext && NUL !in size + ext && ChunkLength(size + ext) == HexValue(size)
  {
    StrtolOfSize(size, ext);
  }

  /** Reading the size line in `line` that is followed by CRLF and `after`. */
  lemma LineFound(len: Reader, pre: string, line: string, after: string, s: string)
    requires line != "" && CR !in line && NUL !in line && s == pre + (line + CRLF + after)
    requires 0 <= len(line) && len(line) + 2 <= |after|
    ensures ReadSizeLine(len, s, |pre|) == if len(line) == 0 then Stop else Data(|pre| + |line| + 2, len(line))
  {
    var p, e := |pre|, |pre| + |line|;
    forall j | p <= j < e
      ensures s[j] in line
    {
      assert s[j] == line[j - p];
    }
    CrFound(s, p, e);
    assert s[p..e] == line;
  }

  /** Where the line, the data and the end of a chunk are. */
  lemma ChunkParts(pre: string, c: Chunk, rest: string, s: string, from: nat, k: nat)
    requires s == pre + EncodeChunk(c) + rest && from == |pre| + |c.size + c.ext| + 2 && k <= |c.data|
    ensures s == pre + (c.size + c.ext + CRLF + (c.data + CRLF + rest))
    ensures from + |c.data| + 2 == |pre + EncodeChunk(c)| <= |s| && s[from..from + k] == c.data[..k]
  {
  }

  /** What reading the size line of a chunk finds. */
  lemma ChunkFound(len: Reader, pre: string, c: Chunk, rest: string, s: string, k: nat)
    requires c.size + c.ext != "" && CR !in c.size + c.ext && NUL !in c.size + c.ext
    requires 0 < |c.data| == len(c.size + c.ext) && s == pre + EncodeChunk(c) + rest && k <= |c.data|
    ensures var from := |pre| + |c.size + c.ext| + 2;
            && ReadSizeLine(len, s, |pre|) == Data(from, |c.data|)
            && from + |c.data| + 2 == |pre + EncodeChunk(c)| <= |s|
            && s[from..from + k] == c.data[..k]
  {
    ChunkParts(pre, c, rest, s, |pre| + |c.size + c.ext| + 2, k);
    LineFound(len, pre, c.size + c.ext, c.data + CRLF + rest, s);
  }

  lemma DecodeOneChunk(len: Reader, pre: string, c: Chunk, rest: string, s: string, left: nat, k: nat, done: string)
    requires c.size + c.ext != "" && CR !in c.size + c.ext && NUL !in c.size + c.ext
    requires 0 < |c.data| == len(c.size + c.ext)
    requires left > 0 && k == Min(|c.data|, left - 1) && s == pre + EncodeChunk(c) + rest
    ensures DecodeAt(len, s, |pre|, left, done)
            == DecodeAt(len, s, |pre + EncodeChunk(c)|, left - k, done + c.data[..k])
  {
    ChunkFound(len, pre, c, rest, s, k);
    DecodeStep(len, s, |pre|, left, done, |pre + EncodeChunk(c)|, left - k, done + c.data[..k]);
  }

  lemma DecodeLastChunk(pre: string, last: LastChunk, trailer: string, s: string, left: nat, done: string)
    requires ValidLast(last) && |trailer| >= 2 && s == pre + (last.size + last.ext + CRLF + trailer)
    ensures DecodeAt(ChunkLength, s, |pre|, left, done) == Some(done)
  {
    SizeLineValue(last.size, last.ext);
    LineFound(ChunkLength, pre, last.size + last.ext, trailer, s);
  }

  function Cut(t: string, n: nat): string {
    t[..Min(|t|, n)]
  }

  lemma CutConcatenation(x: string, y: string, left: nat, k: nat, done: string)
    requires left > 0 && k == Min(|x|, left - 1)
    ensures done + x[..k] + Cut(y, left - k - 1) == done + Cut(x + y, left - 1)
  {
  }

  lemma {:induction false} DecodeEncodedFrom(pre: string, cs: seq<Chunk>, last: LastChunk, trailer: string,
                                             s: string, left: nat, done: string)
    requires (forall i :: 0 <= i < |cs| ==> ValidChunk(cs[i])) && ValidLast(last) && |trailer| >= 2 && left > 0
    requires s == pre + Encode(cs, last, trailer)
    ensures DecodeAt(ChunkLength, s, |pre|, left, done) == Some(done + Cut(Contents(cs), left - 1))
    decreases |cs|
  {
    if cs == [] {
      assert Encode(cs, last, trailer) == last.size + last.ext + CRLF + trailer;
      DecodeLastChunk(pre, last, trailer, s, left, done);
      assert done + "" == done;
    } else {
      var c, k := cs[0], Min(|cs[0].data|, left - 1);
      var rest := Encode(cs[1..], last, trailer);
      assert s == pre + EncodeChunk(c) + rest;
      SizeLineValue(c.size, c.ext);
      DecodeOneChunk(ChunkLength, pre, c, rest, s, left, k, done);
      DecodeEncodedFrom(pre + EncodeChunk(c), cs[1..], last, trailer, s, left - k, done + c.data[..k]);
      CutConcatenation(c.data, Contents(cs[1..]), left, k, done);
    }
  }

  // ----- main results

  /**
   For every list of non-empty chunks, whatever bytes they hold and whatever header stands before them: decoding
   writes the first bytes of their concatenation, as many as one less than `left`. With left one less than the body
   buffer this leaves room for all but two of its bytes.
   */
  lemma DecodeEncoded(header: string, cs: seq<Chunk>, last: LastChunk, trailer: string, left: nat)
    requires (forall i :: 0 <= i < |cs| ==> ValidChunk(cs[i])) && ValidLast(last) && |trailer| >= 2 && left > 0
    ensures Decode(header + Encode(cs, last, trailer), |header|, left) == Some(Cut(Contents(cs), left - 1))
  {
    assert "" + Cut(Contents(cs), left - 1) == Cut(Contents(cs), left - 1);
    DecodeEncodedFrom(header, cs, last, trailer, header + Encode(cs, last, trailer), left, "");
  }

  /** What DecodeBody leaves in the body buffer when the bytes behind the header are a chunked body. */
  method DecodeEncodedBody(raw: array<char>, start: nat, body: array<char>,
                           ghost cs: seq<Chunk>, ghost last: LastChunk, ghost trailer: string)
    returns (bodyLen: nat)
    requires (forall i :: 0 <= i < |cs| ==> ValidChunk(cs[i])) && ValidLast(last) && |trailer| >= 2
    requires raw != body && body.Length > 1
    requires start <= raw.Length && raw[start..] == Encode(cs, last, trailer)
    modifies raw, body
    ensures bodyLen < body.Length && body[bodyLen] == NUL && body[..bodyLen] == Cut(Contents(cs), body.Length - 2)
  {
    assert raw[..] == raw[..start] + Encode(cs, last, trailer);
    DecodeEncoded(raw[..start], cs, last, trailer, body.Length - 1);
    bodyLen := DecodeBody(raw, start, body);
  }

  /**
   Inputs on which decoding is undefined: behind any header, a size line whose number is negative as an int, or runs
   past what was received.
   */
  lemma BadSizeFails(header: string, line: string, after: string, left: nat)
    requires line != "" && CR !in line && NUL !in line && left > 0
    requires ChunkLength(line) < 0 || |after| < ChunkLength(line) + 2
    requires ChunkLength(line) != 0
    ensures Decode(header + (line + CRLF + after), |header|, left) == None
  {
    var s, p, e := header + (line + CRLF + after), |header|, |header| + |line|;
    forall j | p <= j < e
      ensures s[j] in line
    {
      assert s[j] == line[j - p];
    }
    CrFound(s, p, e);
    assert s[p..e] == line;
  }

  lemma MinusSize(size: string)
    requires IsSize(size)
    ensures Strtol16("-" + size) + Min(HexValue(size), LONG_MAX + 1) == 0
  {
    var t := "-" + size;
    assert t[1..] == size && SkipSpaces(t) == t;
    assert SkipPrefix(size) == size;
  }

  lemma NegativeInt(v: int)
    ensures -0x8000_0000 < v < 0 || 0x8000_0000 <= v < 0x1_0000_0000 ==> ToInt32(v) < 0
  {
  }

  /** Such lines: a minus sign before the size of any chunk, and every size that fits 32 bits but not an int. */
  lemma BadSizes(size: string)
    requires IsSize(size)
    ensures 0 < HexValue(size) < 0x8000_0000 ==> ChunkLength("-" + size) < 0
    ensures 0x8000_0000 <= HexValue(size) < 0x1_0000_0000 ==> ChunkLength(size) < 0
  {
    MinusSize(size);
    NegativeInt(Strtol16("-" + size));
    StrtolOfSize(size, "");
    assert size + "" == size;
    NegativeInt(Strtol16(size));
  }

  // ----- an encoder: every list of non-empty strings has such an encoding

  function Digit(d: nat): (c: char)
    requires d < 16
    ensures IsHex(c) && HexDigit(c) == d
  {
    if d < 10 then (48 + d) as char else (87 + d) as char
  }

  function ToHex(n: nat): (t: string)
    ensures t != []
  {
    (if n < 16 then [] else ToHex(n / 16)) + [Digit(n % 16)]
  }

  lemma {:induction false} HexAppend(acc: nat, t: string, b: char)
    requires IsHex(b) && forall i :: 0 <= i < |t| ==> IsHex(t[i])
    ensures HexFrom(acc, t + [b]) == HexFrom(acc, t) * 16 + HexDigit(b)
    decreases |t|
  {
    if t == [] {
      assert t + [b] == [b] && [b][1..] == [];
    } else {
      assert (t + [b])[1..] == t[1..] + [b];
      HexAppend(acc * 16 + HexDigit(t[0]), t[1..], b);
    }
  }

  lemma {:induction false} ToHexValue(n: nat)
    ensures IsSize(ToHex(n)) && HexValue(ToHex(n)) == n
  {
    var b := Digit(n % 16);
    if n >= 16 {
      ToHexValue(n / 16);
      HexAppend(0, ToHex(n / 16), b);
    } else {
      HexAppend(0, [], b);
      assert [] + [b] == [b];
    }
  }

  function Chunks(parts: seq<string>): seq<Chunk> {
    if parts == [] then [] else [Chunk(ToHex(|parts[0]|), [], parts[0])] + Chunks(parts[1..])
  }

  function Concat(parts: seq<string>): string {
    if parts == [] then [] else parts[0] + Concat(parts[1..])
  }

  lemma {:induction false} ChunksValid(parts: seq<string>)
    requires forall i :: 0 <= i < |parts| ==> 0 < |parts[i]| < 0x8000_0000
    ensures forall i :: 0 <= i < |Chunks(parts)| ==> ValidChunk(Chunks(parts)[i])
    ensures Contents(Chunks(parts)) == Concat(parts)
    decreases |parts|
  {
    if parts != [] {
      ToHexValue(|parts[0]|);
      ChunksValid(parts[1..]);
      assert Chunks(parts)[1..] == Chunks(parts[1..]);
    }
  }

  /** The round trip from plain strings: what does not fit the buffer is cut off, all else comes back. */
  lemma RoundTrip(header: string, parts: seq<string>, left: nat)
    requires (forall i :: 0 <= i < |parts| ==> 0 < |parts[i]| < 0x8000_0000) && left > 0
    ensures Decode(header + Encode(Chunks(parts), LastChunk("0", ""), CRLF), |header|, left)
            == Some(Cut(Concat(parts), left - 1))
  {
    ChunksValid(parts);
    assert "0"[1..] == "";
    DecodeEncoded(header, Chunks(parts), LastChunk("0", ""), CRLF, left);
  }
}

/**
 The chunked decoder on every body, well formed or not: what the number on a size line is, where decoding ends, and
 when it leaves the received bytes. The decoder looks at no line feed and at nothing behind the data of a chunk.
 */
module ChunkedBodies {
  import opened Common
  import opened Chunked

  // ----- the number on a size line

  /** The digits in either case, each with its value. */
  lemma DigitsExactly(d: nat, c: char)
    requires d < 16
    ensures IsHex(c) && HexDigit(c) == d <==> c == "0123456789abcdef"[d] || c == "0123456789ABCDEF"[d]
  {
  }

  /** One digit more counts for one place more. */
  lemma {:induction false} HexPlaces(acc: nat, t: string, c: char)
    requires IsHex(c) && forall i :: 0 <= i < |t| ==> IsHex(t[i])
    ensures HexFrom(acc, []) == acc && HexFrom(acc, t + [c]) == 16 * HexFrom(acc, t) + HexDigit(c)
    decreases |t|
  {
    if t == [] {
      assert t + [c] == [c];
      assert HexFrom(acc * 16 + HexDigit(c), [c][1..]) == acc * 16 + HexDigit(c);
    } else {
      assert (t + [c])[1..] == t[1..] + [c];
      HexPlaces(acc * 16 + HexDigit(t[0]), t[1..], c);
    }
  }

  /** Space, tab, line feed, vertical tab, form feed and carriage return. */
  predicate AllSpaces(t: string) {
    forall i :: 0 <= i < |t| ==> t[i] == ' ' || 9 <= t[i] as int <= 13
  }

  lemma {:induction false} SpacesSkipped(spaces: string, t: string)
    requires AllSpaces(spaces) && (t == "" || !(t[0] == ' ' || 9 <= t[0] as int <= 13))
    ensures SkipSpaces(spaces + t) == t
    decreases |spaces|
  {
    if spaces == "" {
      assert spaces + t == t;
    } else {
      assert (spaces + t)[1..] == spaces[1..] + t;
      SpacesSkipped(spaces[1..], t);
    }
  }

  lemma PrefixSkipped(prefix: string, digits: string, rest: string)
    requires prefix == "" || prefix == "0x" || prefix == "0X"
    requires digits != "" && IsSize(digits) && (rest == "" || !IsHex(rest[0]))
    requires prefix == "" && digits == "0" && |rest| > 1 && (rest[0] == 'x' || rest[0] == 'X') ==> !IsHex(rest[1])
    ensures HexFrom(0, SkipPrefix(prefix + digits + rest)) == HexFrom(0, digits)
  {
    var t := prefix + digits + rest;
    assert IsHex(digits[0]);
    if prefix == "" {
      assert t == digits + rest && t[0] == digits[0];
      assert |digits| > 1 ==> t[1] == digits[1] && IsHex(t[1]);
      assert |digits| == 1 && |rest| > 1 ==> t[1] == rest[0] && t[2] == rest[1] && digits == [digits[0]];
      assert SkipPrefix(t) == t;
    } else {
      assert t[2] == digits[0] && t[2..] == digits + rest;
    }
    HexStops(0, digits, rest);
  }

  /**
   The number: white space, a sign, 0x or 0X and hex digits in either case, up to the first character that is none;
   a number too large becomes the largest, or smallest, 64-bit one.
   */
  lemma NumberExactly(spaces: string, sign: string, prefix: string, digits: string, rest: string)
    requires AllSpaces(spaces) && (sign == "" || sign == "+" || sign == "-")
    requires prefix == "" || prefix == "0x" || prefix == "0X"
    requires digits != "" && IsSize(digits) && (rest == "" || !IsHex(rest[0]))
    requires prefix == "" && digits == "0" && |rest| > 1 && (rest[0] == 'x' || rest[0] == 'X') ==> !IsHex(rest[1])
    ensures Strtol16(spaces + (sign + (prefix + digits + rest)))
            == if sign == "-" then if HexValue(digits) > 0x8000_0000_0000_0000 then -0x8000_0000_0000_0000
                                   else 0 - HexValue(digits)
               else if HexValue(digits) > 0x7FFF_FFFF_FFFF_FFFF then 0x7FFF_FFFF_FFFF_FFFF else HexValue(digits)
  {
    var number := prefix + digits + rest;
    var u := sign + number;
    assert number[0] == if prefix == "" then digits[0] else '0';
    assert IsHex(number[0]);
    assert sign == "" ==> u == number;
    assert sign != "" ==> u[0] == sign[0] && u[1..] == number;
    SpacesSkipped(spaces, u);
    PrefixSkipped(prefix, digits, rest);
  }

  /** A line on which no digit follows the spaces and the sign has the number 0. */
  lemma NoNumber(spaces: string, sign: string, rest: string)
    requires AllSpaces(spaces) && (sign == "" || sign == "+" || sign == "-")
    requires rest == "" || (!IsHex(rest[0]) && rest[0] != '+' && rest[0] != '-' && rest[0] != ' '
                            && !(9 <= rest[0] as int <= 13))
    ensures Strtol16(spaces + (sign + rest)) == 0
  {
    var u := sign + rest;
    assert sign == "" ==> u == rest;
    assert sign != "" ==> u[0] == sign[0] && u[1..] == rest;
    SpacesSkipped(spaces, u);
  }

  /** The number becomes the int that is equal to it modulo 2 to the 32. */
  lemma IntExactly(v: int) returns (k: int)
    ensures -0x8000_0000 <= ToInt32(v) < 0x8000_0000 && ToInt32(v) == v + k * 0x1_0000_0000
  {
    k := -(v / 0x1_0000_0000) - if v % 0x1_0000_0000 >= 0x8000_0000 then 1 else 0;
  }

  // ----- bodies

  /** What the decoder takes for a chunk: a line up to CR, one character, the bytes its number says, and two more. */
  datatype Piece = Piece(line: string, feed: char, data: string, end: string)

  predicate IsLine(line: string) {
    CR !in line && NUL !in line
  }

  predicate ValidPiece(len: Reader, p: Piece) {
    IsLine(p.line) && p.data != "" && len(p.line) == |p.data| && |p.end| == 2
  }

  predicate ValidPieces(len: Reader, ps: seq<Piece>) {
    forall i :: 0 <= i < |ps| ==> ValidPiece(len, ps[i])
  }

  function Bytes(p: Piece): string {
    p.line + [CR, p.feed] + p.data + p.end
  }

  function AllBytes(ps: seq<Piece>): string {
    if ps == [] then "" else Bytes(ps[0]) + AllBytes(ps[1..])
  }

  function Joined(ps: seq<Piece>): string {
    if ps == [] then "" else ps[0].data + Joined(ps[1..])
  }

  /** Decoding ends here: a NUL before any CR, or a line with the number 0. */
  ghost predicate Ends(len: Reader, rest: string) {
    exists e: nat :: e < |rest| && IsLine(rest[..e])
                     && (rest[e] == NUL || (rest[e] == CR && len(rest[..e]) == 0))
  }

  /** Here it leaves what was received: no NUL and no CR follow, or a size is negative or more than what follows. */
  ghost predicate Fails(len: Reader, rest: string) {
    || IsLine(rest)
    || exists e: nat :: e < |rest| && IsLine(rest[..e]) && rest[e] == CR
                        && (len(rest[..e]) < 0
                            || (len(rest[..e]) > 0 && |rest| < e + 2 + len(rest[..e]) + 2))
  }

  lemma InFront(rest: string, d: nat, e: nat)
    requires d < e <= |rest|
    ensures rest[d] in rest[..e]
  {
    assert rest[..e][d] == rest[d];
  }

  /** Only one of the two, and no chunk, can stand at one place. */
  lemma OneFirst(rest: string, d: nat, e: nat)
    requires d < |rest| && e < |rest| && IsLine(rest[..d]) && IsLine(rest[..e])
    requires rest[d] == CR || rest[d] == NUL
    requires rest[e] == CR || rest[e] == NUL
    ensures d == e
  {
    if d < e {
      InFront(rest, d, e);
    } else if e < d {
      InFront(rest, e, d);
    }
  }

  lemma EndsOrFails(len: Reader, rest: string)
    ensures !(Ends(len, rest) && Fails(len, rest))
  {
    if Ends(len, rest) && Fails(len, rest) {
      var d: nat :| d < |rest| && IsLine(rest[..d])
        && (rest[d] == NUL || (rest[d] == CR && len(rest[..d]) == 0));
      assert !IsLine(rest) by {
        assert rest[d] in rest;
      }
      var e: nat :| e < |rest| && IsLine(rest[..e]) && rest[e] == CR
        && (len(rest[..e]) < 0
            || (len(rest[..e]) > 0 && |rest| < e + 2 + len(rest[..e]) + 2));
      OneFirst(rest, d, e);
      assert false;
    }
  }

  lemma {:induction false} LineEndFound(s: string, i: nat, e: nat)
    requires i <= e < |s| && (s[e] == CR || s[e] == NUL) && forall j :: i <= j < e ==> s[j] != CR && s[j] != NUL
    ensures FindCr(s, i) == if s[e] == CR then At(e) else NoLineEnd
    decreases e - i
  {
    if i < e {
      LineEndFound(s, i + 1, e);
    }
  }

  lemma {:induction false} NoLineEndFound(s: string, i: nat)
    requires i <= |s| && forall j :: i <= j < |s| ==> s[j] != CR && s[j] != NUL
    ensures FindCr(s, i) == PastEnd
    decreases |s| - i
  {
    if i < |s| {
      NoLineEndFound(s, i + 1);
    }
  }

  /** The first CR or NUL behind the bytes read so far. */
  lemma FoundBehind(pre: string, rest: string, e: nat)
    requires e < |rest| && IsLine(rest[..e]) && (rest[e] == CR || rest[e] == NUL)
    ensures FindCr(pre + rest, |pre|) == if rest[e] == CR then At(|pre| + e) else NoLineEnd
    ensures (pre + rest)[|pre|..|pre| + e] == rest[..e] && (pre + rest)[|pre|] == rest[0]
  {
    var s := pre + rest;
    forall j | |pre| <= j < |pre| + e
      ensures s[j] != CR && s[j] != NUL
    {
      assert s[j] == rest[..e][j - |pre|];
    }
    LineEndFound(s, |pre|, |pre| + e);
  }

  lemma EndRead(len: Reader, pre: string, rest: string)
    requires Ends(len, rest)
    ensures ReadSizeLine(len, pre + rest, |pre|) == Stop
  {
    var e: nat :| e < |rest| && IsLine(rest[..e])
      && (rest[e] == NUL || (rest[e] == CR && len(rest[..e]) == 0));
    FoundBehind(pre, rest, e);
  }

  lemma FailureRead(len: Reader, pre: string, rest: string)
    requires Fails(len, rest)
    ensures ReadSizeLine(len, pre + rest, |pre|) == Undefined
  {
    var s := pre + rest;
    if IsLine(rest) {
      forall j | |pre| <= j < |s|
        ensures s[j] != CR && s[j] != NUL
      {
        assert s[j] == rest[j - |pre|];
      }
      NoLineEndFound(s, |pre|);
    } else {
      var e: nat :| e < |rest| && IsLine(rest[..e]) && rest[e] == CR
        && (len(rest[..e]) < 0
            || (len(rest[..e]) > 0 && |rest| < e + 2 + len(rest[..e]) + 2));
      FoundBehind(pre, rest, e);
      assert rest[0] != NUL by {
        if e > 0 {
          assert rest[..e][0] == rest[0];
        }
      }
    }
  }

  /** Where the line, the data and the end of a piece are. */
  lemma PieceParts(len: Reader, pre: string, p: Piece, rest: string, s: string, from: nat, k: nat)
    requires ValidPiece(len, p) && s == pre + (Bytes(p) + rest) && from == |pre| + |p.line| + 2 && k <= |p.data|
    ensures from + |p.data| + 2 == |pre + Bytes(p)| <= |s| && s[from..from + k] == p.data[..k]
    ensures s == pre + Bytes(p) + rest
  {
  }

  lemma PieceRead(len: Reader, pre: string, p: Piece, rest: string, s: string)
    requires len("") == 0 && ValidPiece(len, p) && s == pre + (Bytes(p) + rest)
    ensures ReadSizeLine(len, s, |pre|) == Data(|pre| + |p.line| + 2, |p.data|)
  {
    var after, e := Bytes(p) + rest, |p.line|;
    assert after[..e] == p.line && after[e] == CR && |after| >= e + 2 + |p.data| + 2;
    FoundBehind(pre, after, e);
    assert after[0] == p.line[0] && p.line[0] in p.line;
  }

  /** One piece is decoded: what fits of its data is copied. */
  lemma PieceDecoded(len: Reader, pre: string, p: Piece, rest: string, s: string, left: nat, done: string, k: nat)
    requires len("") == 0 && ValidPiece(len, p) && left > 0 && k == Min(|p.data|, left - 1)
    requires s == pre + (Bytes(p) + rest)
    ensures s == pre + Bytes(p) + rest
    ensures DecodeAt(len, s, |pre|, left, done)
            == DecodeAt(len, s, |pre + Bytes(p)|, left - k, done + p.data[..k])
  {
    PieceRead(len, pre, p, rest, s);
    PieceParts(len, pre, p, rest, s, |pre| + |p.line| + 2, k);
    DecodeStep(len, s, |pre|, left, done, |pre + Bytes(p)|, left - k, done + p.data[..k]);
  }

  lemma DecodeRest(len: Reader, pre: string, rest: string, left: nat, done: string)
    requires left > 0
    ensures Ends(len, rest) ==> DecodeAt(len, pre + rest, |pre|, left, done) == Some(done)
    ensures Fails(len, rest) ==> DecodeAt(len, pre + rest, |pre|, left, done) == None
  {
    if Ends(len, rest) {
      EndRead(len, pre, rest);
    }
    if Fails(len, rest) {
      FailureRead(len, pre, rest);
    }
  }

  lemma {:induction false} DecodeBehind(len: Reader, pre: string, ps: seq<Piece>, rest: string, s: string,
                                        left: nat, done: string)
    requires len("") == 0 && ValidPieces(len, ps) && left > 0 && s == pre + (AllBytes(ps) + rest)
    ensures Ends(len, rest) ==> DecodeAt(len, s, |pre|, left, done) == Some(done + Cut(Joined(ps), left - 1))
    ensures Fails(len, rest) ==> DecodeAt(len, s, |pre|, left, done) == None
    decreases |ps|
  {
    if ps == [] {
      assert s == pre + rest && done + "" == done;
      DecodeRest(len, pre, rest, left, done);
    } else {
      var p, more, k := ps[0], AllBytes(ps[1..]) + rest, Min(|ps[0].data|, left - 1);
      assert s == pre + (Bytes(p) + more);
      PieceDecoded(len, pre, p, more, s, left, done, k);
      DecodeBehind(len, pre + Bytes(p), ps[1..], rest, s, left - k, done + p.data[..k]);
      CutConcatenation(p.data, Joined(ps[1..]), left, k, done);
    }
  }

  /** The first line end, if there is one. */
  lemma {:induction false} FirstLineEnd(rest: string, i: nat) returns (e: nat)
    requires i <= |rest| && IsLine(rest[..i])
    ensures i <= e <= |rest| && IsLine(rest[..e]) && (e < |rest| ==> rest[e] == CR || rest[e] == NUL)
    decreases |rest| - i
  {
    e := i;
    if i < |rest| && rest[i] != CR && rest[i] != NUL {
      assert rest[..i + 1] == rest[..i] + [rest[i]];
      e := FirstLineEnd(rest, i + 1);
    }
  }

  /** A line with a number that fits what follows begins a piece. */
  lemma FirstPiece(len: Reader, s: string, e: nat, n: nat) returns (p: Piece, tail: string)
    requires e + 2 + n + 2 <= |s| && IsLine(s[..e]) && s[e] == CR && n == len(s[..e]) > 0
    ensures ValidPiece(len, p) && s == Bytes(p) + tail && |tail| < |s|
  {
    p := Piece(s[..e], s[e + 1], s[e + 2..e + 2 + n], s[e + 2 + n..e + 2 + n + 2]);
    tail := s[e + 2 + n + 2..];
    assert s == s[..e] + [s[e], s[e + 1]] + p.data + p.end + tail;
  }

  lemma PieceInFront(len: Reader, p: Piece, ps: seq<Piece>, rest: string)
    requires ValidPiece(len, p) && ValidPieces(len, ps)
    ensures ValidPieces(len, [p] + ps) && AllBytes([p] + ps) + rest == Bytes(p) + (AllBytes(ps) + rest)
  {
    assert ([p] + ps)[1..] == ps;
  }

  /** Every text is some pieces and a rest at which decoding ends or fails. */
  lemma {:induction false} EveryBody(len: Reader, s: string) returns (ps: seq<Piece>, rest: string)
    ensures ValidPieces(len, ps) && s == AllBytes(ps) + rest && (Ends(len, rest) || Fails(len, rest))
    decreases |s|
  {
    var e := FirstLineEnd(s, 0);
    ps, rest := [], s;
    assert AllBytes([]) + s == s;
    if e == |s| {
      assert s[..e] == s;
    } else if s[e] == CR {
      var n := len(s[..e]);
      if n > 0 && e + 2 + n + 2 <= |s| {
        var p, tail := FirstPiece(len, s, e, n);
        ps, rest := EveryBody(len, tail);
        PieceInFront(len, p, ps, rest);
        ps := [p] + ps;
      }
    }
  }

  /**
   So decoding is decided on all inputs: behind any header, any pieces are copied, as much of them as fits, up to the
   rest; it is undefined exactly if it fails there.
   */
  lemma DecodeExactly(header: string, ps: seq<Piece>, rest: string, left: nat)
    requires ValidPieces(ChunkLength, ps) && left > 0 && (Ends(ChunkLength, rest) || Fails(ChunkLength, rest))
    ensures Decode(header + (AllBytes(ps) + rest), |header|, left)
            == if Fails(ChunkLength, rest) then None else Some(Cut(Joined(ps), left - 1))
  {
    EndsOrFails(ChunkLength, rest);
    DecodeBehind(ChunkLength, header, ps, rest, header + (AllBytes(ps) + rest), left, "");
    assert "" + Cut(Joined(ps), left - 1) == Cut(Joined(ps), left - 1);
  }
}
